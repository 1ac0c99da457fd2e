/** Weekly meeting intervals and the overlap rule between them. */
module TimeSlots {

  /** One weekly meeting: a day name ("MON" … "FRI") and start/end minutes from midnight. */
  datatype TimeSlot = TimeSlot(day: string, startTime: int, endTime: int) {

    /** Same day, and the half-open intervals [startTime, endTime) intersect. */
    predicate OverlapsWith(other: TimeSlot) {
      if day != other.day then false
      else startTime < other.endTime && other.startTime < endTime
    }
  }

  /** No slot of `requested` overlaps any slot of `occupied`. */
  predicate Disjoint(requested: seq<TimeSlot>, occupied: seq<TimeSlot>) {
    forall i, j :: 0 <= i < |requested| && 0 <= j < |occupied| ==> !requested[i].OverlapsWith(occupied[j])
  }

  lemma DifferentDaysNeverOverlap(a: TimeSlot, b: TimeSlot)
    requires a.day != b.day
    ensures !a.OverlapsWith(b) && !b.OverlapsWith(a)
  {
  }

  lemma OverlapOnSameDay(a: TimeSlot, b: TimeSlot)
    requires a.day == b.day
    ensures a.OverlapsWith(b) <==> a.startTime < b.endTime && b.startTime < a.endTime
  {
  }

  lemma OverlapSymmetric(a: TimeSlot, b: TimeSlot)
    ensures a.OverlapsWith(b) <==> b.OverlapsWith(a)
  {
  }

  /** Back-to-back meetings (one ends when the other starts) do not overlap. */
  lemma TouchingSlotsDoNotOverlap(a: TimeSlot, b: TimeSlot)
    requires a.endTime == b.startTime
    ensures !a.OverlapsWith(b) && !b.OverlapsWith(a)
  {
  }

  /** Nothing overlaps an empty list of bookings, in either position. */
  lemma DisjointFromEmpty(requested: seq<TimeSlot>)
    ensures Disjoint(requested, []) && Disjoint([], requested)
  {
  }

  /** Disjointness does not depend on which list is the request. */
  lemma DisjointSymmetric(xs: seq<TimeSlot>, ys: seq<TimeSlot>)
    ensures Disjoint(xs, ys) <==> Disjoint(ys, xs)
  {
    if Disjoint(xs, ys) {
      forall i, j | 0 <= i < |ys| && 0 <= j < |xs| ensures !ys[i].OverlapsWith(xs[j]) {
        OverlapSymmetric(ys[i], xs[j]);
      }
    }
    if Disjoint(ys, xs) {
      forall i, j | 0 <= i < |xs| && 0 <= j < |ys| ensures !xs[i].OverlapsWith(ys[j]) {
        OverlapSymmetric(xs[i], ys[j]);
      }
    }
  }

  /** Adding bookings can only make a request clash: disjointness from a concatenation splits. */
  lemma DisjointAppend(requested: seq<TimeSlot>, occupied: seq<TimeSlot>, more: seq<TimeSlot>)
    ensures Disjoint(requested, occupied + more) <==> Disjoint(requested, occupied) && Disjoint(requested, more)
  {
    var all := occupied + more;
    if Disjoint(requested, occupied) && Disjoint(requested, more) {
      forall i, j | 0 <= i < |requested| && 0 <= j < |all| ensures !requested[i].OverlapsWith(all[j]) {
        if j < |occupied| { assert all[j] == occupied[j]; } else { assert all[j] == more[j - |occupied|]; }
      }
    }
    if Disjoint(requested, all) {
      forall i, j | 0 <= i < |requested| && 0 <= j < |occupied| ensures !requested[i].OverlapsWith(occupied[j]) {
        assert all[j] == occupied[j];
      }
      forall i, j | 0 <= i < |requested| && 0 <= j < |more| ensures !requested[i].OverlapsWith(more[j]) {
        assert all[|occupied| + j] == more[j];
      }
    }
  }
}
