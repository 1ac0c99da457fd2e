/**
 * The greedy solver.  The pure half states what one pass computes (`BestRoom`, `Place`,
 * `Greedy`) and what is true of it; the imperative half (`AssignCourseToRoom`, `Solve`) is
 * the step-by-step algorithm, proved to compute exactly the pure result.
 */
module Solver {
  import opened TimeSlots
  import opened Courses
  import opened Rooms
  import opened Ordering
  import opened Assignments

  datatype Option<T> = None | Some(value: T)

  /** A room of this capacity and these bookings can take the course. */
  predicate Fits(course: Course, capacity: int, occupied: seq<TimeSlot>) {
    capacity >= course.enrollment && Disjoint(course.schedule, occupied)
  }

  /**
   * The best fit among the first n rooms: the fitting room of least capacity, ties going
   * to the earliest room.
   */
  function BestRoom(course: Course, caps: seq<int>, occ: seq<seq<TimeSlot>>, n: nat): (choice: Option<nat>)
    requires n <= |caps| && |occ| == |caps|
    ensures choice.None? <==> forall i :: 0 <= i < n ==> !Fits(course, caps[i], occ[i])
    ensures choice.Some? ==> choice.value < n && Fits(course, caps[choice.value], occ[choice.value])
    ensures choice.Some? ==> forall i :: 0 <= i < n && Fits(course, caps[i], occ[i]) ==> LexLe(caps, choice.value, i)
    decreases n
  {
    if n == 0 then None
    else
      var best := BestRoom(course, caps, occ, n - 1);
      if Fits(course, caps[n - 1], occ[n - 1]) && (best.None? || caps[n - 1] < caps[best.value]) then Some(n - 1)
      else best
  }

  /** `choice` is a best fit for the course among all rooms, or None when no room fits. */
  ghost predicate IsBestFit(course: Course, caps: seq<int>, occ: seq<seq<TimeSlot>>, choice: Option<nat>)
    requires |occ| == |caps|
  {
    && (choice.None? <==> forall i :: 0 <= i < |caps| ==> !Fits(course, caps[i], occ[i]))
    && (choice.Some? ==> choice.value < |caps| && Fits(course, caps[choice.value], occ[choice.value]))
    && (choice.Some? ==> forall i :: 0 <= i < |caps| && Fits(course, caps[i], occ[i]) ==> LexLe(caps, choice.value, i))
  }

  /** There is only one best fit. */
  lemma BestFitUnique(course: Course, caps: seq<int>, occ: seq<seq<TimeSlot>>, choice: Option<nat>)
    requires |occ| == |caps| && IsBestFit(course, caps, occ, choice)
    ensures choice == BestRoom(course, caps, occ, |caps|)
  {
    var best := BestRoom(course, caps, occ, |caps|);
    if choice.Some? {
      assert LexLe(caps, choice.value, best.value) && LexLe(caps, best.value, choice.value);
    }
  }

  /** The rooms of `eligible` are exactly those large enough for the course. */
  ghost predicate IsEligibleList(course: Course, caps: seq<int>, eligible: seq<nat>) {
    && (forall k :: 0 <= k < |eligible| ==> eligible[k] < |caps| && caps[eligible[k]] >= course.enrollment)
    && (forall x :: 0 <= x < |caps| && caps[x] >= course.enrollment ==> x in eligible)
  }

  /** In the capacity-sorted eligible list, the first room free at the course's times is a best fit. */
  lemma FirstFreeIsBestFit(course: Course, caps: seq<int>, occ: seq<seq<TimeSlot>>, eligible: seq<nat>, sorted: seq<nat>, k: nat)
    requires |occ| == |caps| && IsEligibleList(course, caps, eligible)
    requires SortedBy(caps, sorted) && multiset(sorted) == multiset(eligible)
    requires k < |sorted| && Disjoint(course.schedule, occ[sorted[k]])
    requires forall m :: 0 <= m < k ==> !Disjoint(course.schedule, occ[sorted[m]])
    ensures IsBestFit(course, caps, occ, Some(sorted[k]))
  {
    assert sorted[k] in multiset(eligible);
    forall i | 0 <= i < |caps| && Fits(course, caps[i], occ[i]) ensures LexLe(caps, sorted[k], i) {
      assert i in multiset(sorted);
      var m :| 0 <= m < |sorted| && sorted[m] == i;
      assert m == k || LexLe(caps, sorted[k], sorted[m]);
    }
  }

  /** When no room of the capacity-sorted eligible list is free, no room fits at all. */
  lemma NoneFreeIsBestFit(course: Course, caps: seq<int>, occ: seq<seq<TimeSlot>>, eligible: seq<nat>, sorted: seq<nat>)
    requires |occ| == |caps| && IsEligibleList(course, caps, eligible)
    requires SortedBy(caps, sorted) && multiset(sorted) == multiset(eligible)
    requires forall m :: 0 <= m < |sorted| ==> !Disjoint(course.schedule, occ[sorted[m]])
    ensures IsBestFit(course, caps, occ, None)
  {
    forall i | 0 <= i < |caps| && caps[i] >= course.enrollment ensures !Disjoint(course.schedule, occ[i]) {
      assert i in multiset(sorted);
    }
  }

  /**
   * assignCourseToRoom: collect the rooms large enough, sort them by capacity (stably, so
   * equal capacities stay in input order), and return the first one free at the course's times.
   */
  method AssignCourseToRoom(course: Course, rooms: seq<Room>) returns (choice: Option<nat>)
    ensures choice == BestRoom(course, Capacities(rooms), Occupancy(rooms), |rooms|)
  {
    var caps := Capacities(rooms);
    ghost var occ := Occupancy(rooms);
    var eligible := EligibleRooms(course, caps);
    var sorted := SortRoomsByCapacity(eligible, caps);

    for k := 0 to |sorted|
      invariant forall m :: 0 <= m < k ==> !Disjoint(course.schedule, occ[sorted[m]])
    {
      var available := rooms[sorted[k]].IsAvailable(course.schedule);
      if available {
        FirstFreeIsBestFit(course, caps, occ, eligible, sorted, k);
        BestFitUnique(course, caps, occ, Some(sorted[k]));
        return Some(sorted[k]);
      }
    }
    NoneFreeIsBestFit(course, caps, occ, eligible, sorted);
    BestFitUnique(course, caps, occ, None);
    return None;
  }

  /** The rooms whose capacity is at least the course's enrollment, in input order and each once. */
  method EligibleRooms(course: Course, caps: seq<int>) returns (eligible: seq<nat>)
    ensures IsEligibleList(course, caps, eligible)
    ensures Increasing(eligible)
  {
    eligible := [];
    for i := 0 to |caps|
      invariant forall k :: 0 <= k < |eligible| ==> eligible[k] < i && caps[eligible[k]] >= course.enrollment
      invariant forall x :: 0 <= x < i && caps[x] >= course.enrollment ==> x in eligible
      invariant Increasing(eligible)
    {
      if caps[i] >= course.enrollment {
        eligible := eligible + [i];
      }
    }
  }

  /**
   * A stable sort of room indices by ascending capacity: on an input in index order, rooms of
   * equal capacity keep the order they had in the input.
   */
  method SortRoomsByCapacity(eligible: seq<nat>, caps: seq<int>) returns (sorted: seq<nat>)
    requires forall k :: 0 <= k < |eligible| ==> eligible[k] < |caps|
    requires Increasing(eligible)
    ensures SortedBy(caps, sorted) && multiset(sorted) == multiset(eligible)
    ensures KeepsTies(caps, eligible, sorted)
  {
    var a := new nat[|eligible|](k requires 0 <= k < |eligible| => eligible[k]);
    assert a[..] == eligible;
    SortByKey(a, caps);
    sorted := a[..];
    SortedIncreasingIsStable(caps, eligible, sorted);
  }

  /** The outcome of a greedy pass: the mapping so far, every room's bookings, and whether all courses were placed. */
  datatype Outcome = Outcome(courseToRoom: map<nat, nat>, occupancy: seq<seq<TimeSlot>>, feasible: bool)

  function EmptyOccupancy(n: nat): (occ: seq<seq<TimeSlot>>)
    ensures |occ| == n && forall r :: 0 <= r < n ==> occ[r] == []
  {
    seq(n, r => [])
  }

  ghost predicate ValidOrder(order: seq<nat>, n: nat) {
    forall k :: 0 <= k < |order| ==> order[k] < n
  }

  /**
   * Places the courses of `order` one after another, each in its best-fit room, booking that
   * room; stops at the first course no room can take.
   */
  function Place(courses: seq<Course>, caps: seq<int>, order: seq<nat>, occ: seq<seq<TimeSlot>>, m: map<nat, nat>): (out: Outcome)
    requires |occ| == |caps| && ValidOrder(order, |courses|)
    ensures |out.occupancy| == |caps|
    decreases |order|
  {
    if order == [] then Outcome(m, occ, true)
    else
      var c := order[0];
      match BestRoom(courses[c], caps, occ, |caps|)
      case None => Outcome(m, occ, false)
      case Some(r) => Place(courses, caps, order[1..], occ[r := occ[r] + courses[c].schedule], m[c := r])
  }

  /** A whole pass from freshly reset rooms and an empty mapping. */
  function Greedy(courses: seq<Course>, caps: seq<int>, order: seq<nat>): Outcome
    requires ValidOrder(order, |courses|)
  {
    Place(courses, caps, order, EmptyOccupancy(|caps|), map[])
  }

  /** Ascending in this key is descending in enrollment. */
  function EnrollmentKey(courses: seq<Course>): (key: seq<int>)
    ensures |key| == |courses| && forall i :: 0 <= i < |courses| ==> key[i] == -courses[i].enrollment
  {
    seq(|courses|, i requires 0 <= i < |courses| => -courses[i].enrollment)
  }

  /** The order in which solve visits the courses: a stable sort by descending enrollment. */
  ghost predicate IsCourseOrder(courses: seq<Course>, order: seq<nat>) {
    IsPermutationOfIndices(order, |courses|) && SortedBy(EnrollmentKey(courses), order)
  }

  /** The processing order visits every course once, largest enrollment first, ties in input order. */
  lemma CourseOrderFacts(courses: seq<Course>, order: seq<nat>)
    requires IsCourseOrder(courses, order)
    ensures |order| == |courses| && Distinct(order) && ValidOrder(order, |courses|)
    ensures forall c :: 0 <= c < |courses| ==> c in order
    ensures forall p, q :: 0 <= p < q < |order| ==> courses[order[p]].enrollment >= courses[order[q]].enrollment
    ensures forall p, q :: 0 <= p < q < |order| && courses[order[p]].enrollment == courses[order[q]].enrollment ==> order[p] < order[q]
  {
    PermutationOfIndicesFacts(order, |courses|);
    var key := EnrollmentKey(courses);
    forall p, q | 0 <= p < q < |order| ensures courses[order[p]].enrollment >= courses[order[q]].enrollment {
      assert LexLe(key, order[p], order[q]);
    }
    forall p, q | 0 <= p < q < |order| && courses[order[p]].enrollment == courses[order[q]].enrollment
      ensures order[p] < order[q]
    {
      assert LexLe(key, order[p], order[q]);
    }
  }

  /** Only one order qualifies, so solve's result is determined by the courses and the capacities. */
  lemma CourseOrderUnique(courses: seq<Course>, order1: seq<nat>, order2: seq<nat>)
    requires IsCourseOrder(courses, order1) && IsCourseOrder(courses, order2)
    ensures order1 == order2
  {
    SortedUnique(EnrollmentKey(courses), order1, order2);
  }

  /**
   * The invariant of a pass: mapped courses and rooms exist, every mapped room is large enough,
   * every slot of a mapped course is booked in its room, and courses sharing a room do not conflict.
   */
  ghost predicate Consistent(courses: seq<Course>, caps: seq<int>, occ: seq<seq<TimeSlot>>, m: map<nat, nat>) {
    && |occ| == |caps|
    && (forall c :: c in m ==> c < |courses| && m[c] < |caps|)
    && (forall c :: c in m ==> caps[m[c]] >= courses[c].enrollment)
    && (forall c, k :: c in m && 0 <= k < |courses[c].schedule| ==> courses[c].schedule[k] in occ[m[c]])
    && (forall c1, c2 :: c1 in m && c2 in m && c1 != c2 && m[c1] == m[c2] ==> !courses[c1].ConflictsWith(courses[c2]))
  }

  /** A course free of a room's bookings conflicts with no course whose slots are all booked there. */
  lemma NoConflictWithHosted(course: Course, hosted: Course, occupied: seq<TimeSlot>)
    requires Disjoint(course.schedule, occupied)
    requires forall k :: 0 <= k < |hosted.schedule| ==> hosted.schedule[k] in occupied
    ensures !course.ConflictsWith(hosted) && !hosted.ConflictsWith(course)
  {
    ConflictSymmetric(course, hosted);
  }

  /** Placing one course in a room it fits keeps the invariant. */
  lemma PlaceStepConsistent(courses: seq<Course>, caps: seq<int>, occ: seq<seq<TimeSlot>>, m: map<nat, nat>, c: nat, r: nat)
    requires Consistent(courses, caps, occ, m)
    requires c < |courses| && r < |caps| && Fits(courses[c], caps[r], occ[r])
    ensures Consistent(courses, caps, occ[r := occ[r] + courses[c].schedule], m[c := r])
  {
    var occ' := occ[r := occ[r] + courses[c].schedule];
    var m' := m[c := r];
    forall d, k | d in m' && 0 <= k < |courses[d].schedule| ensures courses[d].schedule[k] in occ'[m'[d]] {
      if d == c {
        assert occ'[r] == occ[r] + courses[c].schedule;
        assert occ'[r][|occ[r]| + k] == courses[c].schedule[k];
      } else if m[d] == r {
        assert courses[d].schedule[k] in occ[r];
      }
    }
    forall c1, c2 | c1 in m' && c2 in m' && c1 != c2 && m'[c1] == m'[c2] ensures !courses[c1].ConflictsWith(courses[c2]) {
      if c1 == c {
        NoConflictWithHosted(courses[c], courses[c2], occ[r]);
      } else if c2 == c {
        NoConflictWithHosted(courses[c], courses[c1], occ[r]);
      }
    }
  }

  /** A pass keeps the invariant. */
  lemma {:induction false} PlaceConsistent(courses: seq<Course>, caps: seq<int>, order: seq<nat>, occ: seq<seq<TimeSlot>>, m: map<nat, nat>)
    requires Consistent(courses, caps, occ, m) && ValidOrder(order, |courses|)
    ensures var out := Place(courses, caps, order, occ, m);
      Consistent(courses, caps, out.occupancy, out.courseToRoom)
    decreases |order|
  {
    if order != [] {
      var c := order[0];
      var best := BestRoom(courses[c], caps, occ, |caps|);
      if best.Some? {
        var r := best.value;
        var occ', m' := occ[r := occ[r] + courses[c].schedule], m[c := r];
        PlaceStepConsistent(courses, caps, occ, m, c, r);
        PlaceConsistent(courses, caps, order[1..], occ', m');
        assert Place(courses, caps, order[1..], occ', m') == Place(courses, caps, order, occ, m);
      }
    }
  }

  /** A pass never removes a mapped course, adds only courses of `order`, and when it succeeds maps all of them. */
  lemma {:induction false} PlaceKeys(courses: seq<Course>, caps: seq<int>, order: seq<nat>, occ: seq<seq<TimeSlot>>, m: map<nat, nat>)
    requires |occ| == |caps| && ValidOrder(order, |courses|)
    ensures var out := Place(courses, caps, order, occ, m);
      && m.Keys <= out.courseToRoom.Keys
      && (forall c :: c in out.courseToRoom ==> c in m || c in order)
      && (out.feasible ==> forall c :: c in order ==> c in out.courseToRoom)
    decreases |order|
  {
    if order != [] {
      var c := order[0];
      var best := BestRoom(courses[c], caps, occ, |caps|);
      if best.Some? {
        var r := best.value;
        var occ', m' := occ[r := occ[r] + courses[c].schedule], m[c := r];
        PlaceKeys(courses, caps, order[1..], occ', m');
        var out := Place(courses, caps, order[1..], occ', m');
        assert out == Place(courses, caps, order, occ, m);
        assert order == [c] + order[1..];
        forall d | d in order && out.feasible ensures d in out.courseToRoom {
          assert d == c || d in order[1..];
        }
      }
    }
  }

  /**
   * Every course a pass maps gets a room large enough, and two courses never share a room
   * at overlapping times; a successful pass maps every input course.
   */
  lemma GreedySound(courses: seq<Course>, caps: seq<int>, order: seq<nat>)
    requires IsCourseOrder(courses, order)
    ensures ValidOrder(order, |courses|)
    ensures var out := Greedy(courses, caps, order);
      && (forall c :: c in out.courseToRoom ==> c < |courses| && out.courseToRoom[c] < |caps|)
      && (forall c :: c in out.courseToRoom ==> caps[out.courseToRoom[c]] >= courses[c].enrollment)
      && (forall c1, c2 :: (c1 in out.courseToRoom && c2 in out.courseToRoom && c1 != c2 &&
                            out.courseToRoom[c1] == out.courseToRoom[c2]) ==> !courses[c1].ConflictsWith(courses[c2]))
      && (out.feasible ==> forall c :: 0 <= c < |courses| ==> c in out.courseToRoom)
  {
    CourseOrderFacts(courses, order);
    var out := Greedy(courses, caps, order);
    PlaceConsistent(courses, caps, order, EmptyOccupancy(|caps|), map[]);
    PlaceKeys(courses, caps, order, EmptyOccupancy(|caps|), map[]);
    assert Consistent(courses, caps, out.occupancy, out.courseToRoom);
  }

  /** With distinct courses not yet mapped, a failed pass leaves one of them unmapped. */
  lemma {:induction false} PlaceFailureLeavesUnmapped(courses: seq<Course>, caps: seq<int>, order: seq<nat>, occ: seq<seq<TimeSlot>>, m: map<nat, nat>)
    requires |occ| == |caps| && ValidOrder(order, |courses|) && Distinct(order)
    requires forall k :: 0 <= k < |order| ==> order[k] !in m
    ensures !Place(courses, caps, order, occ, m).feasible ==>
              exists k :: 0 <= k < |order| && order[k] !in Place(courses, caps, order, occ, m).courseToRoom
    decreases |order|
  {
    if order != [] {
      var c := order[0];
      var best := BestRoom(courses[c], caps, occ, |caps|);
      if best.Some? {
        var r := best.value;
        var tail := order[1..];
        assert forall k :: 0 <= k < |tail| ==> tail[k] == order[k + 1];
        PlaceFailureLeavesUnmapped(courses, caps, tail, occ[r := occ[r] + courses[c].schedule], m[c := r]);
        if !Place(courses, caps, order, occ, m).feasible {
          var k :| 0 <= k < |tail| && tail[k] !in Place(courses, caps, tail, occ[r := occ[r] + courses[c].schedule], m[c := r]).courseToRoom;
          assert order[k + 1] == tail[k];
        }
      } else {
        assert order[0] !in m;
      }
    }
  }

  /** solve reports success exactly when every input course received a room. */
  lemma GreedyFeasibleIffAllPlaced(courses: seq<Course>, caps: seq<int>, order: seq<nat>)
    requires IsCourseOrder(courses, order)
    ensures ValidOrder(order, |courses|)
    ensures Greedy(courses, caps, order).feasible <==> forall c :: 0 <= c < |courses| ==> c in Greedy(courses, caps, order).courseToRoom
  {
    CourseOrderFacts(courses, order);
    GreedySound(courses, caps, order);
    PlaceFailureLeavesUnmapped(courses, caps, order, EmptyOccupancy(|caps|), map[]);
  }

  /**
   * The pass stops at position k: the courses before k were all placed, the course at k fits
   * no room given their bookings, and the result is exactly the state reached before k.
   */
  ghost predicate StuckAt(courses: seq<Course>, caps: seq<int>, order: seq<nat>, occ: seq<seq<TimeSlot>>, m: map<nat, nat>, k: nat)
    requires |occ| == |caps| && ValidOrder(order, |courses|) && k < |order|
  {
    var before := Place(courses, caps, order[..k], occ, m);
    && before.feasible
    && BestRoom(courses[order[k]], caps, before.occupancy, |caps|).None?
    && Place(courses, caps, order, occ, m) == Outcome(before.courseToRoom, before.occupancy, false)
  }

  /** Fail-fast: a pass fails exactly when it gets stuck at some course, and then nothing after it is processed. */
  lemma {:induction false} PlaceFailFast(courses: seq<Course>, caps: seq<int>, order: seq<nat>, occ: seq<seq<TimeSlot>>, m: map<nat, nat>)
    requires |occ| == |caps| && ValidOrder(order, |courses|)
    ensures !Place(courses, caps, order, occ, m).feasible <==> exists k :: 0 <= k < |order| && StuckAt(courses, caps, order, occ, m, k)
    decreases |order|
  {
    if order != [] && !Place(courses, caps, order, occ, m).feasible {
      var c := order[0];
      var best := BestRoom(courses[c], caps, occ, |caps|);
      if best.None? {
        assert order[..0] == [];
        assert StuckAt(courses, caps, order, occ, m, 0);
      } else {
        var r := best.value;
        var tail := order[1..];
        var occ' := occ[r := occ[r] + courses[c].schedule];
        PlaceFailFast(courses, caps, tail, occ', m[c := r]);
        var k :| 0 <= k < |tail| && StuckAt(courses, caps, tail, occ', m[c := r], k);
        assert order[..k + 1][0] == c && order[..k + 1][1..] == tail[..k];
        assert Place(courses, caps, order[..k + 1], occ, m) == Place(courses, caps, tail[..k], occ', m[c := r]);
        assert order[k + 1] == tail[k];
        assert StuckAt(courses, caps, order, occ, m, k + 1);
      }
    }
  }

  /** On success the room count lies between 1 (when there are courses) and both the room and course counts. */
  lemma GreedyRoomCount(courses: seq<Course>, caps: seq<int>, order: seq<nat>)
    requires IsCourseOrder(courses, order)
    ensures ValidOrder(order, |courses|)
    ensures var out := Greedy(courses, caps, order);
      out.feasible ==> && DistinctRooms(out.courseToRoom) <= |caps|
                       && DistinctRooms(out.courseToRoom) <= |courses|
                       && (|courses| > 0 ==> DistinctRooms(out.courseToRoom) >= 1)
  {
    GreedySound(courses, caps, order);
    var out := Greedy(courses, caps, order);
    if out.feasible {
      RoomsAtMostAvailable(out.courseToRoom, |caps|);
      RoomsAtMostCourses(out.courseToRoom);
      IndexSetSize(|courses|);
      SubsetSize(out.courseToRoom.Keys, IndexSet(|courses|));
      if |courses| > 0 {
        assert 0 in out.courseToRoom;
        SomeRoomUsed(out.courseToRoom);
      }
    }
  }

  /** BestRoom over the first n rooms looks only at those rooms. */
  lemma {:induction false} BestRoomPrefix(course: Course, caps: seq<int>, occ: seq<seq<TimeSlot>>,
                                          caps': seq<int>, occ': seq<seq<TimeSlot>>, n: nat)
    requires |occ| == |caps| && |occ'| == |caps'| && n <= |caps| && n <= |caps'|
    requires forall i :: 0 <= i < n ==> caps'[i] == caps[i] && occ'[i] == occ[i]
    ensures BestRoom(course, caps', occ', n) == BestRoom(course, caps, occ, n)
    decreases n
  {
    if n > 0 {
      BestRoomPrefix(course, caps, occ, caps', occ', n - 1);
    }
  }

  /** An empty room at least as large as every other room is never preferred to a room that already fits. */
  lemma BestRoomWithLargerRoom(course: Course, caps: seq<int>, occ: seq<seq<TimeSlot>>, big: int)
    requires |occ| == |caps| && forall i :: 0 <= i < |caps| ==> caps[i] <= big
    ensures BestRoom(course, caps, occ, |caps|).Some? ==>
              BestRoom(course, caps + [big], occ + [[]], |caps| + 1) == BestRoom(course, caps, occ, |caps|)
  {
    BestRoomPrefix(course, caps, occ, caps + [big], occ + [[]], |caps|);
  }

  /** Booking a room before the appended empty room commutes with appending it. */
  lemma BookBeforeAppended(occ: seq<seq<TimeSlot>>, r: nat, schedule: seq<TimeSlot>)
    requires r < |occ|
    ensures (occ + [[]])[r := (occ + [[]])[r] + schedule] == occ[r := occ[r] + schedule] + [[]]
  {
  }

  /** A pass that succeeds also succeeds, with the same mapping, once such a room is appended. */
  lemma {:induction false} PlaceWithLargerRoom(courses: seq<Course>, caps: seq<int>, order: seq<nat>,
                                               occ: seq<seq<TimeSlot>>, m: map<nat, nat>, big: int)
    requires |occ| == |caps| && ValidOrder(order, |courses|)
    requires forall i :: 0 <= i < |caps| ==> caps[i] <= big
    ensures var out := Place(courses, caps, order, occ, m);
      out.feasible ==> Place(courses, caps + [big], order, occ + [[]], m) == Outcome(out.courseToRoom, out.occupancy + [[]], true)
    decreases |order|
  {
    if order != [] {
      var c := order[0];
      var best := BestRoom(courses[c], caps, occ, |caps|);
      if best.Some? {
        var r := best.value;
        BestRoomWithLargerRoom(courses[c], caps, occ, big);
        assert order[0..] == order;
        PlaceStep(courses, caps, order, occ, m, 0, best);
        PlaceStep(courses, caps + [big], order, occ + [[]], m, 0, best);
        BookBeforeAppended(occ, r, courses[c].schedule);
        PlaceWithLargerRoom(courses, caps, order[1..], occ[r := occ[r] + courses[c].schedule], m[c := r], big);
      }
    }
  }

  /**
   * Adding a room never turns a successful solve into a failed one, provided the new room comes
   * last and is at least as large as every existing room: every course keeps its room.
   */
  lemma GreedyWithLargerRoom(courses: seq<Course>, caps: seq<int>, order: seq<nat>, big: int)
    requires ValidOrder(order, |courses|)
    requires forall i :: 0 <= i < |caps| ==> caps[i] <= big
    ensures Greedy(courses, caps, order).feasible ==>
              Greedy(courses, caps + [big], order).feasible &&
              Greedy(courses, caps + [big], order).courseToRoom == Greedy(courses, caps, order).courseToRoom
  {
    assert EmptyOccupancy(|caps| + 1) == EmptyOccupancy(|caps|) + [[]];
    PlaceWithLargerRoom(courses, caps, order, EmptyOccupancy(|caps|), map[], big);
  }

  /** With no courses the pass succeeds with an empty mapping and no room used. */
  lemma NoCoursesFeasible(caps: seq<int>, order: seq<nat>)
    requires IsCourseOrder([], order)
    ensures ValidOrder(order, 0)
    ensures Greedy([], caps, order).feasible && Greedy([], caps, order).courseToRoom == map[]
    ensures DistinctRooms(Greedy([], caps, order).courseToRoom) == 0
  {
    CourseOrderFacts([], order);
  }

  /** One step of a pass at position k of the order, given the best fit for the course there. */
  lemma PlaceStep(courses: seq<Course>, caps: seq<int>, order: seq<nat>, occ: seq<seq<TimeSlot>>, m: map<nat, nat>, k: nat, choice: Option<nat>)
    requires |occ| == |caps| && ValidOrder(order, |courses|) && k < |order|
    requires choice == BestRoom(courses[order[k]], caps, occ, |caps|)
    ensures ValidOrder(order[k..], |courses|) && ValidOrder(order[k + 1..], |courses|)
    ensures choice.None? ==> Place(courses, caps, order[k..], occ, m) == Outcome(m, occ, false)
    ensures choice.Some? ==> (choice.value < |caps| &&
      Place(courses, caps, order[k..], occ, m) ==
      Place(courses, caps, order[k + 1..], occ[choice.value := occ[choice.value] + courses[order[k]].schedule], m[order[k] := choice.value]))
  {
    assert order[k..][0] == order[k] && order[k..][1..] == order[k + 1..];
  }

  /** A copy of the course list (as positions), sorted in place by descending enrollment, stably. */
  method SortCoursesByEnrollment(courses: seq<Course>) returns (order: seq<nat>)
    ensures IsCourseOrder(courses, order)
  {
    var sorted := new nat[|courses|](i requires 0 <= i < |courses| => i);
    assert sorted[..] == Iota(|courses|);
    SortByKey(sorted, EnrollmentKey(courses));
    order := sorted[..];
  }

  lemma CourseOrderValid(courses: seq<Course>, order: seq<nat>)
    requires IsCourseOrder(courses, order)
    ensures ValidOrder(order, |courses|)
  {
  }

  /** One iteration of solve's loop: find the course's room and, if there is one, record it and book it. */
  method PlaceCourse(c: nat, course: Course, rooms: seq<Room>, assignment: Assignment) returns (room: Option<nat>)
    requires forall i, j :: 0 <= i < j < |rooms| ==> rooms[i] != rooms[j]
    modifies rooms, assignment
    ensures room == BestRoom(course, Capacities(rooms), old(Occupancy(rooms)), |rooms|)
    ensures room.None? ==> Occupancy(rooms) == old(Occupancy(rooms)) && assignment.courseToRoom == old(assignment.courseToRoom)
    ensures room.Some? ==> (room.value < |rooms| &&
      Occupancy(rooms) == old(Occupancy(rooms))[room.value := old(Occupancy(rooms))[room.value] + course.schedule] &&
      assignment.courseToRoom == old(assignment.courseToRoom)[c := room.value])
    ensures assignment.feasible == old(assignment.feasible) && assignment.totalRoomsUsed == old(assignment.totalRoomsUsed)
  {
    room := AssignCourseToRoom(course, rooms);
    if room.Some? {
      var r := room.value;
      ghost var booked := Occupancy(rooms)[r := rooms[r].occupiedSlots + course.schedule];
      assignment.Assign(c, r);
      rooms[r].Occupy(course.schedule);
      forall j | 0 <= j < |rooms| ensures rooms[j].occupiedSlots == booked[j] {
        if j != r {
          assert rooms[j] != rooms[r];
        }
      }
    }
  }

  /** The reset loop at the start of solve: afterwards no room holds any booking. */
  method ResetRooms(rooms: seq<Room>)
    modifies rooms
    ensures Occupancy(rooms) == EmptyOccupancy(|rooms|)
  {
    for i := 0 to |rooms|
      invariant forall k :: 0 <= k < i ==> rooms[k].occupiedSlots == []
    {
      rooms[i].Reset();
    }
  }

  /**
   * Step 2 of solve, on freshly reset rooms and a new assignment: place the courses in the
   * given order, stopping at the first one without a room; on success count the rooms used.
   */
  method GreedyPass(courses: seq<Course>, rooms: seq<Room>, order: seq<nat>, assignment: Assignment)
    requires forall i, j :: 0 <= i < j < |rooms| ==> rooms[i] != rooms[j]
    requires ValidOrder(order, |courses|)
    requires Occupancy(rooms) == EmptyOccupancy(|rooms|)
    requires assignment.courseToRoom == map[] && assignment.feasible && assignment.totalRoomsUsed == 0
    modifies rooms, assignment
    ensures var out := Greedy(courses, Capacities(rooms), order);
      && assignment.courseToRoom == out.courseToRoom
      && assignment.feasible == out.feasible
      && Occupancy(rooms) == out.occupancy
      && assignment.totalRoomsUsed == (if out.feasible then DistinctRooms(out.courseToRoom) else 0)
  {
    var caps := Capacities(rooms);
    ghost var goal := Greedy(courses, caps, order);
    ghost var occ := EmptyOccupancy(|rooms|);
    ghost var m: map<nat, nat> := map[];
    for k := 0 to |order|
      invariant Occupancy(rooms) == occ && |occ| == |caps|
      invariant assignment.courseToRoom == m && assignment.feasible && assignment.totalRoomsUsed == 0
      invariant Place(courses, caps, order[k..], occ, m) == goal
    {
      var c := order[k];
      var room := PlaceCourse(c, courses[c], rooms, assignment);
      PlaceStep(courses, caps, order, occ, m, k, room);
      if room.None? {
        assignment.SetFeasible(false);
        return;
      }
      occ, m := occ[room.value := occ[room.value] + courses[c].schedule], m[c := room.value];
    }
    assignment.ComputeTotalRooms();
  }

  /**
   * solve: reset every room, sort a copy of the course list by descending enrollment (stably),
   * then give each course its best-fit room and book it, stopping at the first course that fits none.
   */
  method Solve(courses: seq<Course>, rooms: seq<Room>) returns (assignment: Assignment, ghost order: seq<nat>)
    requires forall i, j :: 0 <= i < j < |rooms| ==> rooms[i] != rooms[j]
    modifies rooms
    ensures fresh(assignment)
    ensures IsCourseOrder(courses, order)
    ensures var out := Greedy(courses, Capacities(rooms), order);
      && assignment.courseToRoom == out.courseToRoom
      && assignment.feasible == out.feasible
      && Occupancy(rooms) == out.occupancy
      && assignment.totalRoomsUsed == (if out.feasible then DistinctRooms(out.courseToRoom) else 0)
  {
    assignment := new Assignment();

    ResetRooms(rooms);

    var sortedCourses := SortCoursesByEnrollment(courses);
    order := sortedCourses;
    CourseOrderValid(courses, order);

    GreedyPass(courses, rooms, sortedCourses, assignment);
  }
}
