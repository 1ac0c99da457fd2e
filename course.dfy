/** Courses and the conflict test between two of them. */
module Courses {
  import opened TimeSlots

  datatype Course = Course(id: int, name: string, enrollment: int, schedule: seq<TimeSlot>) {

    /** Some meeting of this course overlaps some meeting of `other`. */
    predicate ConflictsWith(other: Course) {
      exists i, j :: 0 <= i < |schedule| && 0 <= j < |other.schedule| && schedule[i].OverlapsWith(other.schedule[j])
    }
  }

  /** The nested scan over both schedules, stopping at the first overlapping pair. */
  method HasConflict(course: Course, other: Course) returns (conflict: bool)
    ensures conflict == course.ConflictsWith(other)
  {
    for i := 0 to |course.schedule|
      invariant forall p, q :: 0 <= p < i && 0 <= q < |other.schedule| ==> !course.schedule[p].OverlapsWith(other.schedule[q])
    {
      for j := 0 to |other.schedule|
        invariant forall q :: 0 <= q < j ==> !course.schedule[i].OverlapsWith(other.schedule[q])
      {
        if course.schedule[i].OverlapsWith(other.schedule[j]) {
          return true;
        }
      }
    }
    return false;
  }

  /** Two courses conflict exactly when their schedules are not disjoint. */
  lemma ConflictIffNotDisjoint(a: Course, b: Course)
    ensures a.ConflictsWith(b) <==> !Disjoint(a.schedule, b.schedule)
  {
  }

  /** Conflict does not depend on which course asks. */
  lemma ConflictSymmetric(a: Course, b: Course)
    ensures a.ConflictsWith(b) <==> b.ConflictsWith(a)
  {
    ConflictIffNotDisjoint(a, b);
    ConflictIffNotDisjoint(b, a);
    DisjointSymmetric(a.schedule, b.schedule);
  }
}
