/** The solver's result: which room each course got, whether every course was placed, and the room count. */
module Assignments {

  /** Courses and rooms are named by their positions in the solver's input lists. */
  class Assignment {
    var courseToRoom: map<nat, nat>
    var totalRoomsUsed: int
    var feasible: bool

    /** An empty mapping, optimistically feasible; the room count keeps its default of 0. */
    constructor ()
      ensures courseToRoom == map[] && feasible && totalRoomsUsed == 0
    {
      courseToRoom := map[];
      feasible := true;
      totalRoomsUsed := 0;
    }

    /** Records (or overwrites) the room of one course. */
    method Assign(course: nat, room: nat)
      modifies this
      ensures courseToRoom == old(courseToRoom)[course := room]
      ensures feasible == old(feasible) && totalRoomsUsed == old(totalRoomsUsed)
    {
      courseToRoom := courseToRoom[course := room];
    }

    method SetFeasible(feasible: bool)
      modifies this
      ensures this.feasible == feasible
      ensures courseToRoom == old(courseToRoom) && totalRoomsUsed == old(totalRoomsUsed)
    {
      this.feasible := feasible;
    }

    /** Counts the distinct rooms among the mapping's values. */
    method ComputeTotalRooms()
      modifies this
      ensures totalRoomsUsed == DistinctRooms(courseToRoom)
      ensures courseToRoom == old(courseToRoom) && feasible == old(feasible)
    {
      totalRoomsUsed := DistinctRooms(courseToRoom);
    }
  }

  /** The number of distinct rooms a mapping uses. */
  function DistinctRooms(m: map<nat, nat>): nat {
    |m.Values|
  }

  /** The indices 0..n-1 as a set. */
  function IndexSet(n: nat): (s: set<nat>)
    ensures forall x: nat :: x in s <==> x < n
  {
    if n == 0 then {} else IndexSet(n - 1) + {n - 1}
  }

  lemma {:induction false} IndexSetSize(n: nat)
    ensures |IndexSet(n)| == n
  {
    if n > 0 {
      IndexSetSize(n - 1);
      var prev := IndexSet(n - 1);
      assert n - 1 !in prev;
      assert IndexSet(n) == prev + {n - 1};
      assert |prev + {n - 1}| == |prev| + 1;
    }
  }

  lemma SubsetSize<T>(a: set<T>, b: set<T>)
    requires a <= b
    ensures |a| <= |b|
  {
    assert b == a + (b - a);
  }

  /** A mapping never uses more rooms than it has courses. */
  lemma {:induction false} RoomsAtMostCourses(m: map<nat, nat>)
    ensures DistinctRooms(m) <= |m|
    decreases |m|
  {
    if |m| > 0 {
      var c :| c in m;
      var rest := m - {c};
      assert |rest| == |m| - 1 by {
        assert rest.Keys == m.Keys - {c};
      }
      RoomsAtMostCourses(rest);
      assert m.Values <= rest.Values + {m[c]} by {
        forall v | v in m.Values ensures v in rest.Values + {m[c]} {
          var d :| d in m && m[d] == v;
          if d != c { assert rest[d] == v; }
        }
      }
      SubsetSize(m.Values, rest.Values + {m[c]});
    }
  }

  /** A mapping into rooms 0..n-1 uses at most n rooms. */
  lemma RoomsAtMostAvailable(m: map<nat, nat>, n: nat)
    requires forall c :: c in m ==> m[c] < n
    ensures DistinctRooms(m) <= n
  {
    IndexSetSize(n);
    SubsetSize(m.Values, IndexSet(n));
  }

  /** A non-empty mapping uses at least one room. */
  lemma SomeRoomUsed(m: map<nat, nat>)
    requires |m| > 0
    ensures DistinctRooms(m) >= 1
  {
    var c :| c in m;
    assert m[c] in m.Values;
  }
}
