# Greedy classroom assignment, modelled and verified in Dafny

This project models the greedy solver of `RoomAssignmentProblem.java`, which assigns university courses to classrooms.

- **Courses:** each course has an enrollment and a weekly schedule of time slots.
- **Rooms:** each room has a capacity and a list of slots already booked during the current pass.
- **`solve`:**
  1. Clears every room.
  2. Orders a copy of the course list by descending enrollment (a stable sort).
  3. Gives each course in turn the smallest eligible room that is free at all of the course's slots (best fit).
  4. Stops with an infeasible result at the first course no room can take.
- **Result:** on success it counts the distinct rooms used.

Modules, one per concept of the source:

| file | module | models |
|---|---|---|
| `timeslot.dfy` | `TimeSlots` | `TimeSlot` (a datatype) and its overlap rule |
| `course.dfy` | `Courses` | `Course` (a datatype) and the conflict test `hasConflict` |
| `room.dfy` | `Rooms` | `Room`, a class whose `occupiedSlots` field is updated in place by `occupy` and `reset` |
| `ordering.dfy` | `Ordering` | the stable sorts, as an in-place sort of an index array |
| `assignment.dfy` | `Assignments` | `Assignment`, a class holding the course-to-room map, the feasibility flag and the room count |
| `solver.dfy` | `Solver` | `assignCourseToRoom` and `solve`, both imperative, plus the pure reference definitions they are proved against |
| `demo.dfy` | `Demo` | the four-course, three-room example of the entry point, and two small scenarios |

How the model is built:

- **Identity by position.** The Java code keys its `HashMap` and `HashSet` by object identity. The model identifies a course or room by its position in the input list, so the assignment is a `map<nat, nat>` from course index to room index.
- **Reference definitions.** Two pure functions state what one pass computes:
  - `Solver.BestRoom` is the fitting room of least capacity, with ties going to the earliest room.
  - `Solver.Place` and `Solver.Greedy` describe the whole pass over a processing order.

  The methods `Solver.AssignCourseToRoom` and `Solver.Solve` follow the source step by step: loops, an in-place sort, early returns. Their postconditions say they compute exactly what the reference definitions compute. The properties the program promises are then proved as lemmas about those definitions.
- **Stable sorts.** Both sorted lists start in index order: the course positions 0..n-1, and the eligible rooms, which the filter keeps in input order with each room once. On such a list a stable sort puts element x before y exactly when key(x) < key(y), or the keys are equal and x came first. `Ordering.SortedBy` states this (key, index) order, and `Ordering.SortedIncreasingIsStable` proves that it keeps tied elements in their input order. `Ordering.SortedUnique` shows that only one permutation is sorted in it, so the model's insertion sort yields the same order as Java's merge sort. The course key is the negated enrollment (descending order). The room key is the capacity (ascending order).
- **Code over comments.** Where the source's comments and the code differ, the model follows the code:
  - A day is any string compared by equality. The comment on the `day` field lists only MON to FRI, but nothing checks it.
  - A room's bookings are a list that `occupy` appends to, with duplicates kept.

## Model

| member | source | states |
|---|---|---|
| TimeSlots.TimeSlot.OverlapsWith | RoomAssignmentProblem.java:56-62 | the overlap rule: false on different days, otherwise each slot starts before the other ends |
| TimeSlots.Disjoint | RoomAssignmentProblem.java:89-98 | the availability rule: no requested slot overlaps any booked slot |
| TimeSlots.DifferentDaysNeverOverlap | RoomAssignmentProblem.java:56-59 | slots on different days never overlap, in either order |
| TimeSlots.OverlapOnSameDay | RoomAssignmentProblem.java:56-62 | on the same day, two slots overlap exactly when each starts before the other ends |
| TimeSlots.OverlapSymmetric | RoomAssignmentProblem.java:56-62 | overlap is symmetric |
| TimeSlots.TouchingSlotsDoNotOverlap | RoomAssignmentProblem.java:61 | a slot ending when another starts does not overlap it (half-open intervals) |
| TimeSlots.DisjointFromEmpty | RoomAssignmentProblem.java:89-98 | no request clashes with an empty booking list |
| TimeSlots.DisjointSymmetric | RoomAssignmentProblem.java:89-98 | whether two slot lists clash does not depend on which one is the request |
| TimeSlots.DisjointAppend | RoomAssignmentProblem.java:89-102 | a request is free of old bookings plus new ones exactly when it is free of each part |
| Courses.Course.ConflictsWith | RoomAssignmentProblem.java:23-32 | the conflict rule: some slot of one course overlaps some slot of the other |
| Courses.HasConflict | RoomAssignmentProblem.java:23-32 | the nested scan with early return answers exactly `ConflictsWith` |
| Courses.ConflictIffNotDisjoint | RoomAssignmentProblem.java:23-32 | two courses conflict exactly when their schedules are not disjoint |
| Courses.ConflictSymmetric | RoomAssignmentProblem.java:23-32 | conflict is symmetric |
| Rooms.Room.constructor | RoomAssignmentProblem.java:78-83 | a new room keeps id, name and capacity and has no bookings |
| Rooms.Room.IsAvailable | RoomAssignmentProblem.java:89-98 | the nested scan answers true exactly when no requested slot overlaps a booked slot |
| Rooms.Room.Occupy | RoomAssignmentProblem.java:100-102 | the bookings become the old bookings followed by the new slots; id and capacity are immutable |
| Rooms.Room.Reset | RoomAssignmentProblem.java:104-106 | the bookings become empty, after which every request is available |
| Rooms.OccupiedBlocksOverlap | RoomAssignmentProblem.java:89-102 | after a booking, a room is unavailable to any request that overlaps the booked slots |
| Ordering.SortByKey | RoomAssignmentProblem.java:197 | the in-place sort leaves the index array sorted (stable order) and a permutation of its input |
| Ordering.InsertLeft | RoomAssignmentProblem.java:197 | one pass of the sort extends the sorted prefix by one element and keeps the array a permutation of its input |
| Ordering.SortedIncreasingIsStable | RoomAssignmentProblem.java:196-197 | sorting a list in index order by (key, index) keeps elements of equal key in their input order, which is what a stable sort does |
| Ordering.SortedUnique | RoomAssignmentProblem.java:168 | two lists holding the same indices and both in stable order are equal, so the sorted order is determined by the input |
| Ordering.PermutationOfIndicesFacts | RoomAssignmentProblem.java:167-168 | a permutation of the positions 0..n-1 has length n, has no repeats and contains every position |
| Assignments.Assignment.constructor | RoomAssignmentProblem.java:120-123 | a new assignment is empty, feasible and has room count 0 |
| Assignments.Assignment.Assign | RoomAssignmentProblem.java:125-127 | records the course's room, overwriting any earlier entry, and changes nothing else |
| Assignments.Assignment.SetFeasible | RoomAssignmentProblem.java:133-135 | sets the flag and changes nothing else |
| Assignments.Assignment.ComputeTotalRooms | RoomAssignmentProblem.java:141-144 | the room count becomes the number of distinct rooms in the mapping |
| Assignments.DistinctRooms | RoomAssignmentProblem.java:141-144 | the number of distinct rooms among a mapping's values, as the `HashSet` of values counts them |
| Assignments.RoomsAtMostCourses | RoomAssignmentProblem.java:141-144 | a mapping never uses more distinct rooms than it has courses |
| Assignments.RoomsAtMostAvailable | RoomAssignmentProblem.java:141-144 | a mapping into rooms 0..n-1 uses at most n distinct rooms |
| Assignments.SomeRoomUsed | RoomAssignmentProblem.java:141-144 | a non-empty mapping uses at least one room |
| Solver.BestRoom | RoomAssignmentProblem.java:187-207 | None exactly when no room is large enough and free; otherwise a fitting room that no other fitting room beats in capacity, or ties with while coming earlier |
| Solver.BestFitUnique | RoomAssignmentProblem.java:196-203 | any choice with the best-fit property equals BestRoom |
| Solver.FirstFreeIsBestFit | RoomAssignmentProblem.java:199-203 | the first free room of the capacity-sorted eligible list is a best fit |
| Solver.NoneFreeIsBestFit | RoomAssignmentProblem.java:199-206 | when no room of the sorted eligible list is free, no room fits at all |
| Solver.EligibleRooms | RoomAssignmentProblem.java:189-194 | the filter returns exactly the rooms whose capacity is at least the enrollment, in input order and each once |
| Solver.SortRoomsByCapacity | RoomAssignmentProblem.java:196-197 | given rooms in input order, returns them by ascending capacity, a permutation of them, with rooms of equal capacity kept in input order |
| Solver.AssignCourseToRoom | RoomAssignmentProblem.java:187-207 | filter, sort and first-free scan return exactly BestRoom over all rooms; null (None) exactly when no room fits |
| Solver.IsCourseOrder | RoomAssignmentProblem.java:166-168 | the processing order: a permutation of the course positions in stable descending-enrollment order |
| Solver.CourseOrderFacts | RoomAssignmentProblem.java:166-168 | the course order visits every course exactly once, in non-increasing enrollment, with equal enrollments in input order |
| Solver.CourseOrderUnique | RoomAssignmentProblem.java:166-168 | there is only one such course order |
| Solver.SortCoursesByEnrollment | RoomAssignmentProblem.java:166-168 | the copied course list is sorted stably by descending enrollment |
| Solver.Place | RoomAssignmentProblem.java:170-181 | the loop over the processing order as a function: each course goes to its BestRoom, whose bookings gain its slots, and the pass stops infeasible at the first course with none; bookings keep one entry per room |
| Solver.Greedy | RoomAssignmentProblem.java:158-185 | one whole pass: Place from empty bookings and an empty mapping |
| Solver.PlaceStep | RoomAssignmentProblem.java:171-181 | one loop iteration: no room ends the pass infeasible with the state unchanged; a room continues the pass with that room booked and the course mapped to it |
| Solver.PlaceStepConsistent | RoomAssignmentProblem.java:171-181 | placing a course in a best-fit room keeps capacity respected and keeps courses sharing a room free of conflicts |
| Solver.PlaceConsistent | RoomAssignmentProblem.java:171-181 | a whole pass keeps that invariant |
| Solver.PlaceKeys | RoomAssignmentProblem.java:171-181 | a pass keeps earlier entries, maps only courses it visits, and on success maps every course it visits |
| Solver.GreedySound | RoomAssignmentProblem.java:171-181 | every mapped course has a room at least its enrollment, two courses in one room never conflict, and a feasible result maps every input course |
| Solver.PlaceFailureLeavesUnmapped | RoomAssignmentProblem.java:174-177 | a pass over courses not yet mapped that fails leaves one of them unmapped |
| Solver.GreedyFeasibleIffAllPlaced | RoomAssignmentProblem.java:171-183 | the result is feasible exactly when every input course has a room |
| Solver.PlaceFailFast | RoomAssignmentProblem.java:174-177 | a pass fails exactly when it stops at a course no room fits, with the mapping and bookings of the courses before it and nothing after it processed |
| Solver.GreedyRoomCount | RoomAssignmentProblem.java:183 | on success the distinct rooms used number at most the rooms and at most the courses, and at least one when there are courses |
| Solver.BestRoomPrefix | RoomAssignmentProblem.java:190-203 | the choice among the first n rooms depends only on those rooms |
| Solver.BestRoomWithLargerRoom | RoomAssignmentProblem.java:196-203 | appending an empty room at least as large as every other does not change a choice that already exists |
| Solver.PlaceWithLargerRoom | RoomAssignmentProblem.java:171-181 | a successful pass is unchanged by appending such a room, apart from the new room's empty bookings |
| Solver.GreedyWithLargerRoom | RoomAssignmentProblem.java:158-185 | appending such a room keeps a feasible result feasible with the same mapping |
| Solver.NoCoursesFeasible | RoomAssignmentProblem.java:158-185 | with no courses the result is feasible, empty and uses 0 rooms |
| Solver.PlaceCourse | RoomAssignmentProblem.java:172-180 | one loop body: returns BestRoom; when it is a room, that room gains the course's slots, the course is mapped to it, and nothing else changes |
| Solver.ResetRooms | RoomAssignmentProblem.java:161-164 | after the reset loop no room has a booking |
| Solver.GreedyPass | RoomAssignmentProblem.java:170-184 | on reset rooms and a new assignment, the loop leaves mapping, flag and bookings exactly as Greedy says, with the count of distinct rooms on success and 0 on failure |
| Solver.Solve | RoomAssignmentProblem.java:158-185 | the returned assignment and the rooms' bookings are exactly the greedy pass over the unique stable descending-enrollment order |
| Demo.DemoOrder | RoomAssignmentProblem.java:399-415 | the example's courses are visited as MATH101, CS201, CS101, CS301 |
| Demo.DemoGreedy | RoomAssignmentProblem.java:397-425 | the example is feasible with MATH101 in RoomC, CS201 in RoomB, CS101 in RoomA, CS301 in RoomB, using 3 rooms |
| Demo.RunDemo | RoomAssignmentProblem.java:397-425 | solving the example with three new rooms returns that mapping, feasible, with room count 3 |
| Demo.SingleCourseFits | RoomAssignmentProblem.java:158-185 | one course and one large enough room: feasible, one room used |
| Demo.ClashWithOneRoomFails | RoomAssignmentProblem.java:158-185 | two courses at the same hours and one room: the first is placed, the second cannot be, and the result is infeasible |

## Left out

- `ExperimentRunner` (random instances, wall-clock timing, floating-point statistics) and all console output are not modelled: they are random, timing- or float-based, or I/O. The entry point's example is kept as `Demo.RunDemo` without its printing.
- `toString` methods are not modelled: they only format text.
- The getters and `Assignment.getRoom` are not modelled as members: the model reads the fields directly.
- Hashing and object identity are not modelled. Courses and rooms are identified by their position in the input lists. So a course object listed twice counts as two courses: both positions are mapped, possibly to two rooms. The Java `HashMap` would keep one entry for it, the second `put` overwriting the first.
- Solver.Solve: requires the room list to hold distinct objects. With a room listed twice, the Java code would treat both entries as one room, and the model does not cover that aliasing.
- Solver.GreedyWithLargerRoom: the general monotonicity property (adding any room large enough for every course never hurts feasibility) is proved only for a room appended last whose capacity is at least every existing room's. That room is never a better fit than an existing one, so every choice, and the whole mapping, stays the same. A new room smaller than some existing room can be chosen first and move later courses to other rooms; the general property then holds only up to a renumbering of the rooms every course fits into, and the model does not carry that relabelling between the two passes.
- Integers are unbounded. The source's `int` fields never overflow in `Integer.compare`, so no wrap-around is modelled.
- Input assumptions (a slot starts before it ends, enrollments and capacities are positive, schedules are non-empty) are not enforced by the source and are not required by the model either. No result depends on them.
