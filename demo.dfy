/**
 * The example of the program's entry point: four courses and three rooms, where CS301 clashes
 * with CS101 (Monday/Wednesday 9:00-10:50) and MATH101 clashes with CS201 (Tuesday/Thursday
 * 10:00-11:50).  Courses and rooms are numbered by their position in the input lists.
 */
module Demo {
  import opened TimeSlots
  import opened Courses
  import opened Rooms
  import opened Ordering
  import opened Assignments
  import opened Solver

  const MonWed: seq<TimeSlot> := [TimeSlot("MON", 540, 650), TimeSlot("WED", 540, 650)]
  const TueThu: seq<TimeSlot> := [TimeSlot("TUE", 600, 710), TimeSlot("THU", 600, 710)]

  const CS101 := Course(1, "CS101", 45, MonWed)
  const CS201 := Course(2, "CS201", 80, TueThu)
  const CS301 := Course(3, "CS301", 30, MonWed)
  const MATH101 := Course(4, "MATH101", 120, TueThu)

  const DemoCourses: seq<Course> := [CS101, CS201, CS301, MATH101]

  /** Capacities of RoomA, RoomB and RoomC. */
  const DemoCapacities: seq<int> := [50, 100, 150]

  /** The expected mapping: CS101 to RoomA, CS201 and CS301 to RoomB, MATH101 to RoomC. */
  const DemoMapping: map<nat, nat> := map[0 := 0, 1 := 1, 2 := 1, 3 := 2]

  /** The positions of MATH101, CS201, CS101 and CS301: the order of descending enrollment. */
  const DemoOrderList: seq<nat> := [3, 1, 0, 2]

  lemma MonWedTueThuDisjoint()
    ensures Disjoint(MonWed, TueThu) && Disjoint(TueThu, MonWed)
    ensures Disjoint(MonWed, []) && Disjoint(TueThu, [])
  {
    DisjointFromEmpty(MonWed);
    DisjointFromEmpty(TueThu);
  }

  lemma DemoIota()
    ensures multiset(DemoOrderList) == multiset(Iota(4))
  {
    assert Iota(4) == [0, 1, 2, 3];
    assert DemoOrderList == [3] + [1] + [0] + [2];
    assert [0, 1, 2, 3] == [0] + [1] + [2] + [3];
  }

  lemma DemoSorted()
    ensures SortedBy(EnrollmentKey(DemoCourses), DemoOrderList)
  {
    var key := EnrollmentKey(DemoCourses);
    var s: seq<nat> := DemoOrderList;
    assert key[3] == -120 && key[1] == -80 && key[0] == -45 && key[2] == -30;
    forall p, q | 0 <= p < q < |s| ensures LexLe(key, s[p], s[q]) {
      assert key[s[p]] < key[s[q]];
    }
  }

  /** Descending enrollment visits MATH101, CS201, CS101, CS301. */
  lemma DemoOrder()
    ensures IsCourseOrder(DemoCourses, DemoOrderList)
  {
    DemoIota();
    DemoSorted();
  }

  /** MATH101 (120 students) on empty rooms: only RoomC is large enough. */
  lemma DemoChoice1()
    ensures BestRoom(MATH101, DemoCapacities, [[], [], []], 3) == Some(2)
  {
    DisjointFromEmpty(TueThu);
  }

  /** CS201 (80 students) with RoomC booked Tuesday/Thursday: RoomB is the smaller fit. */
  lemma DemoChoice2()
    ensures BestRoom(CS201, DemoCapacities, [[], [], TueThu], 3) == Some(1)
  {
    DisjointFromEmpty(TueThu);
  }

  /** CS101 (45 students): RoomA, the smallest room, is free. */
  lemma DemoChoice3()
    ensures BestRoom(CS101, DemoCapacities, [[], TueThu, TueThu], 3) == Some(0)
  {
    DisjointFromEmpty(MonWed);
    MonWedTueThuDisjoint();
  }

  /** CS301 (30 students): RoomA is booked Monday/Wednesday at the same hours, RoomB is free then. */
  lemma DemoChoice4()
    ensures BestRoom(CS301, DemoCapacities, [MonWed, TueThu, TueThu], 3) == Some(1)
  {
    MonWedTueThuDisjoint();
    assert MonWed[0].OverlapsWith(MonWed[0]);
    assert !Disjoint(MonWed, MonWed);
  }

  /** Bookings after each step of the pass. */
  const Occ0: seq<seq<TimeSlot>> := [[], [], []]
  const Occ1: seq<seq<TimeSlot>> := [[], [], TueThu]
  const Occ2: seq<seq<TimeSlot>> := [[], TueThu, TueThu]
  const Occ3: seq<seq<TimeSlot>> := [MonWed, TueThu, TueThu]
  const Occ4: seq<seq<TimeSlot>> := [MonWed, TueThu + MonWed, TueThu]

  /** The bookings after each placement: the chosen room gains the course's slots. */
  lemma DemoBookings()
    ensures Occ0[2 := Occ0[2] + MATH101.schedule] == Occ1
    ensures Occ1[1 := Occ1[1] + CS201.schedule] == Occ2
    ensures Occ2[0 := Occ2[0] + CS101.schedule] == Occ3
    ensures Occ3[1 := Occ3[1] + CS301.schedule] == Occ4
  {
    assert [] + TueThu == TueThu;
    assert [] + MonWed == MonWed;
  }

  lemma DemoStep1()
    ensures Place(DemoCourses, DemoCapacities, DemoOrderList, Occ0, map[]) ==
            Place(DemoCourses, DemoCapacities, DemoOrderList[1..], Occ1, map[3 := 2])
  {
    DemoChoice1();
    DemoBookings();
    PlaceStep(DemoCourses, DemoCapacities, DemoOrderList, Occ0, map[], 0, Some(2));
    assert DemoOrderList[0..] == DemoOrderList;
  }

  lemma DemoStep2()
    ensures Place(DemoCourses, DemoCapacities, DemoOrderList[1..], Occ1, map[3 := 2]) ==
            Place(DemoCourses, DemoCapacities, DemoOrderList[2..], Occ2, map[3 := 2, 1 := 1])
  {
    DemoChoice2();
    DemoBookings();
    PlaceStep(DemoCourses, DemoCapacities, DemoOrderList, Occ1, map[3 := 2], 1, Some(1));
  }

  lemma DemoStep3()
    ensures Place(DemoCourses, DemoCapacities, DemoOrderList[2..], Occ2, map[3 := 2, 1 := 1]) ==
            Place(DemoCourses, DemoCapacities, DemoOrderList[3..], Occ3, map[3 := 2, 1 := 1, 0 := 0])
  {
    DemoChoice3();
    DemoBookings();
    PlaceStep(DemoCourses, DemoCapacities, DemoOrderList, Occ2, map[3 := 2, 1 := 1], 2, Some(0));
  }

  lemma DemoStep4()
    ensures Place(DemoCourses, DemoCapacities, DemoOrderList[3..], Occ3, map[3 := 2, 1 := 1, 0 := 0]) ==
            Outcome(DemoMapping, Occ4, true)
  {
    DemoChoice4();
    DemoBookings();
    PlaceStep(DemoCourses, DemoCapacities, DemoOrderList, Occ3, map[3 := 2, 1 := 1, 0 := 0], 3, Some(1));
    assert DemoOrderList[4..] == [];
    assert map[3 := 2, 1 := 1, 0 := 0, 2 := 1] == DemoMapping;
  }

  lemma DemoMappingRooms()
    ensures DistinctRooms(DemoMapping) == 3
  {
    assert DemoMapping[0] == 0 && DemoMapping[1] == 1 && DemoMapping[3] == 2;
    assert DemoMapping.Values == {0, 1, 2};
  }

  /** The greedy pass on the example places every course, as the expected mapping says, in three rooms. */
  lemma DemoGreedy()
    ensures ValidOrder(DemoOrderList, |DemoCourses|)
    ensures var out := Greedy(DemoCourses, DemoCapacities, DemoOrderList);
      && out.feasible
      && out.courseToRoom == DemoMapping
      && DistinctRooms(out.courseToRoom) == 3
  {
    assert EmptyOccupancy(3) == Occ0;
    DemoStep1();
    DemoStep2();
    DemoStep3();
    DemoStep4();
    DemoMappingRooms();
  }

  /** One course, one room large enough: feasible, one room used. */
  lemma SingleCourseFits()
    ensures IsCourseOrder([CS101], [0])
    ensures var out := Greedy([CS101], [50], [0]);
      out.feasible && out.courseToRoom == map[0 := 0] && DistinctRooms(out.courseToRoom) == 1
  {
    assert Iota(1) == [0];
    DisjointFromEmpty(MonWed);
    assert BestRoom(CS101, [50], [[]], 1) == Some(0);
    PlaceStep([CS101], [50], [0], [[]], map[], 0, Some(0));
    assert EmptyOccupancy(1) == [[]];
    assert [0][0..] == [0] && [0][1..] == [];
    var placed := map[0 := 0];
    assert placed[0] == 0 && placed.Keys == {0};
    assert placed.Values == {0};
  }

  const Monday: seq<TimeSlot> := [TimeSlot("MON", 540, 650)]

  /** Two equally large courses at the same Monday hours and a single room: the second cannot be placed. */
  lemma ClashWithOneRoomFails()
    ensures var courses := [Course(1, "A", 30, Monday), Course(2, "B", 30, Monday)];
      && IsCourseOrder(courses, [0, 1])
      && !Greedy(courses, [100], [0, 1]).feasible
      && Greedy(courses, [100], [0, 1]).courseToRoom == map[0 := 0]
  {
    var courses := [Course(1, "A", 30, Monday), Course(2, "B", 30, Monday)];
    var order: seq<nat> := [0, 1];
    assert Iota(2) == [0, 1];
    DisjointFromEmpty(Monday);
    assert Monday[0].OverlapsWith(Monday[0]);
    assert !Disjoint(Monday, Monday);
    assert BestRoom(courses[0], [100], [[]], 1) == Some(0);
    assert [] + Monday == Monday;
    assert BestRoom(courses[1], [100], [[] + Monday], 1) == None;
    assert EmptyOccupancy(1) == [[]];
    PlaceStep(courses, [100], order, [[]], map[], 0, Some(0));
    assert [[]][0 := [] + Monday] == [[] + Monday];
    PlaceStep(courses, [100], order, [[] + Monday], map[0 := 0], 1, None);
    assert order[0..] == order;
  }

  /**
   * The entry point's run without its printing: build the three rooms, solve, and read off the
   * mapping and the room count.
   */
  method RunDemo() returns (mapping: map<nat, nat>, feasible: bool, totalRooms: int)
    ensures feasible && mapping == DemoMapping && totalRooms == 3
  {
    var roomA := new Room(1, "RoomA", 50);
    var roomB := new Room(2, "RoomB", 100);
    var roomC := new Room(3, "RoomC", 150);
    var rooms := [roomA, roomB, roomC];
    assert Capacities(rooms) == DemoCapacities;
    var assignment, order := Solve(DemoCourses, rooms);
    DemoOrder();
    CourseOrderUnique(DemoCourses, order, DemoOrderList);
    DemoGreedy();
    mapping, feasible, totalRooms := assignment.courseToRoom, assignment.feasible, assignment.totalRoomsUsed;
  }
}
