/** Classrooms: a fixed capacity and the list of slots booked so far in the current pass. */
module Rooms {
  import opened TimeSlots

  class Room {
    const id: int
    const name: string
    const capacity: int
    var occupiedSlots: seq<TimeSlot>

    constructor (id: int, name: string, capacity: int)
      ensures this.id == id && this.name == name && this.capacity == capacity
      ensures occupiedSlots == []
    {
      this.id := id;
      this.name := name;
      this.capacity := capacity;
      occupiedSlots := [];
    }

    /** Scans every requested slot against every booked slot, failing on the first overlap. */
    method IsAvailable(requestedSlots: seq<TimeSlot>) returns (available: bool)
      ensures available <==> Disjoint(requestedSlots, occupiedSlots)
    {
      for i := 0 to |requestedSlots|
        invariant forall p, q :: 0 <= p < i && 0 <= q < |occupiedSlots| ==> !requestedSlots[p].OverlapsWith(occupiedSlots[q])
      {
        for j := 0 to |occupiedSlots|
          invariant forall q :: 0 <= q < j ==> !requestedSlots[i].OverlapsWith(occupiedSlots[q])
        {
          if requestedSlots[i].OverlapsWith(occupiedSlots[j]) {
            return false;
          }
        }
      }
      return true;
    }

    /** Appends the slots to the bookings; no merging and no removal of duplicates. */
    method Occupy(slots: seq<TimeSlot>)
      modifies this
      ensures occupiedSlots == old(occupiedSlots) + slots
    {
      occupiedSlots := occupiedSlots + slots;
    }

    /** Clears the bookings, after which every request is available. */
    method Reset()
      modifies this
      ensures occupiedSlots == []
      ensures forall requested: seq<TimeSlot> {:trigger Disjoint(requested, occupiedSlots)} :: Disjoint(requested, occupiedSlots)
    {
      occupiedSlots := [];
    }
  }

  /** The room capacities, in input order. */
  function Capacities(rooms: seq<Room>): (caps: seq<int>)
    ensures |caps| == |rooms|
    ensures forall i :: 0 <= i < |rooms| ==> caps[i] == rooms[i].capacity
  {
    seq(|rooms|, i requires 0 <= i < |rooms| => rooms[i].capacity)
  }

  /** The booked slots of every room, in input order. */
  function Occupancy(rooms: seq<Room>): (occ: seq<seq<TimeSlot>>)
    reads rooms
    ensures |occ| == |rooms|
    ensures forall i :: 0 <= i < |rooms| ==> occ[i] == rooms[i].occupiedSlots
  {
    seq(|rooms|, i reads rooms requires 0 <= i < |rooms| => rooms[i].occupiedSlots)
  }

  /** Booking a slot list makes a room unavailable for any request that overlaps it. */
  lemma OccupiedBlocksOverlap(occupied: seq<TimeSlot>, slots: seq<TimeSlot>, requested: seq<TimeSlot>)
    requires !Disjoint(requested, slots)
    ensures !Disjoint(requested, occupied + slots)
  {
    DisjointAppend(requested, occupied, slots);
  }
}
