/** Start-up seeding of the room store with the canonical 97-room layout. */
module Seeding {
  import opened Rooms
  import opened RoomStore
  import opened Layout
  import RoomOrder

  /** `rooms[base + k]` is a new available room at slot `k`, for every `k < n`. */
  ghost predicate SeededFrom(rooms: seq<Room>, base: nat, n: nat)
    reads rooms
  {
    && base + n <= |rooms|
    && forall k :: 0 <= k < n && k < TotalRooms ==>
         var room := rooms[base + k];
         && room.floor == SlotFloor(k) && room.position == SlotPosition(k)
         && room.roomNo == RoomNumber(SlotFloor(k), SlotPosition(k))
         && room.status == Available
  }

  /**
   * A store seeded from empty lists its rooms in strictly ascending room
   * number, so room numbers are unique, and no two rooms share a
   * (floor, position) place.
   */
  lemma SeededRoomsAscending(rooms: seq<Room>)
    requires |rooms| == TotalRooms && SeededFrom(rooms, 0, TotalRooms)
    ensures forall i, j :: 0 <= i < j < |rooms| ==> rooms[i].roomNo < rooms[j].roomNo
    ensures forall i, j :: 0 <= i < j < |rooms| ==> rooms[i].floor != rooms[j].floor || rooms[i].position != rooms[j].position
  {
    forall i, j | 0 <= i < j < |rooms|
      ensures rooms[i].roomNo < rooms[j].roomNo
      ensures rooms[i].floor != rooms[j].floor || rooms[i].position != rooms[j].position
    {
      SlotsAscending(i, j);
    }
  }

  /**
   * The seeded hotel meets the allocator's determinism assumption: no two of
   * its rooms share a (floor, position) key.
   */
  lemma SeededPlacesDistinct(rooms: seq<Room>)
    requires |rooms| == TotalRooms && SeededFrom(rooms, 0, TotalRooms)
    ensures RoomOrder.DistinctKeys(RoomOrder.ByFloorThenPosition, rooms)
  {
    SeededRoomsAscending(rooms);
  }

  class DataSeeder {
    const roomRepository: RoomRepository

    constructor (roomRepository: RoomRepository)
      ensures this.roomRepository == roomRepository
    {
      this.roomRepository := roomRepository;
    }

    /** Seeds only an empty store; a store that holds rooms is left as it is. */
    method Run()
      requires roomRepository.Valid()
      modifies roomRepository
      ensures roomRepository.Valid()
      ensures old(|roomRepository.rooms|) != 0 ==> roomRepository.rooms == old(roomRepository.rooms)
      ensures old(|roomRepository.rooms|) == 0 ==>
        && |roomRepository.rooms| == TotalRooms
        && SeededFrom(roomRepository.rooms, 0, TotalRooms)
        && forall i :: 0 <= i < |roomRepository.rooms| ==> fresh(roomRepository.rooms[i])
    {
      if |roomRepository.rooms| == 0 {
        SeedRooms();
      }
    }

    /** Appends one new available room for every slot of the layout, in slot order. */
    method SeedRooms()
      requires roomRepository.Valid()
      modifies roomRepository
      ensures roomRepository.Valid()
      ensures |roomRepository.rooms| == old(|roomRepository.rooms|) + TotalRooms
      ensures roomRepository.rooms[..old(|roomRepository.rooms|)] == old(roomRepository.rooms)
      ensures SeededFrom(roomRepository.rooms, old(|roomRepository.rooms|), TotalRooms)
      ensures forall i :: old(|roomRepository.rooms|) <= i < |roomRepository.rooms| ==> fresh(roomRepository.rooms[i])
    {
      var base := |roomRepository.rooms|;
      for floor := 1 to TopFloor
        invariant roomRepository.Valid()
        invariant |roomRepository.rooms| == base + FirstSlot(floor)
        invariant roomRepository.rooms[..base] == old(roomRepository.rooms)
        invariant SeededFrom(roomRepository.rooms, base, FirstSlot(floor))
        invariant forall i :: base <= i < |roomRepository.rooms| ==> fresh(roomRepository.rooms[i])
      {
        for position := 1 to 11
          invariant roomRepository.Valid()
          invariant |roomRepository.rooms| == base + FirstSlot(floor) + position - 1
          invariant roomRepository.rooms[..base] == old(roomRepository.rooms)
          invariant SeededFrom(roomRepository.rooms, base, FirstSlot(floor) + position - 1)
          invariant forall i :: base <= i < |roomRepository.rooms| ==> fresh(roomRepository.rooms[i])
        {
          AddRoom(base, floor, position, floor * 100 + position);
        }
      }
      for position := 1 to 8
        invariant roomRepository.Valid()
        invariant |roomRepository.rooms| == base + FirstSlot(TopFloor) + position - 1
        invariant roomRepository.rooms[..base] == old(roomRepository.rooms)
        invariant SeededFrom(roomRepository.rooms, base, FirstSlot(TopFloor) + position - 1)
        invariant forall i :: base <= i < |roomRepository.rooms| ==> fresh(roomRepository.rooms[i])
      {
        AddRoom(base, TopFloor, position, 1000 + position);
      }
    }

    /** One loop body: create the room of a place and save it. */
    method AddRoom(base: nat, floor: int, position: int, roomNo: int)
      requires roomRepository.Valid() && IsPlace(floor, position) && roomNo == RoomNumber(floor, position)
      requires |roomRepository.rooms| == base + SlotIndex(floor, position)
      requires SeededFrom(roomRepository.rooms, base, SlotIndex(floor, position))
      modifies roomRepository
      ensures roomRepository.Valid()
      ensures |roomRepository.rooms| == old(|roomRepository.rooms|) + 1
      ensures roomRepository.rooms[..|roomRepository.rooms| - 1] == old(roomRepository.rooms)
      ensures fresh(roomRepository.rooms[|roomRepository.rooms| - 1])
      ensures SeededFrom(roomRepository.rooms, base, SlotIndex(floor, position) + 1)
    {
      var room := new Room(roomNo, floor, position, Available);
      ghost var before := roomRepository.rooms;
      roomRepository.Save(room);
      assert roomRepository.rooms == before + [room];
      var n := SlotIndex(floor, position);
      forall k | 0 <= k < n + 1 && k < TotalRooms
        ensures var r := roomRepository.rooms[base + k];
          && r.floor == SlotFloor(k) && r.position == SlotPosition(k)
          && r.roomNo == RoomNumber(SlotFloor(k), SlotPosition(k)) && r.status == Available
      {
        if k < n {
          assert roomRepository.rooms[base + k] == before[base + k];
        }
      }
    }
  }
}
