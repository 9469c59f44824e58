/** The front end's own copy of the hotel layout. */
module RoomsData {
  import opened Rooms
  import opened Layout

  /** One entry of the generated array: `{ roomNo, floor, status }`. */
  datatype RoomEntry = RoomEntry(roomNo: int, floor: int, status: Status)

  /**
   * Builds the 97 entries floor by floor: slot `k` of the layout, all
   * available, in strictly ascending room number.
   */
  method GenerateRooms() returns (rooms: seq<RoomEntry>)
    ensures |rooms| == TotalRooms
    ensures forall k :: 0 <= k < |rooms| ==>
      rooms[k] == RoomEntry(RoomNumber(SlotFloor(k), SlotPosition(k)), SlotFloor(k), Available)
    ensures forall j, k :: 0 <= j < k < |rooms| ==> rooms[j].roomNo < rooms[k].roomNo
  {
    rooms := [];
    for floor := 1 to TopFloor
      invariant |rooms| == FirstSlot(floor)
      invariant forall k :: 0 <= k < |rooms| ==>
        rooms[k] == RoomEntry(RoomNumber(SlotFloor(k), SlotPosition(k)), SlotFloor(k), Available)
    {
      for i := 1 to 11
        invariant |rooms| == FirstSlot(floor) + i - 1
        invariant forall k :: 0 <= k < |rooms| ==>
          rooms[k] == RoomEntry(RoomNumber(SlotFloor(k), SlotPosition(k)), SlotFloor(k), Available)
      {
        assert SlotIndex(floor, i) == |rooms|;
        rooms := rooms + [RoomEntry(floor * 100 + i, floor, Available)];
      }
    }
    for i := 1 to 8
      invariant |rooms| == FirstSlot(TopFloor) + i - 1
      invariant forall k :: 0 <= k < |rooms| ==>
        rooms[k] == RoomEntry(RoomNumber(SlotFloor(k), SlotPosition(k)), SlotFloor(k), Available)
    {
      assert SlotIndex(TopFloor, i) == |rooms|;
      rooms := rooms + [RoomEntry(1000 + i, TopFloor, Available)];
    }
    forall j, k | 0 <= j < k < |rooms| ensures rooms[j].roomNo < rooms[k].roomNo {
      SlotsAscending(j, k);
    }
  }
}
