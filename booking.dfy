/**
 * The booking service: validates a request, selects rooms with the allocator,
 * marks them booked in place, and provides the bulk reset and random-occupancy
 * operations.
 */
module Booking {
  import opened Rooms
  import opened Allocator
  import opened RoomStore

  datatype Option<T> = None | Some(value: T)

  /** The message of a response, reduced to the facts it reports. */
  datatype Message =
    | CountOutOfRange              // "Room count must be between 1 and 5"
    | NotEnoughRooms(available: nat)  // reports how many rooms are available
    | BookedRooms(count: nat)         // reports how many rooms were booked

  datatype BookingResponse = BookingResponse(success: bool, message: Message, bookedRooms: Option<seq<Room>>)

  const MinRooms: int := 1
  const MaxRooms: int := 5

  /** Every room of `rooms` has status `st` exactly when `WithStatus` keeps them all. */
  lemma {:induction false} WithStatusAll(rooms: seq<Room>, st: Status)
    requires forall i :: 0 <= i < |rooms| ==> rooms[i].status == st
    ensures WithStatus(rooms, st) == rooms
  {
    if rooms != [] {
      assert rooms == [rooms[0]] + rooms[1..];
      WithStatusAll(rooms[1..], st);
    }
  }

  /**
   * A booking selects `count` distinct rooms of the store, each of them
   * available when selected.
   */
  lemma SelectionFromStore(rooms: seq<Room>, count: nat, floorOrder: seq<int>)
    requires Distinct(rooms) && 1 <= count <= |WithStatus(rooms, Available)|
    ensures var selected := Allocate(WithStatus(rooms, Available), count, floorOrder);
      && |selected| == count
      && Distinct(selected)
      && forall j :: 0 <= j < |selected| ==> selected[j] in rooms && selected[j].status == Available
  {
    var available := WithStatus(rooms, Available);
    var selected := Allocate(available, count, floorOrder);
    DistinctSub(rooms, available);
    AllocateSize(available, count, floorOrder);
    forall j | 0 <= j < |selected| ensures selected[j] in rooms && selected[j].status == Available {
      assert selected[j] in multiset(available);
      var m :| 0 <= m < |available| && available[m] == selected[j];
    }
  }

  class RoomService {
    const roomRepository: RoomRepository

    constructor (roomRepository: RoomRepository)
      ensures this.roomRepository == roomRepository
    {
      this.roomRepository := roomRepository;
    }

    /**
     * Books `roomCount` rooms. `floorOrder` is the order in which the same-floor
     * phase visits floors (the iteration order of a `HashMap` the source builds),
     * and must list every floor of the hotel.
     */
    method BookRooms(roomCount: int, floorOrder: seq<int>) returns (response: BookingResponse)
      requires roomRepository.Valid()
      requires CoversFloors(roomRepository.rooms, floorOrder)
      modifies roomRepository, roomRepository.rooms
      ensures roomRepository.Valid() && roomRepository.rooms == old(roomRepository.rooms)
      ensures var available := old(roomRepository.FindByStatus(Available));
        && (!(MinRooms <= roomCount <= MaxRooms) ==>
              response == BookingResponse(false, CountOutOfRange, None))
        && (MinRooms <= roomCount <= MaxRooms && |available| < roomCount ==>
              response == BookingResponse(false, NotEnoughRooms(|available|), None))
        && (MinRooms <= roomCount <= MaxRooms && |available| >= roomCount ==>
              response == BookingResponse(true, BookedRooms(roomCount), Some(Allocate(available, roomCount, floorOrder))))
      ensures response.success ==> response.bookedRooms.Some? && |response.bookedRooms.value| == roomCount
      ensures response.success ==> response.bookedRooms.Some? && Distinct(response.bookedRooms.value)
      ensures response.success ==> forall j :: 0 <= j < |response.bookedRooms.value| ==>
        var room := response.bookedRooms.value[j];
        room in roomRepository.rooms && old(room.status) == Available && room.status == Booked
      ensures forall i :: 0 <= i < |roomRepository.rooms| ==>
        var room := roomRepository.rooms[i];
        room.status == if response.success && room in response.bookedRooms.value then Booked else old(room.status)
    {
      if roomCount < MinRooms || roomCount > MaxRooms {
        return BookingResponse(false, CountOutOfRange, None);
      }
      var availableRooms := roomRepository.FindByStatus(Available);
      if |availableRooms| < roomCount {
        return BookingResponse(false, NotEnoughRooms(|availableRooms|), None);
      }

      // same floor first, greedy fallback
      var bookedRooms := Allocate(availableRooms, roomCount, floorOrder);
      SelectionFromStore(roomRepository.rooms, roomCount, floorOrder);
      MarkBooked(bookedRooms);
      response := BookingResponse(true, BookedRooms(|bookedRooms|), Some(bookedRooms));
    }

    /** The commit loop of a booking: each selected room is set to booked and saved. */
    method MarkBooked(bookedRooms: seq<Room>)
      requires roomRepository.Valid()
      requires forall j :: 0 <= j < |bookedRooms| ==> bookedRooms[j] in roomRepository.rooms
      modifies roomRepository, roomRepository.rooms
      ensures roomRepository.Valid() && roomRepository.rooms == old(roomRepository.rooms)
      ensures forall j :: 0 <= j < |roomRepository.rooms| ==>
        var room := roomRepository.rooms[j];
        room.status == if room in bookedRooms then Booked else old(room.status)
      ensures forall j :: 0 <= j < |bookedRooms| ==> bookedRooms[j].status == Booked
    {
      var i := 0;
      while i < |bookedRooms|
        invariant 0 <= i <= |bookedRooms|
        invariant roomRepository.Valid() && roomRepository.rooms == old(roomRepository.rooms)
        invariant forall j :: 0 <= j < |roomRepository.rooms| ==>
          var room := roomRepository.rooms[j];
          room.status == if room in bookedRooms[..i] then Booked else old(room.status)
        invariant forall j :: 0 <= j < i ==> bookedRooms[j].status == Booked
      {
        var room := bookedRooms[i];
        room.status := Booked;
        roomRepository.Save(room);
        assert bookedRooms[..i + 1] == bookedRooms[..i] + [room];
        i := i + 1;
      }
      assert bookedRooms[..i] == bookedRooms;
    }

    /**
     * Overwrites every status: `draws[i]` stands for the outcome of the random
     * draw for the `i`-th stored room (true: booked).
     */
    method RandomBooking(draws: seq<bool>)
      requires roomRepository.Valid() && |draws| == |roomRepository.rooms|
      modifies roomRepository, roomRepository.rooms
      ensures roomRepository.Valid() && roomRepository.rooms == old(roomRepository.rooms)
      ensures forall i :: 0 <= i < |roomRepository.rooms| ==>
        roomRepository.rooms[i].status == if draws[i] then Booked else Available
    {
      var allRooms := roomRepository.rooms;
      var i := 0;
      while i < |allRooms|
        invariant 0 <= i <= |allRooms|
        invariant roomRepository.Valid() && roomRepository.rooms == allRooms
        invariant forall j :: 0 <= j < i ==> allRooms[j].status == if draws[j] then Booked else Available
      {
        var room := allRooms[i];
        if draws[i] {
          room.status := Booked;
        } else {
          room.status := Available;
        }
        roomRepository.Save(room);
        i := i + 1;
      }
    }

    /** Makes every room available again; afterwards the available rooms are all rooms. */
    method ResetAll()
      requires roomRepository.Valid()
      modifies roomRepository, roomRepository.rooms
      ensures roomRepository.Valid() && roomRepository.rooms == old(roomRepository.rooms)
      ensures forall i :: 0 <= i < |roomRepository.rooms| ==> roomRepository.rooms[i].status == Available
      ensures roomRepository.FindByStatus(Available) == roomRepository.rooms
    {
      var allRooms := roomRepository.rooms;
      var i := 0;
      while i < |allRooms|
        invariant 0 <= i <= |allRooms|
        invariant roomRepository.Valid() && roomRepository.rooms == allRooms
        invariant forall j :: 0 <= j < i ==> allRooms[j].status == Available
      {
        var room := allRooms[i];
        room.status := Available;
        roomRepository.Save(room);
        i := i + 1;
      }
      WithStatusAll(allRooms, Available);
    }
  }
}
