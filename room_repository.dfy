/**
 * The room store as the service and the seeder use it: the list of persisted
 * rooms, queried by status and extended by `save`.
 */
module RoomStore {
  import opened Rooms

  class RoomRepository {
    /** The persisted rooms, in the order the store lists them. */
    var rooms: seq<Room>

    /** Each persisted room is one entity: no object is stored twice. */
    ghost predicate Valid()
      reads this
    {
      Distinct(rooms)
    }

    constructor ()
      ensures Valid() && rooms == []
    {
      rooms := [];
    }

    /** `findByStatus`: the stored rooms with status `st`, in store order. */
    function FindByStatus(st: Status): seq<Room>
      reads this, rooms
    {
      WithStatus(rooms, st)
    }

    /**
     * `save`: a room not yet stored is appended; saving a stored room adds
     * nothing, since its updated fields already live in the shared object.
     */
    method Save(room: Room)
      requires Valid()
      modifies this
      ensures Valid()
      ensures rooms == if room in old(rooms) then old(rooms) else old(rooms) + [room]
    {
      if room !in rooms {
        rooms := rooms + [room];
      }
    }
  }
}
