/** The room entity: one physical hotel room, as persisted in the `rooms` table. */
module Rooms {

  /** The two values the status column ever holds. */
  datatype Status = Available | Booked

  /**
   * A room. Room number, floor and position are written once, when the room is
   * created, and never again; only the status is updated in place afterwards.
   * Object identity stands for the generated primary key.
   */
  class Room {
    const roomNo: int
    const floor: int
    /** Ordinal distance from the lift on its floor; 1 is closest. */
    const position: int
    var status: Status

    constructor (roomNo: int, floor: int, position: int, status: Status)
      ensures this.roomNo == roomNo && this.floor == floor && this.position == position
      ensures this.status == status
    {
      this.roomNo := roomNo;
      this.floor := floor;
      this.position := position;
      this.status := status;
    }
  }

  /** No room object occurs twice in `s`. */
  predicate Distinct(s: seq<Room>)
  {
    forall i, j :: 0 <= i < j < |s| ==> s[i] != s[j]
  }

  /** The rooms of `rooms` whose status is `st`, in the order of `rooms`. */
  function WithStatus(rooms: seq<Room>, st: Status): (r: seq<Room>)
    reads rooms
    ensures forall i :: 0 <= i < |r| ==> r[i].status == st
    ensures forall i :: 0 <= i < |rooms| && rooms[i].status == st ==> rooms[i] in r
    ensures multiset(r) <= multiset(rooms)
  {
    if rooms == [] then []
    else
      var head := if rooms[0].status == st then [rooms[0]] else [];
      var rest := WithStatus(rooms[1..], st);
      assert rooms == [rooms[0]] + rooms[1..];
      assert forall i :: 1 <= i < |rooms| ==> rooms[i] == rooms[1..][i - 1];
      head + rest
  }

  /** A sub-multiset of a repetition-free sequence is repetition-free. */
  lemma {:induction false} DistinctSub(s: seq<Room>, t: seq<Room>)
    requires Distinct(s) && multiset(t) <= multiset(s)
    ensures Distinct(t)
  {
    forall i, j | 0 <= i < j < |t| ensures t[i] != t[j] {
      if t[i] == t[j] {
        var x := t[i];
        assert t == t[..j] + t[j..];
        assert multiset(t[..j])[x] >= 1 && multiset(t[j..])[x] >= 1;
        assert multiset(t)[x] >= 2;
        DistinctCount(s, x);
        assert false;
      }
    }
  }

  /** In a repetition-free sequence every room occurs at most once. */
  lemma {:induction false} DistinctCount(s: seq<Room>, x: Room)
    requires Distinct(s)
    ensures multiset(s)[x] <= 1
  {
    if s != [] {
      assert s == [s[0]] + s[1..];
      assert Distinct(s[1..]);
      DistinctCount(s[1..], x);
      if s[0] == x {
        assert x !in s[1..];
      }
    }
  }
}
