/**
 * The canonical hotel layout in closed form: floors 1 to 9 hold ten rooms each,
 * floor 10 holds seven, and a room's number is its floor times 100 plus its
 * position. Slot `k` is the `k`-th room in creation order. Both layout
 * generators (the database seeder and the front-end generator) are proved to
 * produce exactly these slots.
 */
module Layout {

  const TotalRooms: nat := 97
  const TopFloor: int := 10

  /** How many rooms a floor holds. */
  function FloorCapacity(floor: int): nat
  {
    if 1 <= floor < TopFloor then 10 else if floor == TopFloor then 7 else 0
  }

  /** A (floor, position) pair exists in the hotel. */
  predicate IsPlace(floor: int, position: int)
  {
    1 <= position <= FloorCapacity(floor)
  }

  function RoomNumber(floor: int, position: int): int
  {
    floor * 100 + position
  }

  /** Index of the first slot on a floor. */
  function FirstSlot(floor: int): int
  {
    (floor - 1) * 10
  }

  function SlotFloor(k: nat): int
    requires k < TotalRooms
  {
    if k < 90 then k / 10 + 1 else TopFloor
  }

  function SlotPosition(k: nat): int
    requires k < TotalRooms
  {
    if k < 90 then k % 10 + 1 else k - 89
  }

  /** The slot of a place; inverse of (SlotFloor, SlotPosition). */
  function SlotIndex(floor: int, position: int): (k: nat)
    requires IsPlace(floor, position)
    ensures k < TotalRooms && SlotFloor(k) == floor && SlotPosition(k) == position
    // the closed form, kept so that the generators' loop invariants can name slot indices directly
    ensures k == FirstSlot(floor) + position - 1
  {
    (floor - 1) * 10 + position - 1
  }

  /** Every slot is a place of the hotel, and taking its index gives the slot back. */
  lemma SlotIsPlace(k: nat)
    requires k < TotalRooms
    ensures IsPlace(SlotFloor(k), SlotPosition(k))
    ensures SlotIndex(SlotFloor(k), SlotPosition(k)) == k
  {
    if k < 90 {
      assert k == (k / 10) * 10 + k % 10;
    }
  }

  /**
   * The slots on a floor form one contiguous run whose length is the floor's
   * capacity: ten on floors 1 to 9, seven on floor 10, none elsewhere.
   */
  lemma SlotsOfFloor(k: nat, floor: int)
    requires k < TotalRooms
    ensures SlotFloor(k) == floor <==> FirstSlot(floor) <= k < FirstSlot(floor) + FloorCapacity(floor)
  {
    if k < 90 {
      assert k == (k / 10) * 10 + k % 10;
    }
  }

  /**
   * Slots come in ascending (floor, position) order, so in ascending room
   * number, and no two slots share a place or a room number.
   */
  lemma {:induction false} SlotsAscending(j: nat, k: nat)
    requires j < k < TotalRooms
    ensures SlotFloor(j) < SlotFloor(k) || (SlotFloor(j) == SlotFloor(k) && SlotPosition(j) < SlotPosition(k))
    ensures RoomNumber(SlotFloor(j), SlotPosition(j)) < RoomNumber(SlotFloor(k), SlotPosition(k))
  {
    SlotIsPlace(j);
    SlotIsPlace(k);
  }
}
