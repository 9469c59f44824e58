/**
 * Room selection for a booking request: the same-floor phase, the greedy
 * fallback and the way the booking service combines them. All of it is pure:
 * it reads the list of available rooms and never changes a room.
 */
module Allocator {
  import opened Rooms
  import opened RoomOrder

  /**
   * The available rooms on floor `f`, in input order: the bucket for `f` of
   * `groupingBy(Room::getFloor)`. Its multiset is exactly the part of
   * `available` on floor `f`.
   */
  function FloorGroup(available: seq<Room>, f: int): (g: seq<Room>)
    ensures forall i :: 0 <= i < |g| ==> g[i].floor == f
    ensures multiset(g) <= multiset(available)
  {
    if available == [] then []
    else
      assert available == [available[0]] + available[1..];
      (if available[0].floor == f then [available[0]] else []) + FloorGroup(available[1..], f)
  }

  /** The bucket for `f` holds every copy of every available room on floor `f`. */
  lemma {:induction false} FloorGroupExact(available: seq<Room>, f: int, x: Room)
    ensures multiset(FloorGroup(available, f))[x] == if x.floor == f then multiset(available)[x] else 0
  {
    if available != [] {
      assert available == [available[0]] + available[1..];
      FloorGroupExact(available[1..], f, x);
    }
  }

  /** Floor `f` has at least `count` available rooms. */
  ghost predicate FloorFits(available: seq<Room>, count: nat, f: int)
  {
    |FloorGroup(available, f)| >= count
  }

  /** `floorOrder[k]` is the first floor, in iteration order, that fits the request. */
  ghost predicate FirstFit(available: seq<Room>, count: nat, floorOrder: seq<int>, k: int)
  {
    && 0 <= k < |floorOrder|
    && FloorFits(available, count, floorOrder[k])
    && forall j :: 0 <= j < k ==> !FloorFits(available, count, floorOrder[j])
  }

  /**
   * `r` books `count` rooms all on floor `f`, which fits the request, and they are
   * that floor's closest-to-the-lift available rooms, in ascending position.
   */
  ghost predicate SameFloorChoice(available: seq<Room>, count: nat, f: int, r: seq<Room>)
  {
    && FloorFits(available, count, f)
    && |r| == count
    && (forall i :: 0 <= i < |r| ==> r[i].floor == f)
    && SmallestFirst(ByPosition, FloorGroup(available, f), r)
  }

  /**
   * Same-floor phase. `floorOrder` is the order in which the floor buckets are
   * visited: the key order of the `HashMap` that `groupingBy` builds, which the
   * source does not fix. Returns the first `count` rooms by position of the first
   * floor with enough rooms, or nothing.
   */
  function TrySameFloorBooking(available: seq<Room>, count: nat, floorOrder: seq<int>): (r: seq<Room>)
    ensures r == [] || |r| == count
    ensures multiset(r) <= multiset(available)
  {
    if floorOrder == [] then []
    else
      var floorRooms := FloorGroup(available, floorOrder[0]);
      if |floorRooms| >= count then
        var sorted := Sort(ByPosition, floorRooms);
        assert sorted == sorted[..count] + sorted[count..];
        sorted[..count]
      else
        TrySameFloorBooking(available, count, floorOrder[1..])
  }

  /**
   * Greedy fallback: the first `min(count, |available|)` rooms in (floor,
   * position) order, so lower floors and rooms nearer the lift come first.
   */
  function GreedyBooking(available: seq<Room>, count: nat): (r: seq<Room>)
    ensures |r| == if count < |available| then count else |available|
    ensures SmallestFirst(ByFloorThenPosition, available, r)
  {
    var sorted := Sort(ByFloorThenPosition, available);
    var n := if count < |sorted| then count else |sorted|;
    SortedPrefixSmallest(ByFloorThenPosition, available, sorted, n);
    sorted[..n]
  }

  /** The selection made by the booking service: same floor first, greedy otherwise. */
  function Allocate(available: seq<Room>, count: nat, floorOrder: seq<int>): (r: seq<Room>)
    ensures multiset(r) <= multiset(available)
  {
    var sameFloor := TrySameFloorBooking(available, count, floorOrder);
    if |sameFloor| < count then GreedyBooking(available, count) else sameFloor
  }

  /** Every room of a floor bucket comes from the input. */
  lemma InFloorGroup(available: seq<Room>, f: int, i: int)
    requires 0 <= i < |FloorGroup(available, f)|
    ensures FloorGroup(available, f)[i] in available
  {
    var g := FloorGroup(available, f);
    assert g[i] in multiset(g);
  }

  /** When the first visited floor fits, the phase books its closest rooms. */
  lemma SameFloorHead(available: seq<Room>, count: nat, floorOrder: seq<int>)
    requires count >= 1 && floorOrder != [] && FloorFits(available, count, floorOrder[0])
    ensures SameFloorChoice(available, count, floorOrder[0], TrySameFloorBooking(available, count, floorOrder))
  {
    var g := FloorGroup(available, floorOrder[0]);
    var sorted := Sort(ByPosition, g);
    var r := TrySameFloorBooking(available, count, floorOrder);
    assert r == sorted[..count];
    SortedPrefixSmallest(ByPosition, g, sorted, count);
    forall i | 0 <= i < |r| ensures r[i].floor == floorOrder[0] {
      assert r[i] in multiset(sorted);
      var j :| 0 <= j < |g| && g[j] == r[i];
    }
  }

  /** The same-floor phase finds rooms exactly when some visited floor fits. */
  lemma {:induction false} SameFloorFindsIffFits(available: seq<Room>, count: nat, floorOrder: seq<int>)
    requires count >= 1
    ensures TrySameFloorBooking(available, count, floorOrder) == [] <==>
      forall k :: 0 <= k < |floorOrder| ==> !FloorFits(available, count, floorOrder[k])
  {
    if floorOrder != [] {
      var r := TrySameFloorBooking(available, count, floorOrder);
      var tail := floorOrder[1..];
      if FloorFits(available, count, floorOrder[0]) {
        FittingHeadBooks(available, count, floorOrder);
      } else {
        assert r == TrySameFloorBooking(available, count, tail);
        SameFloorFindsIffFits(available, count, tail);
        forall k | 0 < k < |floorOrder| ensures floorOrder[k] == tail[k - 1] { }
      }
    }
  }

  /** When the first visited floor fits, the same-floor phase books from it. */
  lemma FittingHeadBooks(available: seq<Room>, count: nat, floorOrder: seq<int>)
    requires count >= 1 && floorOrder != [] && FloorFits(available, count, floorOrder[0])
    ensures |TrySameFloorBooking(available, count, floorOrder)| == count
  {
    var sorted := Sort(ByPosition, FloorGroup(available, floorOrder[0]));
    assert TrySameFloorBooking(available, count, floorOrder) == sorted[..count];
  }

  /** A successful same-floor phase returns what it returns from the first floor that fits. */
  lemma {:induction false} FirstFitFound(available: seq<Room>, count: nat, floorOrder: seq<int>)
    requires count >= 1 && TrySameFloorBooking(available, count, floorOrder) != []
    ensures exists k ::
      && FirstFit(available, count, floorOrder, k)
      && TrySameFloorBooking(available, count, floorOrder) == TrySameFloorBooking(available, count, floorOrder[k..])
  {
    if FloorFits(available, count, floorOrder[0]) {
      assert floorOrder[0..] == floorOrder;
      assert FirstFit(available, count, floorOrder, 0);
    } else {
      var tail := floorOrder[1..];
      FirstFitFound(available, count, tail);
      var k :| FirstFit(available, count, tail, k) &&
        TrySameFloorBooking(available, count, tail) == TrySameFloorBooking(available, count, tail[k..]);
      FirstFitShift(available, count, floorOrder, k);
      assert tail[k..] == floorOrder[k + 1..];
    }
  }

  /**
   * The same-floor phase finds rooms exactly when some visited floor fits, and
   * then books the closest rooms of the first such floor.
   */
  lemma SameFloorPhase(available: seq<Room>, count: nat, floorOrder: seq<int>)
    requires count >= 1
    ensures var r := TrySameFloorBooking(available, count, floorOrder);
      && (r == [] <==> forall k :: 0 <= k < |floorOrder| ==> !FloorFits(available, count, floorOrder[k]))
      && (r != [] ==> exists k :: FirstFit(available, count, floorOrder, k) && SameFloorChoice(available, count, floorOrder[k], r))
  {
    var r := TrySameFloorBooking(available, count, floorOrder);
    SameFloorFindsIffFits(available, count, floorOrder);
    if r != [] {
      FirstFitFound(available, count, floorOrder);
      var k :| FirstFit(available, count, floorOrder, k) && r == TrySameFloorBooking(available, count, floorOrder[k..]);
      SameFloorHead(available, count, floorOrder[k..]);
      assert floorOrder[k..][0] == floorOrder[k];
    }
  }

  lemma FirstFitShift(available: seq<Room>, count: nat, floorOrder: seq<int>, k: int)
    requires floorOrder != [] && !FloorFits(available, count, floorOrder[0])
    requires FirstFit(available, count, floorOrder[1..], k)
    ensures FirstFit(available, count, floorOrder, k + 1) && floorOrder[k + 1] == floorOrder[1..][k]
  {
    forall j | 0 <= j < k + 1 ensures !FloorFits(available, count, floorOrder[j]) {
      if j > 0 { assert floorOrder[j] == floorOrder[1..][j - 1]; }
    }
  }

  /** A floor that fits a request of at least one room holds an available room. */
  lemma FittingFloorOccurs(available: seq<Room>, count: nat, f: int)
    requires count >= 1 && FloorFits(available, count, f)
    ensures exists i :: 0 <= i < |available| && available[i].floor == f
  {
    InFloorGroup(available, f, 0);
  }

  /** `floorOrder` visits every floor that has an available room. */
  ghost predicate CoversFloors(available: seq<Room>, floorOrder: seq<int>)
  {
    forall i :: 0 <= i < |available| ==> available[i].floor in floorOrder
  }

  /**
   * When enough rooms are available a booking selects exactly `count` of them,
   * and no room twice when the input has none twice.
   */
  lemma AllocateSize(available: seq<Room>, count: nat, floorOrder: seq<int>)
    requires 1 <= count <= |available|
    ensures var r := Allocate(available, count, floorOrder);
      && |r| == count
      && multiset(r) <= multiset(available)
      && (Distinct(available) ==> Distinct(r))
  {
    var r := Allocate(available, count, floorOrder);
    if Distinct(available) {
      DistinctSub(available, r);
    }
  }

  /**
   * When some floor has `count` available rooms, a booking selects `count`
   * rooms all on one such floor, the closest to the lift there.
   */
  lemma AllocateSameFloor(available: seq<Room>, count: nat, floorOrder: seq<int>, f: int)
    requires 1 <= count && CoversFloors(available, floorOrder)
    requires FloorFits(available, count, f)
    ensures exists g :: g in floorOrder && SameFloorChoice(available, count, g, Allocate(available, count, floorOrder))
  {
    var sameFloor := TrySameFloorBooking(available, count, floorOrder);
    FittingFloorOccurs(available, count, f);
    var i :| 0 <= i < |available| && available[i].floor == f;
    var k :| 0 <= k < |floorOrder| && floorOrder[k] == f;
    SameFloorPhase(available, count, floorOrder);
    assert sameFloor != [];
    var k' :| FirstFit(available, count, floorOrder, k') && SameFloorChoice(available, count, floorOrder[k'], sameFloor);
    assert Allocate(available, count, floorOrder) == sameFloor;
    assert floorOrder[k'] in floorOrder;
  }

  /**
   * When no floor has `count` available rooms, a booking selects the greedy
   * `count` first rooms in (floor, position) order.
   */
  lemma AllocateFallback(available: seq<Room>, count: nat, floorOrder: seq<int>)
    requires 1 <= count <= |available|
    requires forall f :: !FloorFits(available, count, f)
    ensures Allocate(available, count, floorOrder) == GreedyBooking(available, count)
    ensures SmallestFirst(ByFloorThenPosition, available, Allocate(available, count, floorOrder))
    ensures |Allocate(available, count, floorOrder)| == count
  {
    SameFloorFindsIffFits(available, count, floorOrder);
    assert TrySameFloorBooking(available, count, floorOrder) == [] by {
      forall k | 0 <= k < |floorOrder| ensures !FloorFits(available, count, floorOrder[k]) {
        var f := floorOrder[k];
        assert !FloorFits(available, count, f);
      }
    }
  }

  /**
   * A strengthening the source does not promise: if the floors are visited in
   * ascending order, the same-floor phase picks the lowest floor that fits.
   */
  lemma LowestFloorFirst(available: seq<Room>, count: nat, floorOrder: seq<int>)
    requires 1 <= count
    requires forall i, j :: 0 <= i < j < |floorOrder| ==> floorOrder[i] < floorOrder[j]
    requires CoversFloors(available, floorOrder)
    ensures var r := TrySameFloorBooking(available, count, floorOrder);
      forall i, f :: 0 <= i < |r| && FloorFits(available, count, f) ==> r[i].floor <= f
  {
    var r := TrySameFloorBooking(available, count, floorOrder);
    if r != [] {
      var k := FirstFitFloor(available, count, floorOrder);
      forall i, f | 0 <= i < |r| && FloorFits(available, count, f) ensures r[i].floor <= f {
        FirstFitIsLowest(available, count, floorOrder, k, f);
      }
    }
  }

  /** A non-empty same-floor result lies on the first visited floor that fits. */
  lemma FirstFitFloor(available: seq<Room>, count: nat, floorOrder: seq<int>) returns (k: int)
    requires 1 <= count && TrySameFloorBooking(available, count, floorOrder) != []
    ensures FirstFit(available, count, floorOrder, k)
    ensures var r := TrySameFloorBooking(available, count, floorOrder);
      forall i :: 0 <= i < |r| ==> r[i].floor == floorOrder[k]
  {
    FirstFitFound(available, count, floorOrder);
    k :| FirstFit(available, count, floorOrder, k) &&
      TrySameFloorBooking(available, count, floorOrder) == TrySameFloorBooking(available, count, floorOrder[k..]);
    SameFloorHead(available, count, floorOrder[k..]);
    assert floorOrder[k..][0] == floorOrder[k];
  }

  lemma FirstFitIsLowest(available: seq<Room>, count: nat, floorOrder: seq<int>, k: int, f: int)
    requires 1 <= count
    requires forall i, j :: 0 <= i < j < |floorOrder| ==> floorOrder[i] < floorOrder[j]
    requires CoversFloors(available, floorOrder)
    requires FirstFit(available, count, floorOrder, k) && FloorFits(available, count, f)
    ensures floorOrder[k] <= f
  {
    FittingFloorOccurs(available, count, f);
    var m :| 0 <= m < |available| && available[m].floor == f;
    var q :| 0 <= q < |floorOrder| && floorOrder[q] == f;
    assert k <= q;
  }

  /** Two orderings of the same rooms group into buckets holding the same rooms. */
  lemma FloorGroupPermuted(a: seq<Room>, b: seq<Room>, f: int)
    requires multiset(a) == multiset(b)
    ensures multiset(FloorGroup(a, f)) == multiset(FloorGroup(b, f))
  {
    var ga, gb := FloorGroup(a, f), FloorGroup(b, f);
    var ma: multiset<Room>, mb: multiset<Room> := multiset(ga), multiset(gb);
    forall x: Room ensures ma[x] == mb[x] {
      FloorGroupExact(a, f, x);
      FloorGroupExact(b, f, x);
    }
  }

  /** Distinct (floor, position) pairs give distinct positions within one floor. */
  lemma FloorGroupDistinctPositions(available: seq<Room>, f: int)
    requires DistinctKeys(ByFloorThenPosition, available)
    ensures DistinctKeys(ByPosition, FloorGroup(available, f))
  {
    var g := FloorGroup(available, f);
    DistinctKeysPermuted(ByFloorThenPosition, available, g);
    forall i, j | 0 <= i < j < |g| ensures !SameKey(ByPosition, g[i], g[j]) {
      assert !SameKey(ByFloorThenPosition, g[i], g[j]);
    }
  }

  /**
   * With distinct (floor, position) pairs the selection does not depend on the
   * order in which the store lists the available rooms.
   */
  lemma {:induction false} AllocateIgnoresListingOrder(a: seq<Room>, b: seq<Room>, count: nat, floorOrder: seq<int>)
    requires DistinctKeys(ByFloorThenPosition, a) && multiset(a) == multiset(b)
    ensures Allocate(a, count, floorOrder) == Allocate(b, count, floorOrder)
  {
    SameFloorIgnoresListingOrder(a, b, count, floorOrder);
    SortIgnoresInputOrder(ByFloorThenPosition, a, b);
    assert |a| == |multiset(a)| == |multiset(b)| == |b|;
    assert GreedyBooking(a, count) == GreedyBooking(b, count);
  }

  lemma {:induction false} SameFloorIgnoresListingOrder(a: seq<Room>, b: seq<Room>, count: nat, floorOrder: seq<int>)
    requires DistinctKeys(ByFloorThenPosition, a) && multiset(a) == multiset(b)
    ensures TrySameFloorBooking(a, count, floorOrder) == TrySameFloorBooking(b, count, floorOrder)
  {
    if floorOrder != [] {
      var f := floorOrder[0];
      var ga, gb := FloorGroup(a, f), FloorGroup(b, f);
      FloorGroupPermuted(a, b, f);
      FloorGroupDistinctPositions(a, f);
      SortIgnoresInputOrder(ByPosition, ga, gb);
      assert |ga| == |multiset(ga)| == |multiset(gb)| == |gb|;
      SameFloorIgnoresListingOrder(a, b, count, floorOrder[1..]);
    }
  }
}
