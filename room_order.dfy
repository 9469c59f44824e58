/**
 * The two orders the allocator sorts rooms by, and a stable sort for them.
 * Java's `List.sort` and `Stream.sorted` are stable merge sorts; the insertion
 * sort here is stable as well, so rooms with equal keys keep their input order.
 */
module RoomOrder {
  import opened Rooms

  /** `Comparator.comparing(Room::getPosition)` and the same with `.thenComparing` on floor first. */
  datatype Order = ByPosition | ByFloorThenPosition

  /** `a` may come before `b` in order `o`. */
  predicate Le(o: Order, a: Room, b: Room)
  {
    match o
    case ByPosition => a.position <= b.position
    case ByFloorThenPosition => a.floor < b.floor || (a.floor == b.floor && a.position <= b.position)
  }

  /** `a` and `b` have the same sort key under `o`. */
  predicate SameKey(o: Order, a: Room, b: Room)
  {
    match o
    case ByPosition => a.position == b.position
    case ByFloorThenPosition => a.floor == b.floor && a.position == b.position
  }

  predicate Sorted(o: Order, s: seq<Room>)
  {
    forall i, j :: 0 <= i < j < |s| ==> Le(o, s[i], s[j])
  }

  /** No two entries of `s` share a sort key (so, in particular, no room occurs twice). */
  predicate DistinctKeys(o: Order, s: seq<Room>)
  {
    forall i, j :: 0 <= i < j < |s| ==> !SameKey(o, s[i], s[j])
  }

  /**
   * `r` is a selection of `pool` that lists, in order, rooms no later than any
   * room of `pool` left out: every copy of a pool entry that `r` does not take
   * sorts no earlier than every entry of `r`.
   */
  ghost predicate SmallestFirst(o: Order, pool: seq<Room>, r: seq<Room>)
  {
    && Sorted(o, r)
    && multiset(r) <= multiset(pool)
    && forall i, j :: 0 <= i < |pool| && 0 <= j < |r| && multiset(r)[pool[i]] < multiset(pool)[pool[i]] ==>
         Le(o, r[j], pool[i])
  }

  /** Puts `x` in front of the first entry of `s` it may precede. */
  function Insert(o: Order, x: Room, s: seq<Room>): (r: seq<Room>)
    requires Sorted(o, s)
    ensures Sorted(o, r)
    ensures multiset(r) == multiset(s) + multiset{x}
    ensures forall j :: 0 <= j < |r| ==> r[j] == x || r[j] in s
  {
    if s == [] then [x]
    else if Le(o, x, s[0]) then
      SortedCons(o, x, s);
      [x] + s
    else
      assert s == [s[0]] + s[1..];
      var rest := Insert(o, x, s[1..]);
      InsertStep(o, x, s, rest);
      [s[0]] + rest
  }

  /** Putting a room no later than every entry in front of a sorted list keeps it sorted. */
  lemma SortedCons(o: Order, y: Room, t: seq<Room>)
    requires Sorted(o, t)
    requires t == [] || Le(o, y, t[0])
    ensures Sorted(o, [y] + t)
  {
    var r := [y] + t;
    forall i, j | 0 <= i < j < |r| ensures Le(o, r[i], r[j]) {
      if i == 0 && j > 1 {
        assert Le(o, t[0], t[j - 1]);
      }
    }
  }

  /** The head of a sorted list may precede everything the rest becomes after an insertion. */
  lemma InsertStep(o: Order, x: Room, s: seq<Room>, rest: seq<Room>)
    requires s != [] && Sorted(o, s) && !Le(o, x, s[0])
    requires Sorted(o, rest) && forall j :: 0 <= j < |rest| ==> rest[j] == x || rest[j] in s[1..]
    ensures Sorted(o, [s[0]] + rest)
  {
    var r := [s[0]] + rest;
    forall i, j | 0 <= i < j < |r| ensures Le(o, r[i], r[j]) {
      if i == 0 {
        var y := rest[j - 1];
        if y != x {
          var m :| 0 <= m < |s[1..]| && s[1..][m] == y;
          assert Le(o, s[0], s[m + 1]);
        }
      }
    }
  }

  /** Stable insertion sort. */
  function Sort(o: Order, s: seq<Room>): (r: seq<Room>)
    ensures Sorted(o, r)
    ensures multiset(r) == multiset(s)
    ensures |r| == |s|
  {
    if s == [] then []
    else
      assert s == [s[0]] + s[1..];
      Insert(o, s[0], Sort(o, s[1..]))
  }

  /** The first `k` entries of a sorted permutation of `pool` are its `k` smallest. */
  lemma SortedPrefixSmallest(o: Order, pool: seq<Room>, s: seq<Room>, k: nat)
    requires Sorted(o, s) && multiset(s) == multiset(pool) && k <= |s|
    ensures SmallestFirst(o, pool, s[..k])
  {
    var r := s[..k];
    assert s == r + s[k..];
    forall i, j | 0 <= i < |pool| && 0 <= j < |r| && multiset(r)[pool[i]] < multiset(pool)[pool[i]]
      ensures Le(o, r[j], pool[i])
    {
      var x := pool[i];
      assert x in multiset(s[k..]);
      var m :| 0 <= m < |s[k..]| && s[k..][m] == x;
      assert s[j] == r[j] && s[k + m] == x;
    }
  }

  /**
   * When keys are distinct, the sorted order of a collection is unique: two
   * sorted sequences holding the same rooms are equal.
   */
  lemma {:induction false} SortedUnique(o: Order, a: seq<Room>, b: seq<Room>)
    requires Sorted(o, a) && Sorted(o, b) && DistinctKeys(o, a)
    requires multiset(a) == multiset(b)
    ensures a == b
  {
    assert |b| == |multiset(b)| == |multiset(a)| == |a|;
    if a != [] {
      SortedHeadsEqual(o, a, b);
      SameTailRooms(a, b);
      SortedTail(o, a);
      SortedTail(o, b);
      SortedUnique(o, a[1..], b[1..]);
      assert a == [a[0]] + a[1..] && b == [b[0]] + b[1..];
    }
  }

  /** Lists holding the same rooms and starting alike hold the same rooms after their heads. */
  lemma SameTailRooms(a: seq<Room>, b: seq<Room>)
    requires a != [] && b != [] && a[0] == b[0] && multiset(a) == multiset(b)
    ensures multiset(a[1..]) == multiset(b[1..])
  {
    assert a == [a[0]] + a[1..] && b == [b[0]] + b[1..];
    assert multiset(a[1..]) == multiset(a) - multiset{a[0]};
    assert multiset(b[1..]) == multiset(b) - multiset{b[0]};
  }

  /** Dropping the first entry keeps a list sorted and its keys distinct. */
  lemma SortedTail(o: Order, s: seq<Room>)
    requires s != [] && Sorted(o, s)
    ensures Sorted(o, s[1..])
    ensures DistinctKeys(o, s) ==> DistinctKeys(o, s[1..])
  {
    var t := s[1..];
    forall i, j | 0 <= i < j < |t| ensures Le(o, t[i], t[j]) && (DistinctKeys(o, s) ==> !SameKey(o, t[i], t[j])) {
      assert t[i] == s[i + 1] && t[j] == s[j + 1];
    }
  }

  /** Two sorted sequences holding the same rooms with distinct keys start alike. */
  lemma SortedHeadsEqual(o: Order, a: seq<Room>, b: seq<Room>)
    requires Sorted(o, a) && Sorted(o, b) && DistinctKeys(o, a)
    requires multiset(a) == multiset(b) && a != [] && b != []
    ensures a[0] == b[0]
  {
    assert b[0] in multiset(a) && a[0] in multiset(b);
    var i :| 0 <= i < |a| && a[i] == b[0];
    var j :| 0 <= j < |b| && b[j] == a[0];
    assert Le(o, a[0], b[0]) by { if i > 0 { assert Le(o, a[0], a[i]); } }
    assert Le(o, b[0], a[0]) by { if j > 0 { assert Le(o, b[0], b[j]); } }
    var first, other := a[0], a[i];
    assert 0 < i ==> !SameKey(o, first, other);
  }

  /** Sorting does not depend on the order of its input when keys are distinct. */
  lemma SortIgnoresInputOrder(o: Order, a: seq<Room>, b: seq<Room>)
    requires DistinctKeys(o, a) && multiset(a) == multiset(b)
    ensures Sort(o, a) == Sort(o, b)
  {
    var sa, sb := Sort(o, a), Sort(o, b);
    DistinctKeysPermuted(o, a, sa);
    SortedUnique(o, sa, sb);
  }

  /** Distinct keys are a property of the collection, not of its order. */
  lemma DistinctKeysPermuted(o: Order, a: seq<Room>, b: seq<Room>)
    requires DistinctKeys(o, a) && multiset(b) <= multiset(a)
    ensures DistinctKeys(o, b)
  {
    assert Distinct(a) by {
      forall i, j | 0 <= i < j < |a| ensures a[i] != a[j] { assert !SameKey(o, a[i], a[j]); }
    }
    DistinctSub(a, b);
    forall i, j | 0 <= i < j < |b| ensures !SameKey(o, b[i], b[j]) {
      assert b[i] in multiset(a) && b[j] in multiset(a);
      var p :| 0 <= p < |a| && a[p] == b[i];
      var q :| 0 <= q < |a| && a[q] == b[j];
      assert p != q;
    }
  }
}
