/** crispy::strong_lru_hashtable, in the build that checks itself (DEBUG_STRONG_LRU_HASHTABLE). */
module LruHashtable {
  import opened Options
  import opened Words
  import opened StrongHashing
  import opened RecencyTable
  import opened IntrusiveLinks

  ghost predicate Falling(o: seq<uint32>, p: seq<nat>) {
    InBounds(|o|, p) && forall k {:trigger o[p[k]]} :: 1 <= k < |p| ==> o[p[k]] < o[p[k - 1]]
  }

  lemma FallingExtended(o: seq<uint32>, p: seq<nat>, n: nat)
    requires 0 < n < |p| && InBounds(|o|, p)
    ensures Falling(o, p[..n + 1]) <==> Falling(o, p[..n]) && o[p[n]] < o[p[n - 1]]
  {
    var q, r := p[..n + 1], p[..n];
    if Falling(o, q) {
      assert o[q[n]] < o[q[n - 1]];
      FallingShortened(o, q);
      assert q[..n] == r;
    }
    if Falling(o, r) && o[p[n]] < o[p[n - 1]] {
      FallingLengthened(o, r, p[n]);
      assert r + [p[n]] == q;
    }
  }

  lemma FallingShortened(o: seq<uint32>, q: seq<nat>)
    requires q != [] && Falling(o, q)
    ensures Falling(o, q[..|q| - 1])
  {
    var r := q[..|q| - 1];
    forall k | 1 <= k < |r|
      ensures o[r[k]] < o[r[k - 1]]
    {
      assert o[q[k]] < o[q[k - 1]];
    }
  }

  lemma FallingLengthened(o: seq<uint32>, r: seq<nat>, e: nat)
    requires r != [] && Falling(o, r) && e < |o| && o[e] < o[r[|r| - 1]]
    ensures Falling(o, r + [e])
  {
    var q := r + [e];
    forall k | 1 <= k < |q|
      ensures o[q[k]] < o[q[k - 1]]
    {
      if k < |r| {
        assert o[r[k]] < o[r[k - 1]];
      }
    }
  }

  /** The numbers drawn on linking fall strictly along the recency chain, starting below the sentinel's. */
  ghost predicate Ordered(o: seq<uint32>, lru: seq<nat>) {
    Falling(o, [0] + lru)
  }

  /** The entry draws the sentinel's number, which moves on. */
  ghost function Drawn(o: seq<uint32>, e: nat): seq<uint32>
    requires e < |o|
  {
    o[e := o[0]][0 := Increment(o[0])]
  }

  ghost predicate Absent(hash: seq<StrongHash>, lru: seq<nat>, h: StrongHash) {
    forall i :: 0 <= i < |lru| ==> lru[i] < |hash| && hash[lru[i]] != h
  }

  ghost predicate Full<V>(vals: seq<Option<V>>, lru: seq<nat>) {
    forall k :: 0 <= k < |lru| ==> lru[k] < |vals| && vals[lru[k]].Some?
  }

  ghost function ItemsOf<V>(lru: seq<nat>, hash: seq<StrongHash>, vals: seq<Option<V>>): (r: seq<Item<V>>)
    requires |hash| == |vals| && Full(vals, lru)
    ensures |r| == |lru|
    ensures forall k :: 0 <= k < |lru| ==> r[k] == Item(lru[k], hash[lru[k]], vals[lru[k]].value)
  {
    seq(|lru|, k requires 0 <= k < |lru| => Item(lru[k], hash[lru[k]], vals[lru[k]].value))
  }

  class StrongLruHashtable<V> {
    const hashMask: nat
    const capacity: nat
    const defaultValue: V
    const hashTable: array<nat>
    const entries: array<Entry<V>>
    var size: nat
    var stats: Stats
    var lastLruCount: int
    var aborted: bool
    ghost var shape: Shape

    ghost function Cols(): Columns
      reads entries
    {
      ColumnsOf(entries[..])
    }

    ghost function Vals(): seq<Option<V>>
      reads entries
    {
      ValuesOf(entries[..])
    }

    ghost function Ords(): seq<uint32>
      reads entries
    {
      OrderingsOf(entries[..])
    }

    ghost predicate Sized() {
      && capacity >= 2
      && entries.Length == capacity + 1
      && hashTable.Length == hashMask + 1
    }

    ghost function Slotting(): StrongHash -> nat {
      (h: StrongHash) => SlotOf(h, hashMask)
    }

    /** The three linked structures are sound and the counts agree with them. */
    ghost predicate Linked()
      reads this, hashTable, entries
    {
      && Sized()
      && Inv(Slotting(), hashTable[..], Cols(), shape)
      && lastLruCount == |shape.lru|
      && (aborted || Ordered(Ords(), shape.lru))
    }

    ghost predicate Valid()
      reads this, hashTable, entries
    {
      && Linked()
      && size == |shape.lru|
      && Full(Vals(), shape.lru)
    }

    /** The recency list this table represents. */
    ghost function Contents(): (t: Table<V>)
      requires Linked() && Full(Vals(), shape.lru)
      reads this, hashTable, entries
    {
      Table(capacity, ItemsOf(shape.lru, Cols().hash, Vals()), shape.free, stats, Ords()[0], aborted)
    }

    constructor (slotCount: nat, entryCount: nat, defaultValue: V)
      requires slotCount >= 1 && IsPowerOfTwo(slotCount)
      requires entryCount >= 2
      ensures fresh(hashTable) && fresh(entries)
      ensures hashMask == slotCount - 1 && this.defaultValue == defaultValue
      ensures Valid() && Contents() == Fresh(entryCount)
    {
      hashMask := slotCount - 1;
      capacity := entryCount;
      this.defaultValue := defaultValue;
      hashTable := new nat[slotCount](_ => 0);
      entries := new Entry<V>[entryCount + 1](_ => BlankEntry(0));
      stats := Stats(0, 0, 0);
      aborted := false;
      lastLruCount := 0;
      size := 0;
      new;
      Reset();
    }

    /** Empties every slot and strings all entries onto the free chain. */
    method Reset()
      requires Sized()
      modifies hashTable, entries, this`shape
      ensures shape == BlankShape(capacity, hashMask + 1)
      ensures Inv(Slotting(), hashTable[..], Cols(), shape)
      ensures Ords()[0] == 0
    {
      forall s | 0 <= s <= hashMask {
        hashTable[s] := 0;
      }
      var entryIndex := 0;
      while entryIndex <= capacity
        invariant 0 <= entryIndex <= capacity + 1
        invariant forall x :: 0 <= x < entryIndex ==> entries[x] == BlankEntry(x + 1)
        invariant forall s :: 0 <= s <= hashMask ==> hashTable[s] == 0
      {
        entries[entryIndex] := BlankEntry(1 + entryIndex);
        entryIndex := entryIndex + 1;
      }
      entries[capacity] := BlankEntry(0);
      shape := BlankShape(capacity, hashMask + 1);
      BlankInv(Slotting(), hashTable[..], Cols(), capacity);
    }

    /** The walk of validateChange: the length of the recency chain, and whether its numbers fall. */
    method MeasureLruChain(ghost lru: seq<nat>) returns (count: nat, falling: bool)
      requires Sized() && LruLinked(Cols(), lru)
      ensures count == |lru| && falling == Ordered(Ords(), lru)
    {
      ghost var p, q, o := Loop(lru), [0] + lru, Ords();
      count := 0;
      falling := true;
      var lastOrdering := entries[0].ordering;
      assert Cols().next[p[0]] == p[1];
      var entryIndex := entries[0].next;
      while entryIndex != 0
        invariant 0 <= count <= |lru| && entryIndex == p[count + 1]
        invariant lastOrdering == o[q[count]]
        invariant falling == Falling(o, q[..count + 1])
        decreases |lru| - count
      {
        FallingExtended(o, q, count + 1);
        falling := falling && entries[entryIndex].ordering < lastOrdering;
        lastOrdering := entries[entryIndex].ordering;
        assert Cols().next[p[count + 1]] == p[count + 2];
        entryIndex := entries[entryIndex].next;
        count := count + 1;
      }
      assert q[..count + 1] == q;
    }

    /** validateChange: compares the recency chain with the length it last had. */
    method ValidateChange(adj: int, ghost lru: seq<nat>) returns (newCount: int)
      requires Sized() && LruLinked(Cols(), lru)
      modifies this`lastLruCount, this`aborted
      ensures newCount == old(lastLruCount) + adj
      ensures lastLruCount == |lru|
      ensures aborted == (old(aborted) || !Ordered(Ords(), lru) || newCount != |lru|)
    {
      var count, falling := MeasureLruChain(lru);
      newCount := lastLruCount + adj;
      lastLruCount := count;
      aborted := aborted || !falling || newCount != count;
    }

    method JoinNeighbours(e: nat)
      requires Sized() && e <= capacity && entries[e].prev <= capacity && entries[e].next <= capacity
      modifies entries
      ensures Cols() == Unlinked(old(Cols()), e)
      ensures Vals() == old(Vals()) && Ords() == old(Ords())
    {
      var p, n := entries[e].prev, entries[e].next;
      entries[p] := entries[p].(next := n);
      entries[n] := entries[n].(prev := p);
    }

    /** unlinkFromLRUChain */
    method UnlinkFromLruChain(e: nat, ghost lru: seq<nat>, ghost k: nat)
      requires Sized() && LruLinked(Cols(), lru) && k < |lru| && lru[k] == e
      requires lastLruCount == |lru| && (aborted || Ordered(Ords(), lru))
      modifies entries, this`lastLruCount, this`aborted
      ensures Cols().same == old(Cols().same) && Cols().hash == old(Cols().hash)
      ensures Vals() == old(Vals()) && Ords() == old(Ords())
      ensures LruLinked(Cols(), Without(lru, k))
      ensures lastLruCount == |lru| - 1 && aborted == old(aborted)
      ensures aborted || Ordered(Ords(), Without(lru, k))
    {
      UnlinkedLru(Cols(), lru, k);
      JoinNeighbours(e);
      if Ordered(Ords(), lru) {
        OrderedWithout(Ords(), lru, k);
      }
      var _ := ValidateChange(-1, Without(lru, k));
    }

    method PushFront(e: nat)
      requires Sized() && 0 < e <= capacity && entries[0].next <= capacity
      modifies entries
      ensures Cols() == LinkedAtHead(old(Cols()), e)
      ensures Vals() == old(Vals()) && Ords() == old(Ords())
    {
      var oldHead := entries[0].next;
      entries[e] := entries[e].(next := oldHead, prev := 0);
      entries[oldHead] := entries[oldHead].(prev := e);
      entries[0] := entries[0].(next := e);
    }

    method DrawNumber(e: nat)
      requires Sized() && 0 < e <= capacity
      modifies entries
      ensures Cols() == old(Cols())
      ensures Vals() == old(Vals()) && Ords() == Drawn(old(Ords()), e)
    {
      entries[e] := entries[e].(ordering := entries[0].ordering);
      entries[0] := entries[0].(ordering := Increment(entries[0].ordering));
    }

    /** linkToLRUChainHead */
    method LinkToLruChainHead(e: nat, ghost lru: seq<nat>)
      requires Sized() && LruLinked(Cols(), lru) && 0 < e <= capacity && e !in lru
      requires lastLruCount == |lru| && size == |lru| + 1 && (aborted || Ordered(Ords(), lru))
      modifies entries, this`lastLruCount, this`aborted
      ensures Cols().same == old(Cols().same) && Cols().hash == old(Cols().hash)
      ensures Vals() == old(Vals()) && Ords()[0] == Increment(old(Ords()[0]))
      ensures LruLinked(Cols(), [e] + lru)
      ensures lastLruCount == |lru| + 1 && (aborted || Ordered(Ords(), [e] + lru))
      ensures aborted == (old(aborted) || old(Ords()[0]) == WORD32 - 1)
    {
      LinkedAtHeadLru(Cols(), lru, e);
      PushFront(e);
      DrawNumber(e);
      if old(Ordered(Ords(), lru)) {
        OrderedPrefixed(old(Ords()), lru, e);
      }
      var count := ValidateChange(1, [e] + lru);
      aborted := aborted || count != size;
    }

    // ----- Lookup -----

    /**
      The walk along a collision chain that remove, peek, findEntry and the get functions share:
      the entry with hash `h` and the entry before it in the chain, or 0 when there is none.
      */
    method FindInChain(h: StrongHash, s: nat, ghost c: seq<nat>) returns (e: nat, before: nat, ghost j: nat)
      requires Sized() && s <= hashMask && ChainLinked(Cols().same, hashTable[s], c)
      ensures if e == 0 then forall i :: 0 <= i < |c| ==> entries[c[i]].hash != h
              else j < |c| && c[j] == e && entries[e].hash == h && before == if j == 0 then 0 else c[j - 1]
      ensures before == 0 || (before <= capacity && Cols().same[before] == e)
    {
      ghost var p, t := c + [0], Cols();
      e := hashTable[s];
      before, j := 0, 0;
      while e != 0
        invariant 0 <= j <= |c| && e == p[j] && before == if j == 0 then 0 else c[j - 1]
        invariant before == 0 || (before <= capacity && t.same[before] == e)
        invariant forall i :: 0 <= i < j ==> entries[c[i]].hash != h
        decreases |c| - j
      {
        if entries[e].hash == h {
          return;
        }
        before := e;
        assert t.same[p[j]] == p[j + 1];
        e := entries[e].nextSame;
        j := j + 1;
      }
    }

    /** FindInChain, seen from the recency chain: `e` is the k-th most recently used entry. */
    method Find(h: StrongHash) returns (e: nat, before: nat, ghost k: nat, ghost j: nat)
      requires Linked()
      ensures e == 0 ==> Absent(Cols().hash, shape.lru, h)
      ensures e != 0 ==> Located(SlotOf(h, hashMask), j, k, e) && Cols().hash[e] == h
      ensures e != 0 ==> before == if j == 0 then 0 else shape.chains[SlotOf(h, hashMask)][j - 1]
      ensures before == 0 || (before <= capacity && Cols().same[before] == e)
    {
      var s := SlotOf(h, hashMask);
      assert Slotting()(h) == s;
      assert ChainLinked(Cols().same, hashTable[..][s], shape.chains[s]);
      e, before, j := FindInChain(h, s, shape.chains[s]);
      k := 0;
      if e == 0 {
        NotInChainNotLive(Slotting(), hashTable[..], Cols(), shape, h);
      } else {
        k := ChainEntryIsLive(Slotting(), hashTable[..], Cols(), shape, s, j);
      }
    }

    /** Entry `e` is the k-th of the recency chain and the j-th of collision chain `s`. */
    ghost predicate Located(s: nat, j: nat, k: nat, e: nat)
      reads this
    {
      && k < |shape.lru| && shape.lru[k] == e
      && s < |shape.chains| && j < |shape.chains[s]| && shape.chains[s][j] == e
    }

    /** What a successful lookup does: count the hit and move the entry to the front. */
    method Promote(e: nat, ghost k: nat)
      requires Valid() && k < |shape.lru| && shape.lru[k] == e
      modifies entries, this
      ensures Valid() && Contents() == Hit(old(Contents()), k)
      ensures shape == old(shape).(lru := ToFront(old(shape.lru), k))
      ensures entries[e].value == old(entries[e].value)
    {
      ghost var t, g := Cols(), shape;
      stats := stats.(hits := Increment(stats.hits));
      UnlinkFromLruChain(e, g.lru, k);
      LinkToLruChainHead(e, Without(g.lru, k));
      HitInv(Slotting(), hashTable[..], t, Cols(), g, k);
      assert Vals()[e] == old(Vals()[e]);
      shape := g.(lru := ToFront(g.lru, k));
      ItemsToFront(g.lru, t.hash, Vals(), k);
    }

    // ----- Leaving the table -----

    method Bypass(s: nat, before: nat, target: nat)
      requires Sized() && s <= hashMask && before <= capacity
      modifies hashTable, entries
      ensures hashTable[..] == if before == 0 then old(hashTable[..])[s := target] else old(hashTable[..])
      ensures Cols() == if before == 0 then old(Cols()) else old(Cols()).(same := old(Cols()).same[before := target])
      ensures Vals() == old(Vals()) && Ords() == old(Ords())
    {
      if before != 0 {
        entries[before] := entries[before].(nextSame := target);
      } else {
        hashTable[s] := target;
      }
    }

    method PushFree(e: nat)
      requires Sized() && 0 < e <= capacity
      modifies entries
      ensures Cols() == old(Cols()).(same := old(Cols()).same[e := old(Cols()).same[0]][0 := e])
      ensures Vals() == old(Vals()) && Ords() == old(Ords())
    {
      entries[e] := entries[e].(nextSame := entries[0].nextSame);
      entries[0] := entries[0].(nextSame := e);
    }

    /** Takes an entry that is already off the recency chain out of its collision chain and frees it. */
    method Release(e: nat, before: nat, s: nat, ghost t: Columns, ghost k: nat, ghost j: nat)
      requires Sized() && Deletable(Slotting(), hashTable[..], t, shape, k, s, j)
      requires shape.lru[k] == e && before == if j == 0 then 0 else shape.chains[s][j - 1]
      requires Cols().same == t.same && Cols().hash == t.hash && LruLinked(Cols(), Without(shape.lru, k))
      modifies hashTable, entries, this`shape
      ensures shape == DeletedShape(old(shape), k, s, j)
      ensures Inv(Slotting(), hashTable[..], Cols(), shape)
      ensures Cols().hash == t.hash && Vals() == old(Vals()) && Ords() == old(Ords())
    {
      assert ChainLinked(t.same, hashTable[..][s], shape.chains[s]);
      Bypass(s, before, entries[e].nextSame);
      PushFree(e);
      DeleteInv(Slotting(), old(hashTable[..]), t, Cols(), shape, k, s, j);
      shape := DeletedShape(shape, k, s, j);
    }

    method Unthread(e: nat)
      requires Sized() && 0 < e <= capacity
      modifies entries
      ensures Cols().same == old(Cols()).same && Cols().hash == old(Cols()).hash
      ensures forall x :: 0 <= x <= capacity && x != e ==>
                Cols().next[x] == old(Cols()).next[x] && Cols().prev[x] == old(Cols()).prev[x]
      ensures Vals() == old(Vals()) && Ords() == old(Ords())
    {
      entries[e] := entries[e].(prev := 0, next := entries[0].next);
    }

    method TakeOffLruChain(e: nat, ghost k: nat)
      requires Sized() && LruLinked(Cols(), shape.lru) && k < |shape.lru| && shape.lru[k] == e
      modifies entries
      ensures Cols().same == old(Cols()).same && Cols().hash == old(Cols()).hash
      ensures LruLinked(Cols(), Without(shape.lru, k))
      ensures Vals() == old(Vals()) && Ords() == old(Ords())
    {
      UnlinkedLru(Cols(), shape.lru, k);
      JoinNeighbours(e);
      ghost var t := Cols();
      Unthread(e);
      StaleLinks(t, Cols(), Without(shape.lru, k), e);
    }

    /** The body of remove, on a table whose values need not all be constructed. */
    method RemoveEntry(h: StrongHash) returns (e: nat, ghost k: nat, ghost j: nat)
      requires Linked() && size == |shape.lru|
      modifies hashTable, entries, this
      ensures Linked() && size == |shape.lru|
      ensures stats == old(stats) && aborted == old(aborted)
      ensures Cols().hash == old(Cols().hash) && Vals() == old(Vals()) && Ords() == old(Ords())
      ensures e == 0 ==> shape == old(shape) && Absent(Cols().hash, shape.lru, h)
      ensures e != 0 ==> old(Located(SlotOf(h, hashMask), j, k, e)) && old(Cols().hash[e]) == h
      ensures e != 0 ==> shape == DeletedShape(old(shape), k, SlotOf(h, hashMask), j)
    {
      var before;
      e, before, k, j := Find(h);
      if e == 0 {
        return;
      }
      ghost var t, lru := Cols(), shape.lru;
      TakeOffLruChain(e, k);
      assert before == 0 || Cols().same[before] == e;
      aborted := aborted || (before != 0 && entries[before].nextSame != e);
      Release(e, before, SlotOf(h, hashMask), t, k, j);
      size := size - 1;
      if Ordered(Ords(), lru) {
        OrderedWithout(Ords(), lru, k);
      }
      var _ := ValidateChange(-1, Without(lru, k));
    }

    method Remove(h: StrongHash)
      requires Valid()
      modifies hashTable, entries, this
      ensures Valid() && Contents() == Removed(old(Contents()), h)
    {
      ghost var g := shape;
      var e, k, j := RemoveEntry(h);
      ItemsDistinct(g.lru, old(Cols().hash), old(Vals()));
      if e != 0 {
        PositionUnique(old(Contents()).items, k);
        ItemsWithout(g.lru, old(Cols().hash), old(Vals()), k);
      }
    }

    // ----- Entering the table -----

    /** The walk of recycle: whose link leads to entry `e`, the slot's (0) or another entry's. */
    method FindLinkTo(e: nat, s: nat, ghost c: seq<nat>, ghost j: nat) returns (before: nat)
      requires Sized() && s <= hashMask && ChainLinked(Cols().same, hashTable[s], c) && j < |c| && c[j] == e
      ensures before == if j == 0 then 0 else c[j - 1]
    {
      ghost var p, i := c + [0], 0;
      before := 0;
      var current := hashTable[s];
      while current != e
        invariant 0 <= i <= j && current == p[i] && before == if i == 0 then 0 else c[i - 1]
        decreases j - i
      {
        assert current != 0;
        before := current;
        assert Cols().same[p[i]] == p[i + 1];
        current := entries[current].nextSame;
        i := i + 1;
      }
    }

    method DropTail(e: nat)
      requires Sized() && e <= capacity && entries[e].prev <= capacity && entries[e].next == 0
      modifies entries
      ensures Cols() == Unlinked(old(Cols()), e)
      ensures Vals() == old(Vals()) && Ords() == old(Ords())
    {
      var p := entries[e].prev;
      entries[p] := entries[p].(next := 0);
      entries[0] := entries[0].(prev := p);
    }

    /** The first half of recycle: takes the tail off the recency chain. */
    method UnlinkTail() returns (e: nat)
      requires Sized() && LruLinked(Cols(), shape.lru) && shape.lru != []
      requires lastLruCount == |shape.lru| && (aborted || Ordered(Ords(), shape.lru))
      modifies entries, this`lastLruCount, this`aborted
      ensures e == shape.lru[|shape.lru| - 1]
      ensures Cols().same == old(Cols().same) && Cols().hash == old(Cols().hash)
      ensures Vals() == old(Vals()) && Ords() == old(Ords())
      ensures LruLinked(Cols(), Without(shape.lru, |shape.lru| - 1))
      ensures lastLruCount == |shape.lru| - 1 && aborted == old(aborted)
      ensures aborted || Ordered(Ords(), Without(shape.lru, |shape.lru| - 1))
    {
      ghost var lru, last := shape.lru, |shape.lru| - 1;
      LruTail(Cols(), lru);
      UnlinkedLru(Cols(), lru, last);
      aborted := aborted || entries[0].prev == 0;
      e := entries[0].prev;
      DropTail(e);
      if Ordered(Ords(), lru) {
        OrderedWithout(Ords(), lru, last);
      }
      var _ := ValidateChange(-1, Without(lru, last));
    }

    lemma TailInChain() returns (s: nat, j: nat)
      requires Linked() && shape.lru != []
      ensures var last := |shape.lru| - 1;
              s == SlotOf(Cols().hash[shape.lru[last]], hashMask) && Located(s, j, last, shape.lru[last])
      ensures ChainLinked(Cols().same, hashTable[s], shape.chains[s])
    {
      var last := |shape.lru| - 1;
      j := LiveEntryIsInChain(Slotting(), hashTable[..], Cols(), shape, last);
      s := SlotOf(Cols().hash[shape.lru[last]], hashMask);
      assert ChainLinked(Cols().same, hashTable[..][s], shape.chains[s]);
    }

    /** recycle: evicts the least recently used entry. */
    method Recycle() returns (ghost s: nat, ghost j: nat)
      requires Linked() && size == |shape.lru| && shape.free == []
      modifies hashTable, entries, this
      ensures Linked() && size == old(size) && aborted == old(aborted)
      ensures old(Located(s, j, |shape.lru| - 1, shape.lru[|shape.lru| - 1]))
      ensures shape == DeletedShape(old(shape), |old(shape).lru| - 1, s, j)
      ensures stats == old(stats).(recycles := Increment(old(stats).recycles))
      ensures Cols().hash == old(Cols().hash) && Vals() == old(Vals()) && Ords() == old(Ords())
    {
      ghost var t, last := Cols(), |shape.lru| - 1;
      aborted := aborted || size != capacity;
      s, j := TailInChain();
      var e := UnlinkTail();
      assert Cols().hash[e] == t.hash[e];
      var slot := SlotOf(entries[e].hash, hashMask);
      var before := FindLinkTo(e, slot, shape.chains[slot], j);
      Release(e, before, slot, t, last, j);
      stats := stats.(recycles := Increment(stats.recycles));
    }

    /** The shape `room` is the shape `g` with an entry to spare. */
    ghost predicate RoomMade(g: Shape, room: Shape, s: nat, j: nat) {
      if g.free != [] then room == g
      else
        && |g.lru| >= 1
        && s < |g.chains| && j < |g.chains[s]| && g.chains[s][j] == g.lru[|g.lru| - 1]
        && room == DeletedShape(g, |g.lru| - 1, s, j)
    }

    method Evict() returns (ghost s: nat, ghost j: nat)
      requires Valid() && shape.free == []
      modifies hashTable, entries, this
      ensures WellFormed(old(Contents()))
      ensures Linked() && shape.free != [] && size == |shape.lru| + 1 && Full(Vals(), shape.lru)
      ensures RoomMade(old(shape), shape, s, j)
      ensures Contents() == MakeRoom(old(Contents()))
      ensures Cols().hash == old(Cols().hash) && shape.lru <= old(shape.lru)
    {
      ContentsWellFormed();
      DropLast(shape.lru, Cols().hash, Vals());
      ghost var lru, t := shape.lru, Contents();
      s, j := Recycle();
      assert shape.free == [t.items[|t.items| - 1].index];
      assert Contents().items == t.items[..|t.items| - 1];
    }

    /** The first step of allocateEntry. */
    method EnsureFreeEntry() returns (ghost s: nat, ghost j: nat)
      requires Valid()
      modifies hashTable, entries, this
      ensures Linked() && shape.free != [] && size == |shape.lru| + 1 && Full(Vals(), shape.lru)
      ensures RoomMade(old(shape), shape, s, j)
      ensures Contents() == MakeRoom(old(Contents()))
      ensures Cols().hash == old(Cols().hash) && shape.lru <= old(shape.lru)
    {
      ContentsWellFormed();
      FreeHead(Cols(), shape.free);
      s, j := 0, 0;
      if entries[0].nextSame == 0 {
        s, j := Evict();
      } else {
        size := size + 1;
      }
    }

    lemma ContentsWellFormed()
      requires Valid()
      ensures WellFormed(Contents())
    {
      ItemsDistinct(shape.lru, Cols().hash, Vals());
    }

    /** Takes the first free entry off the free chain and puts it at the head of its collision chain. */
    method TakeFree(e: nat, s: nat, h: StrongHash)
      requires Sized() && 0 < e <= capacity && s <= hashMask && entries[0].nextSame == e
      modifies hashTable, entries
      ensures hashTable[..] == old(hashTable[..])[s := e]
      ensures Cols() == old(Cols()).(same := InsertedSame(old(Cols()).same, e, old(hashTable[s])),
                                     hash := old(Cols()).hash[e := h])
      ensures Vals() == old(Vals())[e := None] && Ords() == old(Ords())
    {
      entries[0] := entries[0].(nextSame := entries[e].nextSame);
      entries[e] := entries[e].(value := None, hash := h, nextSame := hashTable[s]);
      hashTable[s] := e;
    }

    /** The second step of allocateEntry. The slot is read only now: recycling may have changed it. */
    method InsertFree(h: StrongHash) returns (e: nat)
      requires Linked() && shape.free != [] && size == |shape.lru| + 1
      requires Absent(Cols().hash, shape.lru, h)
      modifies hashTable, entries, this
      ensures Linked() && size == old(size) && stats == old(stats)
      ensures e == old(shape).free[0] && shape == InsertedShape(old(shape), SlotOf(h, hashMask))
      ensures Cols().hash == old(Cols().hash)[e := h] && Vals() == old(Vals())[e := None]
      ensures Ords()[0] == Increment(old(Ords()[0]))
      ensures aborted == (old(aborted) || old(Ords()[0]) == WORD32 - 1)
    {
      ghost var t, g, slots := Cols(), shape, hashTable[..];
      assert Slotting()(h) == SlotOf(h, hashMask);
      FreeHead(t, g.free);
      e := entries[0].nextSame;
      aborted := aborted || !(1 <= e <= capacity);
      TakeFree(e, SlotOf(h, hashMask), h);
      LinkToLruChainHead(e, g.lru);
      InsertInv(Slotting(), slots, t, Cols(), g, h);
      shape := InsertedShape(g, SlotOf(h, hashMask));
    }

    /** The front entry `e` waits for its value; everything behind it represents `r`. */
    ghost predicate Pending(r: Table<V>, h: StrongHash, e: nat)
      reads this, hashTable, entries
    {
      && Linked() && size == |shape.lru|
      && shape.lru != [] && shape.lru[0] == e && Cols().hash[e] == h
      && Full(Vals(), shape.lru[1..])
      && r.items == ItemsOf(shape.lru[1..], Cols().hash, Vals())
      && r.free == [e] + shape.free
      && r.capacity == capacity && r.stats == stats
      && Numbered(r).ordering == Ords()[0] && Numbered(r).aborted == aborted
    }

    method EnterFront(h: StrongHash) returns (e: nat)
      requires Linked() && shape.free != [] && size == |shape.lru| + 1 && Full(Vals(), shape.lru)
      requires Absent(Cols().hash, shape.lru, h)
      modifies hashTable, entries, this
      ensures e == old(shape).free[0] && shape == InsertedShape(old(shape), SlotOf(h, hashMask))
      ensures Pending(old(Contents()), h, e)
    {
      ghost var g, hash, vals := shape, Cols().hash, Vals();
      e := InsertFree(h);
      assert shape.lru[1..] == g.lru;
      ItemsUnaffected(g.lru, hash, vals, e, h);
    }

    /** allocateEntry */
    method AllocateEntry(h: StrongHash) returns (e: nat, ghost room: Shape, ghost s: nat, ghost j: nat)
      requires Valid() && Absent(Cols().hash, shape.lru, h)
      modifies hashTable, entries, this
      ensures WellFormed(old(Contents())) && e == NextIndex(old(Contents()))
      ensures Pending(MakeRoom(old(Contents())), h, e)
      ensures RoomMade(old(shape), room, s, j) && room.free != []
      ensures SlotOf(h, hashMask) < |room.chains| && shape == InsertedShape(room, SlotOf(h, hashMask))
    {
      ContentsWellFormed();
      s, j := EnsureFreeEntry();
      room := shape;
      e := EnterFront(h);
    }

    /** Constructs the waiting value. */
    method Store(e: nat, v: V, ghost r: Table<V>, ghost h: StrongHash)
      requires Pending(r, h, e)
      modifies entries
      ensures Valid() && Contents() == Numbered(r.(items := [Item(e, h, v)] + r.items, free := r.free[1..]))
    {
      entries[e] := entries[e].(value := Some(v));
      assert Cols() == old(Cols()) && Ords() == old(Ords());
      assert Vals() == old(Vals())[e := Some(v)];
      ItemsStored(shape.lru, Cols().hash, old(Vals()), v);
    }

    /** Gives the waiting entry back. */
    method Discard(h: StrongHash, ghost r: Table<V>, ghost e: nat, ghost room: Shape)
      requires Pending(r, h, e)
      requires room.free != [] && SlotOf(h, hashMask) < |room.chains|
               && shape == InsertedShape(room, SlotOf(h, hashMask))
      modifies hashTable, entries, this
      ensures Valid() && Contents() == Numbered(r) && shape == room
    {
      FrontOnly(h);
      InsertThenDelete(room, SlotOf(h, hashMask));
      var e', k, j := RemoveEntry(h);
    }

    lemma FrontOnly(h: StrongHash)
      requires Linked() && shape.lru != [] && Cols().hash[shape.lru[0]] == h
      requires var s := SlotOf(h, hashMask);
               s < |shape.chains| && shape.chains[s] != [] && shape.chains[s][0] == shape.lru[0]
      ensures !Absent(Cols().hash, shape.lru, h)
      ensures forall j: nat, k: nat, e: nat :: Located(SlotOf(h, hashMask), j, k, e) && Cols().hash[e] == h ==>
                j == 0 && k == 0
    {
      forall j: nat, k: nat, e: nat | Located(SlotOf(h, hashMask), j, k, e) && Cols().hash[e] == h
        ensures j == 0 && k == 0
      {
        assert ChainLinked(Cols().same, hashTable[..][SlotOf(h, hashMask)], shape.chains[SlotOf(h, hashMask)]);
      }
    }

    // ----- The operations -----

    /** Find, seen from the recency list. */
    method Search(h: StrongHash) returns (e: nat, ghost k: nat)
      requires Valid()
      ensures WellFormed(Contents())
      ensures if e == 0 then !Resident(Contents(), h) && Absent(Cols().hash, shape.lru, h)
              else k < |shape.lru| && shape.lru[k] == e && Resident(Contents(), h) && k == Position(Contents().items, h)
                   && entries[e].value == Some(Contents().items[k].value)
    {
      var before;
      ghost var j;
      e, before, k, j := Find(h);
      ContentsWellFormed();
      if e != 0 {
        PositionUnique(Contents().items, k);
      }
    }

    method CountMiss()
      requires Valid()
      modifies this`stats
      ensures Valid() && Contents() == Missed(old(Contents()))
    {
      stats := stats.(misses := Increment(stats.misses));
    }

    method Construct(h: StrongHash, make: nat -> V) returns (e: nat)
      requires Valid() && Absent(Cols().hash, shape.lru, h)
      modifies hashTable, entries, this
      ensures WellFormed(old(Contents())) && e == NextIndex(old(Contents()))
      ensures Valid() && Contents() == Inserted(old(Contents()), h, make(e))
      ensures shape.lru != [] && shape.lru[0] == e <= capacity && entries[e].value == Some(make(e))
    {
      ghost var room, s, j;
      e, room, s, j := AllocateEntry(h);
      Store(e, make(e), MakeRoom(old(Contents())), h);
    }

    method CreateAbsent(h: StrongHash, make: nat -> V) returns (e: nat)
      requires Valid() && Absent(Cols().hash, shape.lru, h)
      modifies hashTable, entries, this
      ensures WellFormed(old(Contents())) && e == NextIndex(old(Contents()))
      ensures Valid() && Contents() == Inserted(Missed(old(Contents())), h, make(e))
      ensures shape.lru != [] && shape.lru[0] == e <= capacity && entries[e].value == Some(make(e))
    {
      ContentsWellFormed();
      MissedNextIndex(Contents());
      CountMiss();
      assert Absent(Cols().hash, shape.lru, h);
      e := Construct(h, make);
    }

    method TryConstruct(h: StrongHash, make: nat -> Option<V>) returns (v: Option<V>, ghost s: nat, ghost j: nat)
      requires Valid() && Absent(Cols().hash, shape.lru, h)
      modifies hashTable, entries, this
      ensures WellFormed(old(Contents())) && v == make(NextIndex(old(Contents())))
      ensures Valid() && Contents() ==
                         if v.Some? then Inserted(old(Contents()), h, v.value) else Numbered(MakeRoom(old(Contents())))
      ensures v.None? ==> RoomMade(old(shape), shape, s, j)
    {
      var e;
      ghost var room;
      e, room, s, j := AllocateEntry(h);
      v := make(e);
      if v.None? {
        Discard(h, MakeRoom(old(Contents())), e, room);
      } else {
        Store(e, v.value, MakeRoom(old(Contents())), h);
      }
    }

    /** A hit: the value, and the entry moves to the front. */
    method TakeHit(h: StrongHash, e: nat, ghost k: nat) returns (v: V)
      requires Valid() && k < |shape.lru| && shape.lru[k] == e
      requires Resident(Contents(), h) && k == Position(Contents().items, h)
      requires entries[e].value == Some(Contents().items[k].value)
      modifies entries, this
      ensures Valid() && Contents() == Hit(old(Contents()), Position(old(Contents()).items, h))
      ensures Some(v) == Lookup(old(Contents()), h)
    {
      v := entries[e].value.value;
      Promote(e, k);
    }

    /** A miss of get_or_try_emplace. */
    method TryCreateAbsent(h: StrongHash, make: nat -> Option<V>) returns (v: Option<V>, ghost s: nat, ghost j: nat)
      requires Valid() && Absent(Cols().hash, shape.lru, h)
      modifies hashTable, entries, this
      ensures WellFormed(old(Contents())) && v == make(NextIndex(old(Contents())))
      ensures Valid() && Contents() ==
                         if v.Some? then Inserted(Missed(old(Contents())), h, v.value)
                         else Numbered(MakeRoom(Missed(old(Contents()))))
      ensures v.None? ==> RoomMade(old(shape), shape, s, j)
    {
      ContentsWellFormed();
      MissedNextIndex(Contents());
      CountMiss();
      assert Absent(Cols().hash, shape.lru, h);
      v, s, j := TryConstruct(h, make);
    }

    method GetOrEmplace(h: StrongHash, make: nat -> V) returns (v: V)
      requires Valid()
      modifies hashTable, entries, this
      ensures WellFormed(old(Contents()))
      ensures Valid() && Contents() == GetOrEmplaced(old(Contents()), h, make(NextIndex(old(Contents()))))
      ensures v == Lookup(old(Contents()), h).GetOr(make(NextIndex(old(Contents()))))
    {
      var e, k := Search(h);
      if e != 0 {
        v := TakeHit(h, e, k);
      } else {
        e := CreateAbsent(h, make);
        v := entries[e].value.value;
      }
    }

    /**
      A construction that fails gives the new entry back. Beside the recency list, this says what
      becomes of the collision chains: nothing, except that the entry evicted to make room is gone.
      */
    method GetOrTryEmplace(h: StrongHash, make: nat -> Option<V>) returns (v: Option<V>, ghost s: nat, ghost j: nat)
      requires Valid()
      modifies hashTable, entries, this
      ensures WellFormed(old(Contents()))
      ensures Valid() && Contents() == GetOrTryEmplaced(old(Contents()), h, make(NextIndex(old(Contents()))))
      ensures v == if Resident(old(Contents()), h) then Lookup(old(Contents()), h) else make(NextIndex(old(Contents())))
      ensures v.None? ==> RoomMade(old(shape), shape, s, j)
    {
      s, j := 0, 0;
      var e, k := Search(h);
      if e != 0 {
        var found := TakeHit(h, e, k);
        v := Some(found);
      } else {
        v, s, j := TryCreateAbsent(h, make);
      }
    }

    /** findEntry without force, as touch, contains, try_get and at use it. */
    method FindEntry(h: StrongHash) returns (e: nat)
      requires Valid()
      modifies entries, this
      ensures Valid() && Contents() == Touched(old(Contents()), h)
      ensures e <= capacity && (e != 0 <==> Resident(old(Contents()), h))
      ensures e != 0 ==> entries[e].value == Lookup(old(Contents()), h)
    {
      ghost var k;
      e, k := Search(h);
      if e != 0 {
        Promote(e, k);
      } else {
        CountMiss();
      }
    }

    /** findEntry with force: an absent hash gets the default value. */
    method FindEntryOrCreate(h: StrongHash) returns (e: nat)
      requires Valid()
      modifies hashTable, entries, this
      ensures WellFormed(old(Contents()))
      ensures Valid() && Contents() == GetOrEmplaced(old(Contents()), h, defaultValue)
      ensures e <= capacity && shape.lru != [] && shape.lru[0] == e
      ensures entries[e].value == Some(Lookup(old(Contents()), h).GetOr(defaultValue))
    {
      ghost var k;
      e, k := Search(h);
      if e != 0 {
        Promote(e, k);
      } else {
        e := CreateAbsent(h, _ => defaultValue);
      }
    }

    method Touch(h: StrongHash)
      requires Valid()
      modifies entries, this
      ensures Valid() && Contents() == Touched(old(Contents()), h)
    {
      var _ := FindEntry(h);
    }

    /** Declared const in the original, yet a found hash moves to the front. */
    method Contains(h: StrongHash) returns (found: bool)
      requires Valid()
      modifies entries, this
      ensures Valid() && Contents() == Touched(old(Contents()), h)
      ensures found == Resident(old(Contents()), h)
    {
      var e := FindEntry(h);
      found := e != 0;
    }

    /** try_get; at throws where this returns None. */
    method TryGet(h: StrongHash) returns (v: Option<V>)
      requires Valid()
      modifies entries, this
      ensures Valid() && Contents() == Touched(old(Contents()), h)
      ensures v == Lookup(old(Contents()), h)
    {
      var e := FindEntry(h);
      v := if e == 0 then None else entries[e].value;
    }

    /** peek: a lookup that leaves the order alone. Where the original throws, this returns None. */
    method Peek(h: StrongHash) returns (v: Option<V>)
      requires Valid()
      ensures v == Lookup(Contents(), h)
    {
      var e, k := Search(h);
      v := if e == 0 then None else entries[e].value;
    }

    /** operator[] */
    method Index(h: StrongHash) returns (v: V)
      requires Valid()
      modifies hashTable, entries, this
      ensures WellFormed(old(Contents()))
      ensures Valid() && Contents() == GetOrEmplaced(old(Contents()), h, defaultValue)
      ensures v == Lookup(old(Contents()), h).GetOr(defaultValue)
    {
      var e := FindEntryOrCreate(h);
      v := entries[e].value.value;
    }

    /** try_emplace: an absent hash is searched for twice, and counted as missing twice. */
    method TryEmplace(h: StrongHash, make: nat -> V) returns (created: bool)
      requires Valid()
      modifies hashTable, entries, this
      ensures WellFormed(old(Contents()))
      ensures Valid() && Contents() == TryEmplaced(old(Contents()), h, make(NextIndex(old(Contents()))))
      ensures created == !Resident(old(Contents()), h)
    {
      ContentsWellFormed();
      MissedNextIndex(Contents());
      var found := Contains(h);
      created := !found;
      if created {
        CreateThenOverwrite(Contents(), h, defaultValue, make(NextIndex(Contents())));
        var e := FindEntryOrCreate(h);
        Overwrite(e, make(e));
      }
    }

    method Overwrite(e: nat, v: V)
      requires Valid() && shape.lru != [] && shape.lru[0] == e
      modifies entries
      ensures Valid()
      ensures Contents() ==
              old(Contents()).(items := [old(Contents()).items[0].(value := v)] + old(Contents()).items[1..])
    {
      entries[e] := entries[e].(value := Some(v));
      assert Cols() == old(Cols()) && Ords() == old(Ords());
      assert Vals() == old(Vals())[e := Some(v)];
      ItemsStored(shape.lru, Cols().hash, old(Vals()), v);
      assert ItemsOf(shape.lru[1..], Cols().hash, old(Vals())) == old(Contents()).items[1..];
    }

    /** emplace: creates or overwrites. */
    method Emplace(h: StrongHash, v: V) returns (stored: V)
      requires Valid()
      modifies hashTable, entries, this
      ensures WellFormed(old(Contents()))
      ensures Valid() && Contents() == Emplaced(old(Contents()), h, v)
      ensures stored == v && Lookup(Contents(), h) == Some(stored)
    {
      var e := FindEntryOrCreate(h);
      Overwrite(e, v);
      stored := entries[e].value.value;
    }

    method WalkHashes(ghost lru: seq<nat>) returns (result: seq<StrongHash>)
      requires Sized() && LruLinked(Cols(), lru)
      ensures |result| == |lru| && forall m :: 0 <= m < |lru| ==> result[m] == Cols().hash[lru[m]]
    {
      ghost var p, t, i := Loop(lru), Cols(), 0;
      result := [];
      assert t.next[p[0]] == p[1];
      var entryIndex := entries[0].next;
      while entryIndex != 0
        invariant 0 <= i <= |lru| && entryIndex == p[i + 1]
        invariant |result| == i && forall m :: 0 <= m < i ==> result[m] == t.hash[lru[m]]
        decreases |lru| - i
      {
        result := result + [entries[entryIndex].hash];
        assert t.next[p[i + 1]] == p[i + 2];
        entryIndex := entries[entryIndex].next;
        i := i + 1;
      }
    }

    /** hashes: most recently used first; the last ensures is the Guarantee of the original. */
    method HashesInOrder() returns (result: seq<StrongHash>)
      requires Valid()
      ensures result == Hashes(Contents().items)
      ensures |result| == size
    {
      result := WalkHashes(shape.lru);
    }

    method FetchAndClearStats() returns (st: Stats)
      requires Valid()
      modifies this`stats
      ensures st == old(Contents()).stats
      ensures Valid() && Contents() == old(Contents()).(stats := Stats(0, 0, 0))
    {
      st := stats;
      stats := Stats(0, 0, 0);
    }

    /** The first loop of clear. */
    method ResetValues(ghost lru: seq<nat>)
      requires Sized() && LruLinked(Cols(), lru)
      modifies entries
      ensures forall k :: 0 <= k < |lru| ==> entries[lru[k]].value == None
    {
      ghost var p, t, i := Loop(lru), Cols(), 0;
      assert t.next[p[0]] == p[1];
      var entryIndex := entries[0].next;
      while entryIndex != 0
        invariant 0 <= i <= |lru| && entryIndex == p[i + 1]
        invariant forall x :: 0 <= x <= capacity ==> entries[x].next == t.next[x]
        invariant forall k :: 0 <= k < i ==> entries[lru[k]].value == None
        decreases |lru| - i
      {
        entries[entryIndex] := entries[entryIndex].(value := None);
        assert t.next[p[i + 1]] == p[i + 2];
        entryIndex := entries[entryIndex].next;
        i := i + 1;
      }
    }

    /** clear: drops the values along the recency chain, then rebuilds the table. */
    method Clear()
      requires Valid()
      modifies hashTable, entries, this
      ensures Valid() && Contents() == Cleared(old(Contents()))
    {
      ResetValues(shape.lru);
      Reset();
      var oldSize: int := size;
      size := 0;
      var _ := ValidateChange(-oldSize, []);
    }
  }

  /** Inserting an entry and deleting it again restores all three kinds of chain. */
  lemma InsertThenDelete(g: Shape, s: nat)
    requires g.free != [] && s < |g.chains|
    ensures DeletedShape(InsertedShape(g, s), 0, s, 0) == g
  {
    var c := g.chains[s];
    assert Without([g.free[0]] + g.lru, 0) == g.lru;
    assert Without([g.free[0]] + c, 0) == c;
    assert [g.free[0]] + g.free[1..] == g.free;
    assert g.chains[s := [g.free[0]] + c][s := c] == g.chains;
  }

  lemma ItemsUnaffected<V>(lru: seq<nat>, hash: seq<StrongHash>, vals: seq<Option<V>>, e: nat, h: StrongHash)
    requires |hash| == |vals| && Full(vals, lru) && e < |hash| && e !in lru
    ensures Full(vals[e := None], lru)
    ensures ItemsOf(lru, hash[e := h], vals[e := None]) == ItemsOf(lru, hash, vals)
  {
    assert forall k :: 0 <= k < |lru| ==> lru[k] != e;
  }

  lemma ItemsStored<V>(lru: seq<nat>, hash: seq<StrongHash>, vals: seq<Option<V>>, v: V)
    requires |hash| == |vals| && lru != [] && Full(vals, lru[1..]) && Proper(|hash|, lru)
    ensures Full(vals[lru[0] := Some(v)], lru)
    ensures ItemsOf(lru, hash, vals[lru[0] := Some(v)])
         == [Item(lru[0], hash[lru[0]], v)] + ItemsOf(lru[1..], hash, vals)
  {
    var vals' := vals[lru[0] := Some(v)];
    forall k | 0 <= k < |lru|
      ensures vals'[lru[k]].Some? && (k > 0 ==> vals'[lru[k]] == vals[lru[1..][k - 1]])
    {
      if k > 0 {
        assert lru[k] == lru[1..][k - 1];
      }
    }
  }

  lemma ItemsDistinct<V>(lru: seq<nat>, hash: seq<StrongHash>, vals: seq<Option<V>>)
    requires |hash| == |vals| && Full(vals, lru) && Proper(|hash|, lru) && UniqueHashes(hash, lru)
    ensures Distinct(ItemsOf(lru, hash, vals))
  {
  }

  lemma DropLast<V>(lru: seq<nat>, hash: seq<StrongHash>, vals: seq<Option<V>>)
    requires |hash| == |vals| && Full(vals, lru) && lru != []
    ensures Without(lru, |lru| - 1) <= lru
    ensures Full(vals, Without(lru, |lru| - 1))
    ensures ItemsOf(Without(lru, |lru| - 1), hash, vals) == ItemsOf(lru, hash, vals)[..|lru| - 1]
  {
  }

  lemma ItemsWithout<V>(lru: seq<nat>, hash: seq<StrongHash>, vals: seq<Option<V>>, k: nat)
    requires |hash| == |vals| && Full(vals, lru) && k < |lru|
    ensures Full(vals, Without(lru, k))
    ensures ItemsOf(Without(lru, k), hash, vals) == Without(ItemsOf(lru, hash, vals), k)
  {
  }

  lemma ItemsToFront<V>(lru: seq<nat>, hash: seq<StrongHash>, vals: seq<Option<V>>, k: nat)
    requires |hash| == |vals| && Full(vals, lru) && k < |lru|
    ensures Full(vals, ToFront(lru, k))
    ensures ItemsOf(ToFront(lru, k), hash, vals) == ToFront(ItemsOf(lru, hash, vals), k)
  {
  }

  lemma FallingWithout(o: seq<uint32>, p: seq<nat>, m: nat)
    requires Falling(o, p) && 0 < m < |p|
    ensures Falling(o, Without(p, m))
  {
    var q := Without(p, m);
    forall i | 1 <= i < |q|
      ensures o[q[i]] < o[q[i - 1]]
    {
      if i < m {
        assert o[p[i]] < o[p[i - 1]];
      } else {
        assert o[p[i + 1]] < o[p[i]] < o[p[i - 1]];
      }
    }
  }

  lemma OrderedWithout(o: seq<uint32>, lru: seq<nat>, k: nat)
    requires k < |lru| && Ordered(o, lru)
    ensures Ordered(o, Without(lru, k))
  {
    FallingWithout(o, [0] + lru, k + 1);
    assert [0] + Without(lru, k) == Without([0] + lru, k + 1);
  }

  /** Drawing a number keeps the order exactly when the sentinel's counter does not wrap. */
  lemma OrderedPrefixed(o: seq<uint32>, lru: seq<nat>, e: nat)
    requires Ordered(o, lru) && 0 < e < |o| && e !in lru && 0 !in lru
    ensures Ordered(Drawn(o, e), [e] + lru) <==> o[0] != WORD32 - 1
  {
    var o', p, q := Drawn(o, e), [0] + lru, [0] + ([e] + lru);
    assert q[0] == 0 && q[1] == e && o'[q[1]] == o[0] && o'[q[0]] == Increment(o[0]);
    if o[0] != WORD32 - 1 {
      assert forall i :: 2 <= i < |q| ==> q[i] == p[i - 1];
      assert InBounds(|o'|, q);
      forall i | 1 <= i < |q|
        ensures o'[q[i]] < o'[q[i - 1]]
      {
        if i >= 2 {
          assert q[i] == p[i - 1] && o[p[i - 1]] < o[p[i - 2]];
        }
      }
    }
  }
}
