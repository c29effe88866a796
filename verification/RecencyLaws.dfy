/**
  What each call does to the table, said without the list operations: which hashes are there and in
  what order, what is stored under each, in which entry, and what is counted.
  */
module RecencyLaws {
  import opened Options
  import opened Words
  import opened StrongHashing
  import opened RecencyTable
  import opened RecencyRuns

  function Order<V>(t: Table<V>): seq<StrongHash> {
    Hashes(t.items)
  }

  lemma OrderMembers<V>(t: Table<V>, h: StrongHash)
    ensures h in Order(t) <==> Resident(t, h)
  {
    if k :| 0 <= k < |t.items| && Order(t)[k] == h {
      assert t.items[k].hash == h;
    }
    if Resident(t, h) {
      assert Order(t)[Position(t.items, h)] == h;
    }
  }

  // ----- Order -----

  predicate IsCreating<V>(op: Op<V>) {
    op.GetOrEmplace? || op.TryEmplace? || op.Emplace? || op.Index?
  }

  predicate IsLooking<V>(op: Op<V>) {
    op.TryGet? || op.Touch? || op.Contains?
  }

  /**
    A call that creates puts its hash first, and cuts to capacity; a lookup puts a hash that is there
    first; a failed construction still makes room; remove takes out that one hash.
    */
  function OrderAfter<V>(t: Table<V>, op: Op<V>): seq<StrongHash>
    requires WellFormed(t)
  {
    if IsCreating(op) then Prefix([op.h] + Except(Order(t), op.h), t.capacity)
    else if IsLooking(op) then if op.h in Order(t) then [op.h] + Except(Order(t), op.h) else Order(t)
    else if op.GetOrTryEmplace? then
      if op.h !in Order(t) && op.attempt(NextIndex(t)).None? then Prefix(Order(t), t.capacity - 1)
      else Prefix([op.h] + Except(Order(t), op.h), t.capacity)
    else if op.Remove? then Except(Order(t), op.h)
    else if op.Clear? then []
    else Order(t)
  }

  lemma {:induction false} CreatingOrder<V>(t: Table<V>, h: StrongHash, v: V)
    requires WellFormed(t)
    ensures Order(GetOrEmplaced(t, h, v)) == Prefix([h] + Except(Order(t), h), t.capacity)
  {
    GetOnHashes(t, h, v);
    PrefixCons(h, Except(Order(t), h), t.capacity);
  }

  lemma EmplacedOrder<V>(t: Table<V>, h: StrongHash, v: V)
    requires WellFormed(t)
    ensures Order(Emplaced(t, h, v)) == Order(GetOrEmplaced(t, h, v))
  {
  }

  lemma TryEmplacedOrder<V>(t: Table<V>, h: StrongHash, v: V)
    requires WellFormed(t)
    ensures Order(TryEmplaced(t, h, v)) == Order(GetOrEmplaced(t, h, v))
  {
    assert MakeRoom(Missed(Missed(t))).items == MakeRoom(Missed(t)).items;
    assert MakeRoom(Missed(Missed(t))).free == MakeRoom(Missed(t)).free;
  }

  lemma LookingOrder<V>(t: Table<V>, h: StrongHash)
    requires WellFormed(t)
    ensures Order(Touched(t, h)) == if h in Order(t) then [h] + Except(Order(t), h) else Order(t)
  {
    OrderMembers(t, h);
    if Resident(t, h) {
      HitOnHashes(t.items, Position(t.items, h));
    }
  }

  lemma RemovedOrder<V>(t: Table<V>, h: StrongHash)
    requires WellFormed(t)
    ensures Order(Removed(t, h)) == Except(Order(t), h)
  {
    OrderMembers(t, h);
    if Resident(t, h) {
      ExceptAt(Order(t), Position(t.items, h));
    } else {
      ExceptAbsent(Order(t), h);
    }
  }

  lemma TryingOrder<V>(t: Table<V>, h: StrongHash, attempt: nat -> Option<V>)
    requires WellFormed(t)
    ensures Order(GetOrTryEmplaced(t, h, attempt(NextIndex(t)))) == OrderAfter(t, GetOrTryEmplace(h, attempt))
  {
    OrderMembers(t, h);
    var v := attempt(NextIndex(t));
    if v.Some? {
      CreatingOrder(t, h, v.value);
    } else if Resident(t, h) {
      LookingOrder(t, h);
      ExceptAt(Order(t), Position(t.items, h));
    } else {
      RoomOnHashes(Missed(t));
    }
  }

  lemma OrderLaw<V>(t: Table<V>, op: Op<V>)
    requires WellFormed(t)
    ensures Order(Step(t, op)) == OrderAfter(t, op)
  {
    match op
    case GetOrEmplace(h, make) => CreatingOrder(t, h, make(NextIndex(t)));
    case GetOrTryEmplace(h, attempt) => TryingOrder(t, h, attempt);
    case TryEmplace(h, make) =>
      TryEmplacedOrder(t, h, make(NextIndex(t)));
      CreatingOrder(t, h, make(NextIndex(t)));
    case Emplace(h, v) =>
      EmplacedOrder(t, h, v);
      CreatingOrder(t, h, v);
    case Index(h, blank) => CreatingOrder(t, h, blank);
    case TryGet(h) => LookingOrder(t, h);
    case Touch(h) => LookingOrder(t, h);
    case Contains(h) => LookingOrder(t, h);
    case Remove(h) => RemovedOrder(t, h);
    case _ =>
  }

  // ----- What is stored -----

  /** The item of a hash, with its entry number and value. */
  function ItemAt<V>(items: seq<Item<V>>, x: StrongHash): Option<Item<V>> {
    var k := Position(items, x);
    if k < |items| then Some(items[k]) else None
  }

  lemma ItemAtIs<V>(items: seq<Item<V>>, k: nat)
    requires k < |items| && Distinct(items)
    ensures ItemAt(items, items[k].hash) == Some(items[k])
  {
    PositionUnique(items, k);
  }

  /** The same items in another order, or some of them, are found as before. */
  lemma ItemsFound<V>(items: seq<Item<V>>, more: seq<Item<V>>, x: StrongHash)
    requires Distinct(more) && forall k :: 0 <= k < |items| ==> items[k] in more
    ensures ItemAt(items, x).Some? ==> ItemAt(items, x) == ItemAt(more, x)
  {
    var k := Position(items, x);
    if k < |items| {
      var j :| 0 <= j < |more| && more[j] == items[k];
      ItemAtIs(more, j);
    }
  }

  /**
    What a call leaves under a hash that is there afterwards: a new item in the next free entry for the
    hash it creates, the old entry with a new value for emplace, and otherwise what was there.
    */
  function ItemAfter<V>(t: Table<V>, op: Op<V>, x: StrongHash): Option<Item<V>>
    requires WellFormed(t)
  {
    var was := ItemAt(t.items, x);
    match op
    case GetOrEmplace(h, make) => if x == h && was.None? then Some(Item(NextIndex(t), h, make(NextIndex(t)))) else was
    case GetOrTryEmplace(h, attempt) =>
      if x == h && was.None? && attempt(NextIndex(t)).Some?
      then Some(Item(NextIndex(t), h, attempt(NextIndex(t)).value)) else was
    case TryEmplace(h, make) => if x == h && was.None? then Some(Item(NextIndex(t), h, make(NextIndex(t)))) else was
    case Emplace(h, v) => if x == h then Some(Item(if was.Some? then was.value.index else NextIndex(t), h, v)) else was
    case Index(h, blank) => if x == h && was.None? then Some(Item(NextIndex(t), h, blank)) else was
    case _ => was
  }

  lemma SameItems<V>(a: seq<Item<V>>, b: seq<Item<V>>, x: StrongHash)
    requires Distinct(a) && Distinct(b)
    requires (forall k :: 0 <= k < |a| ==> a[k] in b) && (forall k :: 0 <= k < |b| ==> b[k] in a)
    ensures ItemAt(a, x) == ItemAt(b, x)
  {
    ItemsFound(a, b, x);
    ItemsFound(b, a, x);
  }

  lemma ToFrontMembers<V>(items: seq<Item<V>>, k: nat)
    requires k < |items|
    ensures forall j :: 0 <= j < |items| ==> ToFront(items, k)[j] in items
    ensures forall j :: 0 <= j < |items| ==> items[j] in ToFront(items, k)
  {
    var moved := ToFront(items, k);
    forall j | 0 <= j < |items|
      ensures items[j] in moved
    {
      assert moved[if j == k then 0 else if j < k then j + 1 else j] == items[j];
    }
  }

  lemma HitItems<V>(t: Table<V>, k: nat, x: StrongHash)
    requires WellFormed(t) && k < |t.items|
    ensures ItemAt(Hit(t, k).items, x) == ItemAt(t.items, x)
  {
    HitWellFormed(t, k);
    ToFrontMembers(t.items, k);
    SameItems(ToFront(t.items, k), t.items, x);
  }

  lemma InsertedItems<V>(t: Table<V>, h: StrongHash, v: V, x: StrongHash)
    requires WellFormed(t) && !Resident(t, h)
    ensures var r := Inserted(t, h, v);
            ItemAt(r.items, x) ==
            if x == h then Some(Item(NextIndex(t), h, v))
            else if x in Order(r) then ItemAt(t.items, x) else None
  {
    var r, room := Inserted(t, h, v), MakeRoom(t).items;
    InsertedWellFormed(t, h, v);
    OrderMembers(r, x);
    if x != h {
      if Resident(r, x) {
        var k := Position(r.items, x);
        assert r.items[k] in t.items;
        ItemsFound([r.items[k]], t.items, x);
        assert ItemAt([r.items[k]], x) == Some(r.items[k]);
      }
    }
  }

  lemma GotItems<V>(t: Table<V>, h: StrongHash, v: V, x: StrongHash)
    requires WellFormed(t)
    ensures var r := GetOrEmplaced(t, h, v);
            ItemAt(r.items, x) ==
            if x == h && ItemAt(t.items, h).None? then Some(Item(NextIndex(t), h, v))
            else if x in Order(r) then ItemAt(t.items, x) else None
  {
    var r := GetOrEmplaced(t, h, v);
    OrderMembers(r, x);
    if Resident(t, h) {
      HitItems(t, Position(t.items, h), x);
    } else {
      MissedNextIndex(t);
      InsertedItems(Missed(t), h, v, x);
    }
  }

  lemma RemovedItems<V>(t: Table<V>, h: StrongHash, x: StrongHash)
    requires WellFormed(t)
    ensures ItemAt(Removed(t, h).items, x) == if x == h then None else ItemAt(t.items, x)
  {
    var r, k := Removed(t, h), Position(t.items, h);
    if k < |t.items| {
      ItemsFound(r.items, t.items, x);
      var j := Position(t.items, x);
      if j < |t.items| && j != k {
        assert r.items[if j < k then j else j - 1] == t.items[j];
      }
    }
  }

  lemma TouchedItems<V>(t: Table<V>, h: StrongHash, x: StrongHash)
    requires WellFormed(t)
    ensures ItemAt(Touched(t, h).items, x) == ItemAt(t.items, x)
  {
    if Resident(t, h) {
      HitItems(t, Position(t.items, h), x);
    }
  }

  lemma TryItems<V>(t: Table<V>, h: StrongHash, v: Option<V>, x: StrongHash)
    requires WellFormed(t) && v == None && !Resident(t, h)
    ensures var r := GetOrTryEmplaced(t, h, v);
            ItemAt(r.items, x) == if x in Order(r) then ItemAt(t.items, x) else None
  {
    var r := GetOrTryEmplaced(t, h, v);
    OrderMembers(r, x);
    ItemsFound(r.items, t.items, x);
  }

  lemma EmplacedItems<V>(t: Table<V>, h: StrongHash, v: V, x: StrongHash)
    requires WellFormed(t)
    ensures var r := Emplaced(t, h, v);
            ItemAt(r.items, x) ==
            if x == h then Some(Item(if Resident(t, h) then ItemAt(t.items, h).value.index else NextIndex(t), h, v))
            else if x in Order(r) then ItemAt(t.items, x) else None
  {
    var got, r := GetOrEmplaced(t, h, v), Emplaced(t, h, v);
    GotItems(t, h, v, x);
    GotItems(t, h, v, h);
    EmplacedOrder(t, h, v);
    CreatingOrder(t, h, v);
    assert got.items[0].hash == Order(got)[0] == h;
    GetOrEmplacedWellFormed(t, h, v);
    ItemAtIs(got.items, 0);
    OverwriteWellFormed(got, v);
    ItemAtIs(r.items, 0);
    if x != h {
      SameBehindFirst(got.items, r.items, x);
    }
  }

  lemma SameBehindFirst<V>(a: seq<Item<V>>, b: seq<Item<V>>, x: StrongHash)
    requires a != [] && b != [] && a[1..] == b[1..] && a[0].hash == b[0].hash != x
    ensures ItemAt(a, x) == ItemAt(b, x)
  {
  }

  ghost predicate ItemStands<V>(t: Table<V>, op: Op<V>, x: StrongHash)
    requires WellFormed(t)
  {
    var r := Step(t, op);
    ItemAt(r.items, x) == if x in Order(r) then ItemAfter(t, op, x) else None
  }

  lemma CreatingItems<V>(t: Table<V>, op: Op<V>, x: StrongHash)
    requires WellFormed(t) && IsCreating(op)
    ensures ItemStands(t, op, x)
  {
    OrderMembers(Step(t, op), x);
    match op
    case GetOrEmplace(h, make) => GotItems(t, h, make(NextIndex(t)), x);
    case TryEmplace(h, make) => TryEmplacedItems(t, h, make(NextIndex(t)), x);
    case Emplace(h, v) => EmplacedItems(t, h, v, x);
    case Index(h, blank) => GotItems(t, h, blank, x);
  }

  lemma OtherItems<V>(t: Table<V>, op: Op<V>, x: StrongHash)
    requires WellFormed(t) && !IsCreating(op) && !op.GetOrTryEmplace?
    ensures ItemStands(t, op, x)
  {
    OrderMembers(Step(t, op), x);
    match op
    case TryGet(h) => TouchedItems(t, h, x);
    case Touch(h) => TouchedItems(t, h, x);
    case Contains(h) => TouchedItems(t, h, x);
    case Remove(h) => RemovedItems(t, h, x);
    case _ =>
  }

  /** After any call, an item is there exactly for the hashes in order, and it is as said above. */
  lemma ItemLaw<V>(t: Table<V>, op: Op<V>, x: StrongHash)
    requires WellFormed(t)
    ensures ItemAt(Step(t, op).items, x) == if x in OrderAfter(t, op) then ItemAfter(t, op, x) else None
  {
    OrderLaw(t, op);
    if IsCreating(op) {
      CreatingItems(t, op, x);
    } else if op.GetOrTryEmplace? {
      TryingItems(t, op.h, op.attempt, x);
    } else {
      OtherItems(t, op, x);
    }
  }

  lemma TryingItems<V>(t: Table<V>, h: StrongHash, attempt: nat -> Option<V>, x: StrongHash)
    requires WellFormed(t)
    ensures ItemStands(t, GetOrTryEmplace(h, attempt), x)
  {
    var v := attempt(NextIndex(t));
    OrderMembers(GetOrTryEmplaced(t, h, v), x);
    if v.Some? {
      GotItems(t, h, v.value, x);
    } else if Resident(t, h) {
      HitItems(t, Position(t.items, h), x);
    } else {
      TryItems(t, h, v, x);
    }
  }

  lemma TryEmplacedItems<V>(t: Table<V>, h: StrongHash, v: V, x: StrongHash)
    requires WellFormed(t)
    ensures var r := TryEmplaced(t, h, v);
            ItemAt(r.items, x) ==
            if x == h && ItemAt(t.items, h).None? then Some(Item(NextIndex(t), h, v))
            else if x in Order(r) then ItemAt(t.items, x) else None
  {
    var r := TryEmplaced(t, h, v);
    OrderMembers(r, x);
    if Resident(t, h) {
      HitItems(t, Position(t.items, h), x);
    } else {
      MissedNextIndex(t);
      MissedNextIndex(Missed(t));
      InsertedItems(Missed(Missed(t)), h, v, x);
    }
  }

  // ----- Entries -----

  function Indices<V>(items: seq<Item<V>>): (r: seq<nat>)
    ensures |r| == |items| && forall i :: 0 <= i < |r| ==> r[i] == items[i].index
  {
    seq(|items|, i requires 0 <= i < |items| => items[i].index)
  }

  /** All entries, used and free. */
  ghost function Entries<V>(t: Table<V>): multiset<nat> {
    multiset(Indices(t.items)) + multiset(t.free)
  }

  lemma WithoutMultiset(s: seq<nat>, k: nat)
    requires k < |s|
    ensures multiset(Without(s, k)) + multiset{s[k]} == multiset(s)
  {
    assert s == s[..k] + [s[k]] + s[k + 1..];
  }

  lemma HitEntries<V>(t: Table<V>, k: nat)
    requires k < |t.items|
    ensures Entries(Hit(t, k)) == Entries(t)
  {
    var s := Indices(t.items);
    WithoutMultiset(s, k);
    IndicesWithout(t.items, k);
    IndicesCons(t.items[k], Without(t.items, k));
    FirstMultiset(s[k], Without(s, k));
  }

  lemma RoomEntries<V>(t: Table<V>)
    requires WellFormed(t)
    ensures Entries(MakeRoom(t)) == Entries(t)
  {
    if t.free == [] {
      var s, last := Indices(t.items), |t.items| - 1;
      assert s == s[..last] + [s[last]];
      assert Indices(MakeRoom(t).items) == s[..last];
    }
  }

  lemma InsertedEntries<V>(t: Table<V>, h: StrongHash, v: V)
    requires WellFormed(t)
    ensures Entries(Inserted(t, h, v)) == Entries(t)
  {
    var r := MakeRoom(t);
    RoomEntries(t);
    var e, free := r.free[0], r.free[1..];
    assert r.free == [e] + free;
    FirstMultiset(e, free);
    IndicesCons(Item(e, h, v), r.items);
    FirstMultiset(e, Indices(r.items));
  }

  lemma IndicesCons<V>(item: Item<V>, items: seq<Item<V>>)
    ensures Indices([item] + items) == [item.index] + Indices(items)
  {
  }

  lemma RemovedEntries<V>(t: Table<V>, h: StrongHash)
    ensures Entries(Removed(t, h)) == Entries(t)
  {
    var k := Position(t.items, h);
    if k < |t.items| {
      IndicesWithout(t.items, k);
      WithoutMultiset(Indices(t.items), k);
      FirstMultiset(t.items[k].index, t.free);
    }
  }

  lemma FirstMultiset(x: nat, s: seq<nat>)
    ensures multiset([x] + s) == multiset{x} + multiset(s)
  {
  }

  lemma IndicesWithout<V>(items: seq<Item<V>>, k: nat)
    requires k < |items|
    ensures Indices(Without(items, k)) == Without(Indices(items), k)
  {
  }

  lemma IndicesOverwritten<V>(items: seq<Item<V>>, v: V)
    requires items != []
    ensures Indices([items[0].(value := v)] + items[1..]) == Indices(items)
  {
  }

  lemma LookingEntries<V>(t: Table<V>, h: StrongHash)
    ensures Entries(Touched(t, h)) == Entries(t)
  {
    if Resident(t, h) {
      HitEntries(t, Position(t.items, h));
    }
  }

  lemma CreatingEntries<V>(t: Table<V>, h: StrongHash, v: V)
    requires WellFormed(t)
    ensures Entries(GetOrEmplaced(t, h, v)) == Entries(t) && Entries(TryEmplaced(t, h, v)) == Entries(t)
  {
    if Resident(t, h) {
      HitEntries(t, Position(t.items, h));
    } else {
      InsertedEntries(Missed(t), h, v);
      InsertedEntries(Missed(Missed(t)), h, v);
    }
  }

  lemma TryingEntries<V>(t: Table<V>, h: StrongHash, v: Option<V>)
    requires WellFormed(t)
    ensures Entries(GetOrTryEmplaced(t, h, v)) == Entries(t)
  {
    if Resident(t, h) {
      HitEntries(t, Position(t.items, h));
    } else if v.Some? {
      InsertedEntries(Missed(t), h, v.value);
    } else {
      RoomEntries(Missed(t));
    }
  }

  lemma EmplacedEntries<V>(t: Table<V>, h: StrongHash, v: V)
    requires WellFormed(t)
    ensures Entries(Emplaced(t, h, v)) == Entries(t)
  {
    CreatingEntries(t, h, v);
    IndicesOverwritten(GetOrEmplaced(t, h, v).items, v);
  }

  /** No entry is lost or handed out twice: in every run the used and the free ones are 1 to capacity. */
  lemma {:induction false} EntryLaw<V>(capacity: nat, ops: seq<Op<V>>)
    requires capacity >= 2
    ensures Entries(Run(Fresh(capacity), ops)) == multiset(UpTo(capacity))
    decreases |ops|
  {
    if ops != [] {
      EntryLaw(capacity, ops[..|ops| - 1]);
      EntryStep(Run(Fresh(capacity), ops[..|ops| - 1]), ops[|ops| - 1]);
    }
  }

  lemma CreatingStep<V>(t: Table<V>, op: Op<V>)
    requires WellFormed(t) && IsCreating(op)
    ensures Entries(Step(t, op)) == Entries(t)
  {
    match op
    case GetOrEmplace(h, make) => CreatingEntries(t, h, make(NextIndex(t)));
    case TryEmplace(h, make) => CreatingEntries(t, h, make(NextIndex(t)));
    case Emplace(h, v) => EmplacedEntries(t, h, v);
    case Index(h, blank) => CreatingEntries(t, h, blank);
  }

  lemma EntryStep<V>(t: Table<V>, op: Op<V>)
    requires WellFormed(t)
    ensures Entries(Step(t, op)) == if op.Clear? then multiset(UpTo(t.capacity)) else Entries(t)
  {
    if IsCreating(op) {
      CreatingStep(t, op);
    } else if op.GetOrTryEmplace? {
      TryingEntries(t, op.h, op.attempt(NextIndex(t)));
    } else if IsLooking(op) {
      LookingEntries(t, op.h);
    } else if op.Remove? {
      RemovedEntries(t, op.h);
    }
  }

  /** An entry that is given back is the next to be used. */
  lemma RemovedIsNext<V>(t: Table<V>, h: StrongHash)
    requires WellFormed(t) && Resident(t, h)
    ensures WellFormed(Removed(t, h)) && NextIndex(Removed(t, h)) == ItemAt(t.items, h).value.index
  {
    RemovedWellFormed(t, h);
  }

  /** A full table reuses the entry of its last item; another one the first free entry. */
  lemma NextIndexIs<V>(t: Table<V>)
    requires WellFormed(t)
    ensures |t.items| == t.capacity ==> NextIndex(t) == t.items[t.capacity - 1].index
    ensures |t.items| < t.capacity ==> NextIndex(t) == t.free[0]
  {
  }

  // ----- Counters -----

  /** How often a call looks its hash up: try_emplace looks an absent hash up twice. */
  function Lookups<V>(t: Table<V>, op: Op<V>): nat {
    if op.TryEmplace? then if Resident(t, op.h) then 1 else 2
    else Count(IsCreating(op) || IsLooking(op) || op.GetOrTryEmplace?)
  }

  predicate CountedAs<V>(t: Table<V>, r: Table<V>, hits: nat, misses: nat, recycles: nat) {
    r.stats == Stats((t.stats.hits + hits) % WORD32, (t.stats.misses + misses) % WORD32,
                     (t.stats.recycles + recycles) % WORD32)
  }

  function Recycles<V>(t: Table<V>, h: StrongHash): nat {
    Count(!Resident(t, h) && |t.items| == t.capacity)
  }

  lemma CreatingCounts<V>(t: Table<V>, h: StrongHash, v: V)
    requires WellFormed(t)
    ensures var r := GetOrEmplaced(t, h, v);
            if Resident(t, h) then CountedAs(t, r, 1, 0, 0) else CountedAs(t, r, 0, 1, Recycles(t, h))
    ensures Emplaced(t, h, v).stats == GetOrEmplaced(t, h, v).stats
  {
  }

  lemma TryEmplaceCounts<V>(t: Table<V>, h: StrongHash, v: V)
    requires WellFormed(t)
    ensures var r := TryEmplaced(t, h, v);
            if Resident(t, h) then CountedAs(t, r, 1, 0, 0) else CountedAs(t, r, 0, 2, Recycles(t, h))
  {
  }

  lemma TryingCounts<V>(t: Table<V>, h: StrongHash, v: Option<V>)
    requires WellFormed(t)
    ensures var r := GetOrTryEmplaced(t, h, v);
            if Resident(t, h) then CountedAs(t, r, 1, 0, 0) else CountedAs(t, r, 0, 1, Recycles(t, h))
  {
  }

  lemma LookingCounts<V>(t: Table<V>, h: StrongHash)
    ensures var r := Touched(t, h);
            if Resident(t, h) then CountedAs(t, r, 1, 0, 0) else CountedAs(t, r, 0, 1, 0)
    ensures Removed(t, h).stats == t.stats
  {
  }

  predicate LookupsCounted<V>(t: Table<V>, op: Op<V>)
    requires WellFormed(t)
  {
    var n, r := Lookups(t, op), Step(t, op);
    if n == 0 then r.stats == t.stats
    else if Resident(t, op.h) then CountedAs(t, r, n, 0, 0)
    else CountedAs(t, r, 0, n, if IsLooking(op) then 0 else Recycles(t, op.h))
  }

  lemma CreatingCounted<V>(t: Table<V>, op: Op<V>)
    requires WellFormed(t) && IsCreating(op)
    ensures LookupsCounted(t, op)
  {
    if op.TryEmplace? {
      TryEmplaceCounts(t, op.h, op.make(NextIndex(t)));
    } else {
      var v := if op.GetOrEmplace? then op.make(NextIndex(t)) else if op.Emplace? then op.value else op.blank;
      CreatingCounts(t, op.h, v);
    }
  }

  /** Lookups count as hits or as misses, and making room in a full table counts as a recycle. */
  lemma CounterLaw<V>(t: Table<V>, op: Op<V>)
    requires WellFormed(t) && !op.FetchAndClearStats?
    ensures LookupsCounted(t, op)
  {
    if IsCreating(op) {
      CreatingCounted(t, op);
    } else if op.GetOrTryEmplace? {
      TryingCounts(t, op.h, op.attempt(NextIndex(t)));
    } else if IsLooking(op) || op.Remove? {
      LookingCounts(t, op.h);
    }
  }

  // ----- Answers -----

  predicate GivesValue<V>(op: Op<V>) {
    op.GetOrEmplace? || op.GetOrTryEmplace? || op.Emplace? || op.Index? || op.TryGet? || op.Peek?
  }

  lemma LookupIs<V>(t: Table<V>, x: StrongHash)
    ensures Lookup(t, x) == if ItemAt(t.items, x).Some? then Some(ItemAt(t.items, x).value.value) else None
  {
  }

  /** remove takes away that hash, and no other. */
  lemma RemovedLookup<V>(t: Table<V>, h: StrongHash, x: StrongHash)
    requires WellFormed(t)
    ensures Lookup(Removed(t, h), x) == if x == h then None else Lookup(t, x)
  {
    RemovedItems(t, h, x);
    LookupIs(t, x);
    LookupIs(Removed(t, h), x);
  }

  lemma FirstInOrder<V>(t: Table<V>, op: Op<V>)
    requires WellFormed(t) && IsCreating(op)
    ensures op.h in OrderAfter(t, op)
  {
    PrefixCons(op.h, Except(Order(t), op.h), t.capacity);
  }

  /** A value that is handed back is the one stored afterwards. */
  lemma ValueLaw<V>(t: Table<V>, op: Op<V>)
    requires WellFormed(t) && GivesValue(op)
    ensures AnswerTo(t, op) == Found(Lookup(Step(t, op), op.h))
  {
    OrderMembers(t, op.h);
    LookupIs(t, op.h);
    LookupIs(Step(t, op), op.h);
    ItemLaw(t, op, op.h);
    if IsCreating(op) {
      FirstInOrder(t, op);
    } else if op.GetOrTryEmplace? {
      PrefixCons(op.h, Except(Order(t), op.h), t.capacity);
    }
  }

  /** The other answers say what was there before. */
  lemma AnswerLaw<V>(t: Table<V>, op: Op<V>)
    requires WellFormed(t) && !GivesValue(op)
    ensures op.TryEmplace? ==> AnswerTo(t, op) == Flag(op.h !in Order(t))
    ensures op.Contains? ==> AnswerTo(t, op) == Flag(op.h in Order(t))
    ensures op.ListHashes? ==> AnswerTo(t, op) == Listed(Order(t))
    ensures op.FetchAndClearStats? ==> AnswerTo(t, op) == Counted(t.stats) && Step(t, op).stats == Stats(0, 0, 0)
    ensures op.Touch? || op.Remove? || op.Clear? ==> AnswerTo(t, op) == Nothing
  {
    if op.TryEmplace? || op.Contains? {
      OrderMembers(t, op.h);
    }
  }

  // ----- How far back a hash is -----

  /** Runs of get_or_emplace and remove. */
  predicate GetsOrRemoves<V>(ops: seq<Op<V>>) {
    forall i :: 0 <= i < |ops| ==> ops[i].GetOrEmplace? || ops[i].Remove?
  }

  /**
    For one hash alone: the other hashes asked for since it was, and not removed again; None once it
    is removed or the others are as many as the capacity.
    */
  function Ahead<V>(capacity: nat, ops: seq<Op<V>>, h: StrongHash): Option<set<StrongHash>>
    requires GetsOrRemoves(ops)
  {
    if ops == [] then None
    else
      var before, last := Ahead(capacity, ops[..|ops| - 1], h), ops[|ops| - 1];
      if last.h == h then if last.GetOrEmplace? then Some({}) else None
      else if before.None? then None
      else if last.Remove? then Some(before.value - {last.h})
      else if |before.value + {last.h}| >= capacity then None
      else Some(before.value + {last.h})
  }

  /** The elements in front of h. */
  function Before(s: seq<StrongHash>, h: StrongHash): set<StrongHash> {
    if s == [] || s[0] == h then {} else {s[0]} + Before(s[1..], h)
  }

  lemma {:induction false} BeforeMembers(s: seq<StrongHash>, h: StrongHash)
    ensures forall x :: x in Before(s, h) ==> x in s && x != h
  {
    if s != [] && s[0] != h {
      BeforeMembers(s[1..], h);
    }
  }

  lemma {:induction false} BeforeExcept(s: seq<StrongHash>, x: StrongHash, h: StrongHash)
    requires x != h
    ensures Before(Except(s, x), h) == Before(s, h) - {x}
  {
    if s != [] {
      BeforeExcept(s[1..], x, h);
      if s[0] != x {
        assert ([s[0]] + Except(s[1..], x))[1..] == Except(s[1..], x);
      }
    }
  }

  lemma BeforeCons(x: StrongHash, rest: seq<StrongHash>, h: StrongHash)
    requires x != h && x !in rest
    ensures Before([x] + rest, h) == {x} + Before(rest, h) && |Before([x] + rest, h)| == 1 + |Before(rest, h)|
  {
    BeforeMembers(rest, h);
    assert ([x] + rest)[1..] == rest;
  }

  lemma PrefixMembers(s: seq<StrongHash>, n: nat)
    ensures forall x :: x in Prefix(s, n) ==> x in s
  {
  }

  /** The number of elements in front tells whether a cut keeps the element. */
  lemma {:induction false} CutBehind(s: seq<StrongHash>, h: StrongHash, n: nat)
    requires NoRepeats(s)
    ensures h in Prefix(s, n) <==> h in s && |Before(s, h)| < n
    ensures h in Prefix(s, n) ==> Before(Prefix(s, n), h) == Before(s, h)
    decreases |s|
  {
    if s != [] && n > 0 {
      var x, rest := s[0], s[1..];
      assert s == [x] + rest && x !in rest;
      PrefixCons(x, rest, n);
      if x != h {
        CutBehind(rest, h, n - 1);
        PrefixMembers(rest, n - 1);
        BeforeCons(x, rest, h);
        BeforeCons(x, Prefix(rest, n - 1), h);
      }
    }
  }

  lemma OrderNoRepeats<V>(t: Table<V>)
    requires WellFormed(t)
    ensures NoRepeats(Order(t))
  {
  }

  lemma {:induction false} ExceptNoRepeats(s: seq<StrongHash>, x: StrongHash)
    requires NoRepeats(s)
    ensures NoRepeats([x] + Except(s, x))
  {
    if k :| 0 <= k < |s| && s[k] == x {
      ExceptAt(s, k);
    } else {
      ExceptAbsent(s, x);
    }
  }

  ghost function Behind(s: seq<StrongHash>, h: StrongHash): Option<set<StrongHash>> {
    if h in s then Some(Before(s, h)) else None
  }

  lemma GetBehind(s: seq<StrongHash>, x: StrongHash, h: StrongHash, capacity: nat)
    requires NoRepeats(s) && capacity >= 1 && x != h
    ensures Behind(Prefix([x] + Except(s, x), capacity), h) ==
            if h in s && |Before(s, h) + {x}| < capacity then Some(Before(s, h) + {x}) else None
  {
    var r := [x] + Except(s, x);
    ExceptNoRepeats(s, x);
    CutBehind(r, h, capacity);
    ExceptMembers(s, x, h);
    BeforeExcept(s, x, h);
    assert r[1..] == Except(s, x);
    assert Before(r, h) == Before(s, h) + {x};
  }

  lemma GetFirst(s: seq<StrongHash>, h: StrongHash, capacity: nat)
    requires capacity >= 1
    ensures Behind(Prefix([h] + Except(s, h), capacity), h) == Some({})
  {
    PrefixCons(h, Except(s, h), capacity);
  }

  /**
    In any run of gets and removes, a hash is in the table exactly as long as it has not been removed
    and the others asked for since, and not removed, are fewer than the capacity; they are the ones in
    front of it.
    */
  lemma {:induction false} DistanceLaw<V>(capacity: nat, ops: seq<Op<V>>, h: StrongHash)
    requires capacity >= 2 && GetsOrRemoves(ops)
    ensures Ahead(capacity, ops, h) == Behind(Order(Run(Fresh(capacity), ops)), h)
    decreases |ops|
  {
    if ops != [] {
      var before, last := ops[..|ops| - 1], ops[|ops| - 1];
      DistanceLaw(capacity, before, h);
      var t := Run(Fresh(capacity), before);
      OrderLaw(t, last);
      OrderNoRepeats(t);
      DistanceStep(Order(t), capacity, last, h);
    }
  }

  lemma DistanceStep<V>(s: seq<StrongHash>, capacity: nat, op: Op<V>, h: StrongHash)
    requires NoRepeats(s) && capacity >= 2 && (op.GetOrEmplace? || op.Remove?)
    ensures var r := if op.Remove? then Except(s, op.h) else Prefix([op.h] + Except(s, op.h), capacity);
            var ahead := Behind(s, h);
            Behind(r, h) ==
            if op.h == h then if op.GetOrEmplace? then Some({}) else None
            else if ahead.None? then None
            else if op.Remove? then Some(ahead.value - {op.h})
            else if |ahead.value + {op.h}| >= capacity then None
            else Some(ahead.value + {op.h})
  {
    ExceptMembers(s, op.h, h);
    if op.Remove? {
      if op.h != h {
        BeforeExcept(s, op.h, h);
      }
    } else if op.h == h {
      GetFirst(s, h, capacity);
    } else {
      GetBehind(s, op.h, h, capacity);
    }
  }
}
