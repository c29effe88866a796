/**
  What strong_lru_hashtable is meant to be: a bounded list of items, most recently used first,
  together with the stack of unused entry numbers and the counters.

  Nothing here mentions hash slots or collision chains.
  */
module RecencyTable {
  import opened Options
  import opened Words
  import opened StrongHashing

  /** lru_hashtable_stats: three counters that wrap at 2^32. */
  datatype Stats = Stats(hits: uint32, misses: uint32, recycles: uint32)

  datatype Item<+V> = Item(index: nat, hash: StrongHash, value: V)

  /**
    `ordering` is the debug counter of the sentinel entry; `aborted` says that some Require or
    Guarantee has failed, which in the original ends the process.
    */
  datatype Table<+V> = Table(
    capacity: nat,
    items: seq<Item<V>>,
    free: seq<nat>,
    stats: Stats,
    ordering: uint32,
    aborted: bool)

  predicate Distinct<V>(items: seq<Item<V>>) {
    forall i, j :: 0 <= i < j < |items| ==> items[i].hash != items[j].hash
  }

  predicate WellFormed<V>(t: Table<V>) {
    && t.capacity >= 2
    && |t.items| + |t.free| == t.capacity
    && Distinct(t.items)
  }

  function UpTo(n: nat): (s: seq<nat>)
    ensures |s| == n && forall i :: 0 <= i < n ==> s[i] == i + 1
  {
    seq(n, i => i + 1)
  }

  function Fresh<V>(capacity: nat): Table<V> {
    Table(capacity, [], UpTo(capacity), Stats(0, 0, 0), 0, false)
  }

  /** Where the item with hash `h` stands in the list, or the length of the list when there is none. */
  function Position<V>(items: seq<Item<V>>, h: StrongHash): (k: nat)
    ensures k <= |items|
    ensures k < |items| ==> items[k].hash == h
    ensures forall j :: 0 <= j < k ==> items[j].hash != h
  {
    if items == [] || items[0].hash == h then 0 else 1 + Position(items[1..], h)
  }

  predicate Resident<V>(t: Table<V>, h: StrongHash) {
    Position(t.items, h) < |t.items|
  }

  function Without<T>(s: seq<T>, k: nat): (r: seq<T>)
    requires k < |s|
    ensures |r| == |s| - 1 && forall i :: 0 <= i < |r| ==> r[i] == if i < k then s[i] else s[i + 1]
  {
    s[..k] + s[k + 1..]
  }

  function ToFront<T>(s: seq<T>, k: nat): (r: seq<T>)
    requires k < |s|
    ensures |r| == |s| && forall i :: 0 <= i < |r| ==>
              r[i] == if i == 0 then s[k] else if i <= k then s[i - 1] else s[i]
  {
    [s[k]] + Without(s, k)
  }

  function Increment(x: uint32): uint32 {
    (x + 1) % WORD32
  }

  /** Every link to the head of the chain draws a number; drawing the last one trips a Require. */
  function Numbered<V>(t: Table<V>): Table<V> {
    t.(ordering := Increment(t.ordering), aborted := t.aborted || t.ordering == WORD32 - 1)
  }

  function Hit<V>(t: Table<V>, k: nat): Table<V>
    requires k < |t.items|
  {
    Numbered(t.(items := ToFront(t.items, k), stats := t.stats.(hits := Increment(t.stats.hits))))
  }

  function Missed<V>(t: Table<V>): Table<V> {
    t.(stats := t.stats.(misses := Increment(t.stats.misses)))
  }

  /** Drops the least recently used item; its entry number becomes the next to be handed out. */
  function MakeRoom<V>(t: Table<V>): Table<V>
    requires WellFormed(t)
  {
    if t.free != [] then t
    else
      var last := |t.items| - 1;
      t.(items := t.items[..last], free := [t.items[last].index],
         stats := t.stats.(recycles := Increment(t.stats.recycles)))
  }

  /** The entry number the next insertion will use: what a value constructor is called with. */
  function NextIndex<V>(t: Table<V>): nat
    requires WellFormed(t)
  {
    MakeRoom(t).free[0]
  }

  function Inserted<V>(t: Table<V>, h: StrongHash, value: V): Table<V>
    requires WellFormed(t)
  {
    var r := MakeRoom(t);
    Numbered(r.(items := [Item(r.free[0], h, value)] + r.items, free := r.free[1..]))
  }

  function GetOrEmplaced<V>(t: Table<V>, h: StrongHash, value: V): Table<V>
    requires WellFormed(t)
  {
    var k := Position(t.items, h);
    if k < |t.items| then Hit(t, k) else Inserted(Missed(t), h, value)
  }

  /** A failed construction leaves its number drawn, and the evicted item evicted. */
  function GetOrTryEmplaced<V>(t: Table<V>, h: StrongHash, value: Option<V>): Table<V>
    requires WellFormed(t)
  {
    var k := Position(t.items, h);
    if k < |t.items| then Hit(t, k)
    else if value.Some? then Inserted(Missed(t), h, value.value)
    else Numbered(MakeRoom(Missed(t)))
  }

  /** findEntry without force: a hit moves to the front, a miss only counts. */
  function Touched<V>(t: Table<V>, h: StrongHash): Table<V> {
    var k := Position(t.items, h);
    if k < |t.items| then Hit(t, k) else Missed(t)
  }

  function Lookup<V>(t: Table<V>, h: StrongHash): Option<V> {
    var k := Position(t.items, h);
    if k < |t.items| then Some(t.items[k].value) else None
  }

  /** An absent hash is looked up twice, so it counts two misses. */
  function TryEmplaced<V>(t: Table<V>, h: StrongHash, value: V): Table<V>
    requires WellFormed(t)
  {
    if Resident(t, h) then Touched(t, h) else Inserted(Missed(Missed(t)), h, value)
  }

  /** The item ends up at the front, so assigning to it is assigning to the front. */
  function Emplaced<V>(t: Table<V>, h: StrongHash, value: V): Table<V>
    requires WellFormed(t)
  {
    var r := GetOrEmplaced(t, h, value);
    r.(items := [r.items[0].(value := value)] + r.items[1..])
  }

  function Removed<V>(t: Table<V>, h: StrongHash): Table<V> {
    var k := Position(t.items, h);
    if k < |t.items| then t.(items := Without(t.items, k), free := [t.items[k].index] + t.free) else t
  }

  function Cleared<V>(t: Table<V>): Table<V> {
    t.(items := [], free := UpTo(t.capacity), ordering := 0)
  }

  function Hashes<V>(items: seq<Item<V>>): (r: seq<StrongHash>)
    ensures |r| == |items| && forall i :: 0 <= i < |r| ==> r[i] == items[i].hash
  {
    seq(|items|, i requires 0 <= i < |items| => items[i].hash)
  }

  lemma PositionUnique<V>(items: seq<Item<V>>, k: nat)
    requires k < |items| && Distinct(items)
    ensures Position(items, items[k].hash) == k
  {
  }

  lemma MissedNextIndex<V>(t: Table<V>)
    requires WellFormed(t)
    ensures WellFormed(Missed(t)) && NextIndex(Missed(t)) == NextIndex(t)
  {
  }

  /** Creating with one value and overwriting it is creating with the other. */
  lemma CreateThenOverwrite<V>(t: Table<V>, h: StrongHash, first: V, second: V)
    requires WellFormed(t) && !Resident(t, h)
    ensures var r := GetOrEmplaced(t, h, first);
            && r.items[0].index == NextIndex(t)
            && r.(items := [r.items[0].(value := second)] + r.items[1..]) == Inserted(Missed(t), h, second)
  {
    var room := MakeRoom(Missed(t));
    assert ([Item(room.free[0], h, first)] + room.items)[1..] == room.items;
  }

  lemma HitWellFormed<V>(t: Table<V>, k: nat)
    requires WellFormed(t) && k < |t.items|
    ensures WellFormed(Hit(t, k))
  {
    assert Distinct(ToFront(t.items, k));
  }

  lemma MakeRoomWellFormed<V>(t: Table<V>)
    requires WellFormed(t)
    ensures WellFormed(MakeRoom(t)) && MakeRoom(t).free != []
    ensures forall i :: 0 <= i < |MakeRoom(t).items| ==> MakeRoom(t).items[i] == t.items[i]
  {
  }

  lemma InsertedWellFormed<V>(t: Table<V>, h: StrongHash, value: V)
    requires WellFormed(t) && !Resident(t, h)
    ensures WellFormed(Inserted(t, h, value))
  {
    MakeRoomWellFormed(t);
    assert Distinct(Inserted(t, h, value).items);
  }

  lemma GetOrEmplacedWellFormed<V>(t: Table<V>, h: StrongHash, value: V)
    requires WellFormed(t)
    ensures WellFormed(GetOrEmplaced(t, h, value))
    ensures GetOrEmplaced(t, h, value).capacity == t.capacity
  {
    if Resident(t, h) {
      HitWellFormed(t, Position(t.items, h));
    } else {
      InsertedWellFormed(Missed(t), h, value);
    }
  }

  lemma GetOrTryEmplacedWellFormed<V>(t: Table<V>, h: StrongHash, value: Option<V>)
    requires WellFormed(t)
    ensures WellFormed(GetOrTryEmplaced(t, h, value))
    ensures GetOrTryEmplaced(t, h, value).capacity == t.capacity
  {
    if Resident(t, h) {
      HitWellFormed(t, Position(t.items, h));
    } else if value.Some? {
      InsertedWellFormed(Missed(t), h, value.value);
    } else {
      MakeRoomWellFormed(Missed(t));
    }
  }

  lemma TouchedWellFormed<V>(t: Table<V>, h: StrongHash)
    requires WellFormed(t)
    ensures WellFormed(Touched(t, h)) && Touched(t, h).capacity == t.capacity
  {
    if Resident(t, h) {
      HitWellFormed(t, Position(t.items, h));
    }
  }

  lemma TryEmplacedWellFormed<V>(t: Table<V>, h: StrongHash, value: V)
    requires WellFormed(t)
    ensures WellFormed(TryEmplaced(t, h, value)) && TryEmplaced(t, h, value).capacity == t.capacity
  {
    if Resident(t, h) {
      HitWellFormed(t, Position(t.items, h));
    } else {
      InsertedWellFormed(Missed(Missed(t)), h, value);
    }
  }

  lemma RemovedWellFormed<V>(t: Table<V>, h: StrongHash)
    requires WellFormed(t)
    ensures WellFormed(Removed(t, h)) && Removed(t, h).capacity == t.capacity
  {
  }
}
