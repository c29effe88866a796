/** crispy::strong_lru_cache: keys in front of the hash table, told apart by their hashes only. */
module HashedCache {
  import opened Options
  import Words
  import opened StrongHashing
  import opened RecencyTable
  import opened KeyedList
  import opened LruHashtable

  /** What a call on the cache does to the table underneath. */
  function CacheStep<K, V>(hasher: K -> StrongHash, default: V, t: Table<Pair<K, V>>,
                           op: CacheOp<K, V>): Table<Pair<K, V>>
    requires WellFormed(t)
  {
    match op
    case TryGet(key) => Touched(t, hasher(key))
    case Touch(key) => Touched(t, hasher(key))
    case Index(key) => GetOrEmplaced(t, hasher(key), Pair(key, default))
    case GetOrEmplace(key, value) => GetOrEmplaced(t, hasher(key), Pair(key, value))
    case TryEmplace(key, value) => TryEmplaced(t, hasher(key), Pair(key, value))
    case Clear => Cleared(t)
  }

  function CacheReply<K, V>(hasher: K -> StrongHash, default: V, t: Table<Pair<K, V>>, op: CacheOp<K, V>): Reply<V> {
    match op
    case TryGet(key) => Gave(ValueOf(Lookup(t, hasher(key))))
    case Touch(_) => Done
    case Index(key) => Gave(Some(ValueOf(Lookup(t, hasher(key))).GetOr(default)))
    case GetOrEmplace(key, value) => Gave(Some(ValueOf(Lookup(t, hasher(key))).GetOr(value)))
    case TryEmplace(key, _) => Created(!Resident(t, hasher(key)))
    case Clear => Done
  }

  function ValueOf<K, V>(p: Option<Pair<K, V>>): Option<V> {
    if p.Some? then Some(p.value.value) else None
  }

  function Listing<K, V>(items: seq<Item<Pair<K, V>>>): (r: seq<Pair<K, V>>)
    ensures |r| == |items| && forall i :: 0 <= i < |r| ==> r[i] == items[i].value
  {
    seq(|items|, i requires 0 <= i < |items| => items[i].value)
  }

  /** Every entry sits under the hash of its own key. */
  ghost predicate Keyed<K, V>(hasher: K -> StrongHash, items: seq<Item<Pair<K, V>>>) {
    forall i :: 0 <= i < |items| ==> items[i].hash == hasher(items[i].value.key)
  }

  lemma CacheStepWellFormed<K, V>(hasher: K -> StrongHash, default: V, t: Table<Pair<K, V>>, op: CacheOp<K, V>)
    requires WellFormed(t)
    ensures WellFormed(CacheStep(hasher, default, t, op)) && CacheStep(hasher, default, t, op).capacity == t.capacity
  {
    match op
    case TryGet(key) => TouchedWellFormed(t, hasher(key));
    case Touch(key) => TouchedWellFormed(t, hasher(key));
    case Index(key) => GetOrEmplacedWellFormed(t, hasher(key), Pair(key, default));
    case GetOrEmplace(key, value) => GetOrEmplacedWellFormed(t, hasher(key), Pair(key, value));
    case TryEmplace(key, value) => TryEmplacedWellFormed(t, hasher(key), Pair(key, value));
    case Clear =>
  }

  lemma TouchedKeyed<K, V>(hasher: K -> StrongHash, t: Table<Pair<K, V>>, h: StrongHash)
    requires Keyed(hasher, t.items)
    ensures Keyed(hasher, Touched(t, h).items)
  {
  }

  lemma InsertedKeyed<K, V>(hasher: K -> StrongHash, t: Table<Pair<K, V>>, key: K, value: V)
    requires WellFormed(t) && Keyed(hasher, t.items)
    ensures Keyed(hasher, Inserted(t, hasher(key), Pair(key, value)).items)
  {
  }

  lemma CacheStepKeyed<K, V>(hasher: K -> StrongHash, default: V, t: Table<Pair<K, V>>, op: CacheOp<K, V>)
    requires WellFormed(t) && Keyed(hasher, t.items)
    ensures Keyed(hasher, CacheStep(hasher, default, t, op).items)
  {
    match op
    case TryGet(key) => TouchedKeyed(hasher, t, hasher(key));
    case Touch(key) => TouchedKeyed(hasher, t, hasher(key));
    case Index(key) =>
      TouchedKeyed(hasher, t, hasher(key));
      InsertedKeyed(hasher, Missed(t), key, default);
    case GetOrEmplace(key, value) =>
      TouchedKeyed(hasher, t, hasher(key));
      InsertedKeyed(hasher, Missed(t), key, value);
    case TryEmplace(key, value) =>
      TouchedKeyed(hasher, t, hasher(key));
      InsertedKeyed(hasher, Missed(Missed(t)), key, value);
    case Clear =>
  }

  function CacheSteps<K, V>(hasher: K -> StrongHash, default: V, t: Table<Pair<K, V>>,
                            ops: seq<CacheOp<K, V>>): (r: Table<Pair<K, V>>)
    requires WellFormed(t)
    ensures WellFormed(r) && r.capacity == t.capacity
  {
    if ops == [] then t
    else
      var before := CacheSteps(hasher, default, t, ops[..|ops| - 1]);
      CacheStepWellFormed(hasher, default, before, ops[|ops| - 1]);
      CacheStep(hasher, default, before, ops[|ops| - 1])
  }

  function CacheReplies<K, V>(hasher: K -> StrongHash, default: V, t: Table<Pair<K, V>>,
                              ops: seq<CacheOp<K, V>>): seq<Reply<V>>
    requires WellFormed(t)
  {
    if ops == [] then []
    else
      var before := ops[..|ops| - 1];
      CacheReplies(hasher, default, t, before)
      + [CacheReply(hasher, default, CacheSteps(hasher, default, t, before), ops[|ops| - 1])]
  }

  class StrongLruCache<K, V> {
    const table: StrongLruHashtable<Pair<K, V>>
    const hasher: K -> StrongHash
    const defaultValue: V

    ghost predicate Valid()
      reads table, table.hashTable, table.entries
    {
      table.Valid() && Keyed(hasher, table.Contents().items)
    }

    constructor (hasher: K -> StrongHash, slotCount: nat, entryCount: nat, defaultKey: K, defaultValue: V)
      requires slotCount >= 1 && Words.IsPowerOfTwo(slotCount)
      requires entryCount >= 2
      ensures fresh(table) && fresh(table.hashTable) && fresh(table.entries)
      ensures this.hasher == hasher && this.defaultValue == defaultValue
      ensures Valid() && table.Contents() == Fresh(entryCount)
    {
      this.hasher := hasher;
      this.defaultValue := defaultValue;
      table := new StrongLruHashtable(slotCount, entryCount, Pair(defaultKey, defaultValue));
    }

    /** try_get; at throws where this returns None. */
    method TryGet(key: K) returns (v: Option<V>)
      requires Valid()
      modifies table, table.hashTable, table.entries
      ensures WellFormed(old(table.Contents()))
      ensures Valid() && table.Contents()
           == CacheStep(hasher, defaultValue, old(table.Contents()), KeyedList.TryGet(key))
      ensures Gave(v) == CacheReply(hasher, defaultValue, old(table.Contents()), KeyedList.TryGet(key))
    {
      table.ContentsWellFormed();
      CacheStepKeyed(hasher, defaultValue, table.Contents(), KeyedList.TryGet(key));
      var e := table.TryGet(hasher(key));
      v := if e.Some? then Some(e.value.value) else None;
    }

    method Touch(key: K)
      requires Valid()
      modifies table, table.hashTable, table.entries
      ensures WellFormed(old(table.Contents()))
      ensures Valid() && table.Contents()
           == CacheStep(hasher, defaultValue, old(table.Contents()), KeyedList.Touch(key))
    {
      table.ContentsWellFormed();
      CacheStepKeyed(hasher, defaultValue, table.Contents(), KeyedList.Touch(key));
      table.Touch(hasher(key));
    }

    /** operator[] */
    method Index(key: K) returns (v: V)
      requires Valid()
      modifies table, table.hashTable, table.entries
      ensures WellFormed(old(table.Contents()))
      ensures Valid() && table.Contents()
           == CacheStep(hasher, defaultValue, old(table.Contents()), KeyedList.Index(key))
      ensures Gave(Some(v)) == CacheReply(hasher, defaultValue, old(table.Contents()), KeyedList.Index(key))
    {
      table.ContentsWellFormed();
      CacheStepKeyed(hasher, defaultValue, table.Contents(), KeyedList.Index(key));
      var e := table.GetOrEmplace(hasher(key), _ => Pair(key, defaultValue));
      v := e.value;
    }

    /** get_or_emplace; the constructor gets the number of the new entry. */
    method GetOrEmplace(key: K, make: nat -> V) returns (v: V)
      requires Valid()
      modifies table, table.hashTable, table.entries
      ensures WellFormed(old(table.Contents()))
      ensures var op := KeyedList.GetOrEmplace(key, make(NextIndex(old(table.Contents()))));
              && Valid() && table.Contents() == CacheStep(hasher, defaultValue, old(table.Contents()), op)
              && Gave(Some(v)) == CacheReply(hasher, defaultValue, old(table.Contents()), op)
    {
      table.ContentsWellFormed();
      ghost var value := make(NextIndex(table.Contents()));
      CacheStepKeyed(hasher, defaultValue, table.Contents(), KeyedList.GetOrEmplace(key, value));
      var e := table.GetOrEmplace(hasher(key), (i: nat) => Pair(key, make(i)));
      v := e.value;
    }

    method TryEmplace(key: K, make: nat -> V) returns (created: bool)
      requires Valid()
      modifies table, table.hashTable, table.entries
      ensures WellFormed(old(table.Contents()))
      ensures var op := KeyedList.TryEmplace(key, make(NextIndex(old(table.Contents()))));
              && Valid() && table.Contents() == CacheStep(hasher, defaultValue, old(table.Contents()), op)
              && Created(created) == CacheReply(hasher, defaultValue, old(table.Contents()), op)
    {
      table.ContentsWellFormed();
      ghost var value := make(NextIndex(table.Contents()));
      CacheStepKeyed(hasher, defaultValue, table.Contents(), KeyedList.TryEmplace(key, value));
      created := table.TryEmplace(hasher(key), (i: nat) => Pair(key, make(i)));
    }

    /** contains reorders, as it does in the table. */
    method Contains(key: K) returns (found: bool)
      requires Valid()
      modifies table, table.hashTable, table.entries
      ensures Valid() && table.Contents() == Touched(old(table.Contents()), hasher(key))
      ensures found == Resident(old(table.Contents()), hasher(key))
    {
      TouchedKeyed(hasher, table.Contents(), hasher(key));
      found := table.Contains(hasher(key));
    }

    method Clear()
      requires Valid()
      modifies table, table.hashTable, table.entries
      ensures WellFormed(old(table.Contents()))
      ensures Valid() && table.Contents() == CacheStep(hasher, defaultValue, old(table.Contents()), KeyedList.Clear)
    {
      table.ContentsWellFormed();
      CacheStepKeyed(hasher, defaultValue, table.Contents(), KeyedList.Clear);
      table.Clear();
    }

    method Remove(key: K)
      requires Valid()
      modifies table, table.hashTable, table.entries
      ensures Valid() && table.Contents() == Removed(old(table.Contents()), hasher(key))
    {
      table.Remove(hasher(key));
    }

    method Emplace(key: K, value: V) returns (stored: V)
      requires Valid()
      modifies table, table.hashTable, table.entries
      ensures WellFormed(old(table.Contents()))
      ensures Valid() && table.Contents() == Emplaced(old(table.Contents()), hasher(key), Pair(key, value))
      ensures stored == value
    {
      table.ContentsWellFormed();
      EmplacedKeyed(hasher, table.Contents(), key, value);
      var e := table.Emplace(hasher(key), Pair(key, value));
      stored := e.value;
    }

    /** keys: every hash of the table is looked up again for the key stored under it. */
    method KeysInOrder() returns (result: seq<K>)
      requires Valid()
      ensures result == Keys(Listing(table.Contents().items))
    {
      table.ContentsWellFormed();
      var hashes := table.HashesInOrder();
      ghost var items := table.Contents().items;
      result := [];
      for i := 0 to |hashes|
        invariant result == Keys(Listing(items))[..i]
      {
        PositionUnique(items, i);
        var e := table.Peek(hashes[i]);
        result := result + [e.value.key];
      }
    }

    method Perform(op: CacheOp<K, V>) returns (reply: Reply<V>)
      requires Valid()
      modifies table, table.hashTable, table.entries
      ensures WellFormed(old(table.Contents()))
      ensures Valid() && table.Contents() == CacheStep(hasher, defaultValue, old(table.Contents()), op)
      ensures reply == CacheReply(hasher, defaultValue, old(table.Contents()), op)
    {
      reply := Done;
      match op
      case TryGet(key) =>
        var v := TryGet(key);
        reply := Gave(v);
      case Touch(key) =>
        Touch(key);
      case Index(key) =>
        var v := Index(key);
        reply := Gave(Some(v));
      case GetOrEmplace(key, value) =>
        var v := GetOrEmplace(key, _ => value);
        reply := Gave(Some(v));
      case TryEmplace(key, value) =>
        var created := TryEmplace(key, _ => value);
        reply := Created(created);
      case Clear =>
        Clear();
    }

    /** Any sequence of calls. */
    method PerformAll(ops: seq<CacheOp<K, V>>) returns (replies: seq<Reply<V>>)
      requires Valid()
      modifies table, table.hashTable, table.entries
      ensures WellFormed(old(table.Contents()))
      ensures Valid() && table.Contents() == CacheSteps(hasher, defaultValue, old(table.Contents()), ops)
      ensures replies == CacheReplies(hasher, defaultValue, old(table.Contents()), ops)
      decreases |ops|
    {
      table.ContentsWellFormed();
      if ops == [] {
        return [];
      }
      replies := PerformAll(ops[..|ops| - 1]);
      var reply := Perform(ops[|ops| - 1]);
      replies := replies + [reply];
    }
  }

  lemma EmplacedKeyed<K, V>(hasher: K -> StrongHash, t: Table<Pair<K, V>>, key: K, value: V)
    requires WellFormed(t) && Keyed(hasher, t.items)
    ensures Keyed(hasher, Emplaced(t, hasher(key), Pair(key, value)).items)
  {
    CacheStepKeyed(hasher, value, t, KeyedList.GetOrEmplace(key, value));
  }
}
