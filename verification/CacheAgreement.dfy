/** strong_lru_cache and lru_cache, side by side. */
module CacheAgreement {
  import opened Options
  import Words
  import opened StrongHashing
  import opened RecencyTable
  import opened KeyedList
  import opened HashedCache
  import opened LruHashtable
  import ListCache

  /** With distinct hashes for distinct keys, searching by hash is searching by key. */
  lemma PositionIsPlace<K(!new), V>(hasher: K -> StrongHash, items: seq<Item<Pair<K, V>>>, key: K)
    requires Injective(hasher) && Keyed(hasher, items)
    ensures Position(items, hasher(key)) == Place(Listing(items), key)
  {
    var k, p := Position(items, hasher(key)), Place(Listing(items), key);
    if k < |items| {
      assert hasher(items[k].value.key) == hasher(key);
      assert Listing(items)[k].key == key;
    }
    if p < |items| {
      assert items[p].value.key == key;
    }
  }

  lemma TouchedListing<K(!new), V>(hasher: K -> StrongHash, t: Table<Pair<K, V>>, key: K)
    requires Injective(hasher) && Keyed(hasher, t.items)
    ensures Listing(Touched(t, hasher(key)).items) == Looked(Listing(t.items), key)
  {
    PositionIsPlace(hasher, t.items, key);
    if Resident(t, hasher(key)) {
      ToFrontListing(t.items, Place(Listing(t.items), key));
    }
  }

  lemma ToFrontListing<K, V>(items: seq<Item<Pair<K, V>>>, k: nat)
    requires k < |items|
    ensures Listing(ToFront(items, k)) == ToFront(Listing(items), k)
  {
  }

  lemma InsertedListing<K, V>(t: Table<Pair<K, V>>, h: StrongHash, key: K, value: V)
    requires WellFormed(t) && Place(Listing(t.items), key) == |t.items|
    ensures Listing(Inserted(t, h, Pair(key, value)).items) == Got(t.capacity, Listing(t.items), key, value)
  {
    var r := MakeRoom(t);
    assert Listing([Item(r.free[0], h, Pair(key, value))] + r.items) == [Pair(key, value)] + Listing(r.items);
  }

  lemma GotListing<K(!new), V>(hasher: K -> StrongHash, t: Table<Pair<K, V>>, key: K, value: V)
    requires WellFormed(t) && Injective(hasher) && Keyed(hasher, t.items)
    ensures Listing(GetOrEmplaced(t, hasher(key), Pair(key, value)).items)
         == Got(t.capacity, Listing(t.items), key, value)
    ensures Listing(TryEmplaced(t, hasher(key), Pair(key, value)).items)
         == Got(t.capacity, Listing(t.items), key, value)
  {
    PositionIsPlace(hasher, t.items, key);
    if Resident(t, hasher(key)) {
      TouchedListing(hasher, t, key);
    } else {
      InsertedListing(Missed(t), hasher(key), key, value);
      InsertedListing(Missed(Missed(t)), hasher(key), key, value);
    }
  }

  lemma StepAgrees<K(!new), V>(hasher: K -> StrongHash, default: V, t: Table<Pair<K, V>>, op: CacheOp<K, V>)
    requires WellFormed(t) && Injective(hasher) && Keyed(hasher, t.items)
    ensures Listing(CacheStep(hasher, default, t, op).items) == Step(t.capacity, default, Listing(t.items), op)
    ensures CacheReply(hasher, default, t, op) == ReplyTo(default, Listing(t.items), op)
  {
    match op
    case TryGet(key) => TouchedListing(hasher, t, key); LookupIsFound(hasher, t, key);
    case Touch(key) => TouchedListing(hasher, t, key);
    case Index(key) => GotListing(hasher, t, key, default); LookupIsFound(hasher, t, key);
    case GetOrEmplace(key, value) => GotListing(hasher, t, key, value); LookupIsFound(hasher, t, key);
    case TryEmplace(key, value) => GotListing(hasher, t, key, value); LookupIsFound(hasher, t, key);
    case Clear =>
  }

  lemma LookupIsFound<K(!new), V>(hasher: K -> StrongHash, t: Table<Pair<K, V>>, key: K)
    requires Injective(hasher) && Keyed(hasher, t.items)
    ensures ValueOf(Lookup(t, hasher(key))) == Found(Listing(t.items), key)
    ensures Resident(t, hasher(key)) <==> Found(Listing(t.items), key).Some?
  {
    PositionIsPlace(hasher, t.items, key);
  }

  /** The two caches, started empty, give the same replies and end with the same keys in the same order. */
  ghost predicate Agree<K, V>(hasher: K -> StrongHash, capacity: nat, default: V, ops: seq<CacheOp<K, V>>)
    requires capacity >= 2
  {
    && CacheReplies(hasher, default, Fresh(capacity), ops) == Replies(capacity, default, [], ops)
    && Listing(CacheSteps(hasher, default, Fresh(capacity), ops).items) == Steps(capacity, default, [], ops)
  }

  lemma {:induction false} RunsAgree<K(!new), V>(hasher: K -> StrongHash, capacity: nat, default: V,
                                                 ops: seq<CacheOp<K, V>>)
    requires capacity >= 2 && Injective(hasher)
    ensures Agree(hasher, capacity, default, ops)
    ensures Keyed(hasher, CacheSteps(hasher, default, Fresh(capacity), ops).items)
    decreases |ops|
  {
    if ops != [] {
      var before, last := ops[..|ops| - 1], ops[|ops| - 1];
      RunsAgree(hasher, capacity, default, before);
      var t := CacheSteps(hasher, default, Fresh(capacity), before);
      StepAgrees(hasher, default, t, last);
      CacheStepKeyed(hasher, default, t, last);
    }
  }

  /** Two keys with one hash: the hashed cache answers for the second with the value of the first. */
  lemma CollisionDisagrees<K, V>(hasher: K -> StrongHash, capacity: nat, default: V, x: K, y: K, value: V)
    requires capacity >= 2 && x != y && hasher(x) == hasher(y)
    ensures !Agree(hasher, capacity, default, [GetOrEmplace(x, value), TryGet(y)])
  {
    var put: seq<CacheOp<K, V>> := [GetOrEmplace(x, value)];
    var ops := put + [TryGet(y)];
    assert ops == [GetOrEmplace(x, value), TryGet(y)];
    assert ops[..1] == put && put[..0] == [];
    var t := CacheSteps(hasher, default, Fresh(capacity), put);
    assert CacheSteps(hasher, default, Fresh(capacity), put[..0]) == Fresh(capacity);
    assert t.items == [Item(1, hasher(x), Pair(x, value))];
    assert CacheReply(hasher, default, t, ops[1]) == Gave(Some(value));
    assert Steps(capacity, default, [], put) == [Pair(x, value)];
    assert ReplyTo(default, [Pair(x, value)], ops[1]) == Gave(None);
    if Agree(hasher, capacity, default, ops) {
      LastReplies(hasher, capacity, default, ops);
    }
  }

  lemma LastReplies<K, V>(hasher: K -> StrongHash, capacity: nat, default: V, ops: seq<CacheOp<K, V>>)
    requires capacity >= 2 && ops != [] && Agree(hasher, capacity, default, ops)
    ensures var before, last := ops[..|ops| - 1], ops[|ops| - 1];
            CacheReply(hasher, default, CacheSteps(hasher, default, Fresh(capacity), before), last)
            == ReplyTo(default, Steps(capacity, default, [], before), last)
  {
    var before, last := ops[..|ops| - 1], ops[|ops| - 1];
    var a, b := CacheReplies(hasher, default, Fresh(capacity), before), Replies(capacity, default, [], before);
    var x := CacheReply(hasher, default, CacheSteps(hasher, default, Fresh(capacity), before), last);
    var y := ReplyTo(default, Steps(capacity, default, [], before), last);
    assert a + [x] == b + [y];
    assert (a + [x])[|a + [x]| - 1] == x && (b + [y])[|b + [y]| - 1] == y;
  }

  /** The caches are interchangeable exactly when the hasher never confuses two keys. */
  lemma AgreementIsInjectivity<K(!new), V(!new)>(hasher: K -> StrongHash, capacity: nat, default: V)
    requires capacity >= 2
    ensures Injective(hasher) <==> forall ops :: Agree(hasher, capacity, default, ops)
  {
    if Injective(hasher) {
      forall ops
        ensures Agree(hasher, capacity, default, ops)
      {
        RunsAgree(hasher, capacity, default, ops);
      }
    } else {
      var x, y :| hasher(x) == hasher(y) && x != y;
      CollisionDisagrees(hasher, capacity, default, x, y, default);
    }
  }

  /** The same calls on two fresh cache objects. */
  method SideBySide<K(!new, ==), V>(hasher: K -> StrongHash, slotCount: nat, capacity: nat, defaultKey: K, default: V,
                                    ops: seq<CacheOp<K, V>>)
    returns (hashed: seq<Reply<V>>, listed: seq<Reply<V>>, hashedKeys: seq<K>, listedKeys: seq<K>)
    requires Injective(hasher)
    requires slotCount >= 1 && Words.IsPowerOfTwo(slotCount) && capacity >= 2
    ensures hashed == listed && hashedKeys == listedKeys
    ensures hashed == Replies(capacity, default, [], ops)
    ensures hashedKeys == Keys(Steps(capacity, default, [], ops))
  {
    RunsAgree(hasher, capacity, default, ops);
    var strong := new StrongLruCache(hasher, slotCount, capacity, defaultKey, default);
    hashed := strong.PerformAll(ops);
    hashedKeys := strong.KeysInOrder();
    var list := new ListCache.LruCache(capacity, default);
    listed := list.PerformAll(ops);
    listedKeys := list.KeysInOrder();
  }
}
