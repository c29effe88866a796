/** What each call does to a keyed LRU cache, said of its keys and of what is found under them. */
module KeyedLaws {
  import opened Options
  import opened RecencyTable
  import opened KeyedList

  function Others<K(==)>(keys: seq<K>, key: K): seq<K> {
    if keys == [] then []
    else if keys[0] == key then Others(keys[1..], key)
    else [keys[0]] + Others(keys[1..], key)
  }

  function Cut<K>(keys: seq<K>, capacity: nat): seq<K> {
    if |keys| <= capacity then keys else keys[..capacity]
  }

  predicate Creates<K, V>(op: CacheOp<K, V>) {
    op.Index? || op.GetOrEmplace? || op.TryEmplace?
  }

  lemma {:induction false} OthersAbsent<K>(keys: seq<K>, key: K)
    requires key !in keys
    ensures Others(keys, key) == keys
  {
    if keys != [] {
      OthersAbsent(keys[1..], key);
    }
  }

  lemma {:induction false} OthersAt<K>(keys: seq<K>, k: nat)
    requires k < |keys| && forall i, j :: 0 <= i < j < |keys| ==> keys[i] != keys[j]
    ensures Others(keys, keys[k]) == Without(keys, k)
  {
    if k == 0 {
      OthersAbsent(keys[1..], keys[0]);
    } else {
      OthersAt(keys[1..], k - 1);
    }
  }

  lemma KeyMembers<K, V>(list: seq<Pair<K, V>>, key: K)
    ensures key in Keys(list) <==> Place(list, key) < |list|
  {
    if i :| 0 <= i < |list| && Keys(list)[i] == key {
      assert list[i].key == key;
    }
    if Place(list, key) < |list| {
      assert Keys(list)[Place(list, key)] == key;
    }
  }

  lemma LookedKeys<K, V>(list: seq<Pair<K, V>>, key: K)
    requires UniqueKeys(list)
    ensures Keys(Looked(list, key)) == if key in Keys(list) then [key] + Others(Keys(list), key) else Keys(list)
  {
    KeyMembers(list, key);
    var k := Place(list, key);
    if k < |list| {
      OthersAt(Keys(list), k);
    }
  }

  lemma CutCons<K>(key: K, keys: seq<K>, capacity: nat)
    requires capacity >= 1
    ensures Cut([key] + keys, capacity) == [key] + Cut(keys, capacity - 1)
  {
  }

  lemma KeysCons<K, V>(pair: Pair<K, V>, list: seq<Pair<K, V>>)
    ensures Keys([pair] + list) == [pair.key] + Keys(list)
  {
  }

  lemma KeysCut<K, V>(list: seq<Pair<K, V>>, n: nat)
    ensures Keys(Cut(list, n)) == Cut(Keys(list), n)
  {
  }

  lemma NewKeys<K, V>(capacity: nat, list: seq<Pair<K, V>>, key: K, value: V)
    requires Place(list, key) == |list| && 1 <= capacity && |list| <= capacity
    ensures Keys(Got(capacity, list, key, value)) == Cut([key] + Keys(list), capacity)
  {
    assert Got(capacity, list, key, value) == [Pair(key, value)] + Cut(list, capacity - 1);
    KeysCons(Pair(key, value), Cut(list, capacity - 1));
    KeysCut(list, capacity - 1);
    CutCons(key, Keys(list), capacity);
  }

  lemma GotKeys<K, V>(capacity: nat, list: seq<Pair<K, V>>, key: K, value: V)
    requires UniqueKeys(list) && 1 <= capacity && |list| <= capacity
    ensures Keys(Got(capacity, list, key, value)) == Cut([key] + Others(Keys(list), key), capacity)
  {
    KeyMembers(list, key);
    if key in Keys(list) {
      LookedKeys(list, key);
      OthersAt(Keys(list), Place(list, key));
    } else {
      OthersAbsent(Keys(list), key);
      NewKeys(capacity, list, key, value);
    }
  }

  /** A call that creates puts its key first and cuts to capacity; a lookup puts a key that is there first. */
  lemma KeysLaw<K, V>(capacity: nat, default: V, list: seq<Pair<K, V>>, op: CacheOp<K, V>)
    requires UniqueKeys(list) && 1 <= capacity && |list| <= capacity
    ensures Keys(Step(capacity, default, list, op)) ==
            if op.Clear? then []
            else if Creates(op) then Cut([op.key] + Others(Keys(list), op.key), capacity)
            else if op.key in Keys(list) then [op.key] + Others(Keys(list), op.key)
            else Keys(list)
  {
    match op
    case TryGet(key) => LookedKeys(list, key);
    case Touch(key) => LookedKeys(list, key);
    case Index(key) => GotKeys(capacity, list, key, default);
    case GetOrEmplace(key, value) => GotKeys(capacity, list, key, value);
    case TryEmplace(key, value) => GotKeys(capacity, list, key, value);
    case Clear =>
  }

  lemma FoundAt<K, V>(list: seq<Pair<K, V>>, k: nat)
    requires UniqueKeys(list) && k < |list|
    ensures Found(list, list[k].key) == Some(list[k].value)
  {
  }

  lemma FoundIn<K, V>(list: seq<Pair<K, V>>, more: seq<Pair<K, V>>, x: K)
    requires UniqueKeys(more) && forall k :: 0 <= k < |list| ==> list[k] in more
    ensures Found(list, x).Some? ==> Found(list, x) == Found(more, x)
  {
    var k := Place(list, x);
    if k < |list| {
      var j :| 0 <= j < |more| && more[j] == list[k];
      FoundAt(more, j);
    }
  }

  lemma ToFrontPairs<K, V>(list: seq<Pair<K, V>>, k: nat)
    requires UniqueKeys(list) && k < |list|
    ensures UniqueKeys(ToFront(list, k))
    ensures forall j :: 0 <= j < |list| ==> ToFront(list, k)[j] in list
    ensures forall j :: 0 <= j < |list| ==> list[j] in ToFront(list, k)
  {
    var moved := ToFront(list, k);
    forall j | 0 <= j < |list|
      ensures list[j] in moved
    {
      assert moved[if j == k then 0 else if j < k then j + 1 else j] == list[j];
    }
  }

  lemma LookedFound<K, V>(list: seq<Pair<K, V>>, key: K, x: K)
    requires UniqueKeys(list)
    ensures Found(Looked(list, key), x) == Found(list, x)
  {
    var k := Place(list, key);
    if k < |list| {
      ToFrontPairs(list, k);
      FoundIn(list, ToFront(list, k), x);
      FoundIn(ToFront(list, k), list, x);
    }
  }

  lemma GotFound<K, V>(capacity: nat, list: seq<Pair<K, V>>, key: K, value: V, x: K)
    requires UniqueKeys(list) && 1 <= capacity && |list| <= capacity
    ensures var r := Got(capacity, list, key, value);
            Found(r, x) ==
            if x == key && key !in Keys(list) then Some(value) else if x in Keys(r) then Found(list, x) else None
  {
    var r := Got(capacity, list, key, value);
    KeyMembers(list, key);
    KeyMembers(r, x);
    if key in Keys(list) {
      LookedFound(list, key, x);
    } else if x != key && Place(r, x) < |r| {
      var k := Place(r, x);
      assert r[k] == list[k - 1];
      FoundAt(list, k - 1);
    }
  }

  /** Under a key that is there afterwards is what was there, or what was made for a new one. */
  lemma FoundLaw<K, V>(capacity: nat, default: V, list: seq<Pair<K, V>>, op: CacheOp<K, V>, x: K)
    requires UniqueKeys(list) && 1 <= capacity && |list| <= capacity
    ensures var r := Step(capacity, default, list, op);
            Found(r, x) ==
            if x !in Keys(r) then None
            else if Creates(op) && x == op.key && x !in Keys(list) then Some(if op.Index? then default else op.value)
            else Found(list, x)
  {
    KeyMembers(Step(capacity, default, list, op), x);
    match op
    case TryGet(key) => LookedFound(list, key, x);
    case Touch(key) => LookedFound(list, key, x);
    case Index(key) => GotFound(capacity, list, key, default, x);
    case GetOrEmplace(key, value) => GotFound(capacity, list, key, value, x);
    case TryEmplace(key, value) => GotFound(capacity, list, key, value, x);
    case Clear =>
  }

  /** A value handed back is the one found afterwards; try_emplace tells whether the key was new. */
  lemma ReplyLaw<K, V>(capacity: nat, default: V, list: seq<Pair<K, V>>, op: CacheOp<K, V>)
    requires UniqueKeys(list) && 1 <= capacity && |list| <= capacity
    ensures op.TryGet? || op.Index? || op.GetOrEmplace? ==>
              ReplyTo(default, list, op) == Gave(Found(Step(capacity, default, list, op), op.key))
    ensures op.TryEmplace? ==> ReplyTo(default, list, op) == Created(op.key !in Keys(list))
    ensures op.Touch? || op.Clear? ==> ReplyTo(default, list, op) == Done
  {
    if !op.Clear? {
      FoundLaw(capacity, default, list, op, op.key);
      KeysLaw(capacity, default, list, op);
      KeyMembers(list, op.key);
      KeyMembers(Step(capacity, default, list, op), op.key);
      if Creates(op) {
        assert ([op.key] + Others(Keys(list), op.key))[0] == op.key;
        assert Keys(Step(capacity, default, list, op))[0] == op.key;
      }
    }
  }
}
