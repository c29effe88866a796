/** What a keyed LRU cache is meant to be: key-value pairs, most recently used first. */
module KeyedList {
  import opened Options
  import opened RecencyTable

  datatype Pair<+K, +V> = Pair(key: K, value: V)

  /** Where `key` stands in the list, or the length of the list when it does not occur. */
  function Place<K(==), V>(list: seq<Pair<K, V>>, key: K): (k: nat)
    ensures k <= |list|
    ensures k < |list| ==> list[k].key == key
    ensures forall j :: 0 <= j < k ==> list[j].key != key
  {
    if list == [] || list[0].key == key then 0 else 1 + Place(list[1..], key)
  }

  function Found<K(==), V>(list: seq<Pair<K, V>>, key: K): Option<V> {
    var k := Place(list, key);
    if k < |list| then Some(list[k].value) else None
  }

  /** A lookup moves what it finds to the front. */
  function Looked<K(==), V>(list: seq<Pair<K, V>>, key: K): seq<Pair<K, V>> {
    var k := Place(list, key);
    if k < |list| then ToFront(list, k) else list
  }

  /** What is not found is put in front, in place of the last pair when the list is full. */
  function Got<K(==), V>(capacity: nat, list: seq<Pair<K, V>>, key: K, value: V): seq<Pair<K, V>> {
    if Place(list, key) < |list| then Looked(list, key)
    else [Pair(key, value)] + if |list| == capacity && |list| > 0 then list[..|list| - 1] else list
  }

  datatype CacheOp<K, V> =
    | TryGet(key: K)
    | Touch(key: K)
    | Index(key: K)
    | GetOrEmplace(key: K, value: V)
    | TryEmplace(key: K, value: V)
    | Clear

  datatype Reply<V> = Gave(value: Option<V>) | Created(created: bool) | Done

  function Step<K(==), V>(capacity: nat, default: V, list: seq<Pair<K, V>>, op: CacheOp<K, V>): seq<Pair<K, V>> {
    match op
    case TryGet(key) => Looked(list, key)
    case Touch(key) => Looked(list, key)
    case Index(key) => Got(capacity, list, key, default)
    case GetOrEmplace(key, value) => Got(capacity, list, key, value)
    case TryEmplace(key, value) => Got(capacity, list, key, value)
    case Clear => []
  }

  function ReplyTo<K(==), V>(default: V, list: seq<Pair<K, V>>, op: CacheOp<K, V>): Reply<V> {
    match op
    case TryGet(key) => Gave(Found(list, key))
    case Touch(_) => Done
    case Index(key) => Gave(Some(Found(list, key).GetOr(default)))
    case GetOrEmplace(key, value) => Gave(Some(Found(list, key).GetOr(value)))
    case TryEmplace(key, _) => Created(Found(list, key).None?)
    case Clear => Done
  }

  function Steps<K(==), V>(capacity: nat, default: V, list: seq<Pair<K, V>>, ops: seq<CacheOp<K, V>>): seq<Pair<K, V>> {
    if ops == [] then list
    else Step(capacity, default, Steps(capacity, default, list, ops[..|ops| - 1]), ops[|ops| - 1])
  }

  function Replies<K(==), V>(capacity: nat, default: V, list: seq<Pair<K, V>>, ops: seq<CacheOp<K, V>>): seq<Reply<V>> {
    if ops == [] then []
    else
      var before := ops[..|ops| - 1];
      Replies(capacity, default, list, before)
      + [ReplyTo(default, Steps(capacity, default, list, before), ops[|ops| - 1])]
  }

  function Keys<K, V>(list: seq<Pair<K, V>>): (r: seq<K>)
    ensures |r| == |list| && forall i :: 0 <= i < |r| ==> r[i] == list[i].key
  {
    seq(|list|, i requires 0 <= i < |list| => list[i].key)
  }

  predicate UniqueKeys<K(==), V>(list: seq<Pair<K, V>>) {
    forall i, j :: 0 <= i < j < |list| ==> list[i].key != list[j].key
  }
}
