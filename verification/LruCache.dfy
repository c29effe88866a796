/** crispy::lru_cache: a list of items and a map from keys to list nodes. */
module ListCache {
  import opened Options
  import opened RecencyTable
  import opened KeyedList

  /** A std::list node; `id` stands for the iterators that denote it. */
  datatype Node<+K, +V> = Node(id: nat, key: K, value: V)

  function PairsOf<K, V>(nodes: seq<Node<K, V>>): (r: seq<Pair<K, V>>)
    ensures |r| == |nodes| && forall i :: 0 <= i < |r| ==> r[i] == Pair(nodes[i].key, nodes[i].value)
  {
    seq(|nodes|, i requires 0 <= i < |nodes| => Pair(nodes[i].key, nodes[i].value))
  }

  /** Where the node denoted by `id` is. */
  function NodeAt<K, V>(nodes: seq<Node<K, V>>, id: nat): (k: nat)
    ensures k <= |nodes| && (k < |nodes| ==> nodes[k].id == id)
    ensures forall j :: 0 <= j < k ==> nodes[j].id != id
  {
    if nodes == [] || nodes[0].id == id then 0 else 1 + NodeAt(nodes[1..], id)
  }

  ghost predicate DistinctNodes<K, V>(nodes: seq<Node<K, V>>, nextId: nat) {
    && (forall i :: 0 <= i < |nodes| ==> nodes[i].id < nextId)
    && (forall i, j :: 0 <= i < j < |nodes| ==> nodes[i].id != nodes[j].id)
  }

  function KeysOf<K, V>(nodes: seq<Node<K, V>>): (r: seq<K>)
    ensures |r| == |nodes| && forall i :: 0 <= i < |r| ==> r[i] == nodes[i].key
  {
    seq(|nodes|, i requires 0 <= i < |nodes| => nodes[i].key)
  }

  ghost function KeySet<K>(keys: seq<K>): set<K> {
    set key | key in keys
  }

  /** The map leads the key of every node to that node, and has no other keys. */
  ghost predicate Mapped<K, V>(nodes: seq<Node<K, V>>, byKey: map<K, nat>) {
    && byKey.Keys == KeySet(KeysOf(nodes))
    && forall i :: 0 <= i < |nodes| ==> nodes[i].key in byKey && byKey[nodes[i].key] == nodes[i].id
  }

  lemma {:induction false} MappedKeys<K, V>(nodes: seq<Node<K, V>>, byKey: map<K, nat>, nextId: nat)
    requires DistinctNodes(nodes, nextId) && Mapped(nodes, byKey)
    ensures UniqueKeys(PairsOf(nodes))
    ensures forall key :: key in byKey <==> Place(PairsOf(nodes), key) < |nodes|
    ensures forall key :: key in byKey ==> NodeAt(nodes, byKey[key]) == Place(PairsOf(nodes), key)
  {
    forall key | key in byKey
      ensures Place(PairsOf(nodes), key) < |nodes|
      ensures NodeAt(nodes, byKey[key]) == Place(PairsOf(nodes), key)
    {
      var i :| 0 <= i < |nodes| && KeysOf(nodes)[i] == key;
      assert PairsOf(nodes)[i].key == key;
    }
    forall key | Place(PairsOf(nodes), key) < |nodes|
      ensures key in byKey
    {
      assert nodes[Place(PairsOf(nodes), key)].key in byKey;
    }
  }

  /** The node at k is replaced by a new node in front. */
  function Renewed<K, V>(nodes: seq<Node<K, V>>, k: nat, id: nat): (r: seq<Node<K, V>>)
    requires k < |nodes|
    ensures |r| == |nodes|
    ensures forall i :: 0 <= i < |r| ==>
              r[i] == if i == 0 then nodes[k].(id := id) else if i <= k then nodes[i - 1] else nodes[i]
  {
    [nodes[k].(id := id)] + Without(nodes, k)
  }

  lemma RenewedDistinct<K, V>(nodes: seq<Node<K, V>>, nextId: nat, k: nat)
    requires DistinctNodes(nodes, nextId) && k < |nodes|
    ensures DistinctNodes(Renewed(nodes, k, nextId), nextId + 1)
  {
  }

  lemma RenewedPairs<K, V>(nodes: seq<Node<K, V>>, id: nat, k: nat)
    requires k < |nodes|
    ensures PairsOf(Renewed(nodes, k, id)) == ToFront(PairsOf(nodes), k)
  {
  }

  /** Nodes are told apart by their keys, too. */
  lemma KeysApart<K, V>(nodes: seq<Node<K, V>>, byKey: map<K, nat>, nextId: nat, i: nat, j: nat)
    requires DistinctNodes(nodes, nextId) && Mapped(nodes, byKey) && i < |nodes| && j < |nodes| && i != j
    ensures nodes[i].key != nodes[j].key
  {
    assert byKey[nodes[i].key] == nodes[i].id && byKey[nodes[j].key] == nodes[j].id;
  }

  lemma RenewedKeys<K, V>(nodes: seq<Node<K, V>>, id: nat, k: nat)
    requires k < |nodes|
    ensures KeySet(KeysOf(Renewed(nodes, k, id))) == KeySet(KeysOf(nodes))
  {
    assert KeysOf(Renewed(nodes, k, id)) == ToFront(KeysOf(nodes), k);
    KeySetToFront(KeysOf(nodes), k);
  }

  lemma RenewedMapped<K, V>(nodes: seq<Node<K, V>>, byKey: map<K, nat>, nextId: nat, k: nat)
    requires DistinctNodes(nodes, nextId) && Mapped(nodes, byKey) && k < |nodes|
    ensures Mapped(Renewed(nodes, k, nextId), byKey[nodes[k].key := nextId])
  {
    var r, byKey' := Renewed(nodes, k, nextId), byKey[nodes[k].key := nextId];
    forall i | 0 <= i < |r|
      ensures r[i].key in byKey' && byKey'[r[i].key] == r[i].id
    {
      if i > 0 {
        var j := if i <= k then i - 1 else i;
        KeysApart(nodes, byKey, nextId, j, k);
        assert r[i] == nodes[j];
      }
    }
    RenewedKeys(nodes, nextId, k);
    assert byKey'.Keys == byKey.Keys;
  }

  lemma KeySetToFront<K>(keys: seq<K>, k: nat)
    requires k < |keys|
    ensures KeySet(ToFront(keys, k)) == KeySet(keys)
  {
    forall key | key in keys
      ensures key in ToFront(keys, k)
    {
      var i :| 0 <= i < |keys| && keys[i] == key;
      assert key == ToFront(keys, k)[if i == k then 0 else if i < k then i + 1 else i];
    }
  }

  lemma PushedPairs<K, V>(nodes: seq<Node<K, V>>, node: Node<K, V>)
    ensures PairsOf([node] + nodes) == [Pair(node.key, node.value)] + PairsOf(nodes)
  {
  }

  lemma PushedKeys<K, V>(nodes: seq<Node<K, V>>, node: Node<K, V>)
    ensures KeySet(KeysOf([node] + nodes)) == KeySet(KeysOf(nodes)) + {node.key}
  {
    assert KeysOf([node] + nodes) == [node.key] + KeysOf(nodes);
  }

  lemma {:induction false} PushedMapped<K, V>(nodes: seq<Node<K, V>>, byKey: map<K, nat>, nextId: nat, node: Node<K, V>)
    requires DistinctNodes(nodes, nextId) && Mapped(nodes, byKey) && node.key !in byKey && node.id == nextId
    ensures DistinctNodes([node] + nodes, nextId + 1)
    ensures Mapped([node] + nodes, byKey[node.key := nextId])
  {
    var r, byKey' := [node] + nodes, byKey[node.key := nextId];
    assert forall i :: 1 <= i < |r| ==> r[i] == nodes[i - 1];
    PushedKeys(nodes, node);
    assert byKey'.Keys == byKey.Keys + {node.key};
  }

  lemma {:induction false} DroppedMapped<K, V>(nodes: seq<Node<K, V>>, byKey: map<K, nat>, nextId: nat)
    requires DistinctNodes(nodes, nextId) && Mapped(nodes, byKey) && nodes != []
    ensures var last := |nodes| - 1;
            && DistinctNodes(nodes[..last], nextId)
            && Mapped(nodes[..last], byKey - {nodes[last].key})
            && PairsOf(nodes[..last]) == PairsOf(nodes)[..last]
  {
    var last := |nodes| - 1;
    var r := nodes[..last];
    forall i | 0 <= i < last
      ensures r[i].key != nodes[last].key
    {
      KeysApart(nodes, byKey, nextId, i, last);
    }
    assert KeysOf(nodes) == KeysOf(r) + [nodes[last].key];
    assert KeySet(KeysOf(r)) == KeySet(KeysOf(nodes)) - {nodes[last].key};
  }

  lemma {:induction false} EvictedMapped<K, V>(nodes: seq<Node<K, V>>, byKey: map<K, nat>, nextId: nat, key: K,
                                               value: V)
    requires DistinctNodes(nodes, nextId) && Mapped(nodes, byKey) && nodes != [] && key !in byKey
    ensures var last := |nodes| - 1;
            var r := [Node(nextId, key, value)] + nodes[..last];
            && DistinctNodes(r, nextId + 1)
            && Mapped(r, (byKey - {nodes[last].key})[key := nextId])
            && PairsOf(r) == [Pair(key, value)] + PairsOf(nodes)[..last]
  {
    var last, node := |nodes| - 1, Node(nextId, key, value);
    DroppedMapped(nodes, byKey, nextId);
    PushedMapped(nodes[..last], byKey - {nodes[last].key}, nextId, node);
    PushedPairs(nodes[..last], node);
  }

  lemma {:induction false} LastNode<K, V>(nodes: seq<Node<K, V>>, byKey: map<K, nat>, nextId: nat)
    requires DistinctNodes(nodes, nextId) && Mapped(nodes, byKey) && nodes != []
    ensures nodes[|nodes| - 1].key in byKey && NodeAt(nodes, byKey[nodes[|nodes| - 1].key]) == |nodes| - 1
  {
  }

  lemma RenewedLast<K, V>(nodes: seq<Node<K, V>>, id: nat, key: K, value: V)
    requires nodes != []
    ensures var r := Renewed(nodes, |nodes| - 1, id);
            [r[0].(key := key, value := value)] + r[1..] == [Node(id, key, value)] + nodes[..|nodes| - 1]
  {
  }

  class LruCache<K(==), V> {
    const capacity: nat
    const defaultValue: V
    var items: seq<Node<K, V>>
    var itemByKey: map<K, nat>
    /** Nodes are numbered in the order of their allocation. */
    var nextId: nat

    ghost predicate Valid()
      reads this
    {
      && capacity >= 1 && |items| <= capacity
      && DistinctNodes(items, nextId)
      && Mapped(items, itemByKey)
    }

    ghost function Listing(): (r: seq<Pair<K, V>>)
      reads this
    {
      PairsOf(items)
    }

    constructor (capacity: nat, defaultValue: V)
      requires capacity >= 1
      ensures Valid() && Listing() == []
      ensures this.capacity == capacity && this.defaultValue == defaultValue
    {
      this.capacity := capacity;
      this.defaultValue := defaultValue;
      items := [];
      itemByKey := map[];
      nextId := 0;
    }

    method Clear()
      requires Valid()
      modifies this
      ensures Valid() && Listing() == []
    {
      itemByKey := map[];
      items := [];
    }

    /** moveItemToFront: a new node takes over the contents of the old one. */
    method MoveItemToFront(id: nat) returns (front: nat)
      requires NodeAt(items, id) < |items|
      modifies this`items, this`nextId
      ensures front == old(nextId) && nextId == front + 1
      ensures items == Renewed(old(items), NodeAt(old(items), id), front)
    {
      var k := NodeAt(items, id);
      front := nextId;
      nextId := nextId + 1;
      var moved := items[k].(id := front);
      items := [moved] + items;
      items := Without(items, k + 1);
      assert Without([moved] + old(items), k + 1) == [moved] + Without(old(items), k);
    }

    /** emplaceItemToFront */
    method EmplaceItemToFront(key: K, value: V)
      requires Valid() && |items| < capacity && key !in itemByKey
      modifies this
      ensures Valid() && Listing() == [Pair(key, value)] + old(Listing())
    {
      var node := Node(nextId, key, value);
      PushedMapped(items, itemByKey, nextId, node);
      PushedPairs(items, node);
      items := [node] + items;
      itemByKey := itemByKey[key := nextId];
      nextId := nextId + 1;
    }

    /** evict_one_and_push_front: the last item's node is moved to the front and overwritten. */
    method EvictOneAndPushFront(key: K, value: V)
      requires Valid() && items != [] && key !in itemByKey
      modifies this
      ensures Valid() && Listing() == [Pair(key, value)] + old(Listing())[..|old(items)| - 1]
    {
      EvictedMapped(items, itemByKey, nextId, key, value);
      LastNode(items, itemByKey, nextId);
      var oldKey := items[|items| - 1].key;
      var front := MoveItemToFront(itemByKey[oldKey]);
      RenewedLast(old(items), front, key, value);
      items := [items[0].(key := key, value := value)] + items[1..];
      itemByKey := (itemByKey - {oldKey})[key := front];
    }

    method TryGet(key: K) returns (v: Option<V>)
      requires Valid()
      modifies this
      ensures Valid() && Listing() == Looked(old(Listing()), key)
      ensures v == Found(old(Listing()), key)
      ensures v.None? ==> Listing() == old(Listing())
    {
      MappedKeys(items, itemByKey, nextId);
      if key in itemByKey {
        ghost var k := Place(Listing(), key);
        RenewedDistinct(items, nextId, k);
        RenewedMapped(items, itemByKey, nextId, k);
        RenewedPairs(items, nextId, k);
        var front := MoveItemToFront(itemByKey[key]);
        itemByKey := itemByKey[key := front];
        v := Some(items[0].value);
      } else {
        v := None;
      }
    }

    method Touch(key: K)
      requires Valid()
      modifies this
      ensures Valid() && Listing() == Looked(old(Listing()), key)
    {
      var _ := TryGet(key);
    }

    /** Unlike the hash table's contains, this one leaves the order alone. */
    method Contains(key: K) returns (found: bool)
      requires Valid()
      ensures found == Found(Listing(), key).Some?
    {
      MappedKeys(items, itemByKey, nextId);
      found := key in itemByKey;
    }

    /** What operator[], try_emplace and emplace do with a key that is not there. */
    method PutFront(key: K, value: V)
      requires Valid() && Found(Listing(), key).None?
      modifies this
      ensures Valid() && Listing() == Got(capacity, old(Listing()), key, value)
    {
      MappedKeys(items, itemByKey, nextId);
      if |items| == capacity {
        EvictOneAndPushFront(key, value);
      } else {
        EmplaceItemToFront(key, value);
      }
    }

    /** get_or_emplace */
    method GetOrEmplace(key: K, make: () -> V) returns (v: V)
      requires Valid()
      modifies this
      ensures Valid() && Listing() == Got(capacity, old(Listing()), key, make())
      ensures v == Found(old(Listing()), key).GetOr(make())
    {
      var p := TryGet(key);
      if p.Some? {
        return p.value;
      }
      v := make();
      PutFront(key, v);
    }

    /** operator[] */
    method Index(key: K) returns (v: V)
      requires Valid()
      modifies this
      ensures Valid() && Listing() == Got(capacity, old(Listing()), key, defaultValue)
      ensures v == Found(old(Listing()), key).GetOr(defaultValue)
    {
      v := GetOrEmplace(key, () => defaultValue);
    }

    method TryEmplace(key: K, make: () -> V) returns (created: bool)
      requires Valid()
      modifies this
      ensures Valid() && Listing() == Got(capacity, old(Listing()), key, make())
      ensures created == Found(old(Listing()), key).None?
    {
      var p := TryGet(key);
      created := p.None?;
      if created {
        var v := make();
        PutFront(key, v);
      }
    }

    method KeysInOrder() returns (result: seq<K>)
      requires Valid()
      ensures result == Keys(Listing())
    {
      result := [];
      for i := 0 to |items|
        invariant result == Keys(Listing())[..i]
      {
        result := result + [items[i].key];
      }
    }

    /** Any sequence of calls. */
    method PerformAll(ops: seq<CacheOp<K, V>>) returns (replies: seq<Reply<V>>)
      requires Valid()
      modifies this
      ensures Valid() && Listing() == Steps(capacity, defaultValue, old(Listing()), ops)
      ensures replies == Replies(capacity, defaultValue, old(Listing()), ops)
      decreases |ops|
    {
      if ops == [] {
        return [];
      }
      replies := PerformAll(ops[..|ops| - 1]);
      var reply := Perform(ops[|ops| - 1]);
      replies := replies + [reply];
    }

    method Perform(op: CacheOp<K, V>) returns (reply: Reply<V>)
      requires Valid()
      modifies this
      ensures Valid() && Listing() == Step(capacity, defaultValue, old(Listing()), op)
      ensures reply == ReplyTo(defaultValue, old(Listing()), op)
    {
      reply := Done;
      match op
      case TryGet(key) =>
        var v := TryGet(key);
        reply := Gave(v);
      case Touch(key) =>
        Touch(key);
      case Index(key) =>
        var v := Index(key);
        reply := Gave(Some(v));
      case GetOrEmplace(key, value) =>
        var v := GetOrEmplace(key, () => value);
        reply := Gave(Some(v));
      case TryEmplace(key, value) =>
        var created := TryEmplace(key, () => value);
        reply := Created(created);
      case Clear =>
        Clear();
    }
  }
}
