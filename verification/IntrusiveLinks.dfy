/**
  The linked structures that strong_lru_hashtable threads through one array of entries:
  a doubly linked recency chain through entry 0, one singly linked collision chain per hash slot,
  and a free chain that shares its link field with the collision chains.

  This module looks at the entry array field by field, as sequences, and says what each relinking
  does to the chains.
  */
module IntrusiveLinks {
  import opened Options
  import opened Words
  import opened StrongHashing
  import opened RecencyTable

  datatype Entry<+V> = Entry(
    hash: StrongHash,
    prev: nat,
    next: nat,
    nextSame: nat,
    value: Option<V>,
    ordering: uint32)

  /** entry(next_with_same_hash(n)) */
  function BlankEntry<V>(nextSame: nat): Entry<V> {
    Entry(StrongHash(0, 0, 0, 0), 0, 0, nextSame, None, 0)
  }

  /** hashTableSlot */
  function SlotOf(h: StrongHash, mask: nat): (s: nat)
    ensures s <= mask
  {
    AndAtMost(h.d, mask);
    BitAnd(h.d, mask)
  }

  /** The link and hash fields of the entries, one sequence per field. */
  datatype Columns = Columns(next: seq<nat>, prev: seq<nat>, same: seq<nat>, hash: seq<StrongHash>) {
    ghost predicate Sized(n: nat) {
      n >= 1 && |next| == n && |prev| == n && |same| == n && |hash| == n
    }
  }

  ghost function ColumnsOf<V>(es: seq<Entry<V>>): (t: Columns)
    ensures |t.next| == |es| && forall x :: 0 <= x < |es| ==> t.next[x] == es[x].next
    ensures |t.prev| == |es| && forall x :: 0 <= x < |es| ==> t.prev[x] == es[x].prev
    ensures |t.same| == |es| && forall x :: 0 <= x < |es| ==> t.same[x] == es[x].nextSame
    ensures |t.hash| == |es| && forall x :: 0 <= x < |es| ==> t.hash[x] == es[x].hash
  {
    Columns(seq(|es|, x requires 0 <= x < |es| => es[x].next),
            seq(|es|, x requires 0 <= x < |es| => es[x].prev),
            seq(|es|, x requires 0 <= x < |es| => es[x].nextSame),
            seq(|es|, x requires 0 <= x < |es| => es[x].hash))
  }

  ghost function ValuesOf<V>(es: seq<Entry<V>>): (r: seq<Option<V>>)
    ensures |r| == |es| && forall x :: 0 <= x < |es| ==> r[x] == es[x].value
  {
    seq(|es|, x requires 0 <= x < |es| => es[x].value)
  }

  ghost function OrderingsOf<V>(es: seq<Entry<V>>): (r: seq<uint32>)
    ensures |r| == |es| && forall x :: 0 <= x < |es| ==> r[x] == es[x].ordering
  {
    seq(|es|, x requires 0 <= x < |es| => es[x].ordering)
  }

  /** The chains the entries are meant to form, as sequences of entry numbers. */
  datatype Shape = Shape(lru: seq<nat>, free: seq<nat>, chains: seq<seq<nat>>)

  // ----- Paths -----

  ghost predicate InBounds(n: nat, p: seq<nat>) {
    forall k :: 0 <= k < |p| ==> p[k] < n
  }

  /** Following `f` from p[0] visits p[1], p[2], ... */
  ghost predicate Path(f: seq<nat>, p: seq<nat>) {
    InBounds(|f|, p) && forall k {:trigger f[p[k]]} :: 0 <= k < |p| - 1 ==> f[p[k]] == p[k + 1]
  }

  /** Following `f` from the end of `p` visits `p` backwards. */
  ghost predicate BackPath(f: seq<nat>, p: seq<nat>) {
    InBounds(|f|, p) && forall k {:trigger f[p[k]]} :: 1 <= k < |p| ==> f[p[k]] == p[k - 1]
  }

  lemma PathWithout(f: seq<nat>, f': seq<nat>, p: seq<nat>, m: nat)
    requires Path(f, p) && 0 < m < |p| - 1 && |f'| == |f|
    requires f'[p[m - 1]] == f[p[m]]
    requires forall k {:trigger f'[p[k]]} :: 0 <= k < |p| - 1 && k != m - 1 && k != m ==> f'[p[k]] == f[p[k]]
    ensures Path(f', Without(p, m))
  {
    var q := Without(p, m);
    forall i | 0 <= i < |q| - 1
      ensures f'[q[i]] == q[i + 1]
    {
      var j := if i < m then i else i + 1;
      assert q[i] == p[j] && f[p[j]] == p[j + 1] && f[p[m]] == p[m + 1];
    }
  }

  lemma BackPathWithout(f: seq<nat>, f': seq<nat>, p: seq<nat>, m: nat)
    requires BackPath(f, p) && 0 < m < |p| - 1 && |f'| == |f|
    requires f'[p[m + 1]] == f[p[m]]
    requires forall k {:trigger f'[p[k]]} :: 1 <= k < |p| && k != m + 1 && k != m ==> f'[p[k]] == f[p[k]]
    ensures BackPath(f', Without(p, m))
  {
    var q := Without(p, m);
    forall i | 1 <= i < |q|
      ensures f'[q[i]] == q[i - 1]
    {
      var j := if i < m then i else i + 1;
      assert q[i] == p[j] && f[p[j]] == p[j - 1] && f[p[m]] == p[m - 1];
    }
  }

  lemma PathPrefixed(f: seq<nat>, f': seq<nat>, p: seq<nat>, e: nat)
    requires Path(f, p) && |p| >= 1 && e < |f| == |f'|
    requires f'[e] == p[0]
    requires forall k {:trigger f'[p[k]]} :: 0 <= k < |p| - 1 ==> f'[p[k]] == f[p[k]]
    ensures Path(f', [e] + p)
  {
    var q := [e] + p;
    forall i | 0 <= i < |q| - 1
      ensures f'[q[i]] == q[i + 1]
    {
      if i > 0 {
        assert q[i] == p[i - 1] && f[p[i - 1]] == p[i];
      }
    }
  }

  lemma PathSuffix(f: seq<nat>, f': seq<nat>, p: seq<nat>)
    requires Path(f, p) && |p| >= 1 && |f| == |f'|
    requires forall k {:trigger f'[p[k]]} :: 1 <= k < |p| - 1 ==> f'[p[k]] == f[p[k]]
    ensures Path(f', p[1..])
  {
    var q := p[1..];
    forall i | 0 <= i < |q| - 1
      ensures f'[q[i]] == q[i + 1]
    {
      assert q[i] == p[i + 1] && f[p[i + 1]] == p[i + 2];
    }
  }

  lemma BackPathPrefixed(f: seq<nat>, f': seq<nat>, p: seq<nat>, e: nat)
    requires BackPath(f, p) && |p| >= 1 && e < |f| == |f'|
    requires f'[p[0]] == e
    requires forall k {:trigger f'[p[k]]} :: 1 <= k < |p| ==> f'[p[k]] == f[p[k]]
    ensures BackPath(f', [e] + p)
  {
    var q := [e] + p;
    forall i | 1 <= i < |q|
      ensures f'[q[i]] == q[i - 1]
    {
      assert q[i] == p[i - 1];
      if i > 1 {
        assert f[p[i - 1]] == p[i - 2];
      }
    }
  }

  lemma BackPathSuffix(f: seq<nat>, p: seq<nat>)
    requires BackPath(f, p) && |p| >= 1
    ensures BackPath(f, p[1..])
  {
    var q := p[1..];
    forall i | 1 <= i < |q|
      ensures f[q[i]] == q[i - 1]
    {
      assert q[i] == p[i + 1] && f[p[i + 1]] == p[i];
    }
  }

  // ----- Sequences of entry numbers -----

  /** Entry numbers other than the sentinel's, none twice. */
  ghost predicate Proper(n: nat, c: seq<nat>) {
    && (forall k :: 0 <= k < |c| ==> 1 <= c[k] < n)
    && (forall i, j :: 0 <= i < j < |c| ==> c[i] != c[j])
  }

  ghost predicate Disjoint(c: seq<nat>, d: seq<nat>) {
    forall i, j :: 0 <= i < |c| && 0 <= j < |d| ==> c[i] != d[j]
  }

  function Loop(c: seq<nat>): (p: seq<nat>)
    ensures |p| == |c| + 2 && forall k :: 0 <= k < |p| ==> p[k] == if 1 <= k <= |c| then c[k - 1] else 0
  {
    [0] + c + [0]
  }

  lemma LoopWithout(c: seq<nat>, k: nat)
    requires k < |c|
    ensures Loop(Without(c, k)) == Without(Loop(c), k + 1)
  {
  }

  lemma LoopPrefixed(c: seq<nat>, e: nat)
    ensures Loop([e] + c) == [0] + ([e] + Loop(c)[1..])
  {
  }

  lemma WithoutProper(n: nat, c: seq<nat>, k: nat)
    requires k < |c| && Proper(n, c)
    ensures Proper(n, Without(c, k))
  {
  }

  ghost function Elems(c: seq<nat>): set<nat> {
    set x | x in c
  }

  lemma ElemsWithout(n: nat, c: seq<nat>, k: nat)
    requires k < |c| && Proper(n, c)
    ensures Elems(Without(c, k)) == Elems(c) - {c[k]}
  {
    var d := Without(c, k);
    forall x | x in c && x != c[k]
      ensures x in d
    {
      var i :| 0 <= i < |c| && c[i] == x;
      assert x == d[if i < k then i else i - 1];
    }
  }

  lemma ElemsToFront(c: seq<nat>, k: nat)
    requires k < |c|
    ensures Elems(ToFront(c, k)) == Elems(c)
  {
    forall x | x in c
      ensures x in ToFront(c, k)
    {
      var i :| 0 <= i < |c| && c[i] == x;
      assert x == ToFront(c, k)[if i == k then 0 else if i < k then i + 1 else i];
    }
  }

  // ----- The invariant -----

  /** prev and next are mutually inverse along `lru`, and lead from entry 0 back to entry 0. */
  ghost predicate LruLinked(t: Columns, lru: seq<nat>) {
    Proper(|t.next|, lru) && Path(t.next, Loop(lru)) && BackPath(t.prev, Loop(lru))
  }

  /** Entry 0 starts the free chain. */
  ghost predicate FreeLinked(t: Columns, free: seq<nat>) {
    Proper(|t.same|, free) && Path(t.same, Loop(free))
  }

  ghost predicate ChainLinked(same: seq<nat>, head: nat, c: seq<nat>) {
    Proper(|same|, c) && Path(same, c + [0]) && head == (c + [0])[0]
  }

  ghost predicate ChainsLinked(slots: seq<nat>, same: seq<nat>, chains: seq<seq<nat>>) {
    && |slots| == |chains|
    && forall s :: 0 <= s < |chains| ==> ChainLinked(same, slots[s], chains[s])
  }

  /** The live entries that belong into slot `s`. */
  ghost function Home(slot: StrongHash -> nat, hash: seq<StrongHash>, live: set<nat>, s: nat): set<nat> {
    set x | x in live && x < |hash| && slot(hash[x]) == s
  }

  /** Each chain holds exactly the live entries of its slot. */
  ghost predicate InOwnChains(slot: StrongHash -> nat, hash: seq<StrongHash>, lru: seq<nat>, chains: seq<seq<nat>>) {
    && (forall h :: slot(h) < |chains|)
    && (forall s :: 0 <= s < |chains| ==> Elems(chains[s]) == Home(slot, hash, Elems(lru), s))
  }

  ghost predicate UniqueHashes(hash: seq<StrongHash>, lru: seq<nat>)
    requires Proper(|hash|, lru)
  {
    forall i, j :: 0 <= i < j < |lru| ==> hash[lru[i]] != hash[lru[j]]
  }

  ghost predicate Inv(slot: StrongHash -> nat, slots: seq<nat>, t: Columns, g: Shape) {
    && t.Sized(|t.same|)
    && LruLinked(t, g.lru)
    && FreeLinked(t, g.free)
    && Disjoint(g.lru, g.free)
    && |g.lru| + |g.free| == |t.same| - 1
    && ChainsLinked(slots, t.same, g.chains)
    && InOwnChains(slot, t.hash, g.lru, g.chains)
    && UniqueHashes(t.hash, g.lru)
  }

  // ----- Relinking the recency chain -----

  /** unlinkFromLRUChain: the entry's neighbours are joined; its own links stay. */
  function Unlinked(t: Columns, e: nat): Columns
    requires t.Sized(|t.same|) && e < |t.same| && t.prev[e] < |t.same| && t.next[e] < |t.same|
  {
    t.(next := t.next[t.prev[e] := t.next[e]], prev := t.prev[t.next[e] := t.prev[e]])
  }

  /** linkToLRUChainHead */
  function LinkedAtHead(t: Columns, e: nat): Columns
    requires t.Sized(|t.same|) && e < |t.same| && t.next[0] < |t.same|
  {
    t.(next := t.next[e := t.next[0]][0 := e], prev := t.prev[e := 0][t.next[0] := e])
  }

  lemma LruNeighbours(t: Columns, lru: seq<nat>, k: nat)
    requires t.Sized(|t.same|) && LruLinked(t, lru) && k < |lru|
    ensures t.next[lru[k]] == Loop(lru)[k + 2] < |t.same|
    ensures t.prev[lru[k]] == Loop(lru)[k] < |t.same|
  {
    assert Loop(lru)[k + 1] == lru[k];
    assert t.next[Loop(lru)[k + 1]] == Loop(lru)[k + 2];
    assert t.prev[Loop(lru)[k + 1]] == Loop(lru)[k];
  }

  lemma LruTail(t: Columns, lru: seq<nat>)
    requires t.Sized(|t.same|) && LruLinked(t, lru) && lru != []
    ensures t.prev[0] == lru[|lru| - 1] && t.next[lru[|lru| - 1]] == 0
  {
    LruNeighbours(t, lru, |lru| - 1);
    assert t.prev[Loop(lru)[|lru| + 1]] == Loop(lru)[|lru|];
  }

  lemma FreeHead(t: Columns, free: seq<nat>)
    requires t.Sized(|t.same|) && FreeLinked(t, free)
    ensures t.same[0] == if free == [] then 0 else free[0]
  {
    assert t.same[Loop(free)[0]] == Loop(free)[1];
  }

  lemma UnlinkedLru(t: Columns, lru: seq<nat>, k: nat)
    requires t.Sized(|t.same|) && LruLinked(t, lru) && k < |lru|
    ensures t.prev[lru[k]] < |t.same| && t.next[lru[k]] < |t.same|
    ensures LruLinked(Unlinked(t, lru[k]), Without(lru, k))
  {
    LruNeighbours(t, lru, k);
    var t' := Unlinked(t, lru[k]);
    WithoutProper(|t.next|, lru, k);
    LoopWithout(lru, k);
    PathWithout(t.next, t'.next, Loop(lru), k + 1);
    BackPathWithout(t.prev, t'.prev, Loop(lru), k + 1);
  }

  lemma LinkedAtHeadLru(t: Columns, lru: seq<nat>, e: nat)
    requires t.Sized(|t.same|) && LruLinked(t, lru) && 0 < e < |t.same| && e !in lru
    ensures t.next[0] < |t.same|
    ensures LruLinked(LinkedAtHead(t, e), [e] + lru)
  {
    var q := Loop(lru)[1..];
    assert t.next[Loop(lru)[0]] == Loop(lru)[1];
    var t' := LinkedAtHead(t, e);
    assert forall k :: 0 <= k < |lru| ==> q[k] == lru[k];
    PathSuffix(t.next, t'.next, Loop(lru));
    PathPrefixed(t'.next, t'.next, q, e);
    PathPrefixed(t'.next, t'.next, [e] + q, 0);
    BackPathSuffix(t.prev, Loop(lru));
    BackPathPrefixed(t.prev, t'.prev, q, e);
    BackPathPrefixed(t'.prev, t'.prev, [e] + q, 0);
    LoopPrefixed(lru, e);
    assert Proper(|t'.next|, [e] + lru);
  }

  // ----- Relinking the free chain and the collision chains -----

  lemma FreePushed(t: Columns, t': Columns, free: seq<nat>, e: nat)
    requires t.Sized(|t.same|) && t'.Sized(|t.same|) && FreeLinked(t, free) && 0 < e < |t.same| && e !in free
    requires t'.same[0] == e && t'.same[e] == t.same[0]
    requires forall k {:trigger t'.same[free[k]]} :: 0 <= k < |free| ==> t'.same[free[k]] == t.same[free[k]]
    ensures FreeLinked(t', [e] + free)
  {
    var q := Loop(free)[1..];
    assert t.same[Loop(free)[0]] == Loop(free)[1];
    assert forall k :: 0 <= k < |free| ==> q[k] == free[k];
    PathSuffix(t.same, t'.same, Loop(free));
    PathPrefixed(t'.same, t'.same, q, e);
    PathPrefixed(t'.same, t'.same, [e] + q, 0);
    LoopPrefixed(free, e);
    assert Proper(|t'.same|, [e] + free);
  }

  lemma FreePopped(t: Columns, t': Columns, free: seq<nat>)
    requires t.Sized(|t.same|) && t'.Sized(|t.same|) && FreeLinked(t, free) && free != []
    requires t'.same[0] == t.same[free[0]]
    requires forall k {:trigger t'.same[free[k]]} :: 1 <= k < |free| ==> t'.same[free[k]] == t.same[free[k]]
    ensures t.same[0] == free[0]
    ensures FreeLinked(t', free[1..])
  {
    assert t.same[Loop(free)[0]] == Loop(free)[1];
    assert free[1..] == Without(free, 0);
    WithoutProper(|t.same|, free, 0);
    LoopWithout(free, 0);
    PathWithout(t.same, t'.same, Loop(free), 1);
  }

  lemma ChainFramed(same: seq<nat>, same': seq<nat>, head: nat, c: seq<nat>)
    requires ChainLinked(same, head, c) && |same'| == |same|
    requires forall k {:trigger same'[c[k]]} :: 0 <= k < |c| ==> same'[c[k]] == same[c[k]]
    ensures ChainLinked(same', head, c)
  {
    var p := c + [0];
    forall k | 0 <= k < |p| - 1
      ensures same'[p[k]] == p[k + 1]
    {
      assert p[k] == c[k] && same[p[k]] == p[k + 1];
    }
  }

  lemma ChainPushed(same: seq<nat>, same': seq<nat>, head: nat, c: seq<nat>, e: nat)
    requires ChainLinked(same, head, c) && |same'| == |same| && 0 < e < |same| && e !in c
    requires same'[e] == head
    requires forall k {:trigger same'[c[k]]} :: 0 <= k < |c| ==> same'[c[k]] == same[c[k]]
    ensures ChainLinked(same', e, [e] + c)
  {
    ChainFramed(same, same', head, c);
    PathPrefixed(same', same', c + [0], e);
    assert [e] + c + [0] == [e] + (c + [0]);
  }

  lemma ChainWithout(same: seq<nat>, same': seq<nat>, head: nat, c: seq<nat>, j: nat)
    requires ChainLinked(same, head, c) && |same'| == |same| && j < |c|
    requires j > 0 ==> same'[c[j - 1]] == same[c[j]]
    requires forall k {:trigger same'[c[k]]} :: 0 <= k < |c| && k != j && k != j - 1 ==> same'[c[k]] == same[c[k]]
    ensures ChainLinked(same', if j == 0 then same[c[j]] else head, Without(c, j))
  {
    var p := c + [0];
    WithoutProper(|same|, c, j);
    assert same[p[j]] == p[j + 1];
    if j == 0 {
      assert p[1..] == Without(c, 0) + [0];
      PathSuffix(same, same', p);
    } else {
      assert Without(p, j) == Without(c, j) + [0];
      PathWithout(same, same', p, j);
    }
  }

  // ----- The three changes of a table -----

  /** A hit only rewires the recency chain: collision chains and free chain stay as they are. */
  lemma HitInv(slot: StrongHash -> nat, slots: seq<nat>, t: Columns, t': Columns, g: Shape, k: nat)
    requires Inv(slot, slots, t, g) && k < |g.lru|
    requires t'.Sized(|t.same|) && t'.same == t.same && t'.hash == t.hash
    requires LruLinked(t', ToFront(g.lru, k))
    ensures Inv(slot, slots, t', g.(lru := ToFront(g.lru, k)))
  {
    ElemsToFront(g.lru, k);
    assert UniqueHashes(t.hash, ToFront(g.lru, k));
  }

  /** A live entry leaves its recency chain and its collision chain and heads the free chain. */
  function DeletedShape(g: Shape, k: nat, s: nat, j: nat): Shape
    requires k < |g.lru| && s < |g.chains| && j < |g.chains[s]|
  {
    Shape(Without(g.lru, k), [g.lru[k]] + g.free, g.chains[s := Without(g.chains[s], j)])
  }

  /** The link that leads to chains[s][j] is in the slot table when j == 0, in the preceding entry otherwise. */
  function DeletedSame(same: seq<nat>, c: seq<nat>, j: nat): seq<nat>
    requires j < |c| && InBounds(|same|, c) && |same| >= 1
  {
    var bypassed := if j == 0 then same else same[c[j - 1] := same[c[j]]];
    bypassed[c[j] := same[0]][0 := c[j]]
  }

  function DeletedSlots(slots: seq<nat>, same: seq<nat>, s: nat, c: seq<nat>, j: nat): seq<nat>
    requires j < |c| && InBounds(|same|, c) && s < |slots|
  {
    if j == 0 then slots[s := same[c[j]]] else slots
  }

  ghost predicate Deletable(slot: StrongHash -> nat, slots: seq<nat>, t: Columns, g: Shape, k: nat, s: nat, j: nat) {
    && Inv(slot, slots, t, g)
    && k < |g.lru| && s < |g.chains| && j < |g.chains[s]|
    && g.chains[s][j] == g.lru[k]
  }

  lemma DeleteInv(slot: StrongHash -> nat, slots: seq<nat>, t: Columns, t': Columns, g: Shape, k: nat, s: nat, j: nat)
    requires Deletable(slot, slots, t, g, k, s, j)
    requires t'.Sized(|t.same|) && t'.hash == t.hash
    requires t'.same == DeletedSame(t.same, g.chains[s], j)
    requires LruLinked(t', Without(g.lru, k))
    ensures Inv(slot, DeletedSlots(slots, t.same, s, g.chains[s], j), t', DeletedShape(g, k, s, j))
  {
    DeletedFree(slot, slots, t, t', g, k, s, j);
    DeletedChains(slot, slots, t, t'.same, g, k, s, j);
    DeletedMembers(slot, slots, t, g, k, s, j);
  }

  lemma DeletedFree(slot: StrongHash -> nat, slots: seq<nat>, t: Columns, t': Columns, g: Shape, k: nat, s: nat, j: nat)
    requires Deletable(slot, slots, t, g, k, s, j)
    requires t'.Sized(|t.same|) && t'.same == DeletedSame(t.same, g.chains[s], j)
    ensures FreeLinked(t', [g.lru[k]] + g.free)
    ensures Disjoint(Without(g.lru, k), [g.lru[k]] + g.free)
  {
    var e := g.lru[k];
    if j > 0 {
      ChainLive(slot, slots, t, g, s, j - 1);
      assert ChainLinked(t.same, slots[s], g.chains[s]);
    }
    FreePushed(t, t', g.free, e);
  }

  lemma DeletedChains(slot: StrongHash -> nat, slots: seq<nat>, t: Columns, same': seq<nat>, g: Shape, k: nat, s: nat,
                      j: nat)
    requires Deletable(slot, slots, t, g, k, s, j)
    requires same' == DeletedSame(t.same, g.chains[s], j)
    ensures ChainsLinked(DeletedSlots(slots, t.same, s, g.chains[s], j), same', DeletedShape(g, k, s, j).chains)
  {
    assert ChainLinked(t.same, slots[s], g.chains[s]);
    ChainWithout(t.same, same', slots[s], g.chains[s], j);
    forall r | 0 <= r < |slots| && r != s
      ensures ChainLinked(same', slots[r], g.chains[r])
    {
      assert ChainLinked(t.same, slots[r], g.chains[r]);
      ChainsApart(slot, slots, t, g, r, s);
      ChainFramed(t.same, same', slots[r], g.chains[r]);
    }
  }

  lemma ChainsApart(slot: StrongHash -> nat, slots: seq<nat>, t: Columns, g: Shape, r: nat, s: nat)
    requires Inv(slot, slots, t, g) && r < |slots| && s < |slots| && r != s
    ensures Disjoint(g.chains[r], g.chains[s])
  {
    var live := Elems(g.lru);
    forall i, j | 0 <= i < |g.chains[r]| && 0 <= j < |g.chains[s]|
      ensures g.chains[r][i] != g.chains[s][j]
    {
      assert g.chains[r][i] in Elems(g.chains[r]) && g.chains[s][j] in Elems(g.chains[s]);
      assert g.chains[r][i] in Home(slot, t.hash, live, r) && g.chains[s][j] in Home(slot, t.hash, live, s);
    }
  }

  lemma ChainLive(slot: StrongHash -> nat, slots: seq<nat>, t: Columns, g: Shape, s: nat, j: nat)
    requires Inv(slot, slots, t, g) && s < |slots| && j < |g.chains[s]|
    ensures g.chains[s][j] in g.lru && g.chains[s][j] !in g.free
  {
    assert g.chains[s][j] in Elems(g.chains[s]);
    assert g.chains[s][j] in Home(slot, t.hash, Elems(g.lru), s);
  }

  lemma DeletedMembers(slot: StrongHash -> nat, slots: seq<nat>, t: Columns, g: Shape, k: nat, s: nat, j: nat)
    requires Deletable(slot, slots, t, g, k, s, j)
    requires Proper(|t.hash|, Without(g.lru, k))
    ensures InOwnChains(slot, t.hash, Without(g.lru, k), DeletedShape(g, k, s, j).chains)
    ensures UniqueHashes(t.hash, Without(g.lru, k))
  {
    var e, live, chains := g.lru[k], Elems(g.lru), DeletedShape(g, k, s, j).chains;
    ElemsWithout(|t.hash|, g.lru, k);
    assert ChainLinked(t.same, slots[s], g.chains[s]);
    ElemsWithout(|t.hash|, g.chains[s], j);
    assert g.chains[s][j] in Elems(g.chains[s]);
    forall r | 0 <= r < |chains|
      ensures Elems(chains[r]) == Home(slot, t.hash, live - {e}, r)
    {
      assert Elems(g.chains[r]) == Home(slot, t.hash, live, r);
    }
  }

  /** The first free entry is taken into use in slot `s`. */
  function InsertedShape(g: Shape, s: nat): Shape
    requires g.free != [] && s < |g.chains|
  {
    Shape([g.free[0]] + g.lru, g.free[1..], g.chains[s := [g.free[0]] + g.chains[s]])
  }

  function InsertedSame(same: seq<nat>, e: nat, head: nat): seq<nat>
    requires 0 < e < |same|
  {
    same[0 := same[e]][e := head]
  }

  ghost predicate Insertable(slot: StrongHash -> nat, slots: seq<nat>, t: Columns, g: Shape, h: StrongHash) {
    && Inv(slot, slots, t, g)
    && g.free != []
    && slot(h) < |slots|
    && forall k :: 0 <= k < |g.lru| ==> t.hash[g.lru[k]] != h
  }

  lemma InsertInv(slot: StrongHash -> nat, slots: seq<nat>, t: Columns, t': Columns, g: Shape, h: StrongHash)
    requires Insertable(slot, slots, t, g, h)
    requires t'.Sized(|t.same|) && t'.hash == t.hash[g.free[0] := h]
    requires t'.same == InsertedSame(t.same, g.free[0], slots[slot(h)])
    requires LruLinked(t', [g.free[0]] + g.lru)
    ensures Inv(slot, slots[slot(h) := g.free[0]], t', InsertedShape(g, slot(h)))
  {
    InsertedFree(slot, slots, t, t', g, h);
    InsertedChains(slot, slots, t, t'.same, g, h);
    InsertedMembers(slot, slots, t, g, h);
  }

  lemma InsertedFree(slot: StrongHash -> nat, slots: seq<nat>, t: Columns, t': Columns, g: Shape, h: StrongHash)
    requires Insertable(slot, slots, t, g, h)
    requires t'.Sized(|t.same|) && t'.same == InsertedSame(t.same, g.free[0], slots[slot(h)])
    ensures FreeLinked(t', g.free[1..])
    ensures Disjoint([g.free[0]] + g.lru, g.free[1..])
  {
    FreePopped(t, t', g.free);
  }

  lemma InsertedChains(slot: StrongHash -> nat, slots: seq<nat>, t: Columns, same': seq<nat>, g: Shape, h: StrongHash)
    requires Insertable(slot, slots, t, g, h)
    requires same' == InsertedSame(t.same, g.free[0], slots[slot(h)])
    ensures ChainsLinked(slots[slot(h) := g.free[0]], same', InsertedShape(g, slot(h)).chains)
  {
    var e, s := g.free[0], slot(h);
    var slots', chains' := slots[s := e], InsertedShape(g, s).chains;
    forall r | 0 <= r < |slots|
      ensures ChainLinked(same', slots'[r], chains'[r])
    {
      assert ChainLinked(t.same, slots[r], g.chains[r]);
      forall i | 0 <= i < |g.chains[r]|
        ensures g.chains[r][i] != e
      {
        ChainLive(slot, slots, t, g, r, i);
      }
      if r == s {
        ChainPushed(t.same, same', slots[s], g.chains[s], e);
      } else {
        ChainFramed(t.same, same', slots[r], g.chains[r]);
      }
    }
  }

  lemma InsertedMembers(slot: StrongHash -> nat, slots: seq<nat>, t: Columns, g: Shape, h: StrongHash)
    requires Insertable(slot, slots, t, g, h)
    requires Proper(|t.hash|, [g.free[0]] + g.lru)
    ensures InOwnChains(slot, t.hash[g.free[0] := h], [g.free[0]] + g.lru, InsertedShape(g, slot(h)).chains)
    ensures UniqueHashes(t.hash[g.free[0] := h], [g.free[0]] + g.lru)
  {
    var e, live, chains, hash := g.free[0], Elems(g.lru), InsertedShape(g, slot(h)).chains, t.hash[g.free[0] := h];
    assert Elems([e] + g.lru) == live + {e};
    forall r | 0 <= r < |chains|
      ensures Elems(chains[r]) == Home(slot, hash, live + {e}, r)
    {
      assert Elems(g.chains[r]) == Home(slot, t.hash, live, r);
      assert Elems([e] + g.chains[r]) == Elems(g.chains[r]) + {e};
      assert e !in live;
    }
  }

  // ----- Every entry is somewhere -----

  lemma {:induction false} ProperSize(n: nat, c: seq<nat>)
    requires Proper(n, c)
    ensures |Elems(c)| == |c|
  {
    if c != [] {
      ProperSize(n, c[1..]);
      assert c == [c[0]] + c[1..];
      assert Elems(c) == {c[0]} + Elems(c[1..]);
      assert c[0] !in Elems(c[1..]);
    }
  }

  function EntryNumbers(n: nat): (r: set<nat>)
    ensures forall x :: x in r <==> 1 <= x < n
    ensures |r| == if n == 0 then 0 else n - 1
  {
    if n <= 1 then {} else EntryNumbers(n - 1) + {n - 1}
  }

  lemma {:induction false} SubsetSize(a: set<nat>, b: set<nat>)
    requires a <= b
    ensures |a| <= |b|
  {
    if a != {} {
      var x :| x in a;
      SubsetSize(a - {x}, b - {x});
    }
  }

  /** A repetition-free sequence of n - 1 entry numbers below n leaves none out. */
  lemma AllNumbersUsed(n: nat, c: seq<nat>, e: nat)
    requires Proper(n, c) && |c| == n - 1 && 1 <= e < n
    ensures e in c
  {
    ProperSize(n, c);
    if e !in c {
      SubsetSize(Elems(c), EntryNumbers(n) - {e});
      assert false;
    }
  }

  /** Entries 1 to capacity split exactly into the recency chain and the free chain. */
  lemma EveryEntryOnce(slot: StrongHash -> nat, slots: seq<nat>, t: Columns, g: Shape, e: nat)
    requires Inv(slot, slots, t, g) && 1 <= e < |t.same|
    ensures e in g.lru <==> e !in g.free
    ensures e in g.lru <==> exists s :: 0 <= s < |g.chains| && e in g.chains[s]
  {
    AllNumbersUsed(|t.same|, g.lru + g.free, e);
    if e in g.lru {
      assert e in Home(slot, t.hash, Elems(g.lru), slot(t.hash[e]));
      assert e in Elems(g.chains[slot(t.hash[e])]);
    }
    if s :| 0 <= s < |g.chains| && e in g.chains[s] {
      assert e in Elems(g.chains[s]);
    }
  }

  /** What the links of an unlinked entry are set to does not matter. */
  lemma StaleLinks(t: Columns, t': Columns, lru: seq<nat>, e: nat)
    requires t.Sized(|t.same|) && t'.Sized(|t.same|) && LruLinked(t, lru)
    requires 0 < e < |t.same| && e !in lru
    requires forall x :: 0 <= x < |t.same| && x != e ==> t'.next[x] == t.next[x] && t'.prev[x] == t.prev[x]
    ensures LruLinked(t', lru)
  {
    var p := Loop(lru);
    forall k | 0 <= k < |p|
      ensures p[k] != e
    {
      assert 1 <= k <= |lru| ==> p[k] in lru;
    }
    forall k | 0 <= k < |p| - 1
      ensures t'.next[p[k]] == p[k + 1] && t'.prev[p[k + 1]] == p[k]
    {
      assert t.next[p[k]] == p[k + 1] && t.prev[p[k + 1]] == p[k];
    }
  }

  lemma ChainEntryIsLive(slot: StrongHash -> nat, slots: seq<nat>, t: Columns, g: Shape, s: nat,
                         j: nat) returns (k: nat)
    requires Inv(slot, slots, t, g) && s < |slots| && j < |g.chains[s]|
    ensures k < |g.lru| && g.lru[k] == g.chains[s][j]
  {
    ChainLive(slot, slots, t, g, s, j);
    k :| 0 <= k < |g.lru| && g.lru[k] == g.chains[s][j];
  }

  lemma LiveEntryIsInChain(slot: StrongHash -> nat, slots: seq<nat>, t: Columns, g: Shape, k: nat) returns (j: nat)
    requires Inv(slot, slots, t, g) && k < |g.lru|
    ensures var s := slot(t.hash[g.lru[k]]); s < |slots| && j < |g.chains[s]| && g.chains[s][j] == g.lru[k]
  {
    var s := slot(t.hash[g.lru[k]]);
    assert g.lru[k] in Home(slot, t.hash, Elems(g.lru), s);
    assert g.lru[k] in Elems(g.chains[s]);
    j :| 0 <= j < |g.chains[s]| && g.chains[s][j] == g.lru[k];
  }

  /** A hash that is not found along its slot's chain is not in the table at all. */
  lemma NotInChainNotLive(slot: StrongHash -> nat, slots: seq<nat>, t: Columns, g: Shape, h: StrongHash)
    requires Inv(slot, slots, t, g) && slot(h) < |slots|
    requires forall i :: 0 <= i < |g.chains[slot(h)]| ==>
               g.chains[slot(h)][i] < |t.hash| && t.hash[g.chains[slot(h)][i]] != h
    ensures forall k :: 0 <= k < |g.lru| ==> t.hash[g.lru[k]] != h
  {
    forall k | 0 <= k < |g.lru|
      ensures t.hash[g.lru[k]] != h
    {
      var j := LiveEntryIsInChain(slot, slots, t, g, k);
    }
  }

  /** All entries on the free chain, in order, and every slot empty. */
  function BlankShape(capacity: nat, slotCount: nat): Shape {
    Shape([], UpTo(capacity), seq(slotCount, _ => []))
  }

  lemma BlankInv(slot: StrongHash -> nat, slots: seq<nat>, t: Columns, capacity: nat)
    requires t.Sized(capacity + 1)
    requires forall s :: 0 <= s < |slots| ==> slots[s] == 0
    requires forall x :: 0 <= x <= capacity ==> t.next[x] == 0 && t.prev[x] == 0
    requires forall x :: 0 <= x <= capacity ==> t.same[x] == if x < capacity then x + 1 else 0
    requires forall h :: slot(h) < |slots|
    ensures Inv(slot, slots, t, BlankShape(capacity, |slots|))
  {
    var g := BlankShape(capacity, |slots|);
    var p := Loop(g.free);
    forall k | 0 <= k < |p| - 1
      ensures t.same[p[k]] == p[k + 1]
    {
      assert p[k] == k;
    }
    assert forall s :: 0 <= s < |slots| ==> Elems(g.chains[s]) == {};
  }
}
