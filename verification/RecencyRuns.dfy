/** Whole runs of table operations, and what every run keeps. */
module RecencyRuns {
  import opened Options
  import opened Words
  import opened StrongHashing
  import opened RecencyTable

  /**
    One call. `make` and `attempt` are the value constructors, which get the number of the new entry;
    `blank` is a value-initialised V.
    */
  datatype Op<!V> =
    | GetOrEmplace(h: StrongHash, make: nat -> V)
    | GetOrTryEmplace(h: StrongHash, attempt: nat -> Option<V>)
    | TryEmplace(h: StrongHash, make: nat -> V)
    | Emplace(h: StrongHash, value: V)
    | Index(h: StrongHash, blank: V)
    | TryGet(h: StrongHash)
    | Touch(h: StrongHash)
    | Contains(h: StrongHash)
    | Peek(h: StrongHash)
    | ListHashes
    | Remove(h: StrongHash)
    | Clear
    | FetchAndClearStats

  /** What a call hands back. */
  datatype Answer<V> =
    | Nothing
    | Found(value: Option<V>)
    | Flag(flag: bool)
    | Listed(hashes: seq<StrongHash>)
    | Counted(stats: Stats)

  function Step<V>(t: Table<V>, op: Op<V>): Table<V>
    requires WellFormed(t)
  {
    match op
    case GetOrEmplace(h, make) => GetOrEmplaced(t, h, make(NextIndex(t)))
    case GetOrTryEmplace(h, attempt) => GetOrTryEmplaced(t, h, attempt(NextIndex(t)))
    case TryEmplace(h, make) => TryEmplaced(t, h, make(NextIndex(t)))
    case Emplace(h, v) => Emplaced(t, h, v)
    case Index(h, blank) => GetOrEmplaced(t, h, blank)
    case TryGet(h) => Touched(t, h)
    case Touch(h) => Touched(t, h)
    case Contains(h) => Touched(t, h)
    case Peek(_) => t
    case ListHashes => t
    case Remove(h) => Removed(t, h)
    case Clear => Cleared(t)
    case FetchAndClearStats => t.(stats := Stats(0, 0, 0))
  }

  function AnswerTo<V>(t: Table<V>, op: Op<V>): Answer<V>
    requires WellFormed(t)
  {
    match op
    case GetOrEmplace(h, make) => Found(Some(Lookup(t, h).GetOr(make(NextIndex(t)))))
    case GetOrTryEmplace(h, attempt) => Found(if Resident(t, h) then Lookup(t, h) else attempt(NextIndex(t)))
    case TryEmplace(h, _) => Flag(!Resident(t, h))
    case Emplace(_, v) => Found(Some(v))
    case Index(h, blank) => Found(Some(Lookup(t, h).GetOr(blank)))
    case TryGet(h) => Found(Lookup(t, h))
    case Touch(_) => Nothing
    case Contains(h) => Flag(Resident(t, h))
    case Peek(h) => Found(Lookup(t, h))
    case ListHashes => Listed(Hashes(t.items))
    case Remove(_) => Nothing
    case Clear => Nothing
    case FetchAndClearStats => Counted(t.stats)
  }

  lemma StepWellFormed<V>(t: Table<V>, op: Op<V>)
    requires WellFormed(t)
    ensures WellFormed(Step(t, op)) && Step(t, op).capacity == t.capacity
  {
    match op
    case GetOrEmplace(h, make) => GetOrEmplacedWellFormed(t, h, make(NextIndex(t)));
    case GetOrTryEmplace(h, attempt) => GetOrTryEmplacedWellFormed(t, h, attempt(NextIndex(t)));
    case TryEmplace(h, make) => TryEmplacedWellFormed(t, h, make(NextIndex(t)));
    case Emplace(h, v) =>
      GetOrEmplacedWellFormed(t, h, v);
      OverwriteWellFormed(GetOrEmplaced(t, h, v), v);
    case Index(h, blank) => GetOrEmplacedWellFormed(t, h, blank);
    case TryGet(h) => TouchedWellFormed(t, h);
    case Touch(h) => TouchedWellFormed(t, h);
    case Contains(h) => TouchedWellFormed(t, h);
    case Remove(h) => RemovedWellFormed(t, h);
    case _ =>
  }

  lemma OverwriteWellFormed<V>(t: Table<V>, v: V)
    requires WellFormed(t) && t.items != []
    ensures WellFormed(t.(items := [t.items[0].(value := v)] + t.items[1..]))
  {
  }

  function Run<V>(t: Table<V>, ops: seq<Op<V>>): (r: Table<V>)
    requires WellFormed(t)
    ensures WellFormed(r) && r.capacity == t.capacity
  {
    if ops == [] then t
    else
      var before := Run(t, ops[..|ops| - 1]);
      StepWellFormed(before, ops[|ops| - 1]);
      Step(before, ops[|ops| - 1])
  }

  /** What the calls of a run hand back, in order. */
  function Answers<V>(t: Table<V>, ops: seq<Op<V>>): seq<Answer<V>>
    requires WellFormed(t)
  {
    if ops == [] then []
    else Answers(t, ops[..|ops| - 1]) + [AnswerTo(Run(t, ops[..|ops| - 1]), ops[|ops| - 1])]
  }

  // ----- The recency law -----

  predicate OnlyGets<V>(ops: seq<Op<V>>) {
    forall i :: 0 <= i < |ops| ==> ops[i].GetOrEmplace?
  }

  /** The hashes a run of gets asks for, last one first. */
  function Backwards<V>(ops: seq<Op<V>>): seq<StrongHash>
    requires OnlyGets(ops)
  {
    if ops == [] then [] else [ops[|ops| - 1].h] + Backwards(ops[..|ops| - 1])
  }

  /** Keeps an element exactly where it did not occur before. */
  function FirstOccurrences(s: seq<StrongHash>): seq<StrongHash> {
    if s == [] then []
    else
      var r, x := FirstOccurrences(s[..|s| - 1]), s[|s| - 1];
      if x in r then r else r + [x]
  }

  function Prefix<T>(s: seq<T>, n: nat): seq<T> {
    if |s| <= n then s else s[..n]
  }

  function Except(s: seq<StrongHash>, x: StrongHash): seq<StrongHash> {
    if s == [] then []
    else if s[0] == x then Except(s[1..], x)
    else [s[0]] + Except(s[1..], x)
  }

  lemma {:induction false} ExceptConcat(s: seq<StrongHash>, t: seq<StrongHash>, x: StrongHash)
    ensures Except(s + t, x) == Except(s, x) + Except(t, x)
  {
    if s == [] {
      assert s + t == t;
    } else {
      assert (s + t)[0] == s[0] && (s + t)[1..] == s[1..] + t;
      ExceptConcat(s[1..], t, x);
    }
  }

  lemma {:induction false} ExceptAbsent(s: seq<StrongHash>, x: StrongHash)
    requires x !in s
    ensures Except(s, x) == s
  {
    if s != [] {
      ExceptAbsent(s[1..], x);
    }
  }

  lemma {:induction false} ExceptMembers(s: seq<StrongHash>, x: StrongHash, y: StrongHash)
    ensures y in Except(s, x) <==> y in s && y != x
  {
    if s != [] {
      ExceptMembers(s[1..], x, y);
    }
  }

  lemma {:induction false} FirstOccurrencesMembers(s: seq<StrongHash>, x: StrongHash)
    ensures x in FirstOccurrences(s) <==> x in s
  {
    if s != [] {
      FirstOccurrencesMembers(s[..|s| - 1], x);
      FirstOccurrencesMembers(s[..|s| - 1], s[|s| - 1]);
      assert s == s[..|s| - 1] + [s[|s| - 1]];
    }
  }

  predicate NoRepeats(s: seq<StrongHash>) {
    forall i, j :: 0 <= i < j < |s| ==> s[i] != s[j]
  }

  lemma {:induction false} FirstOccurrencesDistinct(s: seq<StrongHash>)
    ensures NoRepeats(FirstOccurrences(s))
  {
    if s != [] {
      FirstOccurrencesDistinct(s[..|s| - 1]);
    }
  }

  /** Reading one more access, at the recent end. */
  lemma {:induction false} FirstOccurrencesCons(x: StrongHash, s: seq<StrongHash>)
    ensures FirstOccurrences([x] + s) == [x] + Except(FirstOccurrences(s), x)
  {
    var xs := [x] + s;
    if s == [] {
      assert xs[..|xs| - 1] == [];
    } else {
      var s', y := s[..|s| - 1], s[|s| - 1];
      assert xs[..|xs| - 1] == [x] + s';
      FirstOccurrencesCons(x, s');
      var r := FirstOccurrences(s');
      ExceptMembers(r, x, y);
      ExceptConcat(r, [y], x);
      assert Except([y], x) == if y == x then [] else [y];
    }
  }

  lemma {:induction false} ExceptAt(s: seq<StrongHash>, k: nat)
    requires NoRepeats(s) && k < |s|
    ensures Except(s, s[k]) == Without(s, k)
  {
    if k == 0 {
      ExceptAbsent(s[1..], s[0]);
    } else {
      ExceptAt(s[1..], k - 1);
    }
  }

  lemma HitOnHashes<V>(items: seq<Item<V>>, k: nat)
    requires Distinct(items) && k < |items|
    ensures Hashes(ToFront(items, k)) == [items[k].hash] + Except(Hashes(items), items[k].hash)
  {
    ExceptAt(Hashes(items), k);
  }

  lemma HashesCons<V>(item: Item<V>, items: seq<Item<V>>)
    ensures Hashes([item] + items) == [item.hash] + Hashes(items)
  {
  }

  lemma RoomOnHashes<V>(t: Table<V>)
    requires WellFormed(t)
    ensures Hashes(MakeRoom(t).items) == Prefix(Hashes(t.items), t.capacity - 1)
  {
  }

  lemma MissOnHashes<V>(t: Table<V>, h: StrongHash, v: V)
    requires WellFormed(t) && h !in Hashes(t.items)
    ensures Hashes(Inserted(t, h, v).items) == [h] + Prefix(Except(Hashes(t.items), h), t.capacity - 1)
  {
    ExceptAbsent(Hashes(t.items), h);
    RoomOnHashes(t);
    HashesCons(Item(MakeRoom(t).free[0], h, v), MakeRoom(t).items);
  }

  /** What one get does to the hashes of the list: to the front, and cut to capacity. */
  lemma GetOnHashes<V>(t: Table<V>, h: StrongHash, v: V)
    requires WellFormed(t)
    ensures Hashes(GetOrEmplaced(t, h, v).items) == [h] + Prefix(Except(Hashes(t.items), h), t.capacity - 1)
  {
    var k := Position(t.items, h);
    if k < |t.items| {
      HitOnHashes(t.items, k);
      ExceptAt(Hashes(t.items), k);
    } else {
      MissOnHashes(Missed(t), h, v);
    }
  }

  lemma PrefixCons<T>(x: T, s: seq<T>, n: nat)
    requires n >= 1
    ensures Prefix([x] + s, n) == [x] + Prefix(s, n - 1)
  {
  }

  lemma CutThenExcept(r: seq<StrongHash>, x: StrongHash, n: nat)
    requires NoRepeats(r) && n >= 1
    ensures Prefix(Except(Prefix(r, n), x), n - 1) == Prefix(Except(r, x), n - 1)
  {
    if |r| > n {
      var p := r[..n];
      assert r == p + r[n..];
      ExceptConcat(p, r[n..], x);
      if k :| 0 <= k < n && p[k] == x {
        ExceptAt(p, k);
      } else {
        ExceptAbsent(p, x);
      }
    }
  }

  /**
    The list of a table that only ever served gets is the first `capacity` distinct hashes of its
    access history, read backwards.
    */
  lemma {:induction false} RecencyLaw<V>(capacity: nat, ops: seq<Op<V>>)
    requires capacity >= 2 && OnlyGets(ops)
    ensures Hashes(Run(Fresh(capacity), ops).items) == Prefix(FirstOccurrences(Backwards(ops)), capacity)
  {
    if ops != [] {
      var before, last := ops[..|ops| - 1], ops[|ops| - 1];
      RecencyLaw(capacity, before);
      var r := FirstOccurrences(Backwards(before));
      PrefixCons(last.h, Except(r, last.h), capacity);
      var t := Run(Fresh(capacity), before);
      GetOnHashes(t, last.h, last.make(NextIndex(t)));
      FirstOccurrencesCons(last.h, Backwards(before));
      FirstOccurrencesDistinct(Backwards(before));
      CutThenExcept(r, last.h, capacity);
    }
  }

  /** Inclusion: at equal histories, the smaller table's list is the beginning of the larger one's. */
  lemma SmallerIsPrefix<V>(small: nat, large: nat, ops: seq<Op<V>>)
    requires 2 <= small <= large && OnlyGets(ops)
    ensures Hashes(Run(Fresh(small), ops).items) == Prefix(Hashes(Run(Fresh(large), ops).items), small)
  {
    RecencyLaw(small, ops);
    RecencyLaw(large, ops);
  }

  // ----- Conservation -----

  /** Runs of get_or_emplace, get_or_try_emplace and remove. */
  predicate GetsAndRemoves<V>(ops: seq<Op<V>>) {
    forall i :: 0 <= i < |ops| ==> IsGet(ops[i]) || ops[i].Remove?
  }

  /** What a run did, counted without bound. */
  datatype Totals = Totals(gets: nat, hits: nat, misses: nat, recycles: nat, removals: nat, failures: nat)

  function Count(b: bool): nat {
    if b then 1 else 0
  }

  predicate IsGet<V>(op: Op<V>) {
    op.GetOrEmplace? || op.GetOrTryEmplace?
  }

  /** Counts what a get or a remove does; other calls are not counted. */
  function Tally<V>(n: Totals, t: Table<V>, op: Op<V>): Totals
    requires WellFormed(t)
  {
    if !IsGet(op) && !op.Remove? then n
    else
      var found, get := Resident(t, op.h), IsGet(op);
      Totals(
        n.gets + Count(get),
        n.hits + Count(get && found),
        n.misses + Count(get && !found),
        n.recycles + Count(get && !found && |t.items| == t.capacity),
        n.removals + Count(!get && found),
        n.failures + Count(!found && op.GetOrTryEmplace? && op.attempt(NextIndex(t)).None?))
  }

  function TotalsOf<V>(capacity: nat, ops: seq<Op<V>>): Totals
    requires capacity >= 2
  {
    if ops == [] then Totals(0, 0, 0, 0, 0, 0)
    else
      var before := ops[..|ops| - 1];
      Tally(TotalsOf(capacity, before), Run(Fresh(capacity), before), ops[|ops| - 1])
  }

  function Wrapped(n: Totals): Stats {
    Stats(n.hits % WORD32, n.misses % WORD32, n.recycles % WORD32)
  }

  /** The books balance: every missed get is still here, was evicted, was removed or failed. */
  predicate Balanced<V>(n: Totals, t: Table<V>) {
    && n.misses == |t.items| + n.recycles + n.removals + n.failures
    && n.hits + n.misses == n.gets
    && t.stats == Wrapped(n)
    && t.ordering == n.gets % WORD32
    && (t.aborted <==> n.gets >= WORD32)
  }

  lemma IncrementWrapped(n: nat)
    ensures Increment(n % WORD32) == (n + 1) % WORD32
    ensures n + 1 >= WORD32 <==> n >= WORD32 || n % WORD32 == WORD32 - 1
  {
  }

  lemma BalancedHit<V>(n: Totals, t: Table<V>, k: nat)
    requires WellFormed(t) && Balanced(n, t) && k < |t.items|
    ensures Balanced(n.(gets := n.gets + 1, hits := n.hits + 1), Hit(t, k))
  {
    IncrementWrapped(n.gets);
    IncrementWrapped(n.hits);
  }

  lemma BalancedRoom<V>(n: Totals, t: Table<V>)
    requires WellFormed(t) && Balanced(n, t)
    ensures Balanced(n.(recycles := n.recycles + Count(|t.items| == t.capacity)), MakeRoom(t))
  {
    IncrementWrapped(n.recycles);
  }

  /** A miss, when the construction delivers or when it fails. */
  lemma BalancedMiss<V>(n: Totals, t: Table<V>, h: StrongHash, v: Option<V>)
    requires WellFormed(t) && Balanced(n, t) && !Resident(t, h)
    ensures var n' := n.(gets := n.gets + 1, misses := n.misses + 1,
                         recycles := n.recycles + Count(|t.items| == t.capacity),
                         failures := n.failures + Count(v.None?));
            Balanced(n', GetOrTryEmplaced(t, h, v))
  {
    IncrementWrapped(n.gets);
    IncrementWrapped(n.misses);
    BalancedRoom(n, t);
    assert MakeRoom(Missed(t)) == Missed(MakeRoom(t));
  }

  lemma BalancedGet<V>(n: Totals, t: Table<V>, h: StrongHash, make: nat -> V)
    requires WellFormed(t) && Balanced(n, t)
    ensures Balanced(Tally(n, t, GetOrEmplace(h, make)), GetOrEmplaced(t, h, make(NextIndex(t))))
  {
    if Resident(t, h) {
      BalancedHit(n, t, Position(t.items, h));
    } else {
      BalancedMiss(n, t, h, Some(make(NextIndex(t))));
    }
  }

  lemma BalancedTryGet<V>(n: Totals, t: Table<V>, h: StrongHash, attempt: nat -> Option<V>)
    requires WellFormed(t) && Balanced(n, t)
    ensures Balanced(Tally(n, t, GetOrTryEmplace(h, attempt)), GetOrTryEmplaced(t, h, attempt(NextIndex(t))))
  {
    if Resident(t, h) {
      BalancedHit(n, t, Position(t.items, h));
    } else {
      BalancedMiss(n, t, h, attempt(NextIndex(t)));
    }
  }

  lemma BalancedRemove<V>(n: Totals, t: Table<V>, h: StrongHash)
    requires WellFormed(t) && Balanced(n, t)
    ensures Balanced(Tally(n, t, Remove(h)), Removed(t, h))
  {
  }

  lemma BalancedStep<V>(n: Totals, t: Table<V>, op: Op<V>)
    requires WellFormed(t) && Balanced(n, t) && (IsGet(op) || op.Remove?)
    ensures Balanced(Tally(n, t, op), Step(t, op))
  {
    match op
    case GetOrEmplace(h, make) => BalancedGet(n, t, h, make);
    case GetOrTryEmplace(h, attempt) => BalancedTryGet(n, t, h, attempt);
    case Remove(h) => BalancedRemove(n, t, h);
  }

  /**
    Conservation over whole runs. The stored counters are the true totals modulo 2^32, and the
    self-check of linkToLRUChainHead fails exactly from the 2^32-th get on.
    */
  lemma {:induction false} Conservation<V>(capacity: nat, ops: seq<Op<V>>)
    requires capacity >= 2 && GetsAndRemoves(ops)
    ensures Balanced(TotalsOf(capacity, ops), Run(Fresh(capacity), ops))
  {
    if ops != [] {
      var before, last := ops[..|ops| - 1], ops[|ops| - 1];
      Conservation(capacity, before);
      BalancedStep(TotalsOf(capacity, before), Run(Fresh(capacity), before), last);
    }
  }

  /** More capacity never costs a hit. */
  lemma {:induction false} HitsGrowWithCapacity<V>(small: nat, large: nat, ops: seq<Op<V>>)
    requires 2 <= small <= large && OnlyGets(ops)
    ensures TotalsOf(small, ops).hits <= TotalsOf(large, ops).hits
  {
    if ops != [] {
      var before, last := ops[..|ops| - 1], ops[|ops| - 1];
      HitsGrowWithCapacity(small, large, before);
      SmallerIsPrefix(small, large, before);
      var s, l := Run(Fresh(small), before), Run(Fresh(large), before);
      if Resident(s, last.h) {
        var k := Position(s.items, last.h);
        assert Hashes(s.items)[k] == last.h;
        assert Hashes(l.items)[k] == last.h;
      }
    }
  }

  lemma CountersExact<V>(capacity: nat, ops: seq<Op<V>>)
    requires capacity >= 2 && OnlyGets(ops) && |ops| < WORD32
    ensures Run(Fresh(capacity), ops).stats.hits == TotalsOf(capacity, ops).hits
  {
    GetsCounted(capacity, ops);
    Conservation(capacity, ops);
    SmallTotals(TotalsOf(capacity, ops), Run(Fresh(capacity), ops));
  }

  lemma SmallTotals<V>(n: Totals, t: Table<V>)
    requires Balanced(n, t) && n.gets < WORD32
    ensures t.stats.hits == n.hits && !t.aborted
  {
  }

  /** The hits that two fresh tables count in the same run, as long as the counters do not wrap. */
  lemma CountedHitsGrow<V>(small: nat, large: nat, ops: seq<Op<V>>)
    requires 2 <= small <= large && OnlyGets(ops) && |ops| < WORD32
    ensures Run(Fresh(small), ops).stats.hits <= Run(Fresh(large), ops).stats.hits
  {
    HitsGrowWithCapacity(small, large, ops);
    CountersExact(small, ops);
    CountersExact(large, ops);
  }

  lemma {:induction false} GetsCounted<V>(capacity: nat, ops: seq<Op<V>>)
    requires capacity >= 2 && OnlyGets(ops)
    ensures GetsAndRemoves(ops) && TotalsOf(capacity, ops).gets == |ops|
  {
    if ops != [] {
      GetsCounted(capacity, ops[..|ops| - 1]);
    }
  }

  // ----- When the table's self-checks fail -----

  /** A self-check does fail: after asking 2^32 times, even for one and the same hash. */
  lemma ChecksDoFail<V>(capacity: nat, h: StrongHash, make: nat -> V)
    requires capacity >= 2
    ensures Run(Fresh(capacity), seq(WORD32, _ => GetOrEmplace(h, make))).aborted
  {
    var ops := seq(WORD32, _ => GetOrEmplace(h, make));
    GetsCounted(capacity, ops);
    Conservation(capacity, ops);
  }

  /** Whether a call links an entry to the head of the recency chain. */
  predicate Links<V>(t: Table<V>, op: Op<V>) {
    match op
    case TryGet(h) => Resident(t, h)
    case Touch(h) => Resident(t, h)
    case Contains(h) => Resident(t, h)
    case Peek(_) => false
    case ListHashes => false
    case Remove(_) => false
    case Clear => false
    case FetchAndClearStats => false
    case _ => true
  }

  function LinksSinceClear<V>(capacity: nat, ops: seq<Op<V>>): nat
    requires capacity >= 2
  {
    if ops == [] then 0
    else
      var before, last := ops[..|ops| - 1], ops[|ops| - 1];
      if last.Clear? then 0
      else LinksSinceClear(capacity, before) + Count(Links(Run(Fresh(capacity), before), last))
  }

  predicate LinkedOnce<V>(t: Table<V>, r: Table<V>) {
    r.ordering == Increment(t.ordering) && (r.aborted <==> t.aborted || t.ordering == WORD32 - 1)
  }

  predicate NotLinked<V>(t: Table<V>, r: Table<V>) {
    r.ordering == t.ordering && r.aborted == t.aborted
  }

  lemma EmplacingLinks<V>(t: Table<V>, h: StrongHash, v: V)
    requires WellFormed(t)
    ensures LinkedOnce(t, GetOrEmplaced(t, h, v))
    ensures LinkedOnce(t, TryEmplaced(t, h, v)) && LinkedOnce(t, Emplaced(t, h, v))
  {
  }

  lemma TryingLinks<V>(t: Table<V>, h: StrongHash, attempt: Option<V>)
    requires WellFormed(t)
    ensures LinkedOnce(t, GetOrTryEmplaced(t, h, attempt))
  {
  }

  lemma TouchingLinks<V>(t: Table<V>, h: StrongHash)
    ensures if Resident(t, h) then LinkedOnce(t, Touched(t, h)) else NotLinked(t, Touched(t, h))
    ensures NotLinked(t, Removed(t, h))
  {
  }

  lemma StepOrdering<V>(t: Table<V>, op: Op<V>)
    requires WellFormed(t)
    ensures Step(t, op).ordering ==
            if op.Clear? then 0 else if Links(t, op) then Increment(t.ordering) else t.ordering
    ensures Step(t, op).aborted <==> t.aborted || (Links(t, op) && t.ordering == WORD32 - 1)
  {
    match op
    case GetOrEmplace(h, make) => EmplacingLinks(t, h, make(NextIndex(t)));
    case GetOrTryEmplace(h, attempt) => TryingLinks(t, h, attempt(NextIndex(t)));
    case TryEmplace(h, make) => EmplacingLinks(t, h, make(NextIndex(t)));
    case Emplace(h, v) => EmplacingLinks(t, h, v);
    case Index(h, blank) => EmplacingLinks(t, h, blank);
    case TryGet(h) => TouchingLinks(t, h);
    case Touch(h) => TouchingLinks(t, h);
    case Contains(h) => TouchingLinks(t, h);
    case Remove(h) => TouchingLinks(t, h);
    case _ =>
  }

  /** One more call, for the counter and the links. */
  lemma OneMoreLink<V>(t: Table<V>, op: Op<V>, n: nat)
    requires WellFormed(t) && t.ordering == n % WORD32
    ensures Step(t, op).ordering == (if op.Clear? then 0 else n + Count(Links(t, op))) % WORD32
  {
    StepOrdering(t, op);
    IncrementWrapped(n);
  }

  lemma {:induction false} OrderingCountsLinks<V>(capacity: nat, ops: seq<Op<V>>)
    requires capacity >= 2
    ensures Run(Fresh(capacity), ops).ordering == LinksSinceClear(capacity, ops) % WORD32
  {
    if ops != [] {
      var before := ops[..|ops| - 1];
      OrderingCountsLinks(capacity, before);
      OneMoreLink(Run(Fresh(capacity), before), ops[|ops| - 1], LinksSinceClear(capacity, before));
    }
  }

  /**
    No Require or Guarantee ever fails, in any run of any calls, until the entries have been linked
    2^32 times without a clear; from then on one has failed.
    */
  lemma {:induction false} ChecksFailWhenOrderingWraps<V>(capacity: nat, ops: seq<Op<V>>)
    requires capacity >= 2
    ensures Run(Fresh(capacity), ops).aborted <==>
            exists n :: 0 <= n <= |ops| && LinksSinceClear(capacity, ops[..n]) >= WORD32
  {
    if ops == [] {
      assert forall n :: 0 <= n <= |ops| ==> ops[..n] == [];
    } else {
      var before, last := ops[..|ops| - 1], ops[|ops| - 1];
      var t := Run(Fresh(capacity), before);
      ChecksFailWhenOrderingWraps(capacity, before);
      OrderingCountsLinks(capacity, before);
      StepOrdering(t, last);
      IncrementWrapped(LinksSinceClear(capacity, before));
      assert forall n :: 0 <= n < |ops| ==> ops[..n] == before[..n];
      assert ops[..|ops|] == ops && before[..|before|] == before;
      if t.aborted {
        var n :| 0 <= n <= |before| && LinksSinceClear(capacity, before[..n]) >= WORD32;
        assert LinksSinceClear(capacity, ops[..n]) >= WORD32;
      }
      if Links(t, last) && t.ordering == WORD32 - 1 {
        assert LinksSinceClear(capacity, ops[..|ops|]) >= WORD32;
      }
      if n :| 0 <= n <= |ops| && LinksSinceClear(capacity, ops[..n]) >= WORD32 {
        if n < |ops| {
          assert LinksSinceClear(capacity, before[..n]) >= WORD32;
        } else if LinksSinceClear(capacity, before) >= WORD32 {
          assert LinksSinceClear(capacity, before[..|before|]) >= WORD32;
        }
      }
    }
  }
}
