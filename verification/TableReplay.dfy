/** Runs of the hash table itself. */
module TableReplay {
  import opened Options
  import opened Words
  import opened StrongHashing
  import opened RecencyTable
  import opened RecencyRuns
  import opened LruHashtable

  /** The values that operator[] creates are the table's default values. */
  ghost predicate Suits<V>(op: Op<V>, blank: V) {
    op.Index? ==> op.blank == blank
  }

  /** The calls that construct a value. */
  method PerformCreating<V>(table: StrongLruHashtable<V>, op: Op<V>) returns (answer: Answer<V>)
    requires table.Valid() && Suits(op, table.defaultValue)
    requires op.GetOrEmplace? || op.GetOrTryEmplace? || op.TryEmplace? || op.Emplace? || op.Index?
    modifies table, table.hashTable, table.entries
    ensures WellFormed(old(table.Contents()))
    ensures table.Valid() && table.Contents() == Step(old(table.Contents()), op)
    ensures answer == AnswerTo(old(table.Contents()), op)
  {
    table.ContentsWellFormed();
    match op
    case GetOrEmplace(h, make) =>
      var v := table.GetOrEmplace(h, make);
      answer := Found(Some(v));
    case GetOrTryEmplace(h, attempt) =>
      var v, _, _ := table.GetOrTryEmplace(h, attempt);
      answer := Found(v);
    case TryEmplace(h, make) =>
      var created := table.TryEmplace(h, make);
      answer := Flag(created);
    case Emplace(h, v) =>
      var stored := table.Emplace(h, v);
      answer := Found(Some(stored));
    case Index(h, _) =>
      var v := table.Index(h);
      answer := Found(Some(v));
  }

  /** The calls that look something up. */
  method PerformLooking<V>(table: StrongLruHashtable<V>, op: Op<V>) returns (answer: Answer<V>)
    requires table.Valid() && (op.TryGet? || op.Touch? || op.Contains? || op.Peek?)
    modifies table, table.hashTable, table.entries
    ensures WellFormed(old(table.Contents()))
    ensures table.Valid() && table.Contents() == Step(old(table.Contents()), op)
    ensures answer == AnswerTo(old(table.Contents()), op)
  {
    table.ContentsWellFormed();
    match op
    case TryGet(h) =>
      var v := table.TryGet(h);
      answer := Found(v);
    case Touch(h) =>
      table.Touch(h);
      answer := Nothing;
    case Contains(h) =>
      var found := table.Contains(h);
      answer := Flag(found);
    case Peek(h) =>
      var v := table.Peek(h);
      answer := Found(v);
  }

  method PerformListing<V>(table: StrongLruHashtable<V>, op: Op<V>) returns (answer: Answer<V>)
    requires table.Valid() && (op.ListHashes? || op.Remove?)
    modifies table, table.hashTable, table.entries
    ensures WellFormed(old(table.Contents()))
    ensures table.Valid() && table.Contents() == Step(old(table.Contents()), op)
    ensures answer == AnswerTo(old(table.Contents()), op)
  {
    table.ContentsWellFormed();
    if op.ListHashes? {
      var hashes := table.HashesInOrder();
      answer := Listed(hashes);
    } else {
      table.Remove(op.h);
      answer := Nothing;
    }
  }

  method PerformClear<V>(table: StrongLruHashtable<V>, op: Op<V>) returns (answer: Answer<V>)
    requires table.Valid() && op.Clear?
    modifies table, table.hashTable, table.entries
    ensures WellFormed(old(table.Contents()))
    ensures table.Valid() && table.Contents() == Step(old(table.Contents()), op)
    ensures answer == AnswerTo(old(table.Contents()), op)
  {
    table.ContentsWellFormed();
    table.Clear();
    answer := Nothing;
  }

  method PerformFetch<V>(table: StrongLruHashtable<V>, op: Op<V>) returns (answer: Answer<V>)
    requires table.Valid() && op.FetchAndClearStats?
    modifies table, table.hashTable, table.entries
    ensures WellFormed(old(table.Contents()))
    ensures table.Valid() && table.Contents() == Step(old(table.Contents()), op)
    ensures answer == AnswerTo(old(table.Contents()), op)
  {
    table.ContentsWellFormed();
    var st := table.FetchAndClearStats();
    answer := Counted(st);
  }

  method Perform<V>(table: StrongLruHashtable<V>, op: Op<V>) returns (answer: Answer<V>)
    requires table.Valid() && Suits(op, table.defaultValue)
    modifies table, table.hashTable, table.entries
    ensures WellFormed(old(table.Contents()))
    ensures table.Valid() && table.Contents() == Step(old(table.Contents()), op)
    ensures answer == AnswerTo(old(table.Contents()), op)
  {
    if op.GetOrEmplace? || op.GetOrTryEmplace? || op.TryEmplace? || op.Emplace? || op.Index? {
      answer := PerformCreating(table, op);
    } else if op.TryGet? || op.Touch? || op.Contains? || op.Peek? {
      answer := PerformLooking(table, op);
    } else if op.ListHashes? || op.Remove? {
      answer := PerformListing(table, op);
    } else if op.Clear? {
      answer := PerformClear(table, op);
    } else {
      answer := PerformFetch(table, op);
    }
  }

  /** Any sequence of calls on any table answers and ends as the recency list says. */
  method Replay<V>(table: StrongLruHashtable<V>, ops: seq<Op<V>>) returns (answers: seq<Answer<V>>)
    requires table.Valid() && forall i :: 0 <= i < |ops| ==> Suits(ops[i], table.defaultValue)
    modifies table, table.hashTable, table.entries
    ensures WellFormed(old(table.Contents()))
    ensures table.Valid() && table.Contents() == Run(old(table.Contents()), ops)
    ensures answers == Answers(old(table.Contents()), ops)
    decreases |ops|
  {
    table.ContentsWellFormed();
    if ops == [] {
      return [];
    }
    answers := Replay(table, ops[..|ops| - 1]);
    var answer := Perform(table, ops[|ops| - 1]);
    answers := answers + [answer];
  }

  /** A new table, after a run: its answers, and its hashes in the end. */
  method RunFresh<V>(slotCount: nat, capacity: nat, blank: V, ops: seq<Op<V>>)
    returns (answers: seq<Answer<V>>, hashes: seq<StrongHash>)
    requires slotCount >= 1 && IsPowerOfTwo(slotCount) && capacity >= 2
    requires forall i :: 0 <= i < |ops| ==> Suits(ops[i], blank)
    ensures answers == Answers(Fresh(capacity), ops)
    ensures hashes == Hashes(Run(Fresh(capacity), ops).items)
  {
    var table := new StrongLruHashtable<V>(slotCount, capacity, blank);
    answers := Replay(table, ops);
    hashes := table.HashesInOrder();
  }

  /**
    The number of slots, and so which hashes collide, cannot be told from the answers. After a run of
    get_or_emplace, hashes() is the first `capacity` distinct hashes of the run, read backwards.
    */
  method SlotsDoNotMatter<V>(fewSlots: nat, manySlots: nat, capacity: nat, blank: V, ops: seq<Op<V>>)
    returns (few: seq<Answer<V>>, many: seq<Answer<V>>, fewHashes: seq<StrongHash>, manyHashes: seq<StrongHash>)
    requires fewSlots >= 1 && IsPowerOfTwo(fewSlots) && manySlots >= 1 && IsPowerOfTwo(manySlots) && capacity >= 2
    requires forall i :: 0 <= i < |ops| ==> Suits(ops[i], blank)
    ensures few == many && fewHashes == manyHashes
    ensures few == Answers(Fresh(capacity), ops)
    ensures OnlyGets(ops) ==> fewHashes == Prefix(FirstOccurrences(Backwards(ops)), capacity)
  {
    few, fewHashes := RunFresh(fewSlots, capacity, blank, ops);
    many, manyHashes := RunFresh(manySlots, capacity, blank, ops);
    if OnlyGets(ops) {
      RecencyLaw(capacity, ops);
    }
  }
}
