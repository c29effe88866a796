/**
  The tab bar as a value: the order of the sessions, the active one and the one that was active
  before. Sessions are compared by identity only, so any type with equality will do.
  */
module Tabs {
  import opened Options
  import opened Words

  datatype TabBar<+S> = TabBar(sessions: seq<S>, active: Option<S>, previous: Option<S>)

  /** Where `s` stands, or the length of the sequence when it does not occur. */
  function Find<S(==)>(sessions: seq<S>, s: S): (k: nat)
    ensures k <= |sessions|
    ensures k < |sessions| ==> sessions[k] == s
    ensures forall j :: 0 <= j < k ==> sessions[j] != s
  {
    FindFrom(sessions, s, 0)
  }

  function FindFrom<S(==)>(sessions: seq<S>, s: S, i: nat): (k: nat)
    requires i <= |sessions|
    ensures i <= k <= |sessions|
    ensures k < |sessions| ==> sessions[k] == s
    ensures forall j :: i <= j < k ==> sessions[j] != s
    decreases |sessions| - i
  {
    if i == |sessions| || sessions[i] == s then i else FindFrom(sessions, s, i + 1)
  }

  predicate Has<S(==)>(sessions: seq<S>, s: S) {
    Find(sessions, s) < |sessions|
  }

  ghost predicate NoDuplicates<S>(sessions: seq<S>) {
    forall i, j :: 0 <= i < j < |sessions| ==> sessions[i] != sessions[j]
  }

  /**
    What every tab bar satisfies: no session twice, the active session is one of them, and the
    previous one is another of them as soon as there are two.
    */
  ghost predicate Sound<S>(b: TabBar<S>) {
    && NoDuplicates(b.sessions)
    && (b.sessions == [] ==> b.active.None? && b.previous.None?)
    && (b.sessions != [] ==> b.active.Some? && Has(b.sessions, b.active.value))
    && (|b.sessions| == 1 ==> b.previous.None?)
    && (|b.sessions| >= 2 ==> b.previous.Some? && Has(b.sessions, b.previous.value) && b.previous != b.active)
  }

  /** activateSession of a session that exists. */
  function Activated<S(==)>(b: TabBar<S>, s: S): TabBar<S> {
    if b.active == Some(s) then b else b.(previous := b.active, active := Some(s))
  }

  /** The position right behind the active session, or the end. */
  function InsertPoint<S(==)>(b: TabBar<S>): (k: nat)
    ensures k <= |b.sessions|
  {
    if b.active.None? then |b.sessions|
    else
      var k := Find(b.sessions, b.active.value);
      if k < |b.sessions| then k + 1 else k
  }

  /** createSessionInBackground */
  function Opened<S(==)>(b: TabBar<S>, s: S): TabBar<S> {
    var k := InsertPoint(b);
    b.(previous := b.active, sessions := InsertedAt(b.sessions, k, s))
  }

  function InsertedAt<S>(sessions: seq<S>, k: nat, s: S): (r: seq<S>)
    requires k <= |sessions|
    ensures |r| == |sessions| + 1
    ensures forall i :: 0 <= i < |r| ==> r[i] == if i < k then sessions[i] else if i == k then s else sessions[i - 1]
  {
    sessions[..k] + [s] + sessions[k..]
  }

  function Created<S(==)>(b: TabBar<S>, s: S): TabBar<S> {
    Activated(Opened(b, s), s)
  }

  function ActiveIndex<S(==)>(b: TabBar<S>): (k: nat)
    ensures k <= |b.sessions|
  {
    if b.active.None? then |b.sessions| else Find(b.sessions, b.active.value)
  }

  function WentToPrevious<S(==)>(b: TabBar<S>): TabBar<S> {
    if b.previous.None? then b else Activated(b, b.previous.value)
  }

  function WentLeft<S(==)>(b: TabBar<S>): TabBar<S>
    requires ActiveIndex(b) < |b.sessions|
  {
    var i := ActiveIndex(b);
    Activated(b, b.sessions[if i > 0 then i - 1 else |b.sessions| - 1])
  }

  function WentRight<S(==)>(b: TabBar<S>): TabBar<S>
    requires ActiveIndex(b) < |b.sessions|
  {
    var i := ActiveIndex(b);
    Activated(b, b.sessions[if i < |b.sessions| - 1 then i + 1 else 0])
  }

  /** Tabs are counted from 1; any other position is ignored. */
  function WentTo<S(==)>(b: TabBar<S>, position: int): TabBar<S> {
    if 1 <= position <= |b.sessions| then Activated(b, b.sessions[position - 1]) else b
  }

  function Swapped<S>(s: seq<S>, i: nat, j: nat): (r: seq<S>)
    requires i < |s| && j < |s|
    ensures |r| == |s| && r[i] == s[j] && r[j] == s[i]
    ensures forall k :: 0 <= k < |s| && k != i && k != j ==> r[k] == s[k]
  {
    s[i := s[j]][j := s[i]]
  }

  /** moveTabTo exchanges the active tab with the one at the position; it does not shift the tabs between. */
  function MovedTo<S(==)>(b: TabBar<S>, position: int): TabBar<S> {
    var i := ActiveIndex(b);
    if i < |b.sessions| && 1 <= position <= |b.sessions|
    then b.(sessions := Swapped(b.sessions, i, position - 1)) else b
  }

  function MovedLeft<S(==)>(b: TabBar<S>, s: S): TabBar<S> {
    var i := Find(b.sessions, s);
    if 0 < i < |b.sessions| then b.(sessions := Swapped(b.sessions, i, i - 1)) else b
  }

  function MovedRight<S(==)>(b: TabBar<S>, s: S): TabBar<S> {
    var i := Find(b.sessions, s);
    if i + 1 < |b.sessions| then b.(sessions := Swapped(b.sessions, i, i + 1)) else b
  }

  /** The tab after the active one, else the tab before it, else none. */
  function Neighbour<S(==)>(b: TabBar<S>): Option<S> {
    var i := if ActiveIndex(b) < |b.sessions| then ActiveIndex(b) else 0;
    if i + 1 < |b.sessions| then Some(b.sessions[i + 1])
    else if 0 < i <= |b.sessions| then Some(b.sessions[i - 1])
    else None
  }

  /** A session that is about to go is no longer active, unless there is no other. */
  function Left<S(==)>(b: TabBar<S>, s: S): TabBar<S> {
    if b.active == Some(s) then WentToPrevious(b) else b
  }

  function Erased<S(==)>(b: TabBar<S>, k: nat): TabBar<S>
    requires k < |b.sessions|
  {
    var d := b.(sessions := b.sessions[..k] + b.sessions[k + 1..]);
    d.(previous := Neighbour(d))
  }

  /** removeSession */
  function Removed<S(==)>(b: TabBar<S>, s: S): TabBar<S> {
    var c := Left(b, s);
    var k := Find(c.sessions, s);
    if k == |c.sessions| then c else Erased(c, k)
  }

  // ----- Runs -----

  datatype TabOp<S> =
    | CreateSession(s: S)
    | SetSession(index: nat, added: S)
    | SwitchToPreviousTab
    | SwitchToTabLeft
    | SwitchToTabRight
    | SwitchToTab(position: int)
    | MoveTabTo(position: int)
    | MoveTabToLeft(s: S)
    | MoveTabToRight(s: S)
    | RemoveSession(s: S)
    | CloseTab

  /**
    A call the program survives: the wrapping switches and closeTab need an active tab, setSession an
    index that is not past the end, and a session object can only be created once. Removing the last
    session ends the run.
    */
  predicate Allowed<S(==)>(b: TabBar<S>, op: TabOp<S>) {
    match op
    case CreateSession(s) => Find(b.sessions, s) == |b.sessions|
    case SetSession(index, added) => index <= |b.sessions| && Find(b.sessions, added) == |b.sessions|
    case SwitchToTabLeft => ActiveIndex(b) < |b.sessions|
    case SwitchToTabRight => ActiveIndex(b) < |b.sessions|
    case RemoveSession(s) => b.sessions != [s]
    case CloseTab => b.active.Some? && b.sessions != [b.active.value]
    case _ => true
  }

  function Step<S(==)>(b: TabBar<S>, op: TabOp<S>): TabBar<S>
    requires Allowed(b, op)
  {
    match op
    case CreateSession(s) => Created(b, s)
    case SetSession(index, added) =>
      if index < |b.sessions| then Activated(b, b.sessions[index]) else Created(b, added)
    case SwitchToPreviousTab => WentToPrevious(b)
    case SwitchToTabLeft => WentLeft(b)
    case SwitchToTabRight => WentRight(b)
    case SwitchToTab(position) => WentTo(b, position)
    case MoveTabTo(position) => MovedTo(b, position)
    case MoveTabToLeft(s) => MovedLeft(b, s)
    case MoveTabToRight(s) => MovedRight(b, s)
    case RemoveSession(s) => Removed(b, s)
    case CloseTab => Removed(b, b.active.value)
  }

  lemma FindUnique<S>(sessions: seq<S>, k: nat)
    requires NoDuplicates(sessions) && k < |sessions|
    ensures Find(sessions, sessions[k]) == k
  {
  }

  lemma FindMember<S>(sessions: seq<S>, s: S)
    ensures s in sessions <==> Find(sessions, s) < |sessions|
  {
  }

  lemma SoundActive<S>(b: TabBar<S>)
    requires Sound(b)
    ensures b.sessions != [] ==> ActiveIndex(b) < |b.sessions|
    ensures b.sessions == [] ==> ActiveIndex(b) == 0
  {
    if b.sessions != [] {
      FindMember(b.sessions, b.active.value);
    }
  }

  lemma ActivatedSound<S>(b: TabBar<S>, s: S)
    requires Sound(b) && Has(b.sessions, s)
    ensures Sound(Activated(b, s))
  {
  }

  lemma InsertedOnce<S>(sessions: seq<S>, k: nat, s: S)
    requires NoDuplicates(sessions) && !Has(sessions, s) && k <= |sessions|
    ensures NoDuplicates(InsertedAt(sessions, k, s)) && Has(InsertedAt(sessions, k, s), s)
  {
    var r := InsertedAt(sessions, k, s);
    assert r[k] == s;
  }

  lemma InsertedKeeps<S>(sessions: seq<S>, k: nat, s: S, x: S)
    requires k <= |sessions| && Has(sessions, x)
    ensures Has(InsertedAt(sessions, k, s), x)
  {
    var i, r := Find(sessions, x), InsertedAt(sessions, k, s);
    assert r[if i < k then i else i + 1] == x;
  }

  lemma CreatedSound<S>(b: TabBar<S>, s: S)
    requires Sound(b) && !Has(b.sessions, s)
    ensures Sound(Created(b, s)) && Has(Opened(b, s).sessions, s)
  {
    var k := InsertPoint(b);
    var r := InsertedAt(b.sessions, k, s);
    InsertedOnce(b.sessions, k, s);
    assert b.active != Some(s);
    assert Created(b, s) == TabBar(r, Some(s), b.active);
    if b.sessions != [] {
      InsertedKeeps(b.sessions, k, s, b.active.value);
    }
  }

  lemma SwappedSame<S>(s: seq<S>, i: nat, j: nat, x: S)
    requires i < |s| && j < |s|
    ensures x in Swapped(s, i, j) <==> x in s
    ensures NoDuplicates(s) ==> NoDuplicates(Swapped(s, i, j))
  {
    var r := Swapped(s, i, j);
    if x in s {
      var k :| 0 <= k < |s| && s[k] == x;
      assert r[if k == i then j else if k == j then i else k] == x;
    }
    if x in r {
      var k :| 0 <= k < |r| && r[k] == x;
      assert s[if k == i then j else if k == j then i else k] == x;
    }
  }

  lemma SwappedSound<S>(b: TabBar<S>, i: nat, j: nat)
    requires Sound(b) && i < |b.sessions| && j < |b.sessions|
    ensures Sound(b.(sessions := Swapped(b.sessions, i, j)))
  {
    SwappedSame(b.sessions, i, j, b.active.value);
    if b.previous.Some? {
      SwappedSame(b.sessions, i, j, b.previous.value);
    }
  }

  /** What is left when one session is taken out. */
  lemma Shortened<S>(s: seq<S>, k: nat, x: S)
    requires NoDuplicates(s) && k < |s|
    ensures NoDuplicates(s[..k] + s[k + 1..])
    ensures x in s[..k] + s[k + 1..] <==> x in s && x != s[k]
  {
    var r := s[..k] + s[k + 1..];
    assert forall i :: 0 <= i < |r| ==> r[i] == if i < k then s[i] else s[i + 1];
    if x in s && x != s[k] {
      var i :| 0 <= i < |s| && s[i] == x;
      assert r[if i < k then i else i - 1] == x;
    }
  }

  lemma NeighbourSound<S>(b: TabBar<S>)
    requires NoDuplicates(b.sessions) && b.active.Some? && b.active.value in b.sessions
    ensures Sound(b.(previous := Neighbour(b)))
  {
    FindMember(b.sessions, b.active.value);
  }

  /** A removal takes out that session and nothing else. */
  lemma RemovedMembers<S>(b: TabBar<S>, s: S, x: S)
    requires Sound(b)
    ensures x in Removed(b, s).sessions <==> x in b.sessions && x != s
  {
    var k := Find(b.sessions, s);
    FindMember(b.sessions, s);
    if k < |b.sessions| {
      Shortened(b.sessions, k, x);
    }
  }

  /** Taking a session out keeps the bar sound, unless it is the last one: then a stale session stays active. */
  lemma RemovedSound<S>(b: TabBar<S>, s: S)
    requires Sound(b)
    ensures Sound(Removed(b, s)) <==> b.sessions != [s]
  {
    var c, k := Left(b, s), Find(b.sessions, s);
    FindMember(b.sessions, s);
    if k < |b.sessions| {
      var d := c.(sessions := c.sessions[..k] + c.sessions[k + 1..]);
      if b.sessions != [s] {
        Shortened(b.sessions, k, c.active.value);
        NeighbourSound(d);
      } else {
        assert d.sessions == [];
      }
    }
  }

  lemma SwitchSound<S>(b: TabBar<S>, op: TabOp<S>)
    requires Sound(b) && Allowed(b, op) && Switches(op)
    ensures Sound(Step(b, op))
  {
    SoundActive(b);
    match op
    case SwitchToPreviousTab => if b.previous.Some? { ActivatedSound(b, b.previous.value); }
    case SwitchToTabLeft => LeftIndex(b);
    case SwitchToTabRight => RightIndex(b);
    case SwitchToTab(position) => if 1 <= position <= |b.sessions| { ActivatedSound(b, b.sessions[position - 1]); }
  }

  /** A move changes nothing, or exchanges two tabs. */
  lemma MoveSwaps<S>(b: TabBar<S>, op: TabOp<S>) returns (i: nat, j: nat)
    requires Moves(op)
    ensures Step(b, op) != b ==>
              i < |b.sessions| && j < |b.sessions| && Step(b, op) == b.(sessions := Swapped(b.sessions, i, j))
  {
    match op
    case MoveTabTo(position) => i, j := ActiveIndex(b), if position >= 1 then position - 1 else 0;
    case MoveTabToLeft(s) => i := Find(b.sessions, s); j := if i > 0 then i - 1 else 0;
    case MoveTabToRight(s) => i := Find(b.sessions, s); j := i + 1;
  }

  lemma MoveSound<S>(b: TabBar<S>, op: TabOp<S>)
    requires Sound(b) && Moves(op)
    ensures Sound(Step(b, op))
  {
    var i, j := MoveSwaps(b, op);
    if Step(b, op) != b {
      SwappedSound(b, i, j);
    }
  }

  /** Every call the program survives keeps the tab bar sound. */
  lemma StepSound<S>(b: TabBar<S>, op: TabOp<S>)
    requires Sound(b) && Allowed(b, op)
    ensures Sound(Step(b, op))
  {
    if Switches(op) {
      SwitchSound(b, op);
    } else if Moves(op) {
      MoveSound(b, op);
    } else {
      match op
      case CreateSession(s) => FindMember(b.sessions, s); CreatedSound(b, s);
      case SetSession(index, added) =>
        FindMember(b.sessions, added);
        if index == |b.sessions| {
          CreatedSound(b, added);
        } else {
          ActivatedSound(b, b.sessions[index]);
        }
      case RemoveSession(s) => RemovedSound(b, s);
      case CloseTab => RemovedSound(b, b.active.value);
    }
  }

  /** A whole run, or None when the program does not survive it. */
  function Run<S(==)>(b: TabBar<S>, ops: seq<TabOp<S>>): Option<TabBar<S>> {
    if ops == [] then Some(b)
    else
      var before, last := Run(b, ops[..|ops| - 1]), ops[|ops| - 1];
      if before.None? || !Allowed(before.value, last) then None else Some(Step(before.value, last))
  }

  /** In every run from the empty tab bar, up to the removal of the last session. */
  lemma {:induction false} RunSound<S>(ops: seq<TabOp<S>>)
    requires Run(TabBar([], None, None), ops).Some?
    ensures Sound(Run(TabBar([], None, None), ops).value)
    decreases |ops|
  {
    if ops != [] {
      RunSound(ops[..|ops| - 1]);
      StepSound(Run(TabBar([], None, None), ops[..|ops| - 1]).value, ops[|ops| - 1]);
    }
  }

  // ----- How the calls relate to each other -----

  predicate Moves<S>(op: TabOp<S>) {
    op.MoveTabTo? || op.MoveTabToLeft? || op.MoveTabToRight?
  }

  predicate Switches<S>(op: TabOp<S>) {
    op.SwitchToPreviousTab? || op.SwitchToTabLeft? || op.SwitchToTabRight? || op.SwitchToTab?
  }

  lemma SwappedPermutes<S>(s: seq<S>, i: nat, j: nat)
    requires i < |s| && j < |s|
    ensures multiset(Swapped(s, i, j)) == multiset(s)
  {
  }

  /** Moving permutes the tabs and keeps the focus; switching keeps the order of the tabs. */
  lemma MovesOnlyPermute<S>(b: TabBar<S>, op: TabOp<S>)
    requires Allowed(b, op)
    ensures Moves(op) ==> multiset(Step(b, op).sessions) == multiset(b.sessions)
    ensures Moves(op) ==> Step(b, op).active == b.active && Step(b, op).previous == b.previous
    ensures Switches(op) ==> Step(b, op).sessions == b.sessions
  {
    if Moves(op) && Step(b, op) != b {
      var i, j := MoveSwaps(b, op);
      SwappedPermutes(b.sessions, i, j);
    }
  }

  /** Going back twice is not going at all. */
  lemma PreviousTwice<S>(b: TabBar<S>)
    requires Sound(b)
    ensures WentToPrevious(WentToPrevious(b)) == b
  {
  }

  function NextIndex(i: nat, n: nat): nat {
    if i + 1 < n then i + 1 else 0
  }

  function PreviousIndex(i: nat, n: nat): nat {
    if i > 0 then i - 1 else if n > 0 then n - 1 else 0
  }

  lemma RightIndex<S>(b: TabBar<S>)
    requires Sound(b) && b.sessions != []
    ensures ActiveIndex(b) < |b.sessions|
    ensures Sound(WentRight(b)) && WentRight(b).sessions == b.sessions
    ensures ActiveIndex(WentRight(b)) == NextIndex(ActiveIndex(b), |b.sessions|)
  {
    SoundActive(b);
    var i := ActiveIndex(b);
    var j := NextIndex(i, |b.sessions|);
    FindUnique(b.sessions, j);
    FindUnique(b.sessions, i);
    ActivatedSound(b, b.sessions[j]);
  }

  lemma LeftIndex<S>(b: TabBar<S>)
    requires Sound(b) && b.sessions != []
    ensures ActiveIndex(b) < |b.sessions|
    ensures Sound(WentLeft(b)) && WentLeft(b).sessions == b.sessions
    ensures ActiveIndex(WentLeft(b)) == PreviousIndex(ActiveIndex(b), |b.sessions|)
  {
    SoundActive(b);
    var i := ActiveIndex(b);
    var j := PreviousIndex(i, |b.sessions|);
    FindUnique(b.sessions, j);
    FindUnique(b.sessions, i);
    ActivatedSound(b, b.sessions[j]);
  }

  /** Left undoes right: the same tab is active again. */
  lemma LeftUndoesRight<S>(b: TabBar<S>)
    requires Sound(b) && b.sessions != []
    ensures ActiveIndex(b) < |b.sessions| && ActiveIndex(WentRight(b)) < |WentRight(b).sessions|
    ensures WentLeft(WentRight(b)).active == b.active
  {
    RightIndex(b);
    LeftIndex(WentRight(b));
    SoundActive(WentLeft(WentRight(b)));
  }

  /** n times to the right. */
  ghost function TimesRight<S>(b: TabBar<S>, n: nat): (r: TabBar<S>)
    requires Sound(b) && b.sessions != []
    decreases n
  {
    if n == 0 then b else RightIndex(b); TimesRight(WentRight(b), n - 1)
  }

  lemma OneFurther(i: nat, n: nat, m: nat)
    requires i < m && n > 0
    ensures (NextIndex(i, m) + (n - 1)) % m == (i + n) % m
  {
    if i + 1 == m {
      RemainderShifted(n - 1, 1, m);
      assert n - 1 + 1 * m == i + n;
    }
  }

  /** Switching right n times walks around the tabs. */
  lemma {:induction false} AroundTheTabs<S>(b: TabBar<S>, n: nat)
    requires Sound(b) && b.sessions != []
    ensures ActiveIndex(TimesRight(b, n)) == (ActiveIndex(b) + n) % |b.sessions|
    decreases n
  {
    if n == 0 {
      SoundActive(b);
      RemainderUnique(ActiveIndex(b), |b.sessions|, 0, ActiveIndex(b));
    } else {
      RightIndex(b);
      AroundTheTabs(WentRight(b), n - 1);
      OneFurther(ActiveIndex(b), n, |b.sessions|);
    }
  }

  /** Moving a tab to the right undoes moving it to the left, when there is a left to move to. */
  lemma MoveRightUndoesLeft<S>(b: TabBar<S>, s: S)
    requires Sound(b) && 0 < Find(b.sessions, s) < |b.sessions|
    ensures MovedRight(MovedLeft(b, s), s) == b
  {
    var i := Find(b.sessions, s);
    var r := Swapped(b.sessions, i, i - 1);
    SwappedSame(b.sessions, i, i - 1, s);
    FindUnique(r, i - 1);
    assert Swapped(r, i - 1, i) == b.sessions;
  }

  /** A new tab opens right behind the active one and becomes active; closing it brings the old tab back. */
  lemma CloseUndoesCreate<S>(b: TabBar<S>, s: S)
    requires Sound(b) && b.sessions != [] && !Has(b.sessions, s)
    ensures var c := Created(b, s);
            c.active == Some(s) && c.previous == b.active && ActiveIndex(c) == ActiveIndex(b) + 1
    ensures Removed(Created(b, s), s).sessions == b.sessions
    ensures Removed(Created(b, s), s).active == b.active
  {
    OpensBehindActive(b, s);
    var c, k := Created(b, s), ActiveIndex(b) + 1;
    assert c.sessions[..k] + c.sessions[k + 1..] == b.sessions;
  }

  lemma OpensBehindActive<S>(b: TabBar<S>, s: S)
    requires Sound(b) && b.sessions != [] && !Has(b.sessions, s)
    ensures var c := Created(b, s);
            && c.active == Some(s) && c.previous == b.active
            && ActiveIndex(c) == Find(c.sessions, s) == ActiveIndex(b) + 1 < |c.sessions|
            && c.sessions == InsertedAt(b.sessions, ActiveIndex(b) + 1, s)
  {
    CreatedSound(b, s);
    SoundActive(b);
    var c, k := Created(b, s), InsertPoint(b);
    assert c.sessions[k] == s;
    FindUnique(c.sessions, k);
  }

  // ----- Which tab is active, and where the tabs are -----

  lemma ActivatedIndex<S>(b: TabBar<S>, k: nat)
    requires Sound(b) && k < |b.sessions|
    ensures ActiveIndex(Activated(b, b.sessions[k])) == k
    ensures Activated(b, b.sessions[k]).sessions == b.sessions
    ensures Activated(b, b.sessions[k]).previous == if ActiveIndex(b) == k then b.previous else b.active
  {
    FindUnique(b.sessions, k);
    SoundActive(b);
  }

  /** switchToTab goes to the tab at that position, counted from 1; any other position changes nothing. */
  lemma GoesToPosition<S>(b: TabBar<S>, position: int)
    requires Sound(b)
    ensures 1 <= position <= |b.sessions| ==> ActiveIndex(WentTo(b, position)) == position - 1
    ensures 1 <= position <= |b.sessions| && ActiveIndex(b) != position - 1 ==> WentTo(b, position).previous == b.active
    ensures !(1 <= position <= |b.sessions|) || ActiveIndex(b) == position - 1 ==> WentTo(b, position) == b
    ensures WentTo(b, position).sessions == b.sessions
  {
    SoundActive(b);
    if 1 <= position <= |b.sessions| {
      ActivatedIndex(b, position - 1);
    }
  }

  /** setSession goes to the tab at that index, counted from 0, or opens a new one at the end. */
  lemma SetsToIndex<S>(b: TabBar<S>, index: nat, added: S)
    requires Sound(b) && Allowed(b, SetSession(index, added))
    ensures var r := Step(b, SetSession(index, added));
            if index < |b.sessions| then ActiveIndex(r) == index && r.sessions == b.sessions
            else r == Created(b, added)
  {
    if index < |b.sessions| {
      ActivatedIndex(b, index);
    }
  }

  /** switchToPreviousTab exchanges the active and the previous session. */
  lemma PreviousExchanged<S>(b: TabBar<S>)
    requires Sound(b)
    ensures |b.sessions| >= 2 ==> WentToPrevious(b) == b.(active := b.previous, previous := b.active)
    ensures |b.sessions| < 2 ==> WentToPrevious(b) == b
  {
  }

  /** Two tabs have changed places, and nothing else has happened. */
  ghost predicate Exchanged<S>(b: TabBar<S>, r: TabBar<S>, i: nat, j: nat) {
    && i < |b.sessions| && j < |b.sessions| && |r.sessions| == |b.sessions|
    && r.sessions[i] == b.sessions[j] && r.sessions[j] == b.sessions[i]
    && (forall k :: 0 <= k < |b.sessions| && k != i && k != j ==> r.sessions[k] == b.sessions[k])
    && r.active == b.active && r.previous == b.previous
  }

  /** moveTabTo exchanges the active tab with the one at that position, and so puts it there. */
  lemma MovesToPosition<S>(b: TabBar<S>, position: int)
    requires Sound(b) && b.sessions != []
    ensures 1 <= position <= |b.sessions| ==>
              && Exchanged(b, MovedTo(b, position), ActiveIndex(b), position - 1)
              && ActiveIndex(MovedTo(b, position)) == position - 1
    ensures !(1 <= position <= |b.sessions|) ==> MovedTo(b, position) == b
  {
    SoundActive(b);
    if 1 <= position <= |b.sessions| {
      var r := MovedTo(b, position);
      SwappedSound(b, ActiveIndex(b), position - 1);
      FindUnique(r.sessions, position - 1);
    }
  }

  /** A tab is moved by one place, unless it is at the end or not there. */
  lemma MovesByOne<S>(b: TabBar<S>, s: S)
    requires Sound(b)
    ensures var k := Find(b.sessions, s);
            if 0 < k < |b.sessions| then Exchanged(b, MovedLeft(b, s), k, k - 1) else MovedLeft(b, s) == b
    ensures var k := Find(b.sessions, s);
            if k + 1 < |b.sessions| then Exchanged(b, MovedRight(b, s), k, k + 1) else MovedRight(b, s) == b
  {
  }

  /**
    A removal of one of several tabs: the others keep their order; the previous session becomes active
    if the active one goes; and the new previous session is the right neighbour of the active one, or
    else its left one.
    */
  lemma RemovalLaw<S>(b: TabBar<S>, s: S)
    requires Sound(b) && Has(b.sessions, s) && |b.sessions| >= 2
    ensures var r, k := Removed(b, s), Find(b.sessions, s);
            && k < |b.sessions| && r.sessions == b.sessions[..k] + b.sessions[k + 1..]
            && r.active == (if b.active == Some(s) then b.previous else b.active)
            && ActiveIndex(r) < |r.sessions|
            && (ActiveIndex(r) + 1 < |r.sessions| ==> r.previous == Some(r.sessions[ActiveIndex(r) + 1]))
            && (ActiveIndex(r) + 1 == |r.sessions| > 1 ==> r.previous == Some(r.sessions[ActiveIndex(r) - 1]))
            && (|r.sessions| == 1 ==> r.previous == None)
  {
    FindMember(b.sessions, s);
    RemovedSound(b, s);
    SoundActive(Removed(b, s));
  }

  /** Removing a session that is not there changes nothing. */
  lemma AbsentRemoval<S>(b: TabBar<S>, s: S)
    requires Sound(b) && !Has(b.sessions, s)
    ensures Removed(b, s) == b
  {
    FindMember(b.sessions, s);
  }

  /** A tab opened in the background stands right of the active one, which stays active and becomes the previous one. */
  lemma OpensInBackground<S>(b: TabBar<S>, s: S)
    requires Sound(b) && b.sessions != []
    ensures var r, k := Opened(b, s), ActiveIndex(b) + 1;
            && r.active == r.previous == b.active
            && |r.sessions| == |b.sessions| + 1 && r.sessions[k] == s
            && r.sessions[..k] == b.sessions[..k] && r.sessions[k + 1..] == b.sessions[k..]
  {
  }

  /** The first tab is active and has no previous one. */
  lemma FirstTab<S>(b: TabBar<S>, s: S)
    requires Sound(b) && b.sessions == []
    ensures Created(b, s) == TabBar([s], Some(s), None)
  {
  }
}
