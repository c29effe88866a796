/**
  Which flags a parse leaves behind, for every command tree with unique, dot-free names: what each
  command and each option was last set to, over the writes of the defaults and of the tokens.
  */
module CommandLineLogs {
  import opened Options
  import opened CommandLine
  import opened CommandLineKeys

  // ----- The command tree -----

  /** The names of options and children at one level: dot-free, and no two alike. */
  ghost predicate LevelNamed(com: Command) {
    && (forall i :: 0 <= i < |com.options| ==> DotFree(com.options[i].longName))
    && (forall i :: 0 <= i < |com.children| ==> DotFree(com.children[i].name))
    && (forall i, j :: 0 <= i < j < |com.options| ==> com.options[i].longName != com.options[j].longName)
    && (forall i, j :: 0 <= i < j < |com.children| ==> com.children[i].name != com.children[j].name)
    && (forall i, j :: 0 <= i < |com.options| && 0 <= j < |com.children| ==>
          com.options[i].longName != com.children[j].name)
  }

  ghost predicate WellNamed(com: Command)
    decreases com
  {
    LevelNamed(com) && forall i :: 0 <= i < |com.children| ==> WellNamed(com.children[i])
  }

  /** The command that stands at place q, in the tree of `com` standing at `at`. */
  function Stands(com: Command, at: Place, q: Place): Option<Command>
    decreases com
  {
    if q == at then Some(com)
    else if |q| > |at| && at <= q then
      var k := FindChild(com.children, q[|at|]);
      if k < |com.children| then Stands(com.children[k], at + [com.children[k].name], q) else None
    else None
  }

  predicate IsCommand(com: Command, at: Place, q: Place) {
    Stands(com, at, q).Some?
  }

  lemma {:induction false} StandsBelow(com: Command, at: Place, q: Place)
    requires IsCommand(com, at, q)
    ensures at <= q
    decreases com
  {
    if q != at {
      var k := FindChild(com.children, q[|at|]);
      StandsBelow(com.children[k], at + [com.children[k].name], q);
    }
  }

  lemma ChildFound(com: Command, k: nat)
    requires LevelNamed(com) && k < |com.children|
    ensures FindChild(com.children, com.children[k].name) == k
  {
  }

  /** Below a child, the tree of the parent is the tree of the child. */
  lemma StandsInChild(com: Command, at: Place, k: nat, q: Place)
    requires LevelNamed(com) && k < |com.children| && at + [com.children[k].name] <= q
    ensures Stands(com, at, q) == Stands(com.children[k], at + [com.children[k].name], q)
  {
    ChildFound(com, k);
    assert q[|at|] == com.children[k].name;
    assert at <= q;
  }

  /** A command other than the root is a child of the command one level up. */
  lemma {:induction false} ParentOf(com: Command, at: Place, q: Place) returns (parent: Command, k: nat)
    requires WellNamed(com) && IsCommand(com, at, q) && q != at
    ensures |q| > |at| && at <= q[..|q| - 1]
    ensures Stands(com, at, q[..|q| - 1]) == Some(parent) && LevelNamed(parent)
    ensures k < |parent.children| && parent.children[k].name == q[|q| - 1]
    decreases com
  {
    k := FindChild(com.children, q[|at|]);
    var child := com.children[k];
    var below := at + [child.name];
    StandsBelow(child, below, q);
    if q == below {
      parent := com;
      assert q[..|q| - 1] == at;
    } else {
      var k' := k;
      parent, k := ParentOf(child, below, q);
      assert below <= q[..|q| - 1];
      StandsInChild(com, at, k', q[..|q| - 1]);
    }
  }

  /** Every beginning of a command's place is a command's place. */
  lemma {:induction false} PrefixIsCommand(com: Command, at: Place, r: Place, q: Place)
    requires WellNamed(com) && IsCommand(com, at, q) && at <= r <= q
    ensures IsCommand(com, at, r)
    decreases |q|
  {
    if r != q {
      var parent, k := ParentOf(com, at, q);
      assert r <= q[..|q| - 1];
      PrefixIsCommand(com, at, r, q[..|q| - 1]);
    }
  }

  lemma {:induction false} StandingNamed(com: Command, at: Place, q: Place)
    requires WellNamed(com) && IsCommand(com, at, q)
    ensures WellNamed(Stands(com, at, q).value)
    decreases com
  {
    if q != at {
      var k := FindChild(com.children, q[|at|]);
      StandingNamed(com.children[k], at + [com.children[k].name], q);
    }
  }

  lemma {:induction false} CommandPlaceClean(com: Command, at: Place, q: Place)
    requires WellNamed(com) && IsCommand(com, at, q) && CleanPlace(at)
    ensures CleanPlace(q)
    decreases com
  {
    if q != at {
      var k := FindChild(com.children, q[|at|]);
      CommandPlaceClean(com.children[k], at + [com.children[k].name], q);
    }
  }

  /** No command stands where an option of the level above is kept. */
  lemma OptionIsNoCommand(com: Command, at: Place, r: Place, i: nat)
    requires WellNamed(com) && IsCommand(com, at, r) && i < |Stands(com, at, r).value.options|
    ensures !IsCommand(com, at, r + [Stands(com, at, r).value.options[i].longName])
  {
    var q := r + [Stands(com, at, r).value.options[i].longName];
    StandsBelow(com, at, r);
    assert q[..|q| - 1] == r;
    if IsCommand(com, at, q) {
      var parent, k := ParentOf(com, at, q);
      assert false;
    }
  }

  // ----- The log of a parse -----

  /** An option of that name, and a value of its type. */
  ghost predicate Sets(c: Command, name: string, v: Value) {
    exists i :: 0 <= i < |c.options| && c.options[i].longName == name && SameType(v, c.options[i].v)
  }

  /** The write selects a command on the way to `chosen`, or sets an option of one. */
  ghost predicate OnTheWay(com: Command, at: Place, chosen: Place, w: Write) {
    || (at <= w.place <= chosen && w.value == Bool(true))
    || (|w.place| > |at| && at <= w.place[..|w.place| - 1] <= chosen
        && IsCommand(com, at, w.place[..|w.place| - 1])
        && Sets(Stands(com, at, w.place[..|w.place| - 1]).value, w.place[|w.place| - 1], w.value))
  }

  ghost predicate AllOnTheWay(com: Command, at: Place, chosen: Place, log: seq<Write>) {
    forall i :: 0 <= i < |log| ==> OnTheWay(com, at, chosen, log[i])
  }

  lemma {:induction false} OptionsOnTheWay(num: Numbers, com: Command, at: Place, chosen: Place, args: seq<string>,
                                           pos: nat)
    requires pos <= |args| && OptionLog(num, com.options, at, args, pos).Ok? && at <= chosen
    ensures AllOnTheWay(com, at, chosen, OptionLog(num, com.options, at, args, pos).value.0)
    decreases |args| - pos
  {
    var given := TryOption(num, com.options, args, pos).value;
    if given.Some? {
      var g := given.value;
      OptionsOnTheWay(num, com, at, chosen, args, g.pos);
      var w := Write(at + [g.opt.longName], g.value);
      assert w.place[..|w.place| - 1] == at;
      var i :| 0 <= i < |com.options| && com.options[i] == g.opt;
      assert Sets(com, g.opt.longName, g.value);
      assert OnTheWay(com, at, chosen, w);
    }
  }

  lemma LiftOnTheWay(com: Command, at: Place, k: nat, chosen: Place, log: seq<Write>)
    requires LevelNamed(com) && k < |com.children|
    requires AllOnTheWay(com.children[k], at + [com.children[k].name], chosen, log)
    ensures AllOnTheWay(com, at, chosen, log)
  {
    var below := at + [com.children[k].name];
    forall i | 0 <= i < |log|
      ensures OnTheWay(com, at, chosen, log[i])
    {
      var w := log[i];
      assert OnTheWay(com.children[k], below, chosen, w);
      assert at <= below;
      if !(below <= w.place <= chosen && w.value == Bool(true)) {
        StandsInChild(com, at, k, w.place[..|w.place| - 1]);
      }
    }
  }

  /** Every command on the way from `at` to `chosen` is selected by the log. */
  ghost predicate AllSelected(at: Place, chosen: Place, log: seq<Write>) {
    forall r: Place :: at <= r <= chosen ==> Wrote(log, r)
  }

  ghost predicate GoodOutcome(com: Command, at: Place, out: Outcome) {
    && at <= out.chosen
    && IsCommand(com, at, out.chosen)
    && AllOnTheWay(com, at, out.chosen, out.log)
    && AllSelected(at, out.chosen, out.log)
  }

  /** The outcome of a subcommand, seen from the command above. */
  lemma LiftOutcome(com: Command, at: Place, k: nat, out: Outcome)
    requires LevelNamed(com) && k < |com.children|
    requires GoodOutcome(com.children[k], at + [com.children[k].name], out)
    ensures at <= out.chosen && IsCommand(com, at, out.chosen)
    ensures AllOnTheWay(com, at, out.chosen, out.log)
    ensures forall r: Place :: at <= r <= out.chosen && r != at ==> Wrote(out.log, r)
  {
    var below := at + [com.children[k].name];
    assert at <= below <= out.chosen;
    StandsInChild(com, at, k, out.chosen);
    LiftOnTheWay(com, at, k, out.chosen, out.log);
    forall r: Place | at <= r <= out.chosen && r != at
      ensures Wrote(out.log, r)
    {
      assert below <= r;
    }
  }

  lemma WroteLater(a: seq<Write>, b: seq<Write>, c: seq<Write>, p: Place)
    requires Wrote(b, p)
    ensures Wrote(a + b + c, p)
  {
    var i :| 0 <= i < |b| && b[i].place == p;
    assert (a + b + c)[|a| + i].place == p;
  }

  /** The writes of a command around those of what follows it. */
  lemma WrapOutcome(com: Command, at: Place, opts: seq<Write>, out: Outcome, again: seq<Write>)
    requires at <= out.chosen && IsCommand(com, at, out.chosen)
    requires AllOnTheWay(com, at, out.chosen, opts) && AllOnTheWay(com, at, out.chosen, out.log)
    requires forall r: Place :: at <= r <= out.chosen && r != at ==> Wrote(out.log, r)
    requires again == [] || again == [Write(at, Bool(true))]
    ensures GoodOutcome(com, at, out.(log := [Write(at, Bool(true))] + opts + out.log + again))
  {
    var own := [Write(at, Bool(true))] + opts;
    var log := own + out.log + again;
    assert log[0].place == at;
    forall r: Place | at <= r <= out.chosen
      ensures Wrote(log, r)
    {
      if r != at {
        WroteLater(own, out.log, again, r);
      }
    }
  }

  lemma {:induction false} CommandOutcomeGood(num: Numbers, com: Command, at: Place, args: seq<string>, pos: nat)
    requires WellNamed(com) && pos <= |args| && CommandLog(num, com, at, args, pos).Ok?
    ensures GoodOutcome(com, at, CommandLog(num, com, at, args, pos).value)
    decreases com
  {
    var opts := OptionLog(num, com.options, at, args, pos).value;
    var out := Continued(num, com, at, args, opts.1).value;
    var s := Selection(com, args, opts.1).value;
    if s.0 < |com.children| {
      CommandOutcomeGood(num, com.children[s.0], at + [com.children[s.0].name], args, s.1);
      LiftOutcome(com, at, s.0, out);
    }
    OptionsOnTheWay(num, com, at, out.chosen, args, pos);
    WrapOutcome(com, at, opts.0, out, if out.pos == |args| then [Write(at, Bool(true))] else []);
  }

  // ----- The log of the defaults -----

  /** The write deselects a command below `at`, or gives an optional option its default. */
  ghost predicate IsDefault(com: Command, at: Place, w: Write) {
    || (w.place != at && IsCommand(com, at, w.place) && w.value == Bool(false))
    || (|w.place| > |at| && IsCommand(com, at, w.place[..|w.place| - 1])
        && Defaults(Stands(com, at, w.place[..|w.place| - 1]).value, w.place[|w.place| - 1], w.value))
  }

  ghost predicate Defaults(c: Command, name: string, v: Value) {
    exists i :: 0 <= i < |c.options| && c.options[i].longName == name && !c.options[i].required && c.options[i].v == v
  }

  ghost predicate AllDefaults(com: Command, at: Place, log: seq<Write>) {
    forall i :: 0 <= i < |log| ==> IsDefault(com, at, log[i])
  }

  lemma {:induction false} OptionDefaults(com: Command, at: Place, n: nat)
    requires n <= |com.options|
    ensures AllDefaults(com, at, DefaultLog(com.options[n..], at))
    ensures forall i :: n <= i < |com.options| && !com.options[i].required ==>
              Wrote(DefaultLog(com.options[n..], at), at + [com.options[i].longName])
    decreases |com.options| - n
  {
    if n < |com.options| {
      OptionDefaults(com, at, n + 1);
      var o := com.options[n];
      var head := if o.required then [] else [Write(at + [o.longName], o.v)];
      var rest := DefaultLog(com.options[n + 1..], at);
      assert com.options[n..][1..] == com.options[n + 1..];
      var log := head + rest;
      assert log == DefaultLog(com.options[n..], at);
      if !o.required {
        var w := head[0];
        assert w.place[..|w.place| - 1] == at;
        assert Defaults(com, o.longName, o.v);
        assert log[0].place == at + [o.longName];
      }
      forall i | n < i < |com.options| && !com.options[i].required
        ensures Wrote(log, at + [com.options[i].longName])
      {
        WroteLater(head, rest, [], at + [com.options[i].longName]);
        assert head + rest + [] == log;
      }
    }
  }

  /** Every subcommand and every optional option of the tree is written. */
  ghost predicate Covered(com: Command, at: Place, log: seq<Write>) {
    && (forall q: Place :: IsCommand(com, at, q) && q != at ==> Wrote(log, q))
    && (forall q: Place, i :: IsCommand(com, at, q) ==> OptionCovered(Stands(com, at, q).value, q, i, log))
  }

  ghost predicate OptionCovered(c: Command, q: Place, i: int, log: seq<Write>) {
    0 <= i < |c.options| && !c.options[i].required ==> Wrote(log, q + [c.options[i].longName])
  }

  lemma CoveredLater(com: Command, at: Place, a: seq<Write>, b: seq<Write>, c: seq<Write>)
    requires Covered(com, at, b)
    ensures Covered(com, at, a + b + c)
  {
    forall q: Place | IsCommand(com, at, q) && q != at
      ensures Wrote(a + b + c, q)
    {
      WroteLater(a, b, c, q);
    }
    forall q: Place, i | IsCommand(com, at, q)
      ensures OptionCovered(Stands(com, at, q).value, q, i, a + b + c)
    {
      var o := Stands(com, at, q).value.options;
      assert OptionCovered(Stands(com, at, q).value, q, i, b);
      if 0 <= i < |o| && !o[i].required {
        WroteLater(a, b, c, q + [o[i].longName]);
      }
    }
  }

  /** The k-th child itself is deselected, and its tree is covered. */
  ghost predicate ChildCovered(com: Command, at: Place, k: int, log: seq<Write>) {
    0 <= k < |com.children| ==>
      && Wrote(log, at + [com.children[k].name])
      && Covered(com.children[k], at + [com.children[k].name], log)
  }

  lemma AllCovered(com: Command, at: Place, log: seq<Write>)
    requires LevelNamed(com)
    requires forall i :: OptionCovered(com, at, i, log)
    requires forall k :: ChildCovered(com, at, k, log)
    ensures Covered(com, at, log)
  {
    forall q: Place | IsCommand(com, at, q) && q != at
      ensures Wrote(log, q)
      ensures forall i :: OptionCovered(Stands(com, at, q).value, q, i, log)
    {
      var k := FindChild(com.children, q[|at|]);
      assert ChildCovered(com, at, k, log);
      StandsBelow(com.children[k], at + [com.children[k].name], q);
    }
  }

  lemma LiftDefaults(com: Command, at: Place, k: nat, log: seq<Write>)
    requires LevelNamed(com) && k < |com.children|
    requires AllDefaults(com.children[k], at + [com.children[k].name], log)
    ensures AllDefaults(com, at, log)
  {
    var below := at + [com.children[k].name];
    forall i | 0 <= i < |log|
      ensures IsDefault(com, at, log[i])
    {
      var w := log[i];
      assert IsDefault(com.children[k], below, w);
      if w.place != below && IsCommand(com.children[k], below, w.place) && w.value == Bool(false) {
        StandsBelow(com.children[k], below, w.place);
        StandsInChild(com, at, k, w.place);
      } else {
        StandsBelow(com.children[k], below, w.place[..|w.place| - 1]);
        StandsInChild(com, at, k, w.place[..|w.place| - 1]);
      }
    }
  }

  lemma {:induction false} PrefillGood(com: Command, at: Place)
    requires WellNamed(com)
    ensures AllDefaults(com, at, PrefillLog(com, at))
    ensures Covered(com, at, PrefillLog(com, at))
    decreases com, |com.children| + 1
  {
    var options, children := DefaultLog(com.options, at), ChildrenLog(com.children, at);
    var log := options + children;
    OptionDefaults(com, at, 0);
    assert com.options[0..] == com.options && com.children[0..] == com.children;
    ChildrenGood(com, at, 0);
    forall k
      ensures ChildCovered(com, at, k, children)
    {
    }
    forall i
      ensures OptionCovered(com, at, i, options)
    {
    }
    CombineCovered(com, at, options, children);
  }

  lemma CombineCovered(com: Command, at: Place, options: seq<Write>, children: seq<Write>)
    requires LevelNamed(com)
    requires forall i :: OptionCovered(com, at, i, options)
    requires forall k :: ChildCovered(com, at, k, children)
    ensures Covered(com, at, options + children)
  {
    var log := options + children;
    assert [] + options + children == log && options + children + [] == log;
    forall i
      ensures OptionCovered(com, at, i, log)
    {
      assert OptionCovered(com, at, i, options);
      if 0 <= i < |com.options| && !com.options[i].required {
        WroteLater([], options, children, at + [com.options[i].longName]);
      }
    }
    forall k
      ensures ChildCovered(com, at, k, log)
    {
      assert ChildCovered(com, at, k, children);
      if 0 <= k < |com.children| {
        WroteLater(options, children, [], at + [com.children[k].name]);
        CoveredLater(com.children[k], at + [com.children[k].name], options, children, []);
      }
    }
    AllCovered(com, at, log);
  }

  lemma {:induction false} ChildrenGood(com: Command, at: Place, n: nat)
    requires WellNamed(com) && n <= |com.children|
    ensures AllDefaults(com, at, ChildrenLog(com.children[n..], at))
    ensures forall k :: n <= k ==> ChildCovered(com, at, k, ChildrenLog(com.children[n..], at))
    decreases com, |com.children| - n
  {
    if n < |com.children| {
      var c := com.children[n];
      var below := at + [c.name];
      var head, own, rest := [Write(below, Bool(false))], PrefillLog(c, below), ChildrenLog(com.children[n + 1..], at);
      assert com.children[n..][1..] == com.children[n + 1..];
      var log := head + own + rest;
      assert log == ChildrenLog(com.children[n..], at);
      PrefillGood(c, below);
      ChildrenGood(com, at, n + 1);
      LiftDefaults(com, at, n, own);
      StandsInChild(com, at, n, below);
      assert IsDefault(com, at, head[0]);
      forall k | n <= k
        ensures ChildCovered(com, at, k, log)
      {
        if k == n {
          assert log[0].place == below;
          CoveredLater(c, below, head, own, rest);
        } else if k < |com.children| {
          assert ChildCovered(com, at, k, rest);
          assert head + own + rest + [] == log;
          WroteLater(head + own, rest, [], at + [com.children[k].name]);
          CoveredLater(com.children[k], at + [com.children[k].name], head + own, rest, []);
        }
      }
    }
  }

  // ----- What the store holds in the end -----

  ghost function FullLog(root: Command, at: Place, out: Outcome): seq<Write> {
    PrefillLog(root, at) + out.log
  }

  lemma {:induction false} CommandWrites(root: Command, at: Place, out: Outcome, q: Place, v: Value)
    requires WellNamed(root) && GoodOutcome(root, at, out) && IsCommand(root, at, q) && Write(q, v) in out.log
    ensures q <= out.chosen && v == Bool(true)
  {
    var i :| 0 <= i < |out.log| && out.log[i] == Write(q, v);
    assert OnTheWay(root, at, out.chosen, out.log[i]);
    if !(at <= q <= out.chosen && v == Bool(true)) {
      NotAnOption(root, at, q, q[..|q| - 1]);
      assert false;
    }
  }

  /** A command's place is not the place of an option. */
  lemma NotAnOption(root: Command, at: Place, q: Place, r: Place)
    requires WellNamed(root) && IsCommand(root, at, q) && q != [] && r == q[..|q| - 1] && IsCommand(root, at, r)
    ensures forall i :: 0 <= i < |Stands(root, at, r).value.options| ==>
              Stands(root, at, r).value.options[i].longName != q[|q| - 1]
  {
    forall i | 0 <= i < |Stands(root, at, r).value.options|
      ensures Stands(root, at, r).value.options[i].longName != q[|q| - 1]
    {
      OptionIsNoCommand(root, at, r, i);
      assert q == r + [q[|q| - 1]];
    }
  }

  lemma CommandDefault(root: Command, at: Place, q: Place, v: Value)
    requires WellNamed(root) && IsCommand(root, at, q) && Write(q, v) in PrefillLog(root, at)
    ensures v == Bool(false)
  {
    PrefillGood(root, at);
    var log := PrefillLog(root, at);
    var i :| 0 <= i < |log| && log[i] == Write(q, v);
    DefaultOfCommand(root, at, log[i]);
  }

  lemma DefaultOfCommand(root: Command, at: Place, w: Write)
    requires WellNamed(root) && IsDefault(root, at, w) && IsCommand(root, at, w.place)
    ensures w.value == Bool(false)
  {
    if w.value != Bool(false) {
      NotAnOption(root, at, w.place, w.place[..|w.place| - 1]);
      assert false;
    }
  }

  /** A command is flagged exactly when it lies on the chosen path. */
  lemma CommandFlag(root: Command, at: Place, out: Outcome, q: Place)
    requires WellNamed(root) && GoodOutcome(root, at, out) && IsCommand(root, at, q)
    ensures LastWrite(FullLog(root, at, out), q) == Some(Bool(q <= out.chosen))
  {
    var prefill := PrefillLog(root, at);
    LastWriteConcat(prefill, out.log, q);
    LastWriteOf(out.log, q);
    LastWriteOf(prefill, q);
    StandsBelow(root, at, q);
    if LastWrite(out.log, q).Some? {
      CommandWrites(root, at, out, q, LastWrite(out.log, q).value);
    } else {
      PrefillGood(root, at);
      CommandDefault(root, at, q, LastWrite(prefill, q).value);
    }
  }

  lemma OptionWrites(root: Command, at: Place, out: Outcome, r: Place, i: nat, v: Value)
    requires WellNamed(root) && GoodOutcome(root, at, out) && IsCommand(root, at, r)
    requires i < |Stands(root, at, r).value.options|
    requires Write(r + [Stands(root, at, r).value.options[i].longName], v) in out.log
    ensures r <= out.chosen && SameType(v, Stands(root, at, r).value.options[i].v)
  {
    var c := Stands(root, at, r).value;
    var p := r + [c.options[i].longName];
    assert p[..|p| - 1] == r && p[|p| - 1] == c.options[i].longName;
    OptionIsNoCommand(root, at, r, i);
    StandingNamed(root, at, r);
    var k :| 0 <= k < |out.log| && out.log[k] == Write(p, v);
    assert OnTheWay(root, at, out.chosen, out.log[k]);
    OffTheCommands(root, at, out.chosen, p);
  }

  lemma OffTheCommands(root: Command, at: Place, chosen: Place, p: Place)
    requires WellNamed(root) && IsCommand(root, at, chosen) && !IsCommand(root, at, p)
    ensures !(at <= p <= chosen)
  {
    if at <= p <= chosen {
      PrefixIsCommand(root, at, p, chosen);
      assert false;
    }
  }

  lemma OptionDefault(root: Command, at: Place, r: Place, i: nat, v: Value)
    requires WellNamed(root) && IsCommand(root, at, r) && i < |Stands(root, at, r).value.options|
    requires Write(r + [Stands(root, at, r).value.options[i].longName], v) in PrefillLog(root, at)
    ensures !Stands(root, at, r).value.options[i].required && v == Stands(root, at, r).value.options[i].v
  {
    var c := Stands(root, at, r).value;
    var p := r + [c.options[i].longName];
    assert p[..|p| - 1] == r && p[|p| - 1] == c.options[i].longName;
    OptionIsNoCommand(root, at, r, i);
    StandingNamed(root, at, r);
    PrefillGood(root, at);
    var log := PrefillLog(root, at);
    var k :| 0 <= k < |log| && log[k] == Write(p, v);
    assert IsDefault(root, at, log[k]);
  }

  /** What the store says about an option: of its type on the chosen path, untouched elsewhere. */
  ghost predicate OptionHeld(o: Opt, selected: bool, held: Option<Value>) {
    && (selected && held.Some? ==> SameType(held.value, o.v))
    && (selected && !o.required ==> held.Some?)
    && (!selected ==> held == if o.required then None else Some(o.v))
  }

  lemma OptionFlag(root: Command, at: Place, out: Outcome, r: Place, i: nat)
    requires WellNamed(root) && GoodOutcome(root, at, out) && IsCommand(root, at, r)
    requires i < |Stands(root, at, r).value.options|
    ensures var o := Stands(root, at, r).value.options[i];
            OptionHeld(o, r <= out.chosen, LastWrite(FullLog(root, at, out), r + [o.longName]))
  {
    var o := Stands(root, at, r).value.options[i];
    var p, prefill := r + [o.longName], PrefillLog(root, at);
    LastWriteConcat(prefill, out.log, p);
    LastWriteOf(out.log, p);
    LastWriteOf(prefill, p);
    PrefillGood(root, at);
    assert OptionCovered(Stands(root, at, r).value, r, i, prefill);
    if LastWrite(out.log, p).Some? {
      OptionWrites(root, at, out, r, i, LastWrite(out.log, p).value);
    }
    if LastWrite(prefill, p).Some? {
      OptionDefault(root, at, r, i, LastWrite(prefill, p).value);
    }
  }

  // ----- Known places -----

  /** The place of a command, or of an option of a command. */
  ghost predicate Known(root: Command, at: Place, p: Place) {
    || IsCommand(root, at, p)
    || (p != [] && IsCommand(root, at, p[..|p| - 1]) && HasOption(Stands(root, at, p[..|p| - 1]).value, p[|p| - 1]))
  }

  ghost predicate HasOption(c: Command, name: string) {
    exists i :: 0 <= i < |c.options| && c.options[i].longName == name
  }

  lemma KnownIsClean(root: Command, at: Place, p: Place)
    requires WellNamed(root) && CleanPlace(at) && Known(root, at, p)
    ensures CleanPlace(p)
  {
    if IsCommand(root, at, p) {
      CommandPlaceClean(root, at, p);
    } else {
      var r := p[..|p| - 1];
      CommandPlaceClean(root, at, r);
      StandingNamed(root, at, r);
      assert p == r + [p[|p| - 1]];
    }
  }

  lemma OnTheWayKnown(root: Command, at: Place, chosen: Place, w: Write)
    requires WellNamed(root) && IsCommand(root, at, chosen) && OnTheWay(root, at, chosen, w)
    ensures Known(root, at, w.place)
  {
    if at <= w.place <= chosen {
      PrefixIsCommand(root, at, w.place, chosen);
    }
  }

  lemma DefaultKnown(root: Command, at: Place, w: Write)
    requires WellNamed(root) && IsDefault(root, at, w)
    ensures Known(root, at, w.place)
  {
  }

  lemma FullLogKnown(root: Command, at: Place, out: Outcome)
    requires WellNamed(root) && GoodOutcome(root, at, out)
    ensures forall i :: 0 <= i < |FullLog(root, at, out)| ==> Known(root, at, FullLog(root, at, out)[i].place)
  {
    var prefill, log := PrefillLog(root, at), FullLog(root, at, out);
    PrefillGood(root, at);
    forall i | 0 <= i < |log|
      ensures Known(root, at, log[i].place)
    {
      if i < |prefill| {
        assert log[i] == prefill[i];
        DefaultKnown(root, at, prefill[i]);
      } else {
        assert log[i] == out.log[i - |prefill|];
        OnTheWayKnown(root, at, out.chosen, out.log[i - |prefill|]);
      }
    }
  }
}
