/**
  What the program gets to see of a command line: the flag store that parse returns, for every
  invocation that can be written.
  */
module CommandLineRoundTrip {
  import opened Options
  import opened CommandLine
  import opened CommandLineKeys
  import opened CommandLineLogs
  import opened CommandLineValidation
  import opened CommandLineTheorems
  import opened CommandLineGrammar
  import opened CommandLineReading

  // ----- What is meant -----

  /** The settings, in order, as writes to places. */
  ghost function GivenLog(com: Command, at: Place, inv: Invocation): seq<Write>
    requires Descends(com, inv)
    decreases inv
  {
    SettingLog(com, at, inv.settings) +
    if inv.Here? then [] else
    GivenLog(com.children[inv.child], at + [com.children[inv.child].name], inv.next)
  }

  ghost predicate IsSet(settings: seq<Setting>, i: nat) {
    exists k :: 0 <= k < |settings| && settings[k].option == i
  }

  /** Every required option on the way down is set. */
  ghost predicate Complete(com: Command, inv: Invocation)
    decreases inv
  {
    && (forall i :: 0 <= i < |com.options| && com.options[i].required ==> IsSet(inv.settings, i))
    && (inv.Below? && inv.child < |com.children| ==> Complete(com.children[inv.child], inv.next))
  }

  // ----- What the store holds -----

  /** Away from the commands, only the settings matter. */
  lemma {:induction false} OnlySettings(com: Command, at: Place, inv: Invocation, p: Place)
    requires WellNamed(com) && Descends(com, inv) && !IsCommand(com, at, p)
    ensures LastWrite(InvocationLog(com, at, inv), p) == LastWrite(GivenLog(com, at, inv), p)
    decreases inv
  {
    var w := Write(at, Bool(true));
    var own := SettingLog(com, at, inv.settings);
    var inner, given: seq<Write> := [], [];
    if inv.Below? {
      var c := com.children[inv.child];
      var below := at + [c.name];
      inner, given := InvocationLog(c, below, inv.next), GivenLog(c, below, inv.next);
      if IsCommand(c, below, p) {
        StandsBelow(c, below, p);
        StandsInChild(com, at, inv.child, p);
        assert false;
      }
      OnlySettings(c, below, inv.next, p);
    }
    var again := if LeftOver(com, inv) == [] then [w] else [];
    LastWriteConcat([w] + own + inner, again, p);
    LastWriteConcat([w] + own, inner, p);
    LastWriteConcat([w], own, p);
    LastWriteConcat(own, given, p);
  }

  lemma {:induction false} TargetStands(com: Command, at: Place, inv: Invocation)
    requires Descends(com, inv)
    ensures at <= Target(com, at, inv)
    decreases inv
  {
    if inv.Below? {
      TargetStands(com.children[inv.child], at + [com.children[inv.child].name], inv.next);
    }
  }

  /** A required option on the way is given by the invocation. */
  lemma {:induction false} RequiredGiven(com: Command, at: Place, inv: Invocation, r: Place, i: nat)
    requires WellNamed(com) && Descends(com, inv) && Complete(com, inv)
    requires IsCommand(com, at, r) && r <= Target(com, at, inv)
    requires i < |Stands(com, at, r).value.options| && Stands(com, at, r).value.options[i].required
    ensures Wrote(GivenLog(com, at, inv), r + [Stands(com, at, r).value.options[i].longName])
    decreases inv
  {
    var own := SettingLog(com, at, inv.settings);
    StandsBelow(com, at, r);
    if r == at {
      assert IsSet(inv.settings, i);
      var k :| 0 <= k < |inv.settings| && inv.settings[k].option == i;
      assert GivenLog(com, at, inv)[k] == own[k];
      assert GivenLog(com, at, inv)[k].place == r + [com.options[i].longName];
    } else {
      var c := com.children[inv.child];
      var below := at + [c.name];
      TargetStands(c, below, inv.next);
      assert below <= r;
      StandsInChild(com, at, inv.child, r);
      RequiredGiven(c, below, inv.next, r, i);
      var p := r + [Stands(com, at, r).value.options[i].longName];
      WroteLater(own, GivenLog(c, below, inv.next), [], p);
      assert own + GivenLog(c, below, inv.next) + [] == GivenLog(com, at, inv);
    }
  }

  /** The last value given to the option, or else its default. */
  ghost predicate AsGiven(root: Command, inv: Invocation, values: Values, c: Command, q: Place, i: int)
    requires Descends(root, inv)
  {
    0 <= i < |c.options| ==>
      var p := q + [c.options[i].longName];
      var given := LastWrite(GivenLog(root, [root.name], inv), p);
      Lookup(values, Join(p)) ==
      if given.Some? then given else if c.options[i].required then None else Some(c.options[i].v)
  }

  ghost predicate AllAsGiven(root: Command, inv: Invocation, values: Values)
    requires Descends(root, inv)
  {
    forall q: Place, i :: IsCommand(root, [root.name], q) ==>
      AsGiven(root, inv, values, Stands(root, [root.name], q).value, q, i)
  }

  lemma OptionAsGiven(root: Command, inv: Invocation, out: Outcome, q: Place, i: nat)
    requires ProperTree(root) && Descends(root, inv) && GoodOutcome(root, [root.name], out)
    requires out.log == InvocationLog(root, [root.name], inv)
    requires IsCommand(root, [root.name], q) && i < |Stands(root, [root.name], q).value.options|
    ensures AsGiven(root, inv, StoreOf(root, out), Stands(root, [root.name], q).value, q, i)
  {
    var at := [root.name];
    var o := Stands(root, at, q).value.options[i];
    var p, prefill := q + [o.longName], PrefillLog(root, at);
    LogClean(root, out);
    assert p[..|p| - 1] == q;
    assert HasOption(Stands(root, at, q).value, o.longName);
    KnownIsClean(root, at, p);
    StoreRemembers(FullLog(root, at, out), p);
    OptionIsNoCommand(root, at, q, i);
    OnlySettings(root, at, inv, p);
    LastWriteConcat(prefill, out.log, p);
    PrefilledWith(root, at, q, i);
  }

  /** The defaults give an option its own default, unless it is required. */
  lemma PrefilledWith(root: Command, at: Place, q: Place, i: nat)
    requires WellNamed(root) && IsCommand(root, at, q) && i < |Stands(root, at, q).value.options|
    ensures var o := Stands(root, at, q).value.options[i];
            LastWrite(PrefillLog(root, at), q + [o.longName]) == if o.required then None else Some(o.v)
  {
    var o := Stands(root, at, q).value.options[i];
    var p, prefill := q + [o.longName], PrefillLog(root, at);
    LastWriteOf(prefill, p);
    PrefillGood(root, at);
    assert OptionCovered(Stands(root, at, q).value, q, i, prefill);
    if LastWrite(prefill, p).Some? {
      OptionDefault(root, at, q, i, LastWrite(prefill, p).value);
    }
  }

  lemma AllThere(root: Command, inv: Invocation, values: Values)
    requires WellNamed(root) && Descends(root, inv) && Complete(root, inv)
    requires AllAsGiven(root, inv, values)
    ensures RequiredThere(root, [root.name], Target(root, [root.name], inv), values)
  {
    var at := [root.name];
    forall r: Place, i | IsCommand(root, at, r) && r <= Target(root, at, inv)
      ensures OptionThere(Stands(root, at, r).value, r, i, values)
    {
      var c := Stands(root, at, r).value;
      assert AsGiven(root, inv, values, c, r, i);
      if 0 <= i < |c.options| && c.options[i].required {
        RequiredGiven(root, at, inv, r, i);
        LastWriteOf(GivenLog(root, at, inv), r + [c.options[i].longName]);
      }
    }
  }

  // ----- Complete if nothing is missing -----

  lemma {:induction false} GivenDeep(com: Command, at: Place, inv: Invocation, k: nat)
    requires Descends(com, inv) && k < |GivenLog(com, at, inv)|
    ensures |GivenLog(com, at, inv)[k].place| > |at|
    decreases inv
  {
    if k >= |inv.settings| {
      var c := com.children[inv.child];
      GivenDeep(c, at + [c.name], inv.next, k - |inv.settings|);
    }
  }

  ghost predicate GivenAt(c: Command, r: Place, i: int, log: seq<Write>) {
    0 <= i < |c.options| && c.options[i].required ==> Wrote(log, r + [c.options[i].longName])
  }

  ghost predicate AllGiven(com: Command, at: Place, chosen: Place, log: seq<Write>) {
    forall r: Place, i :: IsCommand(com, at, r) && r <= chosen ==> GivenAt(Stands(com, at, r).value, r, i, log)
  }

  /** What is written for an option of the command itself comes from a setting of it. */
  lemma OwnGiven(com: Command, at: Place, inv: Invocation, i: nat)
    requires LevelNamed(com) && Descends(com, inv) && i < |com.options|
    requires Wrote(GivenLog(com, at, inv), at + [com.options[i].longName])
    ensures IsSet(inv.settings, i)
  {
    var p := at + [com.options[i].longName];
    var k :| 0 <= k < |GivenLog(com, at, inv)| && GivenLog(com, at, inv)[k].place == p;
    if k >= |inv.settings| {
      var c := com.children[inv.child];
      GivenDeep(c, at + [c.name], inv.next, k - |inv.settings|);
      assert false;
    }
    var j := inv.settings[k].option;
    assert p[|at|] == com.options[j].longName;
    assert i == j;
  }

  /** What is written further down comes from further down. */
  lemma InnerGiven(com: Command, at: Place, inv: Invocation, p: Place)
    requires Descends(com, inv) && inv.Below? && |p| > |at| + 1 && Wrote(GivenLog(com, at, inv), p)
    ensures var c := com.children[inv.child]; Wrote(GivenLog(c, at + [c.name], inv.next), p)
  {
    var c := com.children[inv.child];
    var own, inner := SettingLog(com, at, inv.settings), GivenLog(c, at + [c.name], inv.next);
    assert GivenLog(com, at, inv) == own + inner;
    WroteBehind(own, inner, p);
  }

  lemma WroteBehind(a: seq<Write>, b: seq<Write>, p: Place)
    requires Wrote(a + b, p) && forall i :: 0 <= i < |a| ==> |a[i].place| < |p|
    ensures Wrote(b, p)
  {
    var log := a + b;
    var k :| 0 <= k < |log| && log[k].place == p;
    assert k >= |a|;
    assert b[k - |a|] == log[k];
  }

  lemma AllGivenBelow(com: Command, at: Place, inv: Invocation)
    requires LevelNamed(com) && Descends(com, inv) && inv.Below?
    requires AllGiven(com, at, Target(com, at, inv), GivenLog(com, at, inv))
    ensures var c := com.children[inv.child];
            var below := at + [c.name];
            AllGiven(c, below, Target(c, below, inv.next), GivenLog(c, below, inv.next))
  {
    var c := com.children[inv.child];
    var below := at + [c.name];
    forall r: Place, i | IsCommand(c, below, r) && r <= Target(c, below, inv.next)
      ensures GivenAt(Stands(c, below, r).value, r, i, GivenLog(c, below, inv.next))
    {
      StandsBelow(c, below, r);
      StandsInChild(com, at, inv.child, r);
      assert GivenAt(Stands(com, at, r).value, r, i, GivenLog(com, at, inv));
      var options := Stands(c, below, r).value.options;
      if 0 <= i < |options| && options[i].required {
        InnerGiven(com, at, inv, r + [options[i].longName]);
      }
    }
  }

  lemma {:induction false} CompleteIf(com: Command, at: Place, inv: Invocation)
    requires WellNamed(com) && Descends(com, inv)
    requires AllGiven(com, at, Target(com, at, inv), GivenLog(com, at, inv))
    ensures Complete(com, inv)
    decreases inv
  {
    TargetStands(com, at, inv);
    forall i | 0 <= i < |com.options| && com.options[i].required
      ensures IsSet(inv.settings, i)
    {
      assert IsCommand(com, at, at);
      assert GivenAt(com, at, i, GivenLog(com, at, inv));
      OwnGiven(com, at, inv, i);
    }
    if inv.Below? {
      AllGivenBelow(com, at, inv);
      CompleteIf(com.children[inv.child], at + [com.children[inv.child].name], inv.next);
    }
  }

  lemma CompleteExactly(root: Command, inv: Invocation, values: Values)
    requires WellNamed(root) && Descends(root, inv)
    requires AllAsGiven(root, inv, values)
    ensures Complete(root, inv) <==> RequiredThere(root, [root.name], Target(root, [root.name], inv), values)
  {
    var at, log := [root.name], GivenLog(root, [root.name], inv);
    if Complete(root, inv) {
      AllThere(root, inv, values);
    }
    if RequiredThere(root, at, Target(root, at, inv), values) {
      forall r: Place, i | IsCommand(root, at, r) && r <= Target(root, at, inv)
        ensures GivenAt(Stands(root, at, r).value, r, i, log)
      {
        var c := Stands(root, at, r).value;
        assert AsGiven(root, inv, values, c, r, i) && OptionThere(c, r, i, values);
        if 0 <= i < |c.options| {
          LastWriteOf(log, r + [c.options[i].longName]);
        }
      }
      CompleteIf(root, at, inv);
    }
  }

  // ----- The theorems -----

  ghost predicate KeysKnown(root: Command, values: Values) {
    forall key :: key in values ==> exists p: Place :: Known(root, [root.name], p) && Join(p) == key
  }

  /** The store says what the invocation means, and nothing else. */
  ghost predicate Holds(root: Command, inv: Invocation, store: Store)
    requires Descends(root, inv)
  {
    var at := [root.name];
    && store.verbatim == PassedOn(root, inv)
    && Flagged(root, at, Target(root, at, inv), store.values)
    && AllAsGiven(root, inv, store.values)
    && KeysKnown(root, store.values)
  }

  lemma StoreHolds(root: Command, inv: Invocation, out: Outcome, end: nat)
    requires ProperTree(root) && Descends(root, inv) && GoodOutcome(root, [root.name], out)
    requires Means(root, [root.name], inv, end, out)
    ensures Holds(root, inv, Store(StoreOf(root, out), out.verbatim))
  {
    var at, values := [root.name], StoreOf(root, out);
    StoreFlags(root, out);
    forall q: Place, i | IsCommand(root, at, q)
      ensures AsGiven(root, inv, values, Stands(root, at, q).value, q, i)
    {
      if 0 <= i < |Stands(root, at, q).value.options| {
        OptionAsGiven(root, inv, out, q, i);
      }
    }
    forall key | key in values
      ensures exists p: Place :: Known(root, at, p) && Join(p) == key
    {
      KeyKnown(root, out, key);
    }
  }

  lemma OptionHeldAlike(root: Command, inv: Invocation, v: Values, w: Values, p: Place)
    requires Descends(root, inv) && AllAsGiven(root, inv, v) && AllAsGiven(root, inv, w)
    requires Known(root, [root.name], p) && !IsCommand(root, [root.name], p)
    ensures Lookup(v, Join(p)) == Lookup(w, Join(p))
  {
    var q := p[..|p| - 1];
    var c := Stands(root, [root.name], q).value;
    var i :| 0 <= i < |c.options| && c.options[i].longName == p[|p| - 1];
    assert p == q + [c.options[i].longName];
    assert AsGiven(root, inv, v, c, q, i) && AsGiven(root, inv, w, c, q, i);
  }

  lemma HeldAlike(root: Command, inv: Invocation, s: Store, t: Store, p: Place)
    requires Descends(root, inv) && Holds(root, inv, s) && Holds(root, inv, t) && Known(root, [root.name], p)
    ensures Lookup(s.values, Join(p)) == Lookup(t.values, Join(p))
  {
    if !IsCommand(root, [root.name], p) {
      OptionHeldAlike(root, inv, s.values, t.values, p);
    }
  }

  /** There is only one such store. */
  lemma HoldsOnce(root: Command, inv: Invocation, s: Store, t: Store)
    requires Descends(root, inv) && Holds(root, inv, s) && Holds(root, inv, t)
    ensures s == t
  {
    forall key
      ensures Lookup(s.values, key) == Lookup(t.values, key)
    {
      if key in s.values || key in t.values {
        var p: Place :| Known(root, [root.name], p) && Join(p) == key;
        HeldAlike(root, inv, s, t, p);
      }
    }
    LookedUpAlike(s.values, t.values);
  }

  lemma LookedUpAlike(v: Values, w: Values)
    requires forall key :: Lookup(v, key) == Lookup(w, key)
    ensures v == w
  {
    forall key
      ensures key in v <==> key in w
      ensures key in v && key in w ==> v[key] == w[key]
    {
      assert Lookup(v, key) == Lookup(w, key);
    }
  }

  /** The argument list is a program's name and then the writing of the invocation. */
  ghost predicate Says(num: Numbers, root: Command, args: seq<string>, inv: Invocation)
    ensures Says(num, root, args, inv) ==> Descends(root, inv)
  {
    args != [] && Legible(num, root, inv) && args[1..] == Written(root, inv)
  }

  lemma Verdict(root: Command, inv: Invocation, out: Outcome, values: Values)
    requires ProperTree(root) && Descends(root, inv) && GoodOutcome(root, [root.name], out)
    requires out.chosen == Target(root, [root.name], inv) && values == StoreOf(root, out)
    requires RequiredThere(root, [root.name], out.chosen, values) && !(["", ""] <= out.chosen)
    ensures Accepted(root, inv) <==> Validated(root, "", values).Ok?
  {
    StoreFlags(root, out);
    TargetStands(root, [root.name], inv);
    if root.name != "" {
      NamedVerdict(root, out.chosen, values);
    } else {
      if inv.Below? {
        TargetStands(root.children[inv.child], [""] + [root.children[inv.child].name], inv.next);
        ChildFound(root, inv.child);
      }
      KeysOfNameless(root, out);
      NamelessVerdict(root, out.chosen, values);
      forall i
        ensures OptionThere(root, [""], i, values)
      {
        assert IsCommand(root, [""], [""]);
      }
    }
  }

  /** Whether validate will find what it looks for; with a nameless root it may not. */
  ghost predicate Accepted(root: Command, inv: Invocation) {
    || root.name != ""
    || inv.Here?
    || (inv.child < |root.children| && var c := root.children[inv.child]; !HasRequired(c) && c.children == [])
  }

  /**
    Parsing what was written for an invocation gives the store that says what it means. If the
    invocation is complete, this succeeds if and only if validate will find its keys; if it is not,
    and the root is named, the first option that is missing is named.
    */
  lemma RoundTrip(num: Numbers, root: Command, args: seq<string>, inv: Invocation) returns (store: Store)
    requires ProperTree(root) && Says(num, root, args, inv) && LeftOver(root, inv) == []
    ensures Holds(root, inv, store)
    ensures Parsed(num, root, args) == Ok(Some(store)) || Parsed(num, root, args).Err?
    ensures Complete(root, inv) && !(["", ""] <= Target(root, [root.name], inv)) ==>
              (Accepted(root, inv) <==> Parsed(num, root, args) == Ok(Some(store)))
    ensures root.name != "" && !Complete(root, inv) ==>
              && Parsed(num, root, args).Err?
              && var e, at := Parsed(num, root, args).error, [root.name];
              exists r: Place, i :: FirstLacking(root, at, Target(root, at, inv), store.values, r, i, e)
  {
    var at := [root.name];
    InvocationRead(num, root, at, inv, args, 1);
    var out := CommandLog(num, root, at, args, 1).value;
    CommandOutcomeGood(num, root, at, args, 1);
    StoreHolds(root, inv, out, |args|);
    store := Store(StoreOf(root, out), out.verbatim);
    CompleteExactly(root, inv, store.values);
    TargetStands(root, at, inv);
    if Complete(root, inv) && !(["", ""] <= out.chosen) {
      Verdict(root, inv, out, store.values);
    } else if root.name != "" {
      NamedVerdict(root, out.chosen, store.values);
    }
  }

  /** validate has errors of its own. */
  lemma {:induction false} ValidateErrors(com: Command, prefix: string, values: Values)
    ensures Validated(com, prefix, values) != Err(ParserError)
    decreases com, 1
  {
    var key := if prefix == "" then com.name else prefix + "." + com.name;
    CheckErrors(com.options, key, values);
    ValidateChildrenErrors(com.children, key, values);
  }

  lemma {:induction false} ValidateChildrenErrors(children: seq<Command>, key: string, values: Values)
    ensures ValidatedChildren(children, key, values) != Err(ParserError)
    decreases children, 0
  {
    if children != [] {
      ValidateErrors(children[0], key, values);
      ValidateChildrenErrors(children[1..], key, values);
    }
  }

  /**
    For every command tree and every argument list: a parser error means that the list says nothing,
    and an empty result that it says something and goes on.
    */
  lemma RefusesExactly(num: Numbers, root: Command, args: seq<string>)
    ensures Parsed(num, root, args) == Err(ParserError) <==> !exists inv :: Says(num, root, args, inv)
    ensures Parsed(num, root, args) == Ok(None) <==>
              exists inv :: Says(num, root, args, inv) && LeftOver(root, inv) != []
  {
    var at := [root.name];
    if args != [] {
      var parse := CommandLog(num, root, at, args, 1);
      if parse.Ok? {
        var inv := InvocationWritten(num, root, at, args, 1);
        assert Says(num, root, args, inv);
        InvocationRead(num, root, at, inv, args, 1);
        ValidateErrors(root, "", StoreOf(root, parse.value));
      } else {
        CommandErrors(num, root, at, args, 1);
      }
      forall inv | Says(num, root, args, inv)
        ensures parse.Ok? && Means(root, at, inv, |args|, parse.value)
      {
        InvocationRead(num, root, at, inv, args, 1);
      }
    }
  }

  /** The argument list says all that is needed and no more, and the store says what that means. */
  ghost predicate Tells(num: Numbers, root: Command, args: seq<string>, inv: Invocation, store: Store) {
    Says(num, root, args, inv) && LeftOver(root, inv) == [] && Complete(root, inv) && Holds(root, inv, store)
  }

  lemma ParsedTells(num: Numbers, root: Command, args: seq<string>, store: Store) returns (inv: Invocation)
    requires ProperTree(root) && root.name != "" && Parsed(num, root, args) == Ok(Some(store))
    ensures Tells(num, root, args, inv, store)
  {
    RefusesExactly(num, root, args);
    inv :| Says(num, root, args, inv);
    var same := RoundTrip(num, root, args, inv);
  }

  lemma TellsParsed(num: Numbers, root: Command, args: seq<string>, inv: Invocation, store: Store)
    requires ProperTree(root) && root.name != "" && Tells(num, root, args, inv, store)
    ensures Parsed(num, root, args) == Ok(Some(store))
  {
    var same := RoundTrip(num, root, args, inv);
    TargetStands(root, [root.name], inv);
    assert Target(root, [root.name], inv)[0] == root.name;
    HoldsOnce(root, inv, store, same);
  }

  /**
    For every proper tree with a named root: parse succeeds if and only if the argument list says an
    invocation that is complete and leaves nothing over, and the store says what that means.
    */
  lemma ParsesExactly(num: Numbers, root: Command, args: seq<string>, store: Store)
    requires ProperTree(root) && root.name != ""
    ensures Parsed(num, root, args) == Ok(Some(store)) <==> exists inv :: Tells(num, root, args, inv, store)
  {
    if Parsed(num, root, args) == Ok(Some(store)) {
      var inv := ParsedTells(num, root, args, store);
    }
    if inv :| Tells(num, root, args, inv, store) {
      TellsParsed(num, root, args, inv, store);
    }
  }
}
