/**
  Where the promises of the parser end: trees with a nameless root, whose keys validate gets wrong.

  Below a named child it does not find a flag that parse has set. At a nameless child it mistakes the
  root's keys for the child's, and may let a missing option pass.
  */
module CommandLineNameless {
  import opened Options
  import opened CommandLine
  import opened CommandLineKeys
  import opened CommandLineLogs
  import opened CommandLineValidation
  import opened CommandLineTheorems
  import opened CommandLineGrammar
  import opened CommandLineReading
  import opened CommandLineRoundTrip
  import opened CommandLinePlain

  // ----- A flag that is not found -----

  /** No settings, down to where the parser stops by itself. */
  function Onward(com: Command): Invocation
    decreases com
  {
    var m := FindImplicit(com.children);
    if m < |com.children| then Below([], Named, m, Onward(com.children[m])) else Here([], false, [])
  }

  lemma {:induction false} OnwardSayable(num: Numbers, com: Command)
    ensures Descends(com, Onward(com)) && Sayable(num, com, Onward(com))
    decreases com
  {
    var m := FindImplicit(com.children);
    if m < |com.children| {
      OnwardSayable(num, com.children[m]);
    }
  }

  /** The root's settings can be written and make it complete. */
  ghost predicate Settled(num: Numbers, root: Command, settings: seq<Setting>) {
    && Fitting(root, settings) && AllFit(num, root, settings) && (HasBareFlag(settings) ==> Wordless(root))
    && forall i :: 0 <= i < |root.options| && root.options[i].required ==> IsSet(settings, i)
  }

  /** Down to a child, and onward. */
  function Towards(root: Command, settings: seq<Setting>, k: nat): Invocation
    requires k < |root.children|
  {
    Below(settings, Named, k, Onward(root.children[k]))
  }

  lemma TowardsLegible(num: Numbers, root: Command, settings: seq<Setting>, k: nat)
    requires WellNamed(root) && Plain(root) && Settled(num, root, settings) && k < |root.children|
    ensures Legible(num, root, Towards(root, settings, k))
  {
    OnwardSayable(num, root.children[k]);
    LegibleIf(num, root, Towards(root, settings, k));
  }

  lemma {:induction false} OnwardLeaves(com: Command)
    requires Descends(com, Onward(com))
    ensures LeftOver(com, Onward(com)) == []
    decreases com
  {
    var m := FindImplicit(com.children);
    if m < |com.children| {
      OnwardLeaves(com.children[m]);
    }
  }

  lemma TowardsTarget(root: Command, settings: seq<Setting>, k: nat)
    requires k < |root.children| && Descends(root, Towards(root, settings, k))
    ensures var target := Target(root, [""], Towards(root, settings, k));
            |target| >= 2 && target[1] == root.children[k].name
  {
    var c := root.children[k];
    TargetStands(c, [""] + [c.name], Onward(c));
  }

  lemma RootSettled(root: Command, inv: Invocation, out: Outcome)
    requires ProperTree(root) && Descends(root, inv) && GoodOutcome(root, [root.name], out)
    requires out.log == InvocationLog(root, [root.name], inv)
    requires forall i :: 0 <= i < |root.options| && root.options[i].required ==> IsSet(inv.settings, i)
    ensures forall i :: OptionThere(root, [root.name], i, StoreOf(root, out))
  {
    forall i
      ensures OptionThere(root, [root.name], i, StoreOf(root, out))
    {
      if 0 <= i < |root.options| && root.options[i].required {
        RootGiven(root, inv, out, i);
      }
    }
  }

  /** With the root's required options set, the name of such a child is all it takes. */
  lemma StumblesOver(num: Numbers, root: Command, program: string, settings: seq<Setting>,
                     k: nat)
    requires ProperTree(root) && Plain(root) && root.name == "" && Settled(num, root, settings)
    requires k < |root.children| && !HasRequired(root.children[k]) && root.children[k].children != []
    ensures Descends(root, Towards(root, settings, k))
    ensures FlagNotFound(num, root, [program] + Written(root, Towards(root, settings, k)))
  {
    var inv := Towards(root, settings, k);
    TowardsLegible(num, root, settings, k);
    TowardsTarget(root, settings, k);
    OnwardLeaves(root.children[k]);
    var args := [program] + Written(root, inv);
    assert args[1..] == Written(root, inv);
    InvocationRead(num, root, [""], inv, args, 1);
    CommandOutcomeGood(num, root, [""], args, 1);
    RootSettled(root, inv, CommandLog(num, root, [""], args, 1).value);
    ChildFound(root, k);
    BadFlagExactly(num, root, args);
  }

  lemma RootGiven(root: Command, inv: Invocation, out: Outcome, i: nat)
    requires ProperTree(root) && Descends(root, inv) && GoodOutcome(root, [root.name], out)
    requires out.log == InvocationLog(root, [root.name], inv)
    requires i < |root.options| && root.options[i].required && IsSet(inv.settings, i)
    ensures Join([root.name] + [root.options[i].longName]) in StoreOf(root, out)
  {
    var at, own := [root.name], SettingLog(root, [root.name], inv.settings);
    var p := at + [root.options[i].longName];
    var k :| 0 <= k < |inv.settings| && inv.settings[k].option == i;
    assert GivenLog(root, at, inv)[k] == own[k];
    assert GivenLog(root, at, inv)[k].place == p;
    LastWriteOf(GivenLog(root, at, inv), p);
    OptionAsGiven(root, inv, out, at, i);
  }

  /**
    If the names are plain and the root's required options can be set at all, then no argument list
    makes parse miss a flag if and only if the tree is sturdy.
    */
  lemma SturdyExactly(num: Numbers, root: Command, settings: seq<Setting>)
    requires ProperTree(root) && Plain(root) && Settled(num, root, settings)
    ensures Sturdy(root) <==> forall args :: !FlagNotFound(num, root, args)
  {
    if Sturdy(root) {
      forall args
        ensures !FlagNotFound(num, root, args)
      {
        NoBadFlag(num, root, args);
      }
    } else {
      var k :| 0 <= k < |root.children| && !SturdyChild(root.children[k]);
      StumblesOver(num, root, "", settings, k);
    }
  }

  const GRANDCHILD := Command("b", [], [], false, false)
  const CHILD := Command("a", [], [GRANDCHILD], false, false)
  const STUMBLING := Command("", [], [CHILD], false, false)

  /** For example, selecting the child "a" of a nameless root makes validate look for a flag "a.b". */
  lemma StumblingExample(num: Numbers)
    ensures ProperTree(STUMBLING) && FlagNotFound(num, STUMBLING, ["program", "a"])
  {
    StumblingTree();
    StumblingPlain();
    StumblingWritten();
    StumblesOver(num, STUMBLING, "program", [], 0);
  }

  lemma StumblingTree()
    ensures ProperTree(STUMBLING)
  {
    assert WellNamed(GRANDCHILD);
    assert WellNamed(CHILD);
  }

  lemma StumblingPlain()
    ensures Plain(STUMBLING)
  {
    assert Plain(GRANDCHILD);
    assert Plain(CHILD);
  }

  lemma StumblingWritten()
    ensures var inv := Towards(STUMBLING, [], 0);
            Descends(STUMBLING, inv) && ["program"] + Written(STUMBLING, inv) == ["program", "a"]
  {
    assert Onward(CHILD) == Here([], false, []);
    assert Tokens(CHILD, []) == [] && Tokens(STUMBLING, []) == [];
    assert Written(CHILD, Here([], false, [])) == [];
  }

  // ----- A missing option that passes -----

  /** The parse succeeds although a required option of a selected command is not there. */
  ghost predicate Slips(num: Numbers, root: Command, args: seq<string>) {
    && Parsed(num, root, args).Ok? && Parsed(num, root, args).value.Some?
    && var out := CommandLog(num, root, [root.name], args, 1).value;
    !RequiredThere(root, [root.name], out.chosen, Parsed(num, root, args).value.value.values)
  }

  /** An option or a child of the root has that name. */
  ghost predicate AtRoot(root: Command, name: string) {
    HasOption(root, name) || FindChild(root.children, name) < |root.children|
  }

  /** Every required option of the child has the name of something at the root. */
  ghost predicate Shadowed(root: Command, c: Command) {
    forall i :: 0 <= i < |c.options| && c.options[i].required ==> AtRoot(root, c.options[i].longName)
  }

  /** A leaf, which the token "--" selects under a nameless root and which can then stand alone. */
  ghost predicate NamelessLeaf(c: Command) {
    c.name == "" && c.children == [] && !HasOption(c, "")
  }

  /** A key at the root's level is there only for something at the root. */
  lemma RootKey(root: Command, out: Outcome, name: string)
    requires ProperTree(root) && root.name == "" && GoodOutcome(root, [""], out) && DotFree(name)
    requires "" + "." + name in StoreOf(root, out)
    ensures AtRoot(root, name)
  {
    var key := "" + "." + name;
    var log, p := FullLog(root, [""], out), ["", name];
    assert p[..1] == [""] && Join(p) == key;
    AppliedKeys(log, key);
    var i :| 0 <= i < |log| && Join(log[i].place) == key;
    FullLogKnown(root, [""], out);
    KnownIsClean(root, [""], log[i].place);
    assert CleanPlace(p);
    JoinInjective(log[i].place, p);
    if IsCommand(root, [""], p) {
      StandsInList(root, p);
    }
  }

  lemma LeafOptionDotFree(root: Command, k: nat, i: nat)
    requires WellNamed(root) && k < |root.children| && i < |root.children[k].options|
    ensures DotFree(root.children[k].options[i].longName)
  {
    assert WellNamed(root.children[k]);
  }

  /** At a nameless leaf, validate has looked up the names at the root. */
  lemma LeafPassed(root: Command, out: Outcome, k: nat, i: nat)
    requires ProperTree(root) && root.name == "" && k < |root.children| && NamelessLeaf(root.children[k])
    requires GoodOutcome(root, [""], out) && ["", ""] <= out.chosen && Validated(root, "", StoreOf(root, out)).Ok?
    requires i < |root.children[k].options| && root.children[k].options[i].required
    ensures AtRoot(root, root.children[k].options[i].longName)
  {
    var c, values := root.children[k], StoreOf(root, out);
    StoreFlags(root, out);
    ChildFound(root, k);
    StandsBelow(root, [""], out.chosen);
    assert root.children[0..] == root.children;
    NamelessChildren(root, out.chosen, values, 0);
    assert Validated(c, "", values).Ok?;
    OptionsChecked(c.options, "", values, i);
    LeafOptionDotFree(root, k, i);
    RootKey(root, out, c.options[i].longName);
  }

  /** A nameless leaf passes only if everything it requires has a namesake at the root. */
  lemma SlipsOnlyIfShadowed(num: Numbers, root: Command, args: seq<string>, k: nat)
    requires ProperTree(root) && root.name == "" && k < |root.children| && NamelessLeaf(root.children[k])
    requires Slips(num, root, args)
    ensures HasRequired(root.children[k]) && Shadowed(root, root.children[k])
  {
    var c, out := root.children[k], CommandLog(num, root, [""], args, 1).value;
    CommandOutcomeGood(num, root, [""], args, 1);
    var i := SlipsAtLeaf(root, out, k);
    assert c.options[i].required;
    forall j | 0 <= j < |c.options| && c.options[j].required
      ensures AtRoot(root, c.options[j].longName)
    {
      LeafPassed(root, out, k, j);
    }
  }

  lemma SlipsAtLeaf(root: Command, out: Outcome, k: nat) returns (i: nat)
    requires ProperTree(root) && root.name == "" && k < |root.children| && NamelessLeaf(root.children[k])
    requires GoodOutcome(root, [""], out) && Validated(root, "", StoreOf(root, out)).Ok?
    requires !RequiredThere(root, [""], out.chosen, StoreOf(root, out))
    ensures ["", ""] <= out.chosen && i < |root.children[k].options| && root.children[k].options[i].required
  {
    var values := StoreOf(root, out);
    var q: Place, j :|
      IsCommand(root, [""], q) && q <= out.chosen && !OptionThere(Stands(root, [""], q).value, q, j, values);
    if !(["", ""] <= q) {
      RequiredChecked(root, out, q, j);
      assert false;
    }
    LeafStands(root, k, q);
    i := j;
  }

  lemma LeafStands(root: Command, k: nat, r: Place)
    requires LevelNamed(root) && root.name == "" && k < |root.children| && NamelessLeaf(root.children[k])
    requires IsCommand(root, [""], r) && ["", ""] <= r
    ensures r == ["", ""] && Stands(root, [""], r) == Some(root.children[k])
  {
    ChildFound(root, k);
    var below := [""] + [root.children[k].name];
    assert below == ["", ""];
    StandsInChild(root, [""], k, r);
  }

  // The parse of "--", which selects the nameless leaf.

  lemma DashesOutcome(num: Numbers, root: Command, program: string, k: nat)
    requires ProperTree(root) && root.name == "" && k < |root.children| && NamelessLeaf(root.children[k])
    ensures var parse := CommandLog(num, root, [""], [program, "--"], 1);
            parse.Ok? && parse.value.pos == 2 && parse.value.chosen == ["", ""]
    ensures var parse := CommandLog(num, root, [""], [program, "--"], 1);
            forall i :: 0 <= i < |parse.value.log| ==> parse.value.log[i].place in {[""], ["", ""]}
  {
    var args, c := [program, "--"], root.children[k];
    var t, u := Write([""], Bool(true)), Write(["", ""], Bool(true));
    NoOptionAt(num, c.options, ["", ""], args, 2);
    NoOptionAt(num, root.options, [""], args, 1);
    assert args[2..] == [];
    assert Continued(num, c, ["", ""], args, 2) == Ok(Outcome([], 2, [], ["", ""]));
    var inner := CommandLog(num, c, ["", ""], args, 2);
    assert inner == Ok(Outcome([u] + [] + [] + [u], 2, [], ["", ""]));
    ChildFound(root, k);
    assert LookupToken("--") == "";
    assert [""] + [""] == ["", ""];
    assert Continued(num, root, [""], args, 1) == inner;
    var log := [t] + [] + inner.value.log + [t];
    assert CommandLog(num, root, [""], args, 1) == Ok(inner.value.(log := log));
    assert log == [t, u, u, t];
  }

  /** Neither the dashes nor the end of the tokens is an option. */
  lemma NoOptionAt(num: Numbers, options: seq<Opt>, at: Place, args: seq<string>, pos: nat)
    requires pos <= |args| && (TokenAt(args, pos) == "--" || TokenAt(args, pos) == "")
    requires forall i :: 0 <= i < |options| ==> options[i].longName != ""
    ensures OptionLog(num, options, at, args, pos) == Ok(([], pos))
  {
    var token := TokenAt(args, pos);
    if token == "--" {
      assert IndexOf(token, '=') == 2;
      assert token[2..] == "";
    }
    assert AsOption(token) == OptionToken("", None);
    assert FindOption(options, "") == None;
  }

  /** What that parse stores: everything at the root, nothing for the required options of the leaf. */
  lemma DashesStore(root: Command, out: Outcome, name: string)
    requires ProperTree(root) && root.name == "" && GoodOutcome(root, [""], out) && DotFree(name)
    requires !HasRequired(root) && AtRoot(root, name)
    ensures "" + "." + name in StoreOf(root, out)
  {
    var p := ["", name];
    assert p[..1] == [""] && Join(p) == "" + "." + name;
    assert [""] + [name] == p;
    if HasOption(root, name) {
      var i :| 0 <= i < |root.options| && root.options[i].longName == name;
      StoreOption(root, out, [""], i);
      StandsBelow(root, [""], out.chosen);
    } else {
      var k := FindChild(root.children, name);
      StoreFlags(root, out);
      StandsInChild(root, [""], k, p);
      assert IsCommand(root, [""], p);
    }
  }

  lemma {:induction false} OptionsFound(c: Command, values: Values, n: nat)
    requires n <= |c.options|
    requires forall i :: 0 <= i < |c.options| && c.options[i].required ==> "" + "." + c.options[i].longName in values
    ensures CheckOptions(c.options[n..], "", values).Ok?
    decreases |c.options| - n
  {
    if n < |c.options| {
      assert c.options[n..][1..] == c.options[n + 1..];
      OptionsFound(c, values, n + 1);
    }
  }

  lemma LeafFound(root: Command, out: Outcome, k: nat)
    requires ProperTree(root) && root.name == "" && k < |root.children| && GoodOutcome(root, [""], out)
    requires !HasRequired(root) && Shadowed(root, root.children[k])
    ensures CheckOptions(root.children[k].options, "", StoreOf(root, out)).Ok?
  {
    var c, values := root.children[k], StoreOf(root, out);
    forall i | 0 <= i < |c.options| && c.options[i].required
      ensures "" + "." + c.options[i].longName in values
    {
      LeafOptionDotFree(root, k, i);
      DashesStore(root, out, c.options[i].longName);
    }
    assert c.options[0..] == c.options;
    OptionsFound(c, values, 0);
  }

  lemma DashesValidated(root: Command, out: Outcome, k: nat)
    requires ProperTree(root) && root.name == "" && k < |root.children| && NamelessLeaf(root.children[k])
    requires GoodOutcome(root, [""], out) && out.chosen == ["", ""]
    requires !HasRequired(root) && Shadowed(root, root.children[k])
    ensures Validated(root, "", StoreOf(root, out)).Ok?
  {
    var values := StoreOf(root, out);
    LeafFound(root, out, k);
    StoreFlags(root, out);
    ChildFound(root, k);
    assert root.children[0..] == root.children;
    RootOptions(root, values);
    NamelessChildren(root, out.chosen, values, 0);
  }

  /** The required options of the leaf are written by nobody. */
  lemma DashesMiss(root: Command, out: Outcome, k: nat, i: nat)
    requires ProperTree(root) && root.name == "" && k < |root.children| && NamelessLeaf(root.children[k])
    requires GoodOutcome(root, [""], out) && i < |root.children[k].options| && root.children[k].options[i].required
    requires forall j :: 0 <= j < |out.log| ==> out.log[j].place in {[""], ["", ""]}
    ensures Join(["", ""] + [root.children[k].options[i].longName]) !in StoreOf(root, out)
  {
    var o, q := root.children[k].options[i], ["", ""];
    var p, prefill := q + [o.longName], PrefillLog(root, [""]);
    ChildFound(root, k);
    assert [""] + [root.children[k].name] == q;
    StandsInChild(root, [""], k, q);
    LeafStands(root, k, q);
    assert p[..|p| - 1] == q && HasOption(root.children[k], o.longName);
    LogClean(root, out);
    KnownIsClean(root, [""], p);
    StoreRemembers(FullLog(root, [""], out), p);
    LastWriteConcat(prefill, out.log, p);
    LastWriteOf(out.log, p);
    PrefilledWith(root, [""], q, i);
  }

  lemma SlipsIfShadowed(num: Numbers, root: Command, program: string, k: nat)
    requires ProperTree(root) && root.name == "" && k < |root.children| && NamelessLeaf(root.children[k])
    requires !HasRequired(root) && HasRequired(root.children[k]) && Shadowed(root, root.children[k])
    ensures Slips(num, root, [program, "--"])
  {
    var args, c := [program, "--"], root.children[k];
    DashesOutcome(num, root, program, k);
    var out := CommandLog(num, root, [""], args, 1).value;
    CommandOutcomeGood(num, root, [""], args, 1);
    DashesValidated(root, out, k);
    var i :| 0 <= i < |c.options| && c.options[i].required;
    DashesMiss(root, out, k, i);
    ChildFound(root, k);
    assert [""] + [c.name] == ["", ""];
    StandsInChild(root, [""], k, ["", ""]);
    LeafStands(root, k, ["", ""]);
    assert !OptionThere(c, ["", ""], i, StoreOf(root, out));
  }

  /**
    For a nameless root that requires nothing itself, with a nameless leaf: some argument list lets a
    missing option pass if and only if the leaf requires something, and nothing without a namesake at
    the root.
    */
  lemma SlipsExactly(num: Numbers, root: Command, k: nat)
    requires ProperTree(root) && root.name == "" && k < |root.children| && NamelessLeaf(root.children[k])
    requires !HasRequired(root)
    ensures (exists args :: Slips(num, root, args)) <==>
            HasRequired(root.children[k]) && Shadowed(root, root.children[k])
  {
    if args :| Slips(num, root, args) {
      SlipsOnlyIfShadowed(num, root, args, k);
    }
    if HasRequired(root.children[k]) && Shadowed(root, root.children[k]) {
      SlipsIfShadowed(num, root, "", k);
    }
  }

  lemma DescribedThere(root: Command, chosen: Place, values: Values)
    requires Describes(root, chosen, values) && (root.name != "" || ChildrenNamed(root))
    ensures RequiredThere(root, [root.name], chosen, values)
  {
    var at := [root.name];
    forall q: Place, i | IsCommand(root, at, q) && q <= chosen
      ensures OptionThere(Stands(root, at, q).value, q, i, values)
    {
      assert OptionDescribed(Stands(root, at, q).value, q, i, chosen, values);
      NotNameless(root, q);
    }
  }

  lemma NotNameless(root: Command, q: Place)
    requires IsCommand(root, [root.name], q) && (root.name != "" || ChildrenNamed(root))
    ensures !(["", ""] <= q)
  {
    StandsBelow(root, [root.name], q);
    if |q| >= 2 {
      StandsInList(root, q);
      assert root.name != "" || q[1] != "";
      assert q[0] == root.name;
    }
  }

  /** Everywhere else nothing slips: the root is named, or no nameless child is selected. */
  lemma NothingSlips(num: Numbers, root: Command, args: seq<string>)
    requires ProperTree(root) && (root.name != "" || ChildrenNamed(root))
    ensures !Slips(num, root, args)
  {
    if Parsed(num, root, args).Ok? && Parsed(num, root, args).value.Some? {
      var chosen := ParseDescribes(num, root, args);
      DescribedThere(root, chosen, Parsed(num, root, args).value.value.values);
    }
  }
}
