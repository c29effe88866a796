/** What a parse means, for every command tree with unique, dot-free names and every argument list. */
module CommandLineTheorems {
  import opened Options
  import opened CommandLine
  import opened CommandLineKeys
  import opened CommandLineLogs
  import opened CommandLineValidation

  ghost predicate ProperTree(root: Command) {
    WellNamed(root) && DotFree(root.name)
  }

  // ----- The store of a parse -----

  ghost function StoreOf(root: Command, out: Outcome): Values {
    Applied(map[], FullLog(root, [root.name], out))
  }

  lemma {:induction false} AppliedKeys(log: seq<Write>, key: string)
    requires key in Applied(map[], log)
    ensures exists i :: 0 <= i < |log| && Join(log[i].place) == key
    decreases |log|
  {
    var before, last := log[..|log| - 1], log[|log| - 1];
    if Join(last.place) == key {
      assert Join(log[|log| - 1].place) == key;
    } else {
      AppliedKeys(before, key);
      var i :| 0 <= i < |before| && Join(before[i].place) == key;
      assert Join(log[i].place) == key;
    }
  }

  lemma KnownBelow(root: Command, at: Place, p: Place)
    requires Known(root, at, p)
    ensures at <= p
  {
    if IsCommand(root, at, p) {
      StandsBelow(root, at, p);
    } else {
      StandsBelow(root, at, p[..|p| - 1]);
    }
  }

  lemma KeysOfNameless(root: Command, out: Outcome)
    requires ProperTree(root) && GoodOutcome(root, [root.name], out) && root.name == ""
    ensures DottedKeys(Applied(map[], FullLog(root, [root.name], out)))
  {
    var at := [root.name];
    var log := FullLog(root, at, out);
    FullLogKnown(root, at, out);
    forall key | key in Applied(map[], log) && key != ""
      ensures key[0] == '.'
    {
      AppliedKeys(log, key);
      var i :| 0 <= i < |log| && Join(log[i].place) == key;
      KnownBelow(root, at, log[i].place);
      JoinOfNameless(log[i].place);
    }
  }

  /** The store of a parse holds, place by place, what the log last wrote. */
  lemma StoreFlags(root: Command, out: Outcome)
    requires ProperTree(root) && GoodOutcome(root, [root.name], out)
    ensures Flagged(root, [root.name], out.chosen, Applied(map[], FullLog(root, [root.name], out)))
  {
    var at := [root.name];
    var log := FullLog(root, at, out);
    LogClean(root, out);
    forall q: Place | IsCommand(root, at, q)
      ensures Lookup(Applied(map[], log), Join(q)) == Some(Bool(q <= out.chosen))
    {
      CommandPlaceClean(root, at, q);
      StoreRemembers(log, q);
      CommandFlag(root, at, out, q);
    }
  }

  lemma LogClean(root: Command, out: Outcome)
    requires ProperTree(root) && GoodOutcome(root, [root.name], out)
    ensures CleanLog(FullLog(root, [root.name], out))
  {
    var at := [root.name];
    var log := FullLog(root, at, out);
    FullLogKnown(root, at, out);
    forall i | 0 <= i < |log|
      ensures CleanPlace(log[i].place)
    {
      KnownIsClean(root, at, log[i].place);
    }
  }

  lemma StoreOption(root: Command, out: Outcome, q: Place, i: nat)
    requires ProperTree(root) && GoodOutcome(root, [root.name], out)
    requires IsCommand(root, [root.name], q) && i < |Stands(root, [root.name], q).value.options|
    ensures var o := Stands(root, [root.name], q).value.options[i];
            OptionHeld(o, q <= out.chosen, Lookup(StoreOf(root, out), Join(q + [o.longName])))
  {
    var at := [root.name];
    var o := Stands(root, at, q).value.options[i];
    var p := q + [o.longName];
    LogClean(root, out);
    assert p[..|p| - 1] == q;
    assert HasOption(Stands(root, at, q).value, o.longName);
    KnownIsClean(root, at, p);
    StoreRemembers(FullLog(root, at, out), p);
    OptionFlag(root, at, out, q, i);
  }

  // ----- What success means -----

  /** What a store says about the whole tree, given the path that was chosen. */
  ghost predicate Describes(root: Command, chosen: Place, values: Values) {
    var at := [root.name];
    && IsCommand(root, at, chosen)
    && Flagged(root, at, chosen, values)
    && (forall q: Place, i :: IsCommand(root, at, q) ==>
          OptionDescribed(Stands(root, at, q).value, q, i, chosen, values))
    && (forall key :: key in values ==> exists p: Place :: Known(root, at, p) && Join(p) == key)
  }

  /**
    An option of a selected command is there, with a value of its declared type; an option of any other
    command has its default, or is absent if it is required. The one exception are the required options
    at and below a nameless child of a nameless root: they may be missing.
    */
  ghost predicate OptionDescribed(c: Command, q: Place, i: int, chosen: Place, values: Values) {
    0 <= i < |c.options| ==>
      var o, held := c.options[i], Lookup(values, Join(q + [c.options[i].longName]));
      if q <= chosen then
        if held.Some? then SameType(held.value, o.v) else o.required && ["", ""] <= q
      else held == if o.required then None else Some(o.v)
  }

  /** What a passed validation has made sure of. */
  lemma RequiredChecked(root: Command, out: Outcome, q: Place, i: nat)
    requires ProperTree(root) && GoodOutcome(root, [root.name], out) && Validated(root, "", StoreOf(root, out)).Ok?
    requires IsCommand(root, [root.name], q) && q <= out.chosen && !(["", ""] <= q)
    requires i < |Stands(root, [root.name], q).value.options| && Stands(root, [root.name], q).value.options[i].required
    ensures Join(q + [Stands(root, [root.name], q).value.options[i].longName]) in StoreOf(root, out)
  {
    var at, values := [root.name], StoreOf(root, out);
    StoreFlags(root, out);
    StandsBelow(root, at, q);
    if root.name != "" {
      NamedVerdict(root, out.chosen, values);
      assert OptionThere(Stands(root, at, q).value, q, i, values);
    } else if q == at {
      RootOptions(root, values);
      assert OptionThere(root, at, i, values);
    } else {
      KeysOfNameless(root, out);
      NamelessVerdict(root, out.chosen, values);
      assert false;
    }
  }

  lemma OptionStands(root: Command, out: Outcome, q: Place, i: nat)
    requires ProperTree(root) && GoodOutcome(root, [root.name], out) && Validated(root, "", StoreOf(root, out)).Ok?
    requires IsCommand(root, [root.name], q) && i < |Stands(root, [root.name], q).value.options|
    ensures OptionDescribed(Stands(root, [root.name], q).value, q, i, out.chosen, StoreOf(root, out))
  {
    StoreOption(root, out, q, i);
    if q <= out.chosen && Stands(root, [root.name], q).value.options[i].required && !(["", ""] <= q) {
      RequiredChecked(root, out, q, i);
    }
  }

  lemma KeyKnown(root: Command, out: Outcome, key: string)
    requires ProperTree(root) && GoodOutcome(root, [root.name], out) && key in StoreOf(root, out)
    ensures exists p: Place :: Known(root, [root.name], p) && Join(p) == key
  {
    var log := FullLog(root, [root.name], out);
    FullLogKnown(root, [root.name], out);
    AppliedKeys(log, key);
    var i :| 0 <= i < |log| && Join(log[i].place) == key;
    assert Known(root, [root.name], log[i].place);
  }

  lemma StoreDescribes(root: Command, out: Outcome)
    requires ProperTree(root) && GoodOutcome(root, [root.name], out) && Validated(root, "", StoreOf(root, out)).Ok?
    ensures Describes(root, out.chosen, StoreOf(root, out))
  {
    var at, values := [root.name], StoreOf(root, out);
    StoreFlags(root, out);
    forall q: Place, i | IsCommand(root, at, q)
      ensures OptionDescribed(Stands(root, at, q).value, q, i, out.chosen, values)
    {
      if 0 <= i < |Stands(root, at, q).value.options| {
        OptionStands(root, out, q, i);
      }
    }
    forall key | key in values
      ensures exists p: Place :: Known(root, at, p) && Join(p) == key
    {
      KeyKnown(root, out, key);
    }
  }

  /**
    For every proper command tree and every argument list: a successful parse has consumed all tokens
    and chosen one command, such that exactly the commands on the path from the root to it are
    flagged, and the options are as described above.
    */
  lemma ParseDescribes(num: Numbers, root: Command, args: seq<string>) returns (chosen: Place)
    requires ProperTree(root) && Parsed(num, root, args).Ok? && Parsed(num, root, args).value.Some?
    ensures Describes(root, chosen, Parsed(num, root, args).value.value.values)
    ensures CommandLog(num, root, [root.name], args, 1).value.pos == |args|
    ensures CommandLog(num, root, [root.name], args, 1).value.chosen == chosen
  {
    var out := CommandLog(num, root, [root.name], args, 1).value;
    chosen := out.chosen;
    CommandOutcomeGood(num, root, [root.name], args, 1);
    StoreDescribes(root, out);
  }

  // ----- Flags that validate does not find -----

  ghost predicate FlagNotFound(num: Numbers, root: Command, args: seq<string>) {
    Parsed(num, root, args).Err? && Parsed(num, root, args).error.BadFlag?
  }

  /** Whether parse gets to validate, and with what. */
  lemma ParseByValidation(num: Numbers, root: Command, args: seq<string>)
    ensures FlagNotFound(num, root, args) ==>
              args != [] && CommandLog(num, root, [root.name], args, 1).Ok?
    ensures args != [] && CommandLog(num, root, [root.name], args, 1).Ok? ==>
              var out := CommandLog(num, root, [root.name], args, 1).value;
              var v := Validated(root, "", StoreOf(root, out));
              FlagNotFound(num, root, args) <==> out.pos == |args| && v.Err? && v.error.BadFlag?
  {
    if args != [] {
      CommandErrors(num, root, [root.name], args, 1);
    }
  }

  ghost predicate ChildrenNamed(root: Command) {
    forall k :: 0 <= k < |root.children| ==> root.children[k].name != ""
  }

  /**
    All tokens are consumed, the root has its required options, and a child with children but no
    required option is selected.
    */
  ghost predicate Stumbles(num: Numbers, root: Command, args: seq<string>) {
    && args != []
    && var parse := CommandLog(num, root, [root.name], args, 1);
    && parse.Ok? && parse.value.pos == |args| && |parse.value.chosen| >= 2
    && (forall i :: OptionThere(root, [root.name], i, StoreOf(root, parse.value)))
    && var k := FindChild(root.children, parse.value.chosen[1]);
    && k < |root.children| && !HasRequired(root.children[k]) && root.children[k].children != []
  }

  /** With a nameless root, exactly these parses fail on a flag that parse should have set itself. */
  lemma BadFlagExactly(num: Numbers, root: Command, args: seq<string>)
    requires ProperTree(root) && root.name == "" && ChildrenNamed(root)
    ensures FlagNotFound(num, root, args) <==> Stumbles(num, root, args)
  {
    ParseByValidation(num, root, args);
    if args != [] && CommandLog(num, root, [""], args, 1).Ok? {
      var out := CommandLog(num, root, [""], args, 1).value;
      CommandOutcomeGood(num, root, [""], args, 1);
      StoreFlags(root, out);
      KeysOfNameless(root, out);
      if ["", ""] <= out.chosen {
        StandsInList(root, out.chosen);
        assert false;
      }
      NamelessVerdict(root, out.chosen, StoreOf(root, out));
    }
  }

  lemma StandsInList(root: Command, q: Place)
    requires IsCommand(root, [root.name], q) && |q| >= 2
    ensures FindChild(root.children, q[1]) < |root.children|
  {
  }

  /** The root is named, or each of its children has no children, or is named and has a required option. */
  ghost predicate Sturdy(root: Command) {
    root.name != "" || forall k :: 0 <= k < |root.children| ==> SturdyChild(root.children[k])
  }

  predicate SturdyChild(c: Command) {
    c.children == [] || (c.name != "" && HasRequired(c))
  }

  /** With such a tree, no argument list makes parse fail on the flags it set itself. */
  lemma NoBadFlag(num: Numbers, root: Command, args: seq<string>)
    requires ProperTree(root) && Sturdy(root)
    ensures !FlagNotFound(num, root, args)
  {
    ParseByValidation(num, root, args);
    if args != [] && CommandLog(num, root, [root.name], args, 1).Ok? {
      var out := CommandLog(num, root, [root.name], args, 1).value;
      CommandOutcomeGood(num, root, [root.name], args, 1);
      StoreFlags(root, out);
      if root.name != "" {
        NamedVerdict(root, out.chosen, StoreOf(root, out));
      } else {
        KeysOfNameless(root, out);
        SturdyVerdict(root, out.chosen, StoreOf(root, out));
      }
    }
  }

  lemma SturdyVerdict(root: Command, chosen: Place, values: Values)
    requires ProperTree(root) && Sturdy(root) && root.name == "" && IsCommand(root, [""], chosen)
    requires Flagged(root, [""], chosen, values) && DottedKeys(values)
    ensures Validated(root, "", values).Err? ==> Validated(root, "", values).error.MissingOption?
  {
    StandsBelow(root, [""], chosen);
    RootOptions(root, values);
    assert root.children[0..] == root.children;
    NamelessChildren(root, chosen, values, 0);
    if |chosen| >= 2 {
      StandsInList(root, chosen);
      var c := root.children[FindChild(root.children, chosen[1])];
      assert SturdyChild(c);
      CheckErrors(c.options, c.name, values);
      if c.name != "" {
        NamelessChildVerdict(c, values);
      }
    }
  }

  lemma {:induction false} OptionErrors(num: Numbers, options: seq<Opt>, at: Place, args: seq<string>, pos: nat)
    requires pos <= |args|
    ensures OptionLog(num, options, at, args, pos).Err? ==> OptionLog(num, options, at, args, pos).error.ParserError?
    decreases |args| - pos
  {
    var given := TryOption(num, options, args, pos);
    if given.Ok? && given.value.Some? {
      OptionErrors(num, options, at, args, given.value.value.pos);
    }
  }

  lemma {:induction false} CommandErrors(num: Numbers, com: Command, at: Place, args: seq<string>, pos: nat)
    requires pos <= |args|
    ensures CommandLog(num, com, at, args, pos).Err? ==> CommandLog(num, com, at, args, pos).error.ParserError?
    decreases com, 1
  {
    OptionErrors(num, com.options, at, args, pos);
    var opts := OptionLog(num, com.options, at, args, pos);
    if opts.Ok? {
      ContinuedErrors(num, com, at, args, opts.value.1);
    }
  }

  lemma {:induction false} ContinuedErrors(num: Numbers, com: Command, at: Place, args: seq<string>, pos: nat)
    requires pos <= |args|
    ensures Continued(num, com, at, args, pos).Err? ==> Continued(num, com, at, args, pos).error.ParserError?
    decreases com, 0
  {
    var s := Selection(com, args, pos);
    if s.Ok? && s.value.0 < |com.children| {
      CommandErrors(num, com.children[s.value.0], at + [com.children[s.value.0].name], args, s.value.1);
    }
  }
}
