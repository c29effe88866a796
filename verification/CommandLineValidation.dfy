/**
  What validate says of a flag store, for every command tree and every chosen path.

  validate takes an empty key prefix for the root's. With a named root that is right, and it passes
  exactly when the required options of the selected commands are there. With a nameless root it drops
  the root's part of every key below a child, and looks up keys that nobody wrote.
  */
module CommandLineValidation {
  import opened Options
  import opened CommandLine
  import opened CommandLineKeys
  import opened CommandLineLogs

  // ----- A named root -----

  lemma {:induction false} OptionsChecked(options: seq<Opt>, key: string, values: Values, i: nat)
    requires CheckOptions(options, key, values).Ok? && i < |options| && options[i].required
    ensures key + "." + options[i].longName in values
    decreases |options|
  {
    if i > 0 {
      OptionsChecked(options[1..], key, values, i - 1);
    }
  }

  lemma {:induction false} ChildChecked(children: seq<Command>, key: string, values: Values, k: nat)
    requires ValidatedChildren(children, key, values).Ok? && k < |children|
    requires Lookup(values, key + "." + children[k].name) == Some(Bool(true))
    ensures Validated(children[k], key, values).Ok?
    decreases |children|
  {
    if k > 0 {
      ChildChecked(children[1..], key, values, k - 1);
    }
  }

  /** validate passes the prefix as a string; an empty one means the root. */
  function PrefixOf(at: Place): string
    requires at != []
  {
    if |at| == 1 then "" else Join(at[..|at| - 1])
  }

  ghost predicate Placed(com: Command, at: Place) {
    at != [] && at[|at| - 1] == com.name && at[0] != ""
  }

  lemma PlacedKey(com: Command, at: Place)
    requires Placed(com, at)
    ensures Join(at) == (if PrefixOf(at) == "" then com.name else PrefixOf(at) + "." + com.name)
    ensures Join(at) != ""
  {
    if |at| >= 2 {
      var front := at[..|at| - 1];
      if |front| >= 2 {
        JoinHasDot(front);
      }
    }
  }

  lemma PlacedChild(com: Command, at: Place, k: nat)
    requires Placed(com, at) && k < |com.children|
    ensures var below := at + [com.children[k].name];
            Placed(com.children[k], below) && PrefixOf(below) == Join(at)
              && Join(below) == Join(at) + "." + com.children[k].name
  {
    var below := at + [com.children[k].name];
    assert below[..|below| - 1] == at;
  }

  /** The commands of the tree are flagged according to the chosen path. */
  ghost predicate Flagged(com: Command, at: Place, chosen: Place, values: Values) {
    forall q: Place :: IsCommand(com, at, q) ==> Lookup(values, Join(q)) == Some(Bool(q <= chosen))
  }

  lemma FlaggedChild(com: Command, at: Place, k: nat, chosen: Place, values: Values)
    requires LevelNamed(com) && k < |com.children| && Flagged(com, at, chosen, values)
    ensures Flagged(com.children[k], at + [com.children[k].name], chosen, values)
    ensures IsCommand(com, at, at + [com.children[k].name])
  {
    var below := at + [com.children[k].name];
    StandsInChild(com, at, k, below);
    forall q: Place | IsCommand(com.children[k], below, q)
      ensures Lookup(values, Join(q)) == Some(Bool(q <= chosen))
    {
      StandsBelow(com.children[k], below, q);
      StandsInChild(com, at, k, q);
    }
  }

  lemma ChildFlag(com: Command, at: Place, k: nat, chosen: Place, values: Values)
    requires LevelNamed(com) && Placed(com, at) && k < |com.children| && Flagged(com, at, chosen, values)
    ensures GetBool(values, Join(at) + "." + com.children[k].name) == Ok(at + [com.children[k].name] <= chosen)
  {
    var below := at + [com.children[k].name];
    PlacedChild(com, at, k);
    FlaggedChild(com, at, k, chosen, values);
    assert Lookup(values, Join(below)) == Some(Bool(below <= chosen));
  }

  /** validate of the children from the n-th on */
  lemma OneMoreChild(children: seq<Command>, key: string, values: Values, n: nat, selected: bool)
    requires n < |children| && GetBool(values, key + "." + children[n].name) == Ok(selected)
    ensures ValidatedChildren(children[n..], key, values) ==
            if selected && Validated(children[n], key, values).Err? then Err(Validated(children[n], key, values).error)
            else ValidatedChildren(children[n + 1..], key, values)
  {
    assert children[n..][1..] == children[n + 1..];
    assert children[n..][0] == children[n];
  }

  /** Validation passes only if every required option of every selected command is there. */
  lemma {:induction false} RequiredPresent(com: Command, at: Place, chosen: Place, values: Values, r: Place, i: nat)
    requires WellNamed(com) && Placed(com, at) && Flagged(com, at, chosen, values)
    requires Validated(com, PrefixOf(at), values).Ok?
    requires IsCommand(com, at, r) && r <= chosen
    requires i < |Stands(com, at, r).value.options| && Stands(com, at, r).value.options[i].required
    ensures Join(r + [Stands(com, at, r).value.options[i].longName]) in values
    decreases com
  {
    PlacedKey(com, at);
    var key := Join(at);
    if r == at {
      OptionsChecked(com.options, key, values, i);
      var p := at + [com.options[i].longName];
      assert p[..|p| - 1] == at;
    } else {
      var k := FindChild(com.children, r[|at|]);
      var below := at + [com.children[k].name];
      StandsBelow(com.children[k], below, r);
      PlacedChild(com, at, k);
      FlaggedChild(com, at, k, chosen, values);
      ChildChecked(com.children, key, values, k);
      RequiredPresent(com.children[k], below, chosen, values, r, i);
    }
  }

  lemma {:induction false} CheckErrors(options: seq<Opt>, key: string, values: Values)
    ensures CheckOptions(options, key, values).Err? ==> CheckOptions(options, key, values).error.MissingOption?
    decreases |options|
  {
    if options != [] {
      CheckErrors(options[1..], key, values);
    }
  }

  ghost predicate RequiredThere(com: Command, at: Place, chosen: Place, values: Values) {
    forall r: Place, i :: IsCommand(com, at, r) && r <= chosen ==> OptionThere(Stands(com, at, r).value, r, i, values)
  }

  ghost predicate OptionThere(c: Command, r: Place, i: int, values: Values) {
    0 <= i < |c.options| && c.options[i].required ==> Join(r + [c.options[i].longName]) in values
  }

  lemma {:induction false} OptionsPass(com: Command, at: Place, values: Values, n: nat)
    requires n <= |com.options| && at != []
    requires forall i :: OptionThere(com, at, i, values)
    ensures CheckOptions(com.options[n..], Join(at), values).Ok?
    decreases |com.options| - n
  {
    if n < |com.options| {
      assert OptionThere(com, at, n, values);
      var p := at + [com.options[n].longName];
      assert p[..|p| - 1] == at;
      assert com.options[n..][1..] == com.options[n + 1..];
      OptionsPass(com, at, values, n + 1);
    }
  }

  /**
    Option i of the selected command at r is the first required one that is not there, from the root
    down, and the error names it.
    */
  ghost predicate FirstLacking(com: Command, at: Place, chosen: Place, values: Values, r: Place, i: int, e: Error) {
    && IsCommand(com, at, r) && r <= chosen
    && var c := Stands(com, at, r).value;
    && 0 <= i < |c.options| && e == MissingOption(Join(r + [c.options[i].longName]))
    && !OptionThere(c, r, i, values)
    && (forall j | 0 <= j < i :: OptionThere(c, r, j, values))
    && (forall q: Place, j :: IsCommand(com, at, q) && q < r ==> OptionThere(Stands(com, at, q).value, q, j, values))
  }

  lemma {:induction false} OptionLacking(com: Command, at: Place, values: Values, n: nat) returns (i: nat)
    requires n <= |com.options| && at != [] && CheckOptions(com.options[n..], Join(at), values).Err?
    requires forall j | 0 <= j < n :: OptionThere(com, at, j, values)
    ensures i < |com.options| && !OptionThere(com, at, i, values)
    ensures forall j | 0 <= j < i :: OptionThere(com, at, j, values)
    ensures CheckOptions(com.options[n..], Join(at), values).error
         == MissingOption(Join(at + [com.options[i].longName]))
    decreases |com.options| - n
  {
    var p := at + [com.options[n].longName];
    assert p[..|p| - 1] == at;
    if OptionThere(com, at, n, values) {
      assert com.options[n..][1..] == com.options[n + 1..];
      i := OptionLacking(com, at, values, n + 1);
    } else {
      i := n;
    }
  }

  lemma LackingBelow(com: Command, at: Place, k: nat, chosen: Place, values: Values, r: Place, i: int, e: Error)
    requires LevelNamed(com) && k < |com.children| && forall j :: OptionThere(com, at, j, values)
    requires FirstLacking(com.children[k], at + [com.children[k].name], chosen, values, r, i, e)
    ensures FirstLacking(com, at, chosen, values, r, i, e)
  {
    var c := com.children[k];
    var below := at + [c.name];
    StandsBelow(c, below, r);
    StandsInChild(com, at, k, r);
    forall q: Place, j | IsCommand(com, at, q) && q < r
      ensures OptionThere(Stands(com, at, q).value, q, j, values)
    {
      StandsBelow(com, at, q);
      if q != at {
        assert below <= q;
        StandsInChild(com, at, k, q);
      }
    }
  }

  /** Validation fails for nothing but a missing option: the flags it reads are always there. */
  lemma {:induction false} ValidationErrors(com: Command, at: Place, chosen: Place, values: Values)
    returns (r: Place, i: int)
    requires WellNamed(com) && Placed(com, at) && Flagged(com, at, chosen, values) && at <= chosen
    requires Validated(com, PrefixOf(at), values).Err?
    ensures FirstLacking(com, at, chosen, values, r, i, Validated(com, PrefixOf(at), values).error)
    decreases com, |com.children| + 1
  {
    PlacedKey(com, at);
    assert com.options[0..] == com.options && com.children[0..] == com.children;
    if CheckOptions(com.options, Join(at), values).Err? {
      r := at;
      i := OptionLacking(com, at, values, 0);
    } else {
      AllChecked(com, at, values);
      r, i := ChildValidationErrors(com, at, chosen, values, 0);
    }
  }

  lemma AllChecked(com: Command, at: Place, values: Values)
    requires at != [] && CheckOptions(com.options, Join(at), values).Ok?
    ensures forall i :: OptionThere(com, at, i, values)
  {
    forall i
      ensures OptionThere(com, at, i, values)
    {
      if 0 <= i < |com.options| && com.options[i].required {
        OptionsChecked(com.options, Join(at), values, i);
        var p := at + [com.options[i].longName];
        assert p[..|p| - 1] == at;
      }
    }
  }

  lemma {:induction false} ChildValidationErrors(com: Command, at: Place, chosen: Place, values: Values, n: nat)
    returns (r: Place, i: int)
    requires WellNamed(com) && Placed(com, at) && Flagged(com, at, chosen, values) && n <= |com.children|
    requires at <= chosen && forall j :: OptionThere(com, at, j, values)
    requires ValidatedChildren(com.children[n..], Join(at), values).Err?
    ensures FirstLacking(com, at, chosen, values, r, i, ValidatedChildren(com.children[n..], Join(at), values).error)
    decreases com, |com.children| - n
  {
    var c := com.children[n];
    var below := at + [c.name];
    PlacedChild(com, at, n);
    FlaggedChild(com, at, n, chosen, values);
    ChildFlag(com, at, n, chosen, values);
    OneMoreChild(com.children, Join(at), values, n, below <= chosen);
    if below <= chosen && Validated(c, Join(at), values).Err? {
      r, i := ValidationErrors(c, below, chosen, values);
      LackingBelow(com, at, n, chosen, values, r, i, Validated(c, Join(at), values).error);
    } else {
      r, i := ChildValidationErrors(com, at, chosen, values, n + 1);
    }
  }

  lemma {:induction false} ValidationPasses(com: Command, at: Place, chosen: Place, values: Values)
    requires WellNamed(com) && Placed(com, at) && Flagged(com, at, chosen, values)
    requires at <= chosen && RequiredThere(com, at, chosen, values)
    ensures Validated(com, PrefixOf(at), values).Ok?
    decreases com, |com.children| + 1
  {
    PlacedKey(com, at);
    assert com.options[0..] == com.options && com.children[0..] == com.children;
    forall i
      ensures OptionThere(com, at, i, values)
    {
      assert IsCommand(com, at, at);
    }
    OptionsPass(com, at, values, 0);
    ChildrenPass(com, at, chosen, values, 0);
  }

  lemma ThereBelow(com: Command, at: Place, k: nat, chosen: Place, values: Values)
    requires LevelNamed(com) && k < |com.children| && RequiredThere(com, at, chosen, values)
    ensures RequiredThere(com.children[k], at + [com.children[k].name], chosen, values)
  {
    var below := at + [com.children[k].name];
    forall r: Place, i | IsCommand(com.children[k], below, r) && r <= chosen
      ensures OptionThere(Stands(com.children[k], below, r).value, r, i, values)
    {
      StandsBelow(com.children[k], below, r);
      StandsInChild(com, at, k, r);
    }
  }

  lemma {:induction false} ChildrenPass(com: Command, at: Place, chosen: Place, values: Values, n: nat)
    requires WellNamed(com) && Placed(com, at) && Flagged(com, at, chosen, values) && n <= |com.children|
    requires at <= chosen && RequiredThere(com, at, chosen, values)
    ensures ValidatedChildren(com.children[n..], Join(at), values).Ok?
    decreases com, |com.children| - n
  {
    if n < |com.children| {
      var below := at + [com.children[n].name];
      PlacedChild(com, at, n);
      FlaggedChild(com, at, n, chosen, values);
      ChildFlag(com, at, n, chosen, values);
      if below <= chosen {
        ThereBelow(com, at, n, chosen, values);
        ValidationPasses(com.children[n], below, chosen, values);
      }
      ChildrenPass(com, at, chosen, values, n + 1);
      OneMoreChild(com.children, Join(at), values, n, below <= chosen);
    }
  }

  /**
    With a named root, validation passes if and only if all required options of selected commands are
    there, and otherwise complains about the first that is not.
    */
  lemma NamedVerdict(root: Command, chosen: Place, values: Values)
    requires WellNamed(root) && root.name != "" && [root.name] <= chosen && Flagged(root, [root.name], chosen, values)
    ensures Validated(root, "", values).Ok? <==> RequiredThere(root, [root.name], chosen, values)
    ensures Validated(root, "", values).Err? ==>
              var e := Validated(root, "", values).error;
              e.MissingOption? && exists r: Place, i :: FirstLacking(root, [root.name], chosen, values, r, i, e)
  {
    var at := [root.name];
    if Validated(root, "", values).Ok? {
      forall r: Place, i | IsCommand(root, at, r) && r <= chosen
        ensures OptionThere(Stands(root, at, r).value, r, i, values)
      {
        if 0 <= i < |Stands(root, at, r).value.options| && Stands(root, at, r).value.options[i].required {
          RequiredPresent(root, at, chosen, values, r, i);
        }
      }
    } else {
      var r, i := ValidationErrors(root, at, chosen, values);
    }
    if RequiredThere(root, at, chosen, values) {
      ValidationPasses(root, at, chosen, values);
    }
  }

  // ----- A nameless root -----

  /** With a nameless root, all keys but its own begin with a dot. */
  ghost predicate DottedKeys(values: Values) {
    forall key :: key in values && key != "" ==> key[0] == '.'
  }

  lemma {:induction false} JoinOfNameless(p: Place)
    requires p != [] && p[0] == ""
    ensures Join(p) != "" ==> Join(p)[0] == '.'
    decreases |p|
  {
    if |p| >= 2 {
      JoinOfNameless(p[..|p| - 1]);
    }
  }

  lemma Undotted(name: string, rest: string, values: Values)
    requires DottedKeys(values) && name != "" && DotFree(name)
    ensures name + "." + rest !in values
  {
    var key := name + "." + rest;
    assert key[0] == name[0];
  }

  predicate HasRequired(c: Command) {
    exists i :: 0 <= i < |c.options| && c.options[i].required
  }

  /** Below a nameless root none of the keys that validate asks for is there. */
  lemma {:induction false} UndottedOptions(c: Command, values: Values, n: nat)
    requires DottedKeys(values) && c.name != "" && DotFree(c.name) && n <= |c.options|
    ensures CheckOptions(c.options[n..], c.name, values).Err? <==>
              exists i :: n <= i < |c.options| && c.options[i].required
    decreases |c.options| - n
  {
    if n < |c.options| {
      Undotted(c.name, c.options[n].longName, values);
      assert c.options[n..][1..] == c.options[n + 1..];
      UndottedOptions(c, values, n + 1);
    }
  }

  lemma NamelessChildVerdict(c: Command, values: Values)
    requires DottedKeys(values) && c.name != "" && DotFree(c.name)
    ensures var v := Validated(c, "", values);
            if HasRequired(c) then v.Err? && v.error.MissingOption?
            else if c.children != [] then v == Err(BadFlag(c.name + "." + c.children[0].name))
            else v.Ok?
  {
    assert c.options[0..] == c.options;
    UndottedOptions(c, values, 0);
    CheckErrors(c.options, c.name, values);
    if c.children != [] {
      Undotted(c.name, c.children[0].name, values);
    }
  }

  lemma NamelessFlag(root: Command, k: nat, chosen: Place, values: Values)
    requires LevelNamed(root) && root.name == "" && k < |root.children| && Flagged(root, [""], chosen, values)
    ensures GetBool(values, "" + "." + root.children[k].name) == Ok([""] + [root.children[k].name] <= chosen)
  {
    var below := [""] + [root.children[k].name];
    FlaggedChild(root, [""], k, chosen, values);
    assert below[..|below| - 1] == [""];
    assert Join(below) == Join([""]) + "." + root.children[k].name;
    assert Lookup(values, Join(below)) == Some(Bool(below <= chosen));
  }

  /** Of the children from the n-th on, the selected one decides. */
  lemma {:induction false} NamelessChildren(root: Command, chosen: Place, values: Values, n: nat)
    requires LevelNamed(root) && root.name == "" && [""] <= chosen && Flagged(root, [""], chosen, values)
    requires n <= |root.children|
    ensures var v := ValidatedChildren(root.children[n..], "", values);
            var k := if |chosen| >= 2 then FindChild(root.children, chosen[1]) else |root.children|;
            if n <= k < |root.children| && Validated(root.children[k], "", values).Err?
            then v == Validated(root.children[k], "", values)
            else v.Ok?
    decreases |root.children| - n
  {
    if n < |root.children| {
      var below := [""] + [root.children[n].name];
      NamelessFlag(root, n, chosen, values);
      OneMoreChild(root.children, "", values, n, below <= chosen);
      NamelessChildren(root, chosen, values, n + 1);
      ChildFound(root, n);
    }
  }

  /**
    With a nameless root and a named child selected, validation passes only for a child without required
    options and without children. A child with a required option is said to lack it; otherwise the flag
    of its first child is not found.
    */
  lemma NamelessVerdict(root: Command, chosen: Place, values: Values)
    requires WellNamed(root) && root.name == "" && IsCommand(root, [""], chosen) && !(["", ""] <= chosen)
    requires Flagged(root, [""], chosen, values) && DottedKeys(values)
    ensures [""] <= chosen && (|chosen| >= 2 ==> FindChild(root.children, chosen[1]) < |root.children|)
    ensures var v := Validated(root, "", values);
            if !(forall i :: OptionThere(root, [""], i, values)) then v.Err? && v.error.MissingOption?
            else if |chosen| == 1 then v.Ok?
            else
              var c := root.children[FindChild(root.children, chosen[1])];
              if HasRequired(c) then v.Err? && v.error.MissingOption?
              else if c.children != [] then v == Err(BadFlag(c.name + "." + c.children[0].name))
              else v.Ok?
  {
    StandsBelow(root, [""], chosen);
    RootOptions(root, values);
    assert root.children[0..] == root.children;
    NamelessChildren(root, chosen, values, 0);
    if |chosen| >= 2 {
      var c := root.children[FindChild(root.children, chosen[1])];
      assert ["", ""] <= chosen <==> c.name == "";
      NamelessChildVerdict(c, values);
    }
  }

  lemma RootOptions(root: Command, values: Values)
    requires root.name == ""
    ensures CheckOptions(root.options, "", values).Ok? <==> forall i :: OptionThere(root, [""], i, values)
    ensures CheckOptions(root.options, "", values).Err? ==> CheckOptions(root.options, "", values).error.MissingOption?
  {
    CheckErrors(root.options, "", values);
    assert root.options[0..] == root.options;
    if forall i :: OptionThere(root, [""], i, values) {
      OptionsPass(root, [""], values, 0);
    }
    if CheckOptions(root.options, "", values).Ok? {
      AllChecked(root, [""], values);
    }
  }
}
