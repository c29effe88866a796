/** Trees with plain names, for which whatever is meant can be written. */
module CommandLinePlain {
  import opened Options
  import opened CommandLine
  import opened CommandLineLogs
  import opened CommandLineTheorems
  import opened CommandLineGrammar
  import opened CommandLineRoundTrip

  /** No name is empty, no command's name begins with a dash or is taken for an option. */
  ghost predicate PlainLevel(com: Command) {
    && (forall i :: 0 <= i < |com.options| ==> com.options[i].longName != "")
    && (forall k :: 0 <= k < |com.children| ==> com.children[k].name != "" && com.children[k].name[0] != '-')
    && (forall i, k :: 0 <= i < |com.options| && 0 <= k < |com.children| ==>
          !Answers(com.options[i], com.children[k].name))
  }

  ghost predicate Plain(com: Command)
    decreases com
  {
    PlainLevel(com) && forall k :: 0 <= k < |com.children| ==> Plain(com.children[k])
  }

  /** No name at this level reads as a truth value. */
  predicate Wordless(com: Command) {
    && (forall i :: 0 <= i < |com.options| ==> !IsWord(com.options[i].longName))
    && (forall k :: 0 <= k < |com.children| ==> !IsWord(com.children[k].name))
  }

  predicate HasBareFlag(settings: seq<Setting>) {
    exists i :: 0 <= i < |settings| && settings[i].text.None?
  }

  /** The token means nothing to the command. */
  predicate Passes(com: Command, token: string) {
    SpellsNone(com.options, token) && CallsNone(com.children, token) && !IsWord(token)
  }

  /** The settings fit, and the invocation stops where the parser would not go on by itself. */
  predicate Sayable(num: Numbers, com: Command, inv: Invocation)
    requires Descends(com, inv)
    decreases inv
  {
    && AllFit(num, com, inv.settings) && (HasBareFlag(inv.settings) ==> Wordless(com))
    && match inv
       case Here(_, dashes, rest) => NoneImplicit(com.children) && dashes == (rest != []) && (dashes ==> com.verbatim)
       case Below(_, naming, child, next) =>
         var c := com.children[child];
         && Sayable(num, c, next)
         && (naming.Dashed? ==> '=' !in c.name)
         && (naming.Unnamed? ==>
               c.implicit && NoneImplicit(com.children[..child]) && Passes(com, FirstToken(Written(c, next))))
  }

  // ----- What can be said is legible -----

  lemma FirstIsNoWord(num: Numbers, com: Command, settings: seq<Setting>, after: seq<string>)
    requires Fitting(com, settings) && AllFit(num, com, settings) && Wordless(com) && !IsWord(FirstToken(after))
    ensures !IsWord(FirstToken(Tokens(com, settings) + after))
  {
    if settings == [] {
      assert Tokens(com, settings) + after == after;
    } else {
      var o, s := com.options[settings[0].option], settings[0];
      assert Fits(num, com, s);
      var lead := Lead(s.form, NameOf(o, s));
      var token := FirstToken(Tokens(com, settings) + after);
      assert token == Spelled(o, s)[0];
      if !s.form.Bare? {
        assert token[0] == '-';
      } else if s.short {
        assert |token| == 1;
      }
    }
  }

  lemma {:induction false} FlowsIf(num: Numbers, com: Command, settings: seq<Setting>, after: seq<string>)
    requires Fitting(com, settings) && AllFit(num, com, settings)
    requires HasBareFlag(settings) ==> Wordless(com) && !IsWord(FirstToken(after))
    ensures Flows(com, settings, after)
    decreases |settings|
  {
    if settings != [] {
      FlowsIf(num, com, settings[1..], after);
      if settings[0].text.None? {
        FirstIsNoWord(num, com, settings[1..], after);
      }
    }
  }

  lemma NoneOfThatName(options: seq<Opt>, token: string)
    requires forall i :: 0 <= i < |options| ==> !Answers(options[i], AsOption(token).name)
    ensures SpellsNone(options, token)
  {
    forall i | 0 <= i < |options|
      ensures !Spells(token, options[i].longName) && !Spells(token, [options[i].shortName])
    {
      SpellsExactly(token, options[i].longName);
      SpellsExactly(token, [options[i].shortName]);
    }
  }

  /** The dashes and the end of the tokens mean nothing at a plain level. */
  lemma EndPasses(com: Command, token: string)
    requires PlainLevel(com) && (token == "" || token == "--")
    ensures Passes(com, token)
  {
    SeparateName(if token == "" then Bare else Long, "");
    NoneOfThatName(com.options, token);
  }

  /** A child's name is no option, with or without dashes. */
  lemma NamePasses(com: Command, naming: Naming, k: nat)
    requires PlainLevel(com) && k < |com.children| && !naming.Unnamed?
    requires naming.Dashed? ==> '=' !in com.children[k].name
    ensures SpellsNone(com.options, Called(naming, com.children[k].name)[0])
  {
    var name := com.children[k].name;
    SeparateName(if naming.Named? then Bare else Long, name);
    NoneOfThatName(com.options, Called(naming, name)[0]);
  }

  lemma AfterNames(com: Command, inv: Invocation)
    requires Descends(com, inv) && inv.Below?
    ensures FirstToken(After(com, inv)) ==
            if inv.naming.Unnamed? then FirstToken(Written(com.children[inv.child], inv.next))
            else Called(inv.naming, com.children[inv.child].name)[0]
  {
    var called, later := Called(inv.naming, com.children[inv.child].name), Written(com.children[inv.child], inv.next);
    if inv.naming.Unnamed? {
      assert called + later == later;
    }
  }

  lemma SayableStops(num: Numbers, com: Command, inv: Invocation)
    requires PlainLevel(com) && Descends(com, inv) && inv.Here? && Sayable(num, com, inv)
    ensures Legible(num, com, inv)
  {
    var token := FirstToken(After(com, inv));
    assert token == if inv.dashes then "--" else "";
    EndPasses(com, token);
    FlowsIf(num, com, inv.settings, After(com, inv));
  }

  lemma SayableSelects(num: Numbers, com: Command, inv: Invocation)
    requires LevelNamed(com) && PlainLevel(com) && Descends(com, inv) && inv.Below? && Sayable(num, com, inv)
    requires Legible(num, com.children[inv.child], inv.next)
    ensures Legible(num, com, inv)
  {
    var token := FirstToken(After(com, inv));
    AfterNames(com, inv);
    if !inv.naming.Unnamed? {
      NamePasses(com, inv.naming, inv.child);
      if inv.naming.Dashed? {
        assert token[0] == '-';
      }
    }
    FlowsIf(num, com, inv.settings, After(com, inv));
  }

  /** In a tree of plain names, whatever fits can be said. */
  lemma {:induction false} LegibleIf(num: Numbers, com: Command, inv: Invocation)
    requires WellNamed(com) && Plain(com) && Descends(com, inv) && Sayable(num, com, inv)
    ensures Legible(num, com, inv)
    decreases inv
  {
    if inv.Below? {
      LegibleIf(num, com.children[inv.child], inv.next);
      SayableSelects(num, com, inv);
    } else {
      SayableStops(num, com, inv);
    }
  }

  // ----- Saying nothing -----

  /** Down the implicit commands, naming none of them. */
  function Silent(com: Command): Invocation
    decreases com
  {
    var m := FindImplicit(com.children);
    if m < |com.children| then Below([], Unnamed, m, Silent(com.children[m])) else Here([], false, [])
  }

  lemma {:induction false} SilentSayable(num: Numbers, com: Command)
    requires Plain(com)
    ensures Descends(com, Silent(com)) && Sayable(num, com, Silent(com))
    ensures Written(com, Silent(com)) == [] && LeftOver(com, Silent(com)) == []
    decreases com
  {
    var m := FindImplicit(com.children);
    if m < |com.children| {
      SilentSayable(num, com.children[m]);
      EndPasses(com, "");
    }
  }

  /** With no arguments at all, the first implicit commands are selected, level by level. */
  lemma NothingSaid(num: Numbers, root: Command, program: string) returns (store: Store)
    requires ProperTree(root) && Plain(root) && root.name != "" && Complete(root, Silent(root))
    ensures Descends(root, Silent(root)) && Holds(root, Silent(root), store)
    ensures Parsed(num, root, [program]) == Ok(Some(store))
  {
    var inv := Silent(root);
    SilentSayable(num, root);
    LegibleIf(num, root, inv);
    assert Says(num, root, [program], inv);
    store := RoundTrip(num, root, [program], inv);
    TellsParsed(num, root, [program], inv, store);
  }
}
