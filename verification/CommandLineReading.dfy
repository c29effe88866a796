/** The parser accepts exactly the command lines of the grammar, and reads from them what they mean. */
module CommandLineReading {
  import opened Options
  import opened CommandLine
  import opened CommandLineGrammar

  // ----- One option -----

  lemma FollowingRead(num: Numbers, o: Opt, text: Option<string>, v: Value, args: seq<string>, pos: nat)
    requires pos <= |args| && SameType(v, o.v)
    requires text.None? ==> v == Bool(true) && !IsWord(TokenAt(args, pos))
    requires text.Some? ==> pos < |args| && args[pos] == text.value && Denotes(num, text.value, v)
    ensures ParseFollowing(num, o, args, pos) == Ok((v, if text.None? then pos else pos + 1))
  {
    if text.Some? {
      TextMeans(num, o, text.value, v);
    }
  }

  lemma SpelledValue(num: Numbers, com: Command, s: Setting, args: seq<string>, pos: nat, next: nat)
    requires s.option < |com.options| && Fits(num, com, s)
    requires var t := Spelled(com.options[s.option], s);
             next == pos + |t| <= |args| && args[pos..next] == t && (s.text.None? ==> !IsWord(TokenAt(args, next)))
    ensures var o, token := com.options[s.option], AsOption(args[pos]);
            token.name == NameOf(o, s) && ValueOf(num, o, token.text, args, pos) == Ok((s.value, next))
  {
    var o := com.options[s.option];
    var t, name := Spelled(o, s), NameOf(o, s);
    assert args[pos] == args[pos..next][0] == t[0];
    if s.form.Assigned? {
      AssignedName(name, s.text.value);
      TextMeans(num, o, s.text.value, s.value);
    } else {
      SeparateName(s.form, name);
      if s.text.Some? {
        assert args[pos + 1] == args[pos..next][1] == t[1];
      }
      FollowingRead(num, o, s.text, s.value, args, pos + 1);
    }
  }

  /** A spelled option is recognised, with its value. */
  lemma SpelledRead(num: Numbers, com: Command, s: Setting, args: seq<string>, pos: nat, next: nat)
    requires s.option < |com.options| && Fits(num, com, s)
    requires var t := Spelled(com.options[s.option], s);
             next == pos + |t| <= |args| && args[pos..next] == t && (s.text.None? ==> !IsWord(TokenAt(args, next)))
    ensures TryOption(num, com.options, args, pos) == Ok(Some(Given(com.options[s.option], s.value, next)))
  {
    var o := com.options[s.option];
    SpelledValue(num, com, s, args, pos, next);
    FoundFirst(com.options, NameOf(o, s), s.option);
  }

  /** Where a value is read from the following tokens, and from what text. */
  lemma FollowingWritten(num: Numbers, o: Opt, args: seq<string>, pos: nat, v: Value, next: nat)
    returns (text: Option<string>)
    requires pos <= |args| && ParseFollowing(num, o, args, pos) == Ok((v, next))
    ensures SameType(v, o.v)
    ensures text.None? ==> v == Bool(true) && next == pos && !IsWord(TokenAt(args, pos))
    ensures text.Some? ==> pos < |args| && next == pos + 1 && text.value == args[pos] && Denotes(num, text.value, v)
  {
    if next == pos {
      text := None;
    } else {
      text := Some(args[pos]);
      TextMeans(num, o, args[pos], v);
    }
  }

  /** What is recognised as an option was spelled as one. */
  lemma OptionWritten(num: Numbers, com: Command, args: seq<string>, pos: nat, g: Given) returns (s: Setting)
    requires pos <= |args| && TryOption(num, com.options, args, pos) == Ok(Some(g))
    ensures s.option < |com.options| && Fits(num, com, s) && com.options[s.option] == g.opt && s.value == g.value
    ensures pos < g.pos <= |args| && args[pos..g.pos] == Spelled(g.opt, s)
    ensures s.text.None? ==> !IsWord(TokenAt(args, g.pos))
  {
    var token, o := AsOption(args[pos]), g.opt;
    var i := FoundIndex(com.options, token.name);
    var form, text := ValueWritten(num, o, args, pos, g.value, g.pos);
    s := Setting(i, form, token.name != o.longName, text, g.value);
    assert NameOf(o, s) == token.name;
  }

  /** In what form an option was given, and from what text its value was read. */
  lemma ValueWritten(num: Numbers, o: Opt, args: seq<string>, pos: nat, v: Value, next: nat)
    returns (form: Form, text: Option<string>)
    requires pos < |args| && ValueOf(num, o, AsOption(args[pos]).text, args, pos) == Ok((v, next))
    ensures SameType(v, o.v) && Suits(form, AsOption(args[pos]).name)
    ensures text.None? ==> !form.Assigned? && v == Bool(true) && !IsWord(TokenAt(args, next))
    ensures text.Some? ==> Denotes(num, text.value, v) && (form.Assigned? && text.value == "" ==> v.Str?)
    ensures pos < next <= |args|
    ensures var lead := Lead(form, AsOption(args[pos]).name);
            args[pos..next] ==
            if text.None? then [lead] else if form.Assigned? then [lead + text.value] else [lead, text.value]
  {
    var token := AsOption(args[pos]);
    form := TokenForm(args[pos]);
    if token.text.Some? {
      text := token.text;
      TextMeans(num, o, text.value, v);
    } else {
      text := FollowingWritten(num, o, args, pos + 1, v, next);
      var lead := Lead(form, token.name);
      assert lead + "" == lead;
    }
  }

  // ----- The options of a command -----

  lemma OneMore(num: Numbers, options: seq<Opt>, at: Place, args: seq<string>, pos: nat, g: Given,
                log: seq<Write>, end: nat)
    requires pos < g.pos <= |args| && TryOption(num, options, args, pos) == Ok(Some(g))
    requires OptionLog(num, options, at, args, g.pos) == Ok((log, end))
    ensures OptionLog(num, options, at, args, pos) == Ok(([Write(at + [g.opt.longName], g.value)] + log, end))
  {
  }

  lemma SettingLogSplit(com: Command, at: Place, settings: seq<Setting>)
    requires Fitting(com, settings)
    ensures settings == [] ==> SettingLog(com, at, settings) == []
    ensures settings != [] ==>
              var w := Write(at + [com.options[settings[0].option].longName], settings[0].value);
              Fitting(com, settings[1..]) && SettingLog(com, at, settings) == [w] + SettingLog(com, at, settings[1..])
  {
  }

  lemma FirstIsAt(args: seq<string>, pos: nat)
    requires pos <= |args|
    ensures FirstToken(args[pos..]) == TokenAt(args, pos)
  {
  }

  /** No option at a position ends the options there. */
  lemma NoOption(num: Numbers, com: Command, at: Place, args: seq<string>, pos: nat)
    requires pos <= |args|
    ensures SpellsNone(com.options, TokenAt(args, pos)) ==>
              OptionLog(num, com.options, at, args, pos) == Ok(([], pos))
  {
    FoundNone(com.options, TokenAt(args, pos));
  }

  lemma Associates<T>(a: seq<T>, b: seq<T>, c: seq<T>)
    ensures a + (b + c) == (a + b) + c
  {
  }

  lemma Parts<T>(s: seq<T>, pos: nat, a: seq<T>, b: seq<T>)
    requires pos <= |s| && s[pos..] == a + b
    ensures pos + |a| <= |s| && s[pos..pos + |a|] == a && s[pos + |a|..] == b
  {
    assert s[pos..pos + |a|] == s[pos..][..|a|];
    assert s[pos + |a|..] == s[pos..][|a|..];
  }

  lemma SplitTokens(com: Command, settings: seq<Setting>, after: seq<string>, args: seq<string>, pos: nat)
    returns (next: nat)
    requires Fitting(com, settings) && settings != [] && pos <= |args|
    requires args[pos..] == Tokens(com, settings) + after
    ensures var t := Spelled(com.options[settings[0].option], settings[0]);
            next == pos + |t| <= |args| && args[pos..next] == t
    ensures Fitting(com, settings[1..]) && args[next..] == Tokens(com, settings[1..]) + after
  {
    var t := Spelled(com.options[settings[0].option], settings[0]);
    var later := Tokens(com, settings[1..]);
    Associates(t, later, after);
    Parts(args, pos, t, later + after);
    next := pos + |t|;
  }

  /** The options of the settings are recognised one after the other. */
  lemma {:induction false} SettingsRead(num: Numbers, com: Command, at: Place, settings: seq<Setting>,
                                        after: seq<string>, args: seq<string>, pos: nat, end: nat)
    requires Fitting(com, settings) && AllFit(num, com, settings) && Flows(com, settings, after)
    requires pos <= end <= |args| && args[pos..] == Tokens(com, settings) + after && args[end..] == after
    requires SpellsNone(com.options, FirstToken(after))
    ensures OptionLog(num, com.options, at, args, pos) == Ok((SettingLog(com, at, settings), end))
    decreases |settings|
  {
    if settings == [] {
      assert |args| - pos == |after| == |args| - end;
      FirstIsAt(args, pos);
      NoOption(num, com, at, args, pos);
    } else {
      var o, s, later := com.options[settings[0].option], settings[0], settings[1..];
      var next := SplitTokens(com, settings, after, args, pos);
      assert |args| - next == |Tokens(com, later)| + |after|;
      FirstIsAt(args, next);
      assert Fits(num, com, s);
      SpelledRead(num, com, s, args, pos, next);
      SettingsRead(num, com, at, later, after, args, next, end);
      OneMore(num, com.options, at, args, pos, Given(o, s.value, next), SettingLog(com, at, later), end);
    }
    SettingLogSplit(com, at, settings);
  }

  lemma JoinTokens(com: Command, s: Setting, later: seq<Setting>, args: seq<string>, pos: nat, next: nat, end: nat)
    requires s.option < |com.options| && Fitting(com, later) && pos < next <= |args| && end <= |args|
    requires args[pos..next] == Spelled(com.options[s.option], s)
    requires args[next..] == Tokens(com, later) + args[end..]
    ensures ([s] + later)[1..] == later && Fitting(com, [s] + later)
    ensures args[pos..] == Tokens(com, [s] + later) + args[end..]
  {
    var t := Spelled(com.options[s.option], s);
    assert ([s] + later)[1..] == later;
    assert args[pos..] == t + args[next..] by {
      assert args[pos..] == args[pos..next] + args[next..];
    }
    Associates(t, Tokens(com, later), args[end..]);
  }

  /** What is recognised as a list of options was written as settings. */
  lemma {:induction false} SettingsWritten(num: Numbers, com: Command, at: Place, args: seq<string>, pos: nat)
    returns (settings: seq<Setting>)
    requires pos <= |args| && OptionLog(num, com.options, at, args, pos).Ok?
    ensures Fitting(com, settings) && AllFit(num, com, settings)
    ensures var end := OptionLog(num, com.options, at, args, pos).value.1;
            && args[pos..] == Tokens(com, settings) + args[end..]
            && Flows(com, settings, args[end..]) && SpellsNone(com.options, TokenAt(args, end))
    decreases |args| - pos
  {
    var given := TryOption(num, com.options, args, pos).value;
    if given.None? {
      settings := [];
      FoundNone(com.options, TokenAt(args, pos));
    } else {
      var g, end := given.value, OptionLog(num, com.options, at, args, pos).value.1;
      var s := OptionWritten(num, com, args, pos, g);
      var later := SettingsWritten(num, com, at, args, g.pos);
      settings := [s] + later;
      JoinTokens(com, s, later, args, pos, g.pos, end);
      FirstIsAt(args, g.pos);
    }
  }

  // ----- What follows the options -----

  lemma StopsRead(num: Numbers, com: Command, at: Place, inv: Invocation, args: seq<string>, pos: nat)
    requires inv.Here? && Legible(num, com, inv) && pos <= |args| && args[pos..] == After(com, inv)
    ensures Continued(num, com, at, args, pos) == Ok(Alone(com, at, args, pos))
    ensures var out := Alone(com, at, args, pos);
            out.pos + |LeftOver(com, inv)| == |args| && out.verbatim == PassedOn(com, inv)
  {
    FirstIsAt(args, pos);
    CallsNoneExactly(com.children, TokenAt(args, pos));
    assert com.children[..|com.children|] == com.children;
    FirstImplicit(com.children, |com.children|);
    if inv.dashes {
      assert args[pos] == args[pos..][0] == "--";
      assert args[pos + 1..] == args[pos..][1..] == inv.rest;
    } else {
      assert args[pos..] == inv.rest;
    }
  }

  lemma SelectsRead(num: Numbers, com: Command, at: Place, inv: Invocation, args: seq<string>, pos: nat)
    returns (next: nat)
    requires inv.Below? && Legible(num, com, inv) && pos <= |args| && args[pos..] == After(com, inv)
    ensures pos <= next <= |args| && args[next..] == Written(com.children[inv.child], inv.next)
    ensures Continued(num, com, at, args, pos)
         == CommandLog(num, com.children[inv.child], at + [com.children[inv.child].name], args, next)
  {
    var c := com.children[inv.child];
    var token := TokenAt(args, pos);
    FirstIsAt(args, pos);
    if inv.naming.Unnamed? {
      next := pos;
      CallsNoneExactly(com.children, token);
      FirstImplicit(com.children, inv.child);
    } else {
      next := pos + 1;
      assert args[pos] == args[pos..][0] == Called(inv.naming, c.name)[0];
      assert args[next..] == args[pos..][1..];
      CallsExactly(token, c.name);
      FirstChild(com.children, inv.child);
    }
  }

  /** The tokens written for an invocation are read as just that invocation. */
  lemma {:induction false} InvocationRead(num: Numbers, com: Command, at: Place, inv: Invocation,
                                          args: seq<string>, pos: nat)
    requires Legible(num, com, inv) && pos <= |args| && args[pos..] == Written(com, inv)
    ensures var parse := CommandLog(num, com, at, args, pos);
            parse.Ok? && Means(com, at, inv, |args|, parse.value)
    decreases inv
  {
    var mid := OwnRead(num, com, at, inv, args, pos);
    if inv.Here? {
      StopsRead(num, com, at, inv, args, mid);
    } else {
      var c := com.children[inv.child];
      var next := SelectsRead(num, com, at, inv, args, mid);
      InvocationRead(num, c, at + [c.name], inv.next, args, next);
    }
  }

  lemma OwnRead(num: Numbers, com: Command, at: Place, inv: Invocation, args: seq<string>, pos: nat)
    returns (mid: nat)
    requires Legible(num, com, inv) && pos <= |args| && args[pos..] == Written(com, inv)
    ensures pos <= mid <= |args| && args[mid..] == After(com, inv)
    ensures OptionLog(num, com.options, at, args, pos) == Ok((SettingLog(com, at, inv.settings), mid))
  {
    var own, after := Tokens(com, inv.settings), After(com, inv);
    Parts(args, pos, own, after);
    mid := pos + |own|;
    SettingsRead(num, com, at, inv.settings, after, args, pos, mid);
  }

  // ----- Whatever is accepted was written -----

  lemma StopsWritten(num: Numbers, com: Command, at: Place, settings: seq<Setting>, args: seq<string>, pos: nat)
    returns (inv: Invocation)
    requires pos <= |args| && Selection(com, args, pos).Ok? && Selection(com, args, pos).value.0 == |com.children|
    requires Fitting(com, settings) && AllFit(num, com, settings)
    requires Flows(com, settings, args[pos..]) && SpellsNone(com.options, TokenAt(args, pos))
    ensures Legible(num, com, inv) && inv.settings == settings && After(com, inv) == args[pos..]
  {
    FirstIsAt(args, pos);
    CallsNoneExactly(com.children, TokenAt(args, pos));
    assert NoneImplicit(com.children);
    if com.verbatim && pos < |args| && args[pos] == "--" {
      inv := Here(settings, true, args[pos + 1..]);
      assert args[pos..] == ["--"] + args[pos + 1..];
    } else {
      inv := Here(settings, false, args[pos..]);
      assert After(com, inv) == args[pos..];
    }
  }

  lemma SelectsWritten(com: Command, args: seq<string>, pos: nat) returns (naming: Naming)
    requires pos <= |args| && Selection(com, args, pos).Ok? && Selection(com, args, pos).value.0 < |com.children|
    ensures var s := Selection(com, args, pos).value;
            && Selects(com, naming, s.0, TokenAt(args, pos))
            && args[pos..] == Called(naming, com.children[s.0].name) + args[s.1..]
  {
    var s, token := Selection(com, args, pos).value, TokenAt(args, pos);
    CallsNoneExactly(com.children, token);
    if s.1 == pos {
      naming := Unnamed;
      assert args[pos..] == [] + args[pos..];
    } else {
      naming := if "--" <= token then Dashed else Named;
      CallsExactly(token, com.children[s.0].name);
      assert args[pos..] == [args[pos]] + args[s.1..];
    }
  }

  /** What the parser accepts is the writing of an invocation. */
  lemma {:induction false} InvocationWritten(num: Numbers, com: Command, at: Place, args: seq<string>, pos: nat)
    returns (inv: Invocation)
    requires pos <= |args| && CommandLog(num, com, at, args, pos).Ok?
    ensures Legible(num, com, inv) && args[pos..] == Written(com, inv)
    decreases com
  {
    var mid := OptionLog(num, com.options, at, args, pos).value.1;
    var settings := SettingsWritten(num, com, at, args, pos);
    var s := Selection(com, args, mid).value;
    if s.0 < |com.children| {
      var c := com.children[s.0];
      var naming := SelectsWritten(com, args, mid);
      var next := InvocationWritten(num, c, at + [c.name], args, s.1);
      inv := Below(settings, naming, s.0, next);
      assert After(com, inv) == args[mid..];
      FirstIsAt(args, mid);
    } else {
      inv := StopsWritten(num, com, at, settings, args, mid);
    }
  }

  /** For every command and all tokens: the parser accepts exactly what can be written, and reads what is meant. */
  lemma AcceptsExactly(num: Numbers, com: Command, at: Place, args: seq<string>, pos: nat, out: Outcome)
    requires pos <= |args|
    ensures CommandLog(num, com, at, args, pos) == Ok(out) <==>
              exists inv :: Legible(num, com, inv) && args[pos..] == Written(com, inv)
                            && Means(com, at, inv, |args|, out)
  {
    if CommandLog(num, com, at, args, pos).Ok? {
      var inv := InvocationWritten(num, com, at, args, pos);
      InvocationRead(num, com, at, inv, args, pos);
    }
    if inv :| Legible(num, com, inv) && args[pos..] == Written(com, inv) && Means(com, at, inv, |args|, out) {
      InvocationRead(num, com, at, inv, args, pos);
    }
  }
}
