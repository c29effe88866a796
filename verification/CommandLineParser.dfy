/**
  crispy::cli: the parser itself, which advances a position, keeps a stack of commands and fills a
  flag store, proved to do what CommandLine says.

  A method that returns Err stands for one that throws; the stack is popped all the same.
  */
module CommandLineParser {
  import opened Options
  import opened CommandLine
  import opened CommandLineKeys

  function Names(commands: seq<Command>): (p: Place)
    ensures |p| == |commands|
    ensures forall i :: 0 <= i < |p| ==> p[i] == commands[i].name
  {
    seq(|commands|, i requires 0 <= i < |commands| => commands[i].name)
  }

  /** What the remaining options of a command will make of the flags. */
  ghost function Effect(values: Values, rest: Result<(seq<Write>, nat)>): Result<(Values, nat)> {
    if rest.Err? then Err(rest.error) else Ok((Applied(values, rest.value.0), rest.value.1))
  }

  lemma OptionTurn(num: Numbers, options: seq<Opt>, at: Place, args: seq<string>, pos: nat, values: Values,
                   given: Result<Option<Given>>)
    requires pos <= |args| && given == TryOption(num, options, args, pos)
    ensures given.Err? ==> OptionLog(num, options, at, args, pos) == Err(given.error)
    ensures given == Ok(None) ==> OptionLog(num, options, at, args, pos) == Ok(([], pos))
    ensures given.Ok? && given.value.Some? ==>
              var g := given.value.value;
              g.pos <= |args| && Effect(values, OptionLog(num, options, at, args, pos))
              == Effect(values[Join(at + [g.opt.longName]) := g.value], OptionLog(num, options, at, args, g.pos))
  {
    if given.Ok? && given.value.Some? {
      var g := given.value.value;
      var rest := OptionLog(num, options, at, args, g.pos);
      if rest.Ok? {
        AppliedFirst(values, Write(at + [g.opt.longName], g.value), rest.value.0);
      }
    }
  }

  class ParseContext {
    const num: Numbers
    const args: seq<string>
    var pos: nat
    var currentCommand: seq<Command>
    var currentOption: Option<Opt>
    var values: Values
    var verbatim: seq<string>

    constructor (num: Numbers, args: seq<string>)
      ensures this.num == num && this.args == args
      ensures Valid() && pos == 0 && currentCommand == [] && values == map[] && verbatim == []
    {
      this.num, this.args, pos := num, args, 0;
      currentCommand, currentOption, values, verbatim := [], None, map[], [];
    }

    ghost predicate Valid()
      reads this
    {
      pos <= |args|
    }

    function At(): Place
      reads this
    {
      Names(currentCommand)
    }

    function CurrentToken(): string
      reads this
    {
      TokenAt(args, pos)
    }

    method NamePrefix() returns (output: string)
      ensures output == Join(At())
    {
      output := "";
      var p := At();
      for i := 0 to |currentCommand|
        invariant output == Join(p[..i])
      {
        if i != 0 {
          output := output + ".";
        }
        output := output + currentCommand[i].name;
        assert p[..i + 1][..i] == p[..i];
      }
      assert p[..|p|] == p;
    }

    method ConsumeToken() returns (r: Result<string>)
      requires Valid()
      modifies `pos
      ensures Valid()
      ensures old(pos) < |args| ==> r == Ok(args[old(pos)]) && pos == old(pos) + 1
      ensures old(pos) == |args| ==> r == Err(ParserError) && pos == old(pos)
    {
      if pos >= |args| {
        return Err(ParserError);
      }
      pos := pos + 1;
      return Ok(args[pos - 1]);
    }

    method SearchOption(name: string) returns (r: Option<Opt>)
      requires currentCommand != []
      ensures r == FindOption(currentCommand[|currentCommand| - 1].options, name)
    {
      var options := currentCommand[|currentCommand| - 1].options;
      assert options[0..] == options;
      for i := 0 to |options|
        invariant FindOption(options, name) == FindOption(options[i..], name)
      {
        if Matches(options[i], name) {
          return Some(options[i]);
        }
        assert options[i..][1..] == options[i + 1..];
      }
      return None;
    }

    /** parseValue without a text of its own */
    method ParseValue() returns (r: Result<Value>)
      requires Valid() && currentOption.Some?
      modifies `pos
      ensures Valid()
      ensures match ParseFollowing(num, currentOption.value, args, old(pos))
              case Err(e) => r == Err(e)
              case Ok(p) => r == Ok(p.0) && pos == p.1
    {
      if currentOption.value.v.Bool? {
        var text := CurrentToken();
        if IsTrue(text) {
          var _ := ConsumeToken();
          return Ok(Bool(true));
        }
        if IsFalse(text) {
          var _ := ConsumeToken();
          return Ok(Bool(false));
        }
        return Ok(Bool(true));
      }
      var text :- ConsumeToken();
      r := ParseText(num, currentOption.value, text);
    }

    /** The option of that name, if there is one, and its value from the tokens behind the current one. */
    method ParseNamed(name: string) returns (r: Result<Option<Given>>)
      requires Valid() && currentCommand != []
      requires AsOption(CurrentToken()) == OptionToken(name, None)
      modifies `pos, `currentOption
      ensures Valid()
      ensures r == TryOption(num, currentCommand[|currentCommand| - 1].options, args, old(pos))
      ensures r.Ok? ==> pos == if r.value.Some? then r.value.value.pos else old(pos)
    {
      var opt := SearchOption(name);
      if opt.None? {
        return Ok(None);
      }
      var _ :- ConsumeToken();
      currentOption := opt;
      var v := ParseValue();
      currentOption := None;
      if v.Err? {
        return Err(v.error);
      }
      return Ok(Some(Given(opt.value, v.value, pos)));
    }

    method TryParseOption() returns (r: Result<Option<Given>>)
      requires Valid() && currentCommand != []
      modifies `pos, `currentOption
      ensures Valid()
      ensures r == TryOption(num, currentCommand[|currentCommand| - 1].options, args, old(pos))
      ensures r.Ok? ==> pos == if r.value.Some? then r.value.value.pos else old(pos)
    {
      var current := CurrentToken();
      if "--" <= current {
        var i := IndexOf(current, '=');
        if i < |current| && i >= 2 {
          var text := current[i + 1..];
          var opt := SearchOption(current[2..i]);
          if opt.None? {
            return Ok(None);
          }
          var _ := ConsumeToken();
          if text == "" && !opt.value.v.Str? {
            return Err(ParserError);
          }
          var v :- ParseText(num, opt.value, text);
          return Ok(Some(Given(opt.value, v, pos)));
        }
        r := ParseNamed(current[2..]);
      } else if "-" <= current {
        r := ParseNamed(current[1..]);
      } else {
        r := ParseNamed(current);
      }
    }

    ghost function Rest(): (r: Result<(seq<Write>, nat)>)
      requires Valid() && currentCommand != []
      reads this
    {
      OptionLog(num, currentCommand[|currentCommand| - 1].options, At(), args, pos)
    }

    /** One turn of parseOptionList: true when there was an option to set. */
    method SetNextOption(prefix: string) returns (r: Result<bool>)
      requires Valid() && currentCommand != [] && prefix == Join(At())
      modifies `pos, `currentOption, `values
      ensures Valid()
      ensures r.Err? ==> old(Rest()) == Err(r.error)
      ensures r == Ok(false) ==> old(Rest()) == Ok(([], pos)) && values == old(values)
      ensures r == Ok(true) ==> pos > old(pos) && Effect(values, Rest()) == old(Effect(values, Rest()))
    {
      var given := TryParseOption();
      OptionTurn(num, currentCommand[|currentCommand| - 1].options, At(), args, old(pos), values, given);
      if given.Err? {
        return Err(given.error);
      }
      if given.value.None? {
        return Ok(false);
      }
      var g := given.value.value;
      OptionKey(At(), g.opt.longName);
      values := values[prefix + "." + g.opt.longName := g.value];
      return Ok(true);
    }

    method ParseOptionList() returns (r: Result<bool>)
      requires Valid() && currentCommand != []
      modifies `pos, `currentOption, `values
      ensures Valid()
      ensures match old(Effect(values, Rest()))
              case Err(e) => r == Err(e)
              case Ok(p) => r.Ok? && values == p.0 && pos == p.1
    {
      var prefix := NamePrefix();
      while true
        invariant Valid()
        invariant Effect(values, Rest()) == old(Effect(values, Rest()))
        decreases |args| - pos
      {
        var more := SetNextOption(prefix);
        if more.Err? || !more.value {
          return more;
        }
      }
    }

    method TryLookupCommand() returns (k: nat)
      requires currentCommand != []
      ensures k == FindChild(currentCommand[|currentCommand| - 1].children, LookupToken(CurrentToken()))
    {
      var token := LookupToken(CurrentToken());
      var children := currentCommand[|currentCommand| - 1].children;
      k := 0;
      assert children[0..] == children;
      while k < |children|
        invariant k <= |children|
        invariant FindChild(children, token) == k + FindChild(children[k..], token)
      {
        if token == children[k].name {
          return;
        }
        assert children[k..][1..] == children[k + 1..];
        k := k + 1;
      }
    }

    method TryImplicitCommand() returns (k: nat)
      requires currentCommand != []
      ensures var children := currentCommand[|currentCommand| - 1].children;
              && k == FindImplicit(children) && k <= |children| && (k < |children| ==> children[k].implicit)
              && forall j :: 0 <= j < k ==> !children[j].implicit
    {
      var children := currentCommand[|currentCommand| - 1].children;
      k := 0;
      assert children[0..] == children;
      while k < |children|
        invariant k <= |children|
        invariant FindImplicit(children) == k + FindImplicit(children[k..])
      {
        if children[k].implicit {
          return;
        }
        assert children[k..][1..] == children[k + 1..];
        k := k + 1;
      }
    }

    method PrefillOptions(options: seq<Opt>)
      requires currentCommand != []
      modifies `values
      ensures values == Applied(old(values), DefaultLog(options, At()))
    {
      var prefix := NamePrefix();
      assert options[0..] == options;
      for i := 0 to |options|
        invariant Applied(values, DefaultLog(options[i..], At())) == Applied(old(values), DefaultLog(options, At()))
      {
        assert options[i..][1..] == options[i + 1..];
        ghost var rest := DefaultLog(options[i + 1..], At());
        if options[i].required {
          assert [] + rest == rest;
        } else {
          AppliedFirst(values, Write(At() + [options[i].longName], options[i].v), rest);
          OptionKey(At(), options[i].longName);
          values := values[prefix + "." + options[i].longName := options[i].v];
        }
      }
    }

    method PrefillDefaults(com: Command)
      modifies `values, `currentCommand
      ensures currentCommand == old(currentCommand)
      ensures values == Applied(old(values), PrefillLog(com, At() + [com.name]))
      decreases com
    {
      ghost var at := At() + [com.name];
      currentCommand := currentCommand + [com];
      assert At() == at;
      PrefillOptions(com.options);
      AppliedConcat(old(values), DefaultLog(com.options, at), ChildrenLog(com.children, at));
      var prefix := NamePrefix();
      assert com.children[0..] == com.children;
      for k := 0 to |com.children|
        invariant currentCommand == old(currentCommand) + [com]
        invariant Applied(values, ChildrenLog(com.children[k..], at)) == Applied(old(values), PrefillLog(com, at))
      {
        var sub := com.children[k];
        PrefillChild(values, com.children, at, k);
        OptionKey(at, sub.name);
        values := values[prefix + "." + sub.name := Bool(false)];
        PrefillDefaults(sub);
      }
      currentCommand := currentCommand[..|currentCommand| - 1];
    }

    /** Moves the remaining tokens to the verbatim list. */
    method GoVerbatim()
      requires Valid()
      modifies `pos, `verbatim
      ensures pos == |args| && verbatim == old(verbatim) + VerbatimFrom(args, old(pos))
    {
      if pos < |args| {
        if CurrentToken() == "--" {
          var _ := ConsumeToken();
        }
        ghost var start := pos;
        while pos < |args|
          invariant start <= pos <= |args|
          invariant verbatim == old(verbatim) + args[start..pos]
        {
          var token := ConsumeToken();
          verbatim := verbatim + [token.value];
          assert args[start..pos] == args[start..pos - 1] + [args[pos - 1]];
        }
        assert args[start..pos] == args[start..];
      } else {
        assert args[pos..] == [];
      }
    }

    /** What an outcome asks of the context: the writes made, the tokens consumed. */
    twostate predicate Reaches(out: Outcome)
      reads this
    {
      && values == Applied(old(values), out.log)
      && pos == out.pos
      && verbatim == old(verbatim) + out.verbatim
    }

    /** Finds the subcommand to go on with, and consumes its name if it is given by name. */
    method SelectChild(com: Command) returns (r: Result<nat>)
      requires Valid() && currentCommand != [] && currentCommand[|currentCommand| - 1] == com
      modifies `pos
      ensures Valid()
      ensures match Selection(com, args, old(pos))
              case Err(e) => r == Err(e)
              case Ok(s) => r == Ok(s.0) && pos == s.1
    {
      var k := TryLookupCommand();
      if k < |com.children| {
        var _ :- ConsumeToken();
        return Ok(k);
      }
      k := TryImplicitCommand();
      return Ok(k);
    }

    method ParseContinued(com: Command, ghost at: Place, ghost spec: Result<Outcome>) returns (r: Result<bool>)
      requires Valid() && currentCommand != [] && currentCommand[|currentCommand| - 1] == com
      requires at == At() && spec == Continued(num, com, at, args, pos)
      modifies this
      ensures Valid() && currentCommand == old(currentCommand)
      ensures spec.Err? ==> r == Err(spec.error)
      ensures spec.Ok? ==> r.Ok? && Reaches(spec.value)
      decreases com, 0
    {
      var k :- SelectChild(com);
      if k < |com.children| {
        r := ParseCommand(com.children[k], at + [com.children[k].name], spec);
      } else {
        if com.verbatim {
          GoVerbatim();
        } else {
          assert verbatim + [] == verbatim;
        }
        return Ok(true);
      }
    }

    /** The beginning of parseCommand: the command is flagged, and its options are parsed. */
    method StartCommand(com: Command, ghost at: Place) returns (r: Result<string>)
      requires Valid() && currentCommand != [] && currentCommand[|currentCommand| - 1] == com && at == At()
      modifies `pos, `currentOption, `values
      ensures Valid()
      ensures match OptionLog(num, com.options, at, args, old(pos))
              case Err(e) => r == Err(e)
              case Ok(p) => r == Ok(Join(at)) && pos == p.1 &&
                            values == Applied(old(values)[Join(at) := Bool(true)], p.0)
    {
      var prefix := NamePrefix();
      values := values[prefix := Bool(true)];
      var _ :- ParseOptionList();
      return Ok(prefix);
    }

    /** The body of parseCommand, with the command on the stack. */
    method ParseSelected(com: Command, ghost at: Place, ghost spec: Result<Outcome>) returns (r: Result<bool>)
      requires Valid() && currentCommand != [] && currentCommand[|currentCommand| - 1] == com
      requires at == At() && spec == CommandLog(num, com, at, args, pos)
      modifies this
      ensures Valid() && currentCommand == old(currentCommand)
      ensures spec.Err? ==> r == Err(spec.error)
      ensures spec.Ok? ==> r == Ok(spec.value.pos == |args|) && Reaches(spec.value)
      decreases com, 1
    {
      var prefix :- StartCommand(com, at);
      ghost var opts := OptionLog(num, com.options, at, args, old(pos)).value;
      ghost var next := Continued(num, com, at, args, opts.1);
      var _ :- ParseContinued(com, at, next);
      CommandParsed(num, com, at, args, old(pos), old(values));
      if pos == |args| {
        values := values[prefix := Bool(true)];
      }
      return Ok(pos == |args|);
    }

    method ParseCommand(com: Command, ghost at: Place, ghost spec: Result<Outcome>) returns (r: Result<bool>)
      requires Valid()
      requires at == At() + [com.name] && spec == CommandLog(num, com, at, args, pos)
      modifies this
      ensures Valid() && currentCommand == old(currentCommand)
      ensures spec.Err? ==> r == Err(spec.error)
      ensures spec.Ok? ==> r == Ok(spec.value.pos == |args|) && Reaches(spec.value)
      decreases com, 2
    {
      currentCommand := currentCommand + [com];
      assert At() == at;
      r := ParseSelected(com, at, spec);
      currentCommand := currentCommand[..|currentCommand| - 1];
    }

    /** validate, which only reads the flags. */
    method Validate(com: Command, keyPrefix: string) returns (r: Result<bool>)
      ensures r == Validated(com, keyPrefix, values)
      decreases com
    {
      var key := if keyPrefix == "" then com.name else keyPrefix + "." + com.name;
      assert com.options[0..] == com.options;
      for i := 0 to |com.options|
        invariant CheckOptions(com.options, key, values) == CheckOptions(com.options[i..], key, values)
      {
        var optionKey := key + "." + com.options[i].longName;
        if com.options[i].required && optionKey !in values {
          return Err(MissingOption(optionKey));
        }
        assert com.options[i..][1..] == com.options[i + 1..];
      }
      assert com.children[0..] == com.children;
      for k := 0 to |com.children|
        invariant ValidatedChildren(com.children, key, values) == ValidatedChildren(com.children[k..], key, values)
      {
        assert com.children[k..][1..] == com.children[k + 1..];
        var selected :- GetBool(values, key + "." + com.children[k].name);
        if selected {
          var _ :- Validate(com.children[k], key);
        }
      }
      return Ok(true);
    }
  }

  lemma OptionKey(at: Place, name: string)
    requires at != []
    ensures Join(at + [name]) == Join(at) + "." + name
  {
    assert (at + [name])[..|at|] == at;
  }

  lemma PrefillChild(values: Values, children: seq<Command>, at: Place, k: nat)
    requires k < |children|
    ensures var sub := children[k];
            Applied(values, ChildrenLog(children[k..], at))
            == Applied(Applied(values[Join(at + [sub.name]) := Bool(false)], PrefillLog(sub, at + [sub.name])),
                       ChildrenLog(children[k + 1..], at))
  {
    var sub := children[k];
    var w := Write(at + [sub.name], Bool(false));
    var first, rest := PrefillLog(sub, at + [sub.name]), ChildrenLog(children[k + 1..], at);
    assert children[k..][1..] == children[k + 1..];
    assert [w] + first + rest == [w] + (first + rest);
    AppliedFirst(values, w, first + rest);
    AppliedConcat(values[Join(w.place) := w.value], first, rest);
  }

  lemma CommandWritten(values: Values, at: Place, opts: seq<Write>, out: Outcome, end: nat)
    ensures var again := if out.pos == end then [Write(at, Bool(true))] else [];
            var written := Applied(Applied(values[Join(at) := Bool(true)], opts), out.log);
            Applied(values, [Write(at, Bool(true))] + opts + out.log + again)
            == if out.pos == end then written[Join(at) := Bool(true)] else written
  {
    var w := Write(at, Bool(true));
    var again := if out.pos == end then [w] else [];
    AppliedConcat(values, [w] + opts + out.log, again);
    AppliedConcat(values, [w] + opts, out.log);
    AppliedFirst(values, w, opts);
    if out.pos == end {
      AppliedFirst(Applied(values, [w] + opts + out.log), w, []);
      assert [w] + [] == [w];
    }
  }

  /** The flags after a command, from those before its options. */
  lemma CommandParsed(num: Numbers, com: Command, at: Place, args: seq<string>, pos: nat, values: Values)
    requires pos <= |args| && OptionLog(num, com.options, at, args, pos).Ok?
    requires Continued(num, com, at, args, OptionLog(num, com.options, at, args, pos).value.1).Ok?
    ensures var opts := OptionLog(num, com.options, at, args, pos).value;
            var next, parse := Continued(num, com, at, args, opts.1).value, CommandLog(num, com, at, args, pos);
            var written := Applied(Applied(values[Join(at) := Bool(true)], opts.0), next.log);
            && parse.Ok? && parse.value.pos == next.pos && parse.value.verbatim == next.verbatim
            && Applied(values, parse.value.log)
               == if next.pos == |args| then written[Join(at) := Bool(true)] else written
  {
    var opts := OptionLog(num, com.options, at, args, pos).value;
    CommandWritten(values, at, opts.0, Continued(num, com, at, args, opts.1).value, |args|);
  }

  /** What parse makes of the outcome for the root. */
  ghost function Concluded(root: Command, args: seq<string>, out: Result<Outcome>): Result<Option<Store>> {
    if out.Err? then Err(out.error)
    else if out.value.pos != |args| then Ok(None)
    else
      var values := Applied(Applied(map[], PrefillLog(root, [root.name])), out.value.log);
      var valid := Validated(root, "", values);
      if valid.Err? then Err(valid.error) else Ok(Some(Store(values, out.value.verbatim)))
  }

  lemma ParsedByConclusion(num: Numbers, root: Command, args: seq<string>)
    requires args != []
    ensures Parsed(num, root, args) == Concluded(root, args, CommandLog(num, root, [root.name], args, 1))
  {
    var out := CommandLog(num, root, [root.name], args, 1);
    if out.Ok? {
      AppliedConcat(map[], PrefillLog(root, [root.name]), out.value.log);
    }
  }

  method Conclude(context: ParseContext, root: Command, ghost spec: Result<Outcome>) returns (r: Result<Option<Store>>)
    requires context.Valid() && context.currentCommand == [] && context.verbatim == []
    requires context.values == Applied(map[], PrefillLog(root, [root.name]))
    requires spec == CommandLog(context.num, root, [root.name], context.args, context.pos)
    modifies context
    ensures r == Concluded(root, context.args, spec)
  {
    assert context.At() + [root.name] == [root.name];
    var complete :- context.ParseCommand(root, [root.name], spec);
    if !complete {
      return Ok(None);
    }
    var _ :- context.Validate(root, "");
    assert [] + spec.value.verbatim == spec.value.verbatim;
    return Ok(Some(Store(context.values, context.verbatim)));
  }

  /** parse */
  method Parse(num: Numbers, root: Command, args: seq<string>) returns (r: Result<Option<Store>>)
    ensures r == Parsed(num, root, args)
  {
    var context := new ParseContext(num, args);
    assert context.At() + [root.name] == [root.name];
    context.PrefillDefaults(root);
    var _ :- context.ConsumeToken();
    ParsedByConclusion(num, root, args);
    r := Conclude(context, root, CommandLog(num, root, [root.name], args, 1));
  }
}
