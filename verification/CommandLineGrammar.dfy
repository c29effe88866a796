/**
  The language of command lines, stated without the parser: what can be written for a tree of commands
  and what is meant by it. The parser accepts exactly this language and reads it in this way.
  */
module CommandLineGrammar {
  import opened Options
  import opened Words
  import opened CommandLine

  /** --NAME=VALUE, --NAME VALUE, -NAME VALUE or NAME VALUE */
  datatype Form = Assigned | Long | Single | Bare

  /**
    One of a command's options, by its index, how its name is spelled, the text of its value, which a
    flag may leave out, and the value that is meant.
    */
  datatype Setting = Setting(option: nat, form: Form, short: bool, text: Option<string>, value: Value)

  /** A subcommand by its name, by its name behind dashes, or not named at all. */
  datatype Naming = Named | Dashed | Unnamed

  /** The settings of a command, and then a subcommand, or whatever tokens are left. */
  datatype Invocation =
    | Here(settings: seq<Setting>, dashes: bool, rest: seq<string>)
    | Below(settings: seq<Setting>, naming: Naming, child: nat, next: Invocation)

  // ----- Words and names -----

  predicate IsWord(token: string) {
    token in {"true", "yes", "false", "no"}
  }

  /** What a text stands for. An unsigned number is taken modulo 2^32. */
  predicate Denotes(num: Numbers, text: string, v: Value) {
    match v
    case Bool(b) => text in if b then {"true", "yes"} else {"false", "no"}
    case Double(d) => num.toDouble(text) == Some(d)
    case Uint(u) => num.toUint(text).Some? && num.toUint(text).value % WORD32 == u
    case Int(i) => num.toInt(text) == Some(i)
    case Str(s) => text == s
  }

  /** Which names can be spelled in which form. */
  predicate Suits(form: Form, name: string) {
    if form.Assigned? || form.Long? then '=' !in name else !("-" <= name)
  }

  /** The token, or its part before the value. */
  function Lead(form: Form, name: string): string {
    match form
    case Assigned => "--" + name + "="
    case Long => "--" + name
    case Single => "-" + name
    case Bare => name
  }

  /** The token spells an option of that name. */
  predicate Spells(token: string, name: string) {
    || (!("-" <= name) && (token == name || token == "-" + name))
    || ('=' !in name && (token == "--" + name || "--" + name + "=" <= token))
  }

  predicate Answers(o: Opt, name: string) {
    name == o.longName || name == [o.shortName]
  }

  predicate SpellsNone(options: seq<Opt>, token: string) {
    forall i :: 0 <= i < |options| ==> !Spells(token, options[i].longName) && !Spells(token, [options[i].shortName])
  }

  /** The token calls a command of that name. */
  predicate Calls(token: string, name: string) {
    token == "--" + name || (token == name && !("--" <= name))
  }

  predicate CallsNone(children: seq<Command>, token: string) {
    forall k :: 0 <= k < |children| ==> !Calls(token, children[k].name)
  }

  predicate NoneImplicit(children: seq<Command>) {
    forall k :: 0 <= k < |children| ==> !children[k].implicit
  }

  // ----- What is written -----

  function FirstToken(tokens: seq<string>): string {
    if tokens == [] then "" else tokens[0]
  }

  function NameOf(o: Opt, s: Setting): string {
    if s.short then [o.shortName] else o.longName
  }

  function Spelled(o: Opt, s: Setting): (t: seq<string>)
    ensures t != []
  {
    var lead := Lead(s.form, NameOf(o, s));
    if s.text.None? then [lead] else if s.form.Assigned? then [lead + s.text.value] else [lead, s.text.value]
  }

  predicate Fitting(com: Command, settings: seq<Setting>) {
    forall i :: 0 <= i < |settings| ==> settings[i].option < |com.options|
  }

  /** The invocation runs down the tree of commands. */
  predicate Descends(com: Command, inv: Invocation)
    decreases inv
  {
    Fitting(com, inv.settings)
      && (inv.Below? ==> inv.child < |com.children| && Descends(com.children[inv.child], inv.next))
  }

  function Tokens(com: Command, settings: seq<Setting>): seq<string>
    requires Fitting(com, settings)
  {
    if settings == [] then []
    else Spelled(com.options[settings[0].option], settings[0]) + Tokens(com, settings[1..])
  }

  function Called(naming: Naming, name: string): seq<string> {
    match naming
    case Named => [name]
    case Dashed => ["--" + name]
    case Unnamed => []
  }

  /** What stands behind the settings of a command. */
  function After(com: Command, inv: Invocation): seq<string>
    requires Descends(com, inv)
    decreases inv, 0
  {
    match inv
    case Here(_, dashes, rest) => (if dashes then ["--"] else []) + rest
    case Below(_, naming, child, next) =>
      Called(naming, com.children[child].name) + Written(com.children[child], next)
  }

  function Written(com: Command, inv: Invocation): seq<string>
    requires Descends(com, inv)
    decreases inv, 1
  {
    Tokens(com, inv.settings) + After(com, inv)
  }

  // ----- What can be written -----

  /** The first option of that name is meant, and the text stands for the value. */
  predicate Fits(num: Numbers, com: Command, s: Setting)
    requires s.option < |com.options|
  {
    var o := com.options[s.option];
    var name := NameOf(o, s);
    && SameType(s.value, o.v)
    && (forall j :: 0 <= j < s.option ==> !Answers(com.options[j], name))
    && Suits(s.form, name)
    && if s.text.None? then !s.form.Assigned? && s.value == Bool(true)
       else Denotes(num, s.text.value, s.value) && (s.form.Assigned? && s.text.value == "" ==> s.value.Str?)
  }

  predicate AllFit(num: Numbers, com: Command, settings: seq<Setting>)
    requires Fitting(com, settings)
  {
    forall i :: 0 <= i < |settings| ==> Fits(num, com, settings[i])
  }

  /** A flag without a value is not followed by a truth value. */
  predicate Flows(com: Command, settings: seq<Setting>, after: seq<string>)
    requires Fitting(com, settings)
  {
    settings == [] ||
    var tokens := Tokens(com, settings[1..]) + after;
    (settings[0].text.None? ==> !IsWord(FirstToken(tokens))) && Flows(com, settings[1..], after)
  }

  /** A command without a subcommand takes the tokens left, behind optional dashes, or leaves them. */
  predicate Stops(com: Command, dashes: bool, rest: seq<string>, token: string) {
    && CallsNone(com.children, token) && NoneImplicit(com.children)
    && if com.verbatim then dashes || FirstToken(rest) != "--" else !dashes
  }

  /** The first child of that name, or, if the token calls none, the first implicit one. */
  predicate Selects(com: Command, naming: Naming, child: nat, token: string)
    requires child < |com.children|
  {
    var c := com.children[child];
    if naming.Unnamed? then
      CallsNone(com.children, token) && c.implicit && NoneImplicit(com.children[..child])
    else
      (naming.Named? ==> !("--" <= c.name)) && forall j :: 0 <= j < child ==> com.children[j].name != c.name
  }

  /** The command line says what the invocation means. */
  ghost predicate Legible(num: Numbers, com: Command, inv: Invocation)
    ensures Legible(num, com, inv) ==> Descends(com, inv)
    decreases inv
  {
    && Fitting(com, inv.settings)
    && (inv.Below? ==> inv.child < |com.children| && Legible(num, com.children[inv.child], inv.next))
    && AllFit(num, com, inv.settings)
    && var after := After(com, inv);
    && Flows(com, inv.settings, after)
    && SpellsNone(com.options, FirstToken(after))
    && match inv
       case Here(_, dashes, rest) => Stops(com, dashes, rest, FirstToken(after))
       case Below(_, naming, child, _) => Selects(com, naming, child, FirstToken(after))
  }

  // ----- What is meant by it -----

  ghost function SettingLog(com: Command, at: Place, settings: seq<Setting>): (log: seq<Write>)
    requires Fitting(com, settings)
    ensures |log| == |settings|
    ensures forall i :: 0 <= i < |log| ==>
              log[i] == Write(at + [com.options[settings[i].option].longName], settings[i].value)
  {
    seq(|settings|, i requires 0 <= i < |settings| =>
      Write(at + [com.options[settings[i].option].longName], settings[i].value))
  }

  /** The tokens that nobody takes. */
  function LeftOver(com: Command, inv: Invocation): seq<string>
    requires Descends(com, inv)
    decreases inv
  {
    match inv
    case Here(_, _, rest) => if com.verbatim then [] else rest
    case Below(_, _, child, next) => LeftOver(com.children[child], next)
  }

  /** The tokens that are passed on as they are. */
  function PassedOn(com: Command, inv: Invocation): seq<string>
    requires Descends(com, inv)
    decreases inv
  {
    match inv
    case Here(_, _, rest) => if com.verbatim then rest else []
    case Below(_, _, child, next) => PassedOn(com.children[child], next)
  }

  /** The command that is meant. */
  function Target(com: Command, at: Place, inv: Invocation): Place
    decreases inv
  {
    if inv.Below? && inv.child < |com.children| then
      Target(com.children[inv.child], at + [com.children[inv.child].name], inv.next)
    else at
  }

  /** All writes of the parse: the settings and the flags of the commands. */
  ghost function InvocationLog(com: Command, at: Place, inv: Invocation): seq<Write>
    requires Descends(com, inv)
    decreases inv
  {
    var w := [Write(at, Bool(true))];
    w + SettingLog(com, at, inv.settings) +
    (if inv.Here? then [] else
     InvocationLog(com.children[inv.child], at + [com.children[inv.child].name], inv.next)) +
    if LeftOver(com, inv) == [] then w else []
  }

  ghost predicate Means(com: Command, at: Place, inv: Invocation, end: nat, out: Outcome)
    requires Descends(com, inv)
  {
    && out.log == InvocationLog(com, at, inv)
    && out.pos + |LeftOver(com, inv)| == end
    && out.verbatim == PassedOn(com, inv)
    && out.chosen == Target(com, at, inv)
  }

  // ----- The parser's words are those of the grammar -----

  lemma TextMeans(num: Numbers, o: Opt, text: string, v: Value)
    ensures ParseText(num, o, text) == Ok(v) <==> SameType(v, o.v) && Denotes(num, text, v)
  {
  }

  lemma FirstEquals(name: string, text: string)
    requires '=' !in name
    ensures IndexOf(name + "=" + text, '=') == |name|
  {
    var s := name + "=" + text;
    assert s[|name|] == '=';
    assert forall i :: 0 <= i < |name| ==> s[i] == name[i];
  }

  lemma AssignedName(name: string, text: string)
    requires '=' !in name
    ensures AsOption("--" + name + "=" + text) == OptionToken(name, Some(text))
  {
    var token := ("--" + name) + "=" + text;
    FirstEquals("--" + name, text);
    var i := |name| + 2;
    assert token[2..i] == name && token[i + 1..] == text;
  }

  lemma SeparateName(form: Form, name: string)
    requires !form.Assigned? && Suits(form, name)
    ensures AsOption(Lead(form, name)) == OptionToken(name, None)
  {
    var token := Lead(form, name);
    match form
    case Long =>
      assert token[2..] == name;
      assert IndexOf(token, '=') == |token|;
    case Single =>
      assert token[1..] == name;
    case Bare =>
  }

  lemma CutIn<T>(s: seq<T>, i: nat, j: nat)
    requires i <= j <= |s|
    ensures s == s[..i] + s[i..j] + s[j..]
  {
  }

  lemma AssignedToken(token: string)
    requires "--" <= token && AsOption(token).text.Some?
    ensures var t := AsOption(token); '=' !in t.name && token == "--" + t.name + "=" + t.text.value
  {
    var t, i := AsOption(token), IndexOf(token, '=');
    CutIn(token, 2, i);
    CutIn(token[i..], 1, 1);
    assert token[i..][..1] == "=" && token[i..][1..] == t.text.value;
    assert token == "--" + t.name + ("=" + t.text.value);
    assert forall k :: 0 <= k < |t.name| ==> t.name[k] == token[k + 2];
  }

  lemma LongToken(token: string)
    requires "--" <= token && AsOption(token).text.None?
    ensures '=' !in AsOption(token).name && token == "--" + AsOption(token).name
  {
    var name := AsOption(token).name;
    assert token == token[..2] + token[2..];
    assert forall k :: 0 <= k < |name| ==> name[k] == token[k + 2];
  }

  /** Every token has a form, and leads to one name in it. */
  lemma TokenForm(token: string) returns (form: Form)
    ensures var t := AsOption(token);
            && Suits(form, t.name) && (form.Assigned? <==> t.text.Some?)
            && token == Lead(form, t.name) + if t.text.Some? then t.text.value else ""
  {
    var t := AsOption(token);
    if "--" <= token {
      if t.text.Some? {
        form := Assigned;
        AssignedToken(token);
      } else {
        form := Long;
        LongToken(token);
      }
    } else if "-" <= token {
      form := Single;
      assert token == token[..1] + token[1..];
      assert t.name != "" ==> t.name[0] == token[1];
    } else {
      form := Bare;
    }
  }

  lemma SpellsExactly(token: string, name: string)
    ensures Spells(token, name) <==> AsOption(token).name == name
  {
    if Spells(token, name) {
      SpelledName(token, name);
    }
    var form := TokenForm(token);
  }

  lemma SpelledName(token: string, name: string)
    requires Spells(token, name)
    ensures AsOption(token).name == name
  {
    if !("-" <= name) && (token == name || token == "-" + name) {
      SeparateName(if token == name then Bare else Single, name);
    } else if token == "--" + name {
      SeparateName(Long, name);
    } else {
      var text := token[|name| + 3..];
      assert token == "--" + name + "=" + text;
      AssignedName(name, text);
    }
  }

  lemma CallsExactly(token: string, name: string)
    ensures Calls(token, name) <==> LookupToken(token) == name
  {
    if "--" <= token {
      assert token == "--" + token[2..];
    }
    if token == "--" + name {
      assert token[2..] == name;
    }
  }

  // ----- First matches -----

  lemma {:induction false} FoundFirst(options: seq<Opt>, name: string, i: nat)
    requires i < |options| && Answers(options[i], name) && forall j :: 0 <= j < i ==> !Answers(options[j], name)
    ensures FindOption(options, name) == Some(options[i])
    decreases i
  {
    if i > 0 {
      assert !Answers(options[0], name);
      FoundFirst(options[1..], name, i - 1);
    }
  }

  lemma FoundIndex(options: seq<Opt>, name: string) returns (i: nat)
    requires FindOption(options, name).Some?
    ensures i < |options| && Answers(options[i], name) && forall j :: 0 <= j < i ==> !Answers(options[j], name)
    ensures FindOption(options, name) == Some(options[i])
  {
    i :|
      && i < |options| && FindOption(options, name).value == options[i] && Matches(options[i], name)
      && forall j :: 0 <= j < i ==> !Matches(options[j], name);
    assert forall j :: 0 <= j < |options| ==> Matches(options[j], name) == Answers(options[j], name);
  }

  lemma FoundNone(options: seq<Opt>, token: string)
    ensures SpellsNone(options, token) <==> FindOption(options, AsOption(token).name) == None
  {
    var name := AsOption(token).name;
    forall i | 0 <= i < |options|
      ensures Answers(options[i], name) <==> Spells(token, options[i].longName) || Spells(token, [options[i].shortName])
    {
      SpellsExactly(token, options[i].longName);
      SpellsExactly(token, [options[i].shortName]);
    }
    if FindOption(options, name).Some? {
      var i := FoundIndex(options, name);
      assert !SpellsNone(options, token);
    } else {
      assert forall i :: 0 <= i < |options| ==> !Matches(options[i], name) && !Answers(options[i], name);
    }
  }

  lemma CallsNoneExactly(children: seq<Command>, token: string)
    ensures CallsNone(children, token) <==> FindChild(children, LookupToken(token)) == |children|
  {
    forall k | 0 <= k < |children|
      ensures Calls(token, children[k].name) <==> LookupToken(token) == children[k].name
    {
      CallsExactly(token, children[k].name);
    }
    var k := FindChild(children, LookupToken(token));
    if k < |children| {
      assert Calls(token, children[k].name);
    }
  }

  lemma FirstChild(children: seq<Command>, k: nat)
    requires k < |children| && forall j :: 0 <= j < k ==> children[j].name != children[k].name
    ensures FindChild(children, children[k].name) == k
  {
  }

  lemma FirstImplicit(children: seq<Command>, k: nat)
    requires k <= |children| && NoneImplicit(children[..k]) && (k < |children| ==> children[k].implicit)
    ensures FindImplicit(children) == k
  {
    assert forall j :: 0 <= j < k ==> !children[..k][j].implicit && !children[j].implicit;
  }
}
