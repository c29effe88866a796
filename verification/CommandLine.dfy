/**
  crispy::cli: what parsing a command line means.

  Parsing decides, token by token, which flags to set. Here the flags are a log of writes to named
  places in the command tree, and the store that a program gets to see is what the writes leave
  behind under dotted string keys.
  */
module CommandLine {
  import opened Options
  import opened Words

  datatype Value = Int(i: int) | Uint(u: nat) | Str(s: string) | Double(d: real) | Bool(b: bool)

  predicate SameType(v: Value, w: Value) {
    match v
    case Int(_) => w.Int?
    case Uint(_) => w.Uint?
    case Str(_) => w.Str?
    case Double(_) => w.Double?
    case Bool(_) => w.Bool?
  }

  /** An option; `v` is its default and fixes its type. */
  datatype Opt = Opt(longName: string, shortName: char, v: Value, required: bool)

  datatype Command = Command(name: string, options: seq<Opt>, children: seq<Command>, implicit: bool, verbatim: bool)

  /** parser_error, the invalid_argument of validate, or a failed access to the flags. */
  datatype Error = ParserError | MissingOption(key: string) | BadFlag(key: string)

  datatype Result<+T> = Ok(value: T) | Err(error: Error) {
    predicate IsFailure() {
      Err?
    }
    function PropagateFailure<U>(): Result<U>
      requires Err?
    {
      Err(error)
    }
    function Extract(): T
      requires Ok?
    {
      value
    }
  }

  /** std::stod, std::stoul and std::stoi; None where they throw. */
  datatype Numbers = Numbers(toDouble: string -> Option<real>, toUint: string -> Option<nat>,
                             toInt: string -> Option<int>)

  // ----- Tokens -----

  function TokenAt(args: seq<string>, pos: nat): string {
    if pos < |args| then args[pos] else ""
  }

  predicate IsTrue(text: string) {
    text == "true" || text == "yes"
  }

  predicate IsFalse(text: string) {
    text == "false" || text == "no"
  }

  predicate Matches(o: Opt, name: string) {
    name == o.longName || (|name| == 1 && name[0] == o.shortName)
  }

  /** The first option of that name. */
  function FindOption(options: seq<Opt>, name: string): (r: Option<Opt>)
    ensures r.Some? ==> exists i ::
              && 0 <= i < |options| && r.value == options[i] && Matches(options[i], name)
              && forall j :: 0 <= j < i ==> !Matches(options[j], name)
    ensures r.None? ==> forall i :: 0 <= i < |options| ==> !Matches(options[i], name)
  {
    if options == [] then None
    else if Matches(options[0], name) then Some(options[0])
    else FindOption(options[1..], name)
  }

  /** Where the character first occurs, or the length of the text. */
  function IndexOf(text: string, c: char): (i: nat)
    ensures i <= |text|
    ensures i < |text| ==> text[i] == c
    ensures forall j :: 0 <= j < i ==> text[j] != c
  {
    if text == "" || text[0] == c then 0 else 1 + IndexOf(text[1..], c)
  }

  // ----- Values -----

  /** parseValue of a given text */
  function ParseText(num: Numbers, o: Opt, text: string): (r: Result<Value>)
    ensures r.Ok? ==> SameType(r.value, o.v)
  {
    match o.v
    case Bool(_) => if IsTrue(text) then Ok(Bool(true)) else if IsFalse(text) then Ok(Bool(false)) else Err(ParserError)
    case Double(_) => (match num.toDouble(text) case None => Err(ParserError) case Some(d) => Ok(Double(d)))
    case Uint(_) => (match num.toUint(text) case None => Err(ParserError) case Some(u) => Ok(Uint(u % WORD32)))
    case Int(_) => (match num.toInt(text) case None => Err(ParserError) case Some(i) => Ok(Int(i)))
    case Str(_) => Ok(Str(text))
  }

  /** parseValue from the following tokens; a flag needs none. Also the position after the value. */
  function ParseFollowing(num: Numbers, o: Opt, args: seq<string>, pos: nat): (r: Result<(Value, nat)>)
    requires pos <= |args|
    ensures r.Ok? ==> SameType(r.value.0, o.v) && pos <= r.value.1 <= |args|
  {
    if o.v.Bool? then
      var text := TokenAt(args, pos);
      if pos < |args| && IsTrue(text) then Ok((Bool(true), pos + 1))
      else if pos < |args| && IsFalse(text) then Ok((Bool(false), pos + 1))
      else Ok((Bool(true), pos))
    else if pos == |args| then Err(ParserError)
    else
      var v :- ParseText(num, o, args[pos]);
      Ok((v, pos + 1))
  }

  /** An option that was recognised, its value, and the position after it. */
  datatype Given = Given(opt: Opt, value: Value, pos: nat)

  /** A token taken for an option: NAME, -NAME, --NAME or --NAME=VALUE. */
  datatype OptionToken = OptionToken(name: string, text: Option<string>)

  function AsOption(token: string): OptionToken {
    if "--" <= token then
      var i := IndexOf(token, '=');
      if i < |token| && i >= 2 then OptionToken(token[2..i], Some(token[i + 1..])) else OptionToken(token[2..], None)
    else if "-" <= token then OptionToken(token[1..], None)
    else OptionToken(token, None)
  }

  /** The value of an option whose token stands at pos, and the position after it. */
  function ValueOf(num: Numbers, o: Opt, text: Option<string>, args: seq<string>, pos: nat): (r: Result<(Value, nat)>)
    requires pos < |args|
    ensures r.Ok? ==> SameType(r.value.0, o.v) && pos < r.value.1 <= |args|
  {
    if text.None? then ParseFollowing(num, o, args, pos + 1)
    else if text.value == "" && !o.v.Str? then Err(ParserError)
    else
      var v :- ParseText(num, o, text.value);
      Ok((v, pos + 1))
  }

  /** tryParseOption */
  function TryOption(num: Numbers, options: seq<Opt>, args: seq<string>, pos: nat): (r: Result<Option<Given>>)
    requires pos <= |args|
    ensures r.Ok? && r.value.Some? ==>
              var g := r.value.value; g.opt in options && SameType(g.value, g.opt.v) && pos < g.pos <= |args|
  {
    var token := AsOption(TokenAt(args, pos));
    var found := FindOption(options, token.name);
    if found.None? then Ok(None)
    else if pos == |args| then Err(ParserError)
    else
      var v :- ValueOf(num, found.value, token.text, args, pos);
      Ok(Some(Given(found.value, v.0, v.1)))
  }

  // ----- The log -----

  /** A place is the path of command names from the root, with the option's name at the end for an option. */
  type Place = seq<string>

  datatype Write = Write(place: Place, value: Value)

  /** parseOptionList: writes, and the position after the last option. */
  function OptionLog(num: Numbers, options: seq<Opt>, at: Place, args: seq<string>,
                     pos: nat): (r: Result<(seq<Write>, nat)>)
    requires pos <= |args|
    ensures r.Ok? ==> pos <= r.value.1 <= |args|
    decreases |args| - pos
  {
    var given :- TryOption(num, options, args, pos);
    if given.None? then Ok(([], pos))
    else
      var g := given.value;
      var rest :- OptionLog(num, options, at, args, g.pos);
      Ok(([Write(at + [g.opt.longName], g.value)] + rest.0, rest.1))
  }

  /** tryLookupCommand: the first child named by the current token, with or without dashes. */
  function LookupToken(token: string): string {
    if "--" <= token then token[2..] else token
  }

  function FindChild(children: seq<Command>, name: string): (k: nat)
    ensures k <= |children|
    ensures k < |children| ==> children[k].name == name
    ensures forall j :: 0 <= j < k ==> children[j].name != name
  {
    if children == [] || children[0].name == name then 0 else 1 + FindChild(children[1..], name)
  }

  /** tryImplicitCommand: the first implicit child, or the number of children. */
  function FindImplicit(children: seq<Command>): (k: nat)
    ensures k <= |children|
    ensures k < |children| ==> children[k].implicit
    ensures forall j :: 0 <= j < k ==> !children[j].implicit
  {
    if children == [] || children[0].implicit then 0 else 1 + FindImplicit(children[1..])
  }

  /** What parsing a command comes to: its writes, the position reached, the verbatim tokens, and the path chosen. */
  datatype Outcome = Outcome(log: seq<Write>, pos: nat, verbatim: seq<string>, chosen: Place)

  /** The tokens after an optional "--". */
  function VerbatimFrom(args: seq<string>, pos: nat): seq<string>
    requires pos <= |args|
  {
    if pos < |args| && args[pos] == "--" then args[pos + 1..] else args[pos..]
  }

  /**
    The child to go on with, or the number of children, and the position behind its name: the child
    named by the token, or else the first implicit one.
    */
  function Selection(com: Command, args: seq<string>, pos: nat): (r: Result<(nat, nat)>)
    requires pos <= |args|
    ensures r.Ok? ==> r.value.0 <= |com.children| && pos <= r.value.1 <= |args|
    ensures r.Ok? && r.value.0 == |com.children| ==> r.value.1 == pos
    ensures r.Err? ==> r.error == ParserError
  {
    var k := FindChild(com.children, LookupToken(TokenAt(args, pos)));
    if k == |com.children| then Ok((FindImplicit(com.children), pos))
    else if pos == |args| then Err(ParserError)
    else Ok((k, pos + 1))
  }

  /** A command without a subcommand takes all tokens, or none. */
  function Alone(com: Command, at: Place, args: seq<string>, pos: nat): (r: Outcome)
    requires pos <= |args|
    ensures pos <= r.pos <= |args| && r.log == [] && r.chosen == at
  {
    if com.verbatim then Outcome([], |args|, VerbatimFrom(args, pos), at) else Outcome([], pos, [], at)
  }

  /** What follows the options of a command: a subcommand, verbatim tokens, or nothing. */
  function Continued(num: Numbers, com: Command, at: Place, args: seq<string>, pos: nat): (r: Result<Outcome>)
    requires pos <= |args|
    ensures r.Ok? ==> pos <= r.value.pos <= |args|
    decreases com, 0
  {
    var s :- Selection(com, args, pos);
    if s.0 < |com.children| then CommandLog(num, com.children[s.0], at + [com.children[s.0].name], args, s.1)
    else Ok(Alone(com, at, args, pos))
  }

  /** parseCommand, for a command that stands at `at`. */
  function CommandLog(num: Numbers, com: Command, at: Place, args: seq<string>, pos: nat): (r: Result<Outcome>)
    requires pos <= |args|
    ensures r.Ok? ==> pos <= r.value.pos <= |args|
    decreases com, 1
  {
    var opts :- OptionLog(num, com.options, at, args, pos);
    var out :- Continued(num, com, at, args, opts.1);
    var again := if out.pos == |args| then [Write(at, Bool(true))] else [];
    Ok(out.(log := [Write(at, Bool(true))] + opts.0 + out.log + again))
  }

  /** prefillDefaults of the options. */
  function DefaultLog(options: seq<Opt>, at: Place): seq<Write> {
    if options == [] then []
    else
      var own := if options[0].required then [] else [Write(at + [options[0].longName], options[0].v)];
      own + DefaultLog(options[1..], at)
  }

  /** prefillDefaults: optional options get their defaults, subcommands are not selected. */
  function PrefillLog(com: Command, at: Place): seq<Write>
    decreases com, 1
  {
    DefaultLog(com.options, at) + ChildrenLog(com.children, at)
  }

  function ChildrenLog(children: seq<Command>, at: Place): seq<Write>
    decreases children, 0
  {
    if children == [] then []
    else
      var c := children[0];
      [Write(at + [c.name], Bool(false))] + PrefillLog(c, at + [c.name]) + ChildrenLog(children[1..], at)
  }

  // ----- Keys and stores -----

  /** namePrefix: names joined by dots. */
  function Join(p: Place): string {
    if p == [] then "" else if |p| == 1 then p[0] else Join(p[..|p| - 1]) + "." + p[|p| - 1]
  }

  type Values = map<string, Value>

  function Applied(values: Values, log: seq<Write>): Values {
    if log == [] then values
    else Applied(values, log[..|log| - 1])[Join(log[|log| - 1].place) := log[|log| - 1].value]
  }

  datatype Store = Store(values: Values, verbatim: seq<string>)

  /** flag_store::get<bool>; it throws for a missing key and for a flag of another type. */
  function GetBool(values: Values, key: string): Result<bool> {
    if key in values && values[key].Bool? then Ok(values[key].b) else Err(BadFlag(key))
  }

  function CheckOptions(options: seq<Opt>, key: string, values: Values): Result<bool> {
    if options == [] then Ok(true)
    else
      var optionKey := key + "." + options[0].longName;
      if options[0].required && optionKey !in values then Err(MissingOption(optionKey))
      else CheckOptions(options[1..], key, values)
  }

  /** validate: required options of selected commands must be there. */
  function Validated(com: Command, prefix: string, values: Values): Result<bool>
    decreases com, 1
  {
    var key := if prefix == "" then com.name else prefix + "." + com.name;
    var _ :- CheckOptions(com.options, key, values);
    ValidatedChildren(com.children, key, values)
  }

  function ValidatedChildren(children: seq<Command>, key: string, values: Values): Result<bool>
    decreases children, 0
  {
    if children == [] then Ok(true)
    else
      var selected :- GetBool(values, key + "." + children[0].name);
      var _ :- if selected then Validated(children[0], key, values) else Ok(true);
      ValidatedChildren(children[1..], key, values)
  }

  /** parse: None when tokens are left over. */
  function Parsed(num: Numbers, root: Command, args: seq<string>): Result<Option<Store>> {
    if args == [] then Err(ParserError)
    else
      var at := [root.name];
      var out :- CommandLog(num, root, at, args, 1);
      if out.pos != |args| then Ok(None)
      else
        var values := Applied(map[], PrefillLog(root, at) + out.log);
        var _ :- Validated(root, "", values);
        Ok(Some(Store(values, out.verbatim)))
  }
}
