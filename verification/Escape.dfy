/** crispy::escape and crispy::unescape, on strings of bytes. */
module Escaping {
  import opened Words

  datatype NumericEscape = Octal | Hex

  const QUOTE: byte := 34

  /** Lower-case hexadecimal (and octal) digits. */
  function Digit(d: nat): byte
    requires d < 16
  {
    if d < 10 then 48 + d else 87 + d
  }

  /** escape of one byte */
  function EscapeByte(ch: byte, mode: NumericEscape): seq<byte> {
    if ch == 92 then [92, 92]
    else if ch == 0x1B then [92, 101] // \e
    else if ch == 9 then [92, 116] // \t
    else if ch == 13 then [92, 114] // \r
    else if ch == 10 then [92, 110] // \n
    else if ch == 34 then [92, 34] // \"
    else if 0x20 <= ch < 0x7E then [ch]
    else if mode.Hex? then [92, 120, Digit(ch / 16), Digit(ch % 16)] // \xNN
    else [92, Digit(ch / 64), Digit(ch / 8 % 8), Digit(ch % 8)] // \NNN
  }

  function Escaped(s: seq<byte>, mode: NumericEscape): seq<byte> {
    if s == [] then [] else EscapeByte(s[0], mode) + Escaped(s[1..], mode)
  }

  lemma EscapedStep(s: seq<byte>, mode: NumericEscape, i: nat)
    requires i < |s|
    ensures Escaped(s[i..], mode) == EscapeByte(s[i], mode) + Escaped(s[i + 1..], mode)
  {
    assert s[i..][1..] == s[i + 1..];
  }

  method Escape(s: seq<byte>, mode: NumericEscape) returns (result: seq<byte>)
    ensures result == Escaped(s, mode)
  {
    result := [];
    for i := 0 to |s|
      invariant result + Escaped(s[i..], mode) == Escaped(s, mode)
    {
      var piece := EscapeByte(s[i], mode);
      EscapedStep(s, mode, i);
      assert result + (piece + Escaped(s[i + 1..], mode)) == result + piece + Escaped(s[i + 1..], mode);
      result := result + piece;
    }
  }

  // ----- strtoul, on the two characters of the buffer -----

  predicate Space(c: byte) {
    c == 32 || 9 <= c <= 13
  }

  function DigitValue(c: byte): (d: nat) {
    if 48 <= c <= 57 then c - 48
    else if 65 <= c <= 90 then c - 55
    else if 97 <= c <= 122 then c - 87
    else 36
  }

  /** The digits at the start of the text, on top of what has been read. */
  function Digits(text: seq<byte>, base: nat, value: nat): nat {
    if text == [] || DigitValue(text[0]) >= base then value
    else Digits(text[1..], base, value * base + DigitValue(text[0]))
  }

  function Magnitude(text: seq<byte>, base: nat): nat {
    if text != [] && text[0] == 43 then Digits(text[1..], base, 0) else Digits(text, base, 0)
  }

  /**
    The low byte of strtoul: blanks are skipped, a sign is taken, digits are read as far as they go.
    A prefix 0x leaves no room for digits in two characters and yields 0 like the digit 0 alone.
    */
  function StrToUl(text: seq<byte>, base: nat): byte {
    if text != [] && Space(text[0]) then StrToUl(text[1..], base)
    else if text != [] && text[0] == 45 then (256 - Digits(text[1..], base, 0) % 256) % 256
    else Magnitude(text, base) % 256
  }

  // ----- unescape -----

  datatype State = Text | Escape | Octal1 | Octal2(first: byte) | Hex1 | Hex2(first: byte)

  /** The characters a letter after the backslash stands for; what is unknown stays as it is. */
  function Letter(ch: byte): seq<byte> {
    if ch == 101 then [0x1B]
    else if ch == 97 then [7]
    else if ch == 98 then [8]
    else if ch == 116 then [9]
    else if ch == 110 then [10]
    else if ch == 118 then [11]
    else if ch == 102 then [12]
    else if ch == 114 then [13]
    else if ch == 92 then [92]
    else [92, ch]
  }

  function Next(state: State, ch: byte): State {
    match state
    case Text => if ch == 92 then State.Escape else Text
    case Escape => if ch == 48 then Octal1 else if ch == 120 then Hex1 else Text
    case Octal1 => Octal2(ch)
    case Octal2(_) => Text
    case Hex1 => Hex2(ch)
    case Hex2(_) => Text
  }

  function Output(state: State, ch: byte): seq<byte> {
    match state
    case Text => if ch == 92 then [] else [ch]
    case Escape => if ch == 48 || ch == 120 then [] else Letter(ch)
    case Octal1 => []
    case Octal2(first) => [StrToUl(Buffer(first, ch), 8)]
    case Hex1 => []
    case Hex2(first) => [StrToUl(Buffer(first, ch), 16)]
  }

  /** buf as a C string: a zero byte ends it. */
  function Buffer(first: byte, second: byte): seq<byte> {
    if first == 0 then [] else if second == 0 then [first] else [first, second]
  }

  function UnescapedFrom(state: State, s: seq<byte>): seq<byte>
    decreases |s|
  {
    if s == [] then [] else Output(state, s[0]) + UnescapedFrom(Next(state, s[0]), s[1..])
  }

  function Unescaped(s: seq<byte>): seq<byte> {
    UnescapedFrom(Text, s)
  }

  lemma UnescapedStep(state: State, s: seq<byte>, i: nat)
    requires i < |s|
    ensures UnescapedFrom(state, s[i..]) == Output(state, s[i]) + UnescapedFrom(Next(state, s[i]), s[i + 1..])
  {
    assert s[i..][1..] == s[i + 1..];
  }

  method Unescape(s: seq<byte>) returns (out: seq<byte>)
    ensures out == Unescaped(s)
  {
    out := [];
    var state := Text;
    for i := 0 to |s|
      invariant out + UnescapedFrom(state, s[i..]) == Unescaped(s)
    {
      var piece, next := Output(state, s[i]), Next(state, s[i]);
      UnescapedStep(state, s, i);
      assert out + (piece + UnescapedFrom(next, s[i + 1..])) == out + piece + UnescapedFrom(next, s[i + 1..]);
      out, state := out + piece, next;
    }
  }

  // ----- Round trip -----

  /** The bytes that survive: no double quote, and in octal mode nothing from 0x7E on. */
  predicate Survives(ch: byte, mode: NumericEscape) {
    ch != 34 && (mode.Octal? ==> ch < 0x7E)
  }

  lemma {:induction false} UnescapedConcat(state: State, s: seq<byte>, t: seq<byte>)
    ensures UnescapedFrom(state, s + t) == UnescapedFrom(state, s) + UnescapedFrom(StateAfter(state, s), t)
    decreases |s|
  {
    if s == [] {
      assert s + t == t;
    } else {
      assert (s + t)[0] == s[0] && (s + t)[1..] == s[1..] + t;
      var next := Next(state, s[0]);
      UnescapedConcat(next, s[1..], t);
      Associates(Output(state, s[0]), UnescapedFrom(next, s[1..]), UnescapedFrom(StateAfter(next, s[1..]), t));
    }
  }

  lemma Associates(a: seq<byte>, b: seq<byte>, c: seq<byte>)
    ensures a + (b + c) == (a + b) + c
  {
  }

  function StateAfter(state: State, s: seq<byte>): State
    decreases |s|
  {
    if s == [] then state else StateAfter(Next(state, s[0]), s[1..])
  }

  lemma DigitsRead(a: nat, b: nat, base: nat)
    requires 0 < base <= 16 && a < base && b < base
    ensures Buffer(Digit(a), Digit(b)) == [Digit(a), Digit(b)]
    ensures StrToUl(Buffer(Digit(a), Digit(b)), base) == (a * base + b) % 256
  {
    var text := [Digit(a), Digit(b)];
    assert DigitValue(Digit(a)) == a && DigitValue(Digit(b)) == b;
    assert text[1..] == [Digit(b)] && text[1..][1..] == [];
    assert Digits(text, base, 0) == Digits([Digit(b)], base, a) == a * base + b;
  }

  lemma Run2(state: State, a: byte, b: byte)
    ensures UnescapedFrom(state, [a, b]) == Output(state, a) + Output(Next(state, a), b)
    ensures StateAfter(state, [a, b]) == Next(Next(state, a), b)
  {
    assert [a, b][1..] == [b] && [b][1..] == [];
    assert UnescapedFrom(Next(state, a), [b]) == Output(Next(state, a), b) + [];
    assert StateAfter(Next(state, a), [b]) == StateAfter(Next(Next(state, a), b), []);
  }

  lemma Run4(state: State, a: byte, b: byte, c: byte, d: byte)
    ensures var s1 := Next(state, a); var s2 := Next(s1, b); var s3 := Next(s2, c);
            && UnescapedFrom(state, [a, b, c, d]) == Output(state, a) + Output(s1, b) + Output(s2, c) + Output(s3, d)
            && StateAfter(state, [a, b, c, d]) == Next(s3, d)
  {
    assert [a, b, c, d] == [a, b] + [c, d];
    UnescapedConcat(state, [a, b], [c, d]);
    Run2(state, a, b);
    Run2(Next(Next(state, a), b), c, d);
    assert [a, b, c, d][1..] == [b, c, d] && [b, c, d][1..] == [c, d];
  }

  lemma HexRead(x: nat, y: nat)
    requires x < 16 && y < 16
    ensures StateAfter(Text, [92, 120, Digit(x), Digit(y)]) == Text
    ensures UnescapedFrom(Text, [92, 120, Digit(x), Digit(y)]) == [x * 16 + y]
  {
    Run4(Text, 92, 120, Digit(x), Digit(y));
    DigitsRead(x, y, 16);
  }

  /** After a backslash only the digit 0 announces an octal number: below 64 it is read back. */
  lemma OctalRead(x: nat, y: nat, z: nat)
    requires x < 4 && y < 8 && z < 8
    ensures StateAfter(Text, [92, Digit(x), Digit(y), Digit(z)]) == Text
    ensures UnescapedFrom(Text, [92, Digit(x), Digit(y), Digit(z)])
         == if x == 0 then [y * 8 + z] else [92, Digit(x), Digit(y), Digit(z)]
  {
    Run4(Text, 92, Digit(x), Digit(y), Digit(z));
    if x == 0 {
      DigitsRead(y, z, 8);
    }
  }

  lemma LetterRead(letter: byte)
    requires letter != 48 && letter != 120
    ensures StateAfter(Text, [92, letter]) == Text
    ensures UnescapedFrom(Text, [92, letter]) == Letter(letter)
  {
    Run2(Text, 92, letter);
  }

  /** Every escaped byte is read back to the text state: as itself when it survives, else as its own escape. */
  lemma EscapeByteRead(ch: byte, mode: NumericEscape)
    ensures StateAfter(Text, EscapeByte(ch, mode)) == Text
    ensures Survives(ch, mode) ==> UnescapedFrom(Text, EscapeByte(ch, mode)) == [ch]
    ensures !Survives(ch, mode) ==> UnescapedFrom(Text, EscapeByte(ch, mode)) == EscapeByte(ch, mode)
  {
    var e := EscapeByte(ch, mode);
    if |e| == 1 {
      assert e == [ch] && e[1..] == [];
    } else if |e| == 2 {
      assert e == [92, e[1]];
      LetterRead(e[1]);
    } else if mode.Hex? {
      HexRead(ch / 16, ch % 16);
    } else {
      OctalRead(ch / 64, ch / 8 % 8, ch % 8);
    }
  }

  /** unescape undoes escape exactly on the strings whose bytes all survive; otherwise the text grows. */
  lemma {:induction false} RoundTrip(s: seq<byte>, mode: NumericEscape)
    ensures Unescaped(Escaped(s, mode)) == s <==> forall i :: 0 <= i < |s| ==> Survives(s[i], mode)
    ensures |Unescaped(Escaped(s, mode))| >= |s|
    ensures (exists i :: 0 <= i < |s| && !Survives(s[i], mode)) ==> |Unescaped(Escaped(s, mode))| > |s|
    decreases |s|
  {
    if s != [] {
      var ch, rest := s[0], s[1..];
      RoundTrip(rest, mode);
      EscapeByteRead(ch, mode);
      UnescapedConcat(Text, EscapeByte(ch, mode), Escaped(rest, mode));
      assert s == [ch] + rest;
      if i :| 0 <= i < |s| && !Survives(s[i], mode) && i > 0 {
        assert !Survives(rest[i - 1], mode);
      }
      if i :| 0 <= i < |rest| && !Survives(rest[i], mode) {
        assert !Survives(s[i + 1], mode);
      }
    }
  }

  /** A double quote is never read back. */
  lemma QuoteIsLost(mode: NumericEscape)
    ensures Unescaped(Escaped([QUOTE], mode)) != [QUOTE]
  {
    var s := [QUOTE];
    RoundTrip(s, mode);
    assert !Survives(s[0], mode);
  }

  // ----- The texts -----

  const DIGITS := "0123456789abcdef"
  const CAPITALS := "0123456789ABCDEF"

  /** Bytes with a two-character escape: backslash, escape, tab, carriage return, newline, double quote. */
  predicate HasLetter(ch: byte) {
    ch in [92, 0x1B, 9, 13, 10, 34]
  }

  /** An escaped byte is printable ASCII: itself, a backslash and one character, or a backslash and three. */
  lemma EscapeShape(ch: byte, mode: NumericEscape)
    ensures var t := EscapeByte(ch, mode);
            && (forall i :: 0 <= i < |t| ==> 0x20 <= t[i] < 0x7E)
            && |t| == (if HasLetter(ch) then 2 else if 0x20 <= ch < 0x7E then 1 else 4)
            && (|t| == 1 ==> t == [ch])
            && (|t| > 1 ==> t[0] == '\\' as int)
            && (ch == 34 ==> t[1] == 34)
  {
  }

  lemma DigitIsLiteral(d: nat)
    requires d < 16
    ensures |DIGITS| == 16 && Digit(d) == DIGITS[d] as int
  {
  }

  /** A numeric escape spells the byte in two hexadecimal or three octal digits. */
  lemma NumericEscapes(ch: byte)
    requires !HasLetter(ch) && !(0x20 <= ch < 0x7E)
    ensures var t := EscapeByte(ch, Hex);
            t[1] == 'x' as int && t[2] == DIGITS[ch / 16] as int && t[3] == DIGITS[ch % 16] as int
    ensures var t := EscapeByte(ch, Octal);
            && t[1] == DIGITS[ch / 64] as int && t[2] == DIGITS[ch / 8 % 8] as int && t[3] == DIGITS[ch % 8] as int
  {
    DigitIsLiteral(ch / 16);
    DigitIsLiteral(ch % 16);
    DigitIsLiteral(ch / 64);
    DigitIsLiteral(ch / 8 % 8);
    DigitIsLiteral(ch % 8);
  }

  /** The letters of C for the control characters 7 to 13, and those of unescape beside them. */
  lemma LetterTable(i: nat, ch: byte)
    requires i < 7
    ensures Unescaped([92, "abtnvfr"[i] as int]) == [7 + i]
    ensures Unescaped([92, 'e' as int]) == [0x1B] && Unescaped([92, 92]) == [92]
    ensures (forall k :: 0 <= k < 7 ==> ch != "abtnvfr"[k] as int) && ch != 'e' as int && ch != 92
            && ch != '0' as int && ch != 'x' as int ==>
              Unescaped([92, ch]) == [92, ch]
  {
    Run2(Text, 92, "abtnvfr"[i] as int);
    Run2(Text, 92, 'e' as int);
    Run2(Text, 92, 92);
    Run2(Text, 92, ch);
    if forall k :: 0 <= k < 7 ==> ch != "abtnvfr"[k] as int {
      var letters := "abtnvfr";
      assert letters[0] == 'a' && letters[1] == 'b' && letters[2] == 't' && letters[3] == 'n';
      assert letters[4] == 'v' && letters[5] == 'f' && letters[6] == 'r';
    }
  }

  /** Hexadecimal digits are read in either case. */
  lemma HexDigits(x: nat, y: nat)
    requires x < 16 && y < 16
    ensures |CAPITALS| == 16
    ensures Unescaped([92, 'x' as int, CAPITALS[x] as int, CAPITALS[y] as int]) == [x * 16 + y]
  {
    CapitalValue(x);
    CapitalValue(y);
    HexPair(CAPITALS[x] as int, CAPITALS[y] as int);
  }

  lemma CapitalValue(d: nat)
    requires d < 16
    ensures |CAPITALS| == 16 && DigitValue(CAPITALS[d] as int) == d && 48 <= CAPITALS[d] as int <= 70
  {
  }

  lemma HexPair(a: byte, b: byte)
    requires 48 <= a && 48 <= b && DigitValue(a) < 16 && DigitValue(b) < 16
    ensures Unescaped([92, 120, a, b]) == [DigitValue(a) * 16 + DigitValue(b)]
  {
    NumberRead(a, b);
    TwoCharacters(a, b, 16);
  }

  /** Whatever two characters follow the x, or the zero of an octal number, give one byte; a zero byte ends them. */
  lemma NumberRead(a: byte, b: byte)
    ensures Unescaped([92, 'x' as int, a, b]) == [StrToUl(Buffer(a, b), 16)]
    ensures Unescaped([92, '0' as int, a, b]) == [StrToUl(Buffer(a, b), 8)]
    ensures Buffer(a, b) == if a == 0 then [] else if b == 0 then [a] else [a, b]
  {
    Run4(Text, 92, 120, a, b);
    Run4(Text, 92, 48, a, b);
  }

  const BLANKS: set<byte> := {' ' as int, '\t' as int, '\n' as int, 11, 12, '\r' as int}

  /** A digit's value, and zero for any other character. */
  function DigitOrZero(c: byte, base: nat): nat {
    if DigitValue(c) < base then DigitValue(c) else 0
  }

  lemma OneDigit(c: byte, base: nat, value: nat)
    ensures Digits([c], base, value) == if DigitValue(c) < base then value * base + DigitValue(c) else value
    ensures Digits([], base, value) == value
  {
  }

  /** One character is a digit or nothing. */
  lemma OneCharacter(a: byte, base: nat)
    requires base == 8 || base == 16
    ensures StrToUl([], base) == 0 && StrToUl([a], base) == DigitOrZero(a, base)
  {
    OneDigit(a, base, 0);
    assert [a][1..] == [];
  }

  /** A number of up to two digits ends at the first character that is none. */
  function Unsigned(a: byte, b: byte, base: nat): nat {
    if DigitValue(a) >= base then 0
    else if DigitValue(b) >= base then DigitValue(a)
    else DigitValue(a) * base + DigitValue(b)
  }

  lemma TwoDigits(a: byte, b: byte, base: nat)
    requires base == 8 || base == 16
    ensures Digits([a, b], base, 0) % 256 == Unsigned(a, b, base)
  {
    assert [a, b][1..] == [b];
    OneDigit(b, base, DigitValue(a));
    if DigitValue(a) < base && DigitValue(b) < base {
      assert DigitValue(a) * base + DigitValue(b) < 256;
    }
  }

  lemma AfterBlank(a: byte, b: byte, base: nat)
    requires (base == 8 || base == 16) && a in BLANKS
    ensures StrToUl([a, b], base) == DigitOrZero(b, base)
  {
    assert [a, b][1..] == [b];
    OneCharacter(b, base);
  }

  lemma AfterSign(a: byte, b: byte, base: nat)
    requires (base == 8 || base == 16) && (a == '+' as int || a == '-' as int)
    ensures StrToUl([a, b], base) ==
            if a == '+' as int then DigitOrZero(b, base) else (256 - DigitOrZero(b, base)) % 256
  {
    assert [a, b][1..] == [b];
    OneDigit(b, base, 0);
  }

  /** A blank or a plus sign is passed over, and a minus sign negates. */
  lemma TwoCharacters(a: byte, b: byte, base: nat)
    requires base == 8 || base == 16
    ensures StrToUl([a, b], base) ==
            if a in BLANKS || a == '+' as int then DigitOrZero(b, base)
            else if a == '-' as int then (256 - DigitOrZero(b, base)) % 256
            else Unsigned(a, b, base)
  {
    if a in BLANKS {
      AfterBlank(a, b, base);
    } else if a == '-' as int || a == '+' as int {
      AfterSign(a, b, base);
    } else {
      TwoDigits(a, b, base);
    }
  }
}
