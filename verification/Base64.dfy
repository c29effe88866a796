/**
  crispy::base64. Bytes and characters are integers below 256; shifts and masks of the original are
  written as divisions and remainders, and `|` of disjoint bit ranges as a sum.
  */
module Base64 {
  import opened Words

  type sextet = x: int | 0 <= x < 64

  const PAD: byte := 61 // '='

  /** The alphabet of section 4 of RFC 4648, as character codes. */
  function Alphabet(v: sextet): byte {
    if v < 26 then 65 + v // A-Z
    else if v < 52 then 97 + (v - 26) // a-z
    else if v < 62 then 48 + (v - 52) // 0-9
    else if v == 62 then 43 // +
    else 47 // slash
  }

  /** The decoding table: 64 for every character outside the alphabet. */
  function IndexMap(c: byte): (v: nat)
    ensures v <= 64
  {
    if 65 <= c <= 90 then c - 65
    else if 97 <= c <= 122 then c - 97 + 26
    else if 48 <= c <= 57 then c - 48 + 52
    else if c == 43 then 62
    else if c == 47 then 63
    else 64
  }

  /** The table inverts the alphabet, and knows no other character. */
  lemma IndexMapInverse(v: sextet, c: byte)
    ensures IndexMap(Alphabet(v)) == v
    ensures IndexMap(c) < 64 <==> exists w: sextet :: Alphabet(w) == c
  {
    if IndexMap(c) < 64 {
      assert Alphabet(IndexMap(c)) == c;
    }
  }

  // ----- Section 4 of RFC 4648 -----

  /** 24 bits, taken as four groups of six. */
  function Regrouped(a: byte, b: byte, c: byte): (r: seq<sextet>)
    ensures |r| == 4
  {
    var bits := a * 65536 + b * 256 + c;
    [bits / 64 / 64 / 64, bits / 64 / 64 % 64, bits / 64 % 64, bits % 64]
  }

  lemma RegroupedBits(a: byte, b: byte, c: byte, r: seq<int>)
    requires r == Regrouped(a, b, c)
    ensures ((r[0] * 64 + r[1]) * 64 + r[2]) * 64 + r[3] == (a * 256 + b) * 256 + c
  {
  }

  /** Full groups, then zero bits and padding for a rest of one or two bytes. */
  function Encoding(s: seq<byte>): seq<byte> {
    if |s| >= 3 then Quad(Regrouped(s[0], s[1], s[2])) + Encoding(s[3..])
    else if |s| == 2 then var r := Regrouped(s[0], s[1], 0); [Alphabet(r[0]), Alphabet(r[1]), Alphabet(r[2]), PAD]
    else if |s| == 1 then var r := Regrouped(s[0], 0, 0); [Alphabet(r[0]), Alphabet(r[1]), PAD, PAD]
    else []
  }

  function Quad(r: seq<sextet>): seq<byte>
    requires |r| == 4
  {
    [Alphabet(r[0]), Alphabet(r[1]), Alphabet(r[2]), Alphabet(r[3])]
  }

  lemma {:induction false} EncodingLength(s: seq<byte>)
    ensures |Encoding(s)| == (|s| + 2) / 3 * 4
  {
    if |s| >= 3 {
      EncodingLength(s[3..]);
      assert (|s| + 2) / 3 == (|s[3..]| + 2) / 3 + 1;
    }
  }

  lemma {:induction false} EncodingConcat(s: seq<byte>, t: seq<byte>)
    requires |s| % 3 == 0
    ensures Encoding(s + t) == Encoding(s) + Encoding(t)
  {
    if s == [] {
      assert s + t == t;
    } else {
      assert (s + t)[3..] == s[3..] + t;
      EncodingConcat(s[3..], t);
    }
  }

  // ----- The encoder -----

  /** encoder_state */
  class EncoderState {
    var modulo: nat
    var pending: array<byte>

    ghost predicate Valid()
      reads this
    {
      modulo < 3 && pending.Length == 3
    }

    ghost function Rest(): seq<byte>
      requires Valid()
      reads this, pending
    {
      pending[..modulo]
    }

    constructor ()
      ensures Valid() && fresh(pending) && Rest() == []
    {
      modulo := 0;
      pending := new byte[3](_ => 0);
    }

    /** encode one byte: what the sink receives is the encoding of a group that has become full. */
    method Encode(ch: byte) returns (out: seq<byte>)
      requires Valid()
      modifies this`modulo, pending
      ensures Valid()
      ensures var fed := old(Rest()) + [ch];
              if |fed| == 3 then Rest() == [] && out == Encoding(fed) else Rest() == fed && out == []
    {
      ghost var fed := Rest() + [ch];
      pending[modulo] := ch;
      modulo := modulo + 1;
      assert pending[..modulo] == fed;
      if modulo != 3 {
        return [];
      }
      modulo := 0;
      var a, b, c := pending[0], pending[1], pending[2];
      assert fed == [a, b, c];
      Regroup(a, b, c);
      assert Encoding(fed[3..]) == [];
      out := [Alphabet(a / 4 % 64), Alphabet(a % 4 * 16 + b / 16), Alphabet(b % 16 * 4 + c / 64), Alphabet(c % 64)];
    }

    /** finish: flushes a rest of one or two bytes. */
    method Finish() returns (out: seq<byte>)
      requires Valid()
      modifies this`modulo
      ensures Valid() && Rest() == []
      ensures out == Encoding(old(Rest()))
    {
      ghost var rest := Rest();
      if modulo == 2 {
        var a, b := pending[0], pending[1];
        assert rest == [a, b];
        Regroup(a, b, 0);
        out := [Alphabet(a / 4 % 64), Alphabet(a % 4 * 16 + b / 16), Alphabet(b % 16 * 4), PAD];
      } else if modulo == 1 {
        var a := pending[0];
        assert rest == [a];
        Regroup(a, 0, 0);
        out := [Alphabet(a / 4 % 64), Alphabet(a % 4 * 16), PAD, PAD];
      } else {
        out := [];
      }
      modulo := 0;
    }
  }

  /** The sextets the encoder picks out byte by byte are those of the 24-bit group. */
  lemma Regroup(a: byte, b: byte, c: byte)
    ensures Regrouped(a, b, c) == [a / 4 % 64, a % 4 * 16 + b / 16, b % 16 * 4 + c / 64, c % 64]
  {
    var v0, v1, v2, v3 := a / 4, a % 4 * 16 + b / 16, b % 16 * 4 + c / 64, c % 64;
    SameBits(a / 4, a % 4, b / 16, b % 16, c / 64, c % 64);
    assert a == a / 4 * 4 + a % 4 && b == b / 16 * 16 + b % 16 && c == c / 64 * 64 + c % 64;
    assert a * 65536 + b * 256 + c == ((v0 * 64 + v1) * 64 + v2) * 64 + v3;
    LastSextet(v0, v1);
    LastSextet(v0 * 64 + v1, v2);
    LastSextet((v0 * 64 + v1) * 64 + v2, v3);
  }

  lemma SameBits(a1: nat, a0: nat, b1: nat, b0: nat, c1: nat, c0: nat)
    ensures (a1 * 4 + a0) * 65536 + (b1 * 16 + b0) * 256 + (c1 * 64 + c0)
         == ((a1 * 64 + (a0 * 16 + b1)) * 64 + (b0 * 4 + c1)) * 64 + c0
  {
  }

  lemma LastSextet(x: nat, v: sextet)
    ensures (x * 64 + v) / 64 == x && (x * 64 + v) % 64 == v
  {
  }

  lemma GroupDone(s: seq<byte>, groups: nat, i: nat)
    requires 3 * groups <= i <= |s|
    ensures Encoding(s[..i]) == Encoding(s[..3 * groups]) + Encoding(s[3 * groups..i])
  {
    assert s[..i] == s[..3 * groups] + s[3 * groups..i];
    EncodingConcat(s[..3 * groups], s[3 * groups..i]);
  }

  lemma FeedOne(s: seq<byte>, groups: nat, i: nat)
    requires 3 * groups <= i < |s|
    ensures s[3 * groups..i] + [s[i]] == s[3 * groups..i + 1]
    ensures i + 1 == 3 * groups + 3 ==>
              && Encoding(s[..3 * (groups + 1)]) == Encoding(s[..3 * groups]) + Encoding(s[3 * groups..i + 1])
              && s[3 * (groups + 1)..i + 1] == []
  {
    if i + 1 == 3 * groups + 3 {
      assert 3 * (groups + 1) == i + 1;
      GroupDone(s, groups, i + 1);
    }
  }

  method Encode(s: seq<byte>) returns (output: seq<byte>)
    ensures output == Encoding(s)
  {
    var state := new EncoderState();
    output := [];
    ghost var groups := 0;
    for i := 0 to |s|
      invariant state.Valid() && fresh(state) && fresh(state.pending)
      invariant 0 <= 3 * groups <= i && state.Rest() == s[3 * groups..i]
      invariant output == Encoding(s[..3 * groups])
    {
      FeedOne(s, groups, i);
      var out := state.Encode(s[i]);
      output := output + out;
      if i + 1 == 3 * groups + 3 {
        groups := groups + 1;
      }
    }
    var out := state.Finish();
    GroupDone(s, groups, |s|);
    assert s[..|s|] == s;
    output := output + out;
  }

  // ----- The decoder -----

  /** The longest prefix of alphabet characters, as the values they stand for. */
  function SextetsOf(input: seq<byte>): seq<sextet> {
    if input == [] || IndexMap(input[0]) > 63 then [] else [IndexMap(input[0])] + SextetsOf(input[1..])
  }

  /** Four sextets make three bytes; a rest of r sextets makes r - 1 bytes. */
  function Bytes(v: seq<sextet>): seq<byte> {
    if |v| >= 4 then [First(v[0], v[1]), Second(v[1], v[2]), Third(v[2], v[3])] + Bytes(v[4..])
    else if |v| == 3 then [First(v[0], v[1]), Second(v[1], v[2])]
    else if |v| == 2 then [First(v[0], v[1])]
    else []
  }

  /** The three casts to char. */
  function First(x: sextet, y: sextet): byte { (x * 4 + y / 16) % 256 }
  function Second(x: sextet, y: sextet): byte { (x * 16 + y / 4) % 256 }
  function Third(x: sextet, y: sextet): byte { (x * 64 + y) % 256 }

  /** decode: the number of sextets is cut to 32 bits before they are used. */
  function Decoding(input: seq<byte>): seq<byte> {
    var v := SextetsOf(input);
    Bytes(v[..|v| % WORD32])
  }

  lemma {:induction false} BytesLength(v: seq<sextet>)
    ensures |Bytes(v)| == |v| * 3 / 4
  {
    if |v| >= 4 {
      BytesLength(v[4..]);
      assert |v| * 3 / 4 == |v[4..]| * 3 / 4 + 3;
    }
  }

  lemma {:induction false} SextetsFit(input: seq<byte>)
    ensures |SextetsOf(input)| <= |input|
    ensures forall i :: 0 <= i < |SextetsOf(input)| ==> SextetsOf(input)[i] == IndexMap(input[i])
    ensures |SextetsOf(input)| < |input| ==> IndexMap(input[|SextetsOf(input)|]) > 63
  {
    if input != [] && IndexMap(input[0]) <= 63 {
      SextetsFit(input[1..]);
    }
  }

  /** decodeLength, for an input of n characters. */
  function DecodeLength(n: nat): nat {
    (n + 2) / 4 * 3
  }

  /** What is decoded always fits what is allotted, although the two count characters differently. */
  lemma DecodingFits(input: seq<byte>)
    ensures |Decoding(input)| <= DecodeLength(|input|)
  {
    SextetsFit(input);
    var k := |SextetsOf(input)|;
    BytesLength(SextetsOf(input)[..k % WORD32]);
    RoomEnough(k % WORD32, |input|);
  }

  lemma RoomEnough(k: nat, n: nat)
    requires k <= n
    ensures k * 3 / 4 <= (n + 2) / 4 * 3
  {
    var m := n / 4;
    assert n == 4 * m || n == 4 * m + 1 || n == 4 * m + 2 || n == 4 * m + 3;
  }

  /** decodeLength: its loop stops at characters whose index is not below the size of the table, 256. */
  method ComputeDecodeLength(input: seq<byte>) returns (length: nat)
    ensures length == DecodeLength(|input|)
  {
    var pos := 0;
    while pos < |input| && IndexMap(input[pos]) < 256
      invariant 0 <= pos <= |input|
    {
      pos := pos + 1;
    }
    var nprbytes: int := pos - 1;
    length := (nprbytes + 3) / 4 * 3;
  }

  /** The counting loop of decode. */
  method CountSextets(input: seq<byte>) returns (k: nat)
    ensures k == |SextetsOf(input)|
  {
    SextetsFit(input);
    k := 0;
    while k < |input| && IndexMap(input[k]) <= 63
      invariant 0 <= k <= |SextetsOf(input)|
    {
      k := k + 1;
    }
  }

  /** Byte m of group g. */
  function GroupByte(v: seq<sextet>, g: nat, m: nat): byte
    requires m < 3 && 4 * g + m + 2 <= |v|
  {
    if m == 0 then First(v[4 * g], v[4 * g + 1])
    else if m == 1 then Second(v[4 * g + 1], v[4 * g + 2])
    else Third(v[4 * g + 2], v[4 * g + 3])
  }

  lemma BytesShifted(v: seq<sextet>, i: nat)
    requires |v| >= 4 && i < |Bytes(v[4..])|
    ensures i + 3 < |Bytes(v)| && Bytes(v)[i + 3] == Bytes(v[4..])[i]
  {
  }

  lemma {:induction false} BytesByGroup(v: seq<sextet>, g: nat, m: nat)
    requires m < 3 && 4 * g + m + 2 <= |v|
    ensures 3 * g + m < |Bytes(v)| && Bytes(v)[3 * g + m] == GroupByte(v, g, m)
  {
    if g > 0 {
      var w := v[4..];
      BytesByGroup(w, g - 1, m);
      BytesShifted(v, 3 * (g - 1) + m);
      GroupShifted(v, g, m);
    }
  }

  lemma GroupShifted(v: seq<sextet>, g: nat, m: nat)
    requires m < 3 && g > 0 && 4 * g + m + 2 <= |v|
    ensures GroupByte(v[4..], g - 1, m) == GroupByte(v, g, m)
  {
    assert forall k :: 0 <= k < |v| - 4 ==> v[4..][k] == v[k + 4];
  }

  ghost predicate LaidAt(v: seq<sextet>, bytes: seq<byte>, g: nat, m: nat) {
    m < 3 && 4 * g + m + 2 <= |v| ==> 3 * g + m < |bytes| && bytes[3 * g + m] == GroupByte(v, g, m)
  }

  /** `bytes` holds every byte of every group, as far as the group is there. */
  ghost predicate Laid(v: seq<sextet>, bytes: seq<byte>) {
    forall g: nat, m: nat :: LaidAt(v, bytes, g, m)
  }

  lemma {:induction false} BytesLaid(v: seq<sextet>, bytes: seq<byte>)
    requires bytes == Bytes(v)
    ensures Laid(v, bytes)
  {
    forall g: nat, m: nat
      ensures LaidAt(v, bytes, g, m)
    {
      if m < 3 && 4 * g + m + 2 <= |v| {
        BytesByGroup(v, g, m);
      }
    }
  }

  /** One group of up to four characters: r characters make r - 1 bytes. */
  method DecodeGroup(input: seq<byte>, out: array<byte>, r: nat, ghost v: seq<sextet>, ghost g: nat, pos: nat, at: nat)
    requires pos == 4 * g && at == 3 * g && r <= 4 && pos + r <= |v| <= |input| && at + r <= out.Length + 1
    requires forall i :: 0 <= i < |v| ==> IndexMap(input[i]) == v[i]
    modifies out
    ensures forall m :: 0 <= m < r - 1 ==> out[at + m] == GroupByte(v, g, m)
    ensures forall i :: 0 <= i < out.Length && !(at <= i < at + r - 1) ==> out[i] == old(out[i])
  {
    if r > 1 {
      out[at] := First(IndexMap(input[pos]), IndexMap(input[pos + 1]));
      if r > 2 {
        out[at + 1] := Second(IndexMap(input[pos + 1]), IndexMap(input[pos + 2]));
        if r > 3 {
          out[at + 2] := Third(IndexMap(input[pos + 2]), IndexMap(input[pos + 3]));
        }
      }
    }
  }

  lemma GroupLaid(v: seq<sextet>, bytes: seq<byte>, g: nat)
    requires Laid(v, bytes) && 4 * g + 4 <= |v|
    ensures 3 * g + 3 <= |bytes| && bytes[3 * g] == GroupByte(v, g, 0)
    ensures bytes[3 * g + 1] == GroupByte(v, g, 1) && bytes[3 * g + 2] == GroupByte(v, g, 2)
  {
    assert LaidAt(v, bytes, g, 0) && LaidAt(v, bytes, g, 1) && LaidAt(v, bytes, g, 2);
  }

  method DecodeFullGroup(input: seq<byte>, out: array<byte>, ghost v: seq<sextet>, ghost bytes: seq<byte>,
                         ghost g: nat, pos: nat, at: nat)
    requires pos == 4 * g && at == 3 * g && pos + 4 <= |v| <= |input| && Laid(v, bytes) && |bytes| <= out.Length
    requires forall i :: 0 <= i < |v| ==> IndexMap(input[i]) == v[i]
    modifies out
    ensures at + 3 <= |bytes| && out[at] == bytes[at] && out[at + 1] == bytes[at + 1] && out[at + 2] == bytes[at + 2]
    ensures forall i :: 0 <= i < out.Length && !(at <= i < at + 3) ==> out[i] == old(out[i])
  {
    GroupLaid(v, bytes, g);
    DecodeGroup(input, out, 4, v, g, pos, at);
    assert out[at + 0] == GroupByte(v, g, 0) && out[at + 1] == GroupByte(v, g, 1) && out[at + 2] == GroupByte(v, g, 2);
  }

  /** The loop of decode: all groups but the last, which has one to four characters. */
  method DecodeGroups(input: seq<byte>, out: array<byte>, k: nat, ghost v: seq<sextet>, ghost bytes: seq<byte>)
    returns (pos: nat, at: nat, ghost g: nat)
    requires |v| == k <= |input| && Laid(v, bytes) && |bytes| <= out.Length
    requires forall i :: 0 <= i < k ==> IndexMap(input[i]) == v[i]
    modifies out
    ensures pos == 4 * g && at == 3 * g <= |bytes| && pos <= k <= pos + 4 && (k == pos ==> k == 0)
    ensures forall i :: 0 <= i < at ==> out[i] == bytes[i]
    ensures forall i :: at <= i < out.Length ==> out[i] == old(out[i])
  {
    var nprbytes := k;
    pos, at, g := 0, 0, 0;
    while nprbytes > 4
      invariant pos == 4 * g && at == 3 * g <= |bytes| && pos + nprbytes == k && (g > 0 ==> nprbytes > 0)
      invariant forall i :: 0 <= i < at ==> out[i] == bytes[i]
      invariant forall i :: at <= i < out.Length ==> out[i] == old(out[i])
    {
      DecodeFullGroup(input, out, v, bytes, g, pos, at);
      pos, at, nprbytes, g := pos + 4, at + 3, nprbytes - 4, g + 1;
    }
  }

  /** decode, once the sextets are counted. */
  method DecodeSextets(input: seq<byte>, out: array<byte>, k: nat, ghost v: seq<sextet>, ghost bytes: seq<byte>)
    returns (count: nat)
    requires |v| == k <= |input| && Laid(v, bytes) && |bytes| == k * 3 / 4 <= out.Length
    requires forall i :: 0 <= i < k ==> IndexMap(input[i]) == v[i]
    modifies out
    ensures count == |bytes|
    ensures forall i :: 0 <= i < count ==> out[i] == bytes[i]
    ensures forall i :: count <= i < out.Length ==> out[i] == old(out[i])
  {
    var pos, at, g := DecodeGroups(input, out, k, v, bytes);
    var r := k - pos;
    DecodedCount(g, r);
    DecodeGroup(input, out, r, v, g, pos, at);
    count := (k + 3) / 4 * 3 - (4 - r) % 4;
    forall i | at <= i < count
      ensures out[i] == bytes[i]
    {
      assert LaidAt(v, bytes, g, i - at) && out[at + (i - at)] == GroupByte(v, g, i - at);
    }
  }

  lemma DecodedCount(g: nat, r: nat)
    requires r <= 4 && (r == 0 ==> g == 0)
    ensures (4 * g + r + 3) / 4 * 3 - (4 - r) % 4 == (4 * g + r) * 3 / 4 == 3 * g + if r == 0 then 0 else r - 1
  {
  }

  lemma SextetsReady(input: seq<byte>, k: nat, v: seq<sextet>)
    requires k == |SextetsOf(input)| % WORD32 && v == SextetsOf(input)[..k]
    ensures |v| == k <= |input| && |Bytes(v)| == k * 3 / 4 && Laid(v, Bytes(v)) && Bytes(v) == Decoding(input)
    ensures forall i :: 0 <= i < k ==> IndexMap(input[i]) == v[i]
  {
    SextetsFit(input);
    BytesLength(v);
    BytesLaid(v, Bytes(v));
  }

  /** decode into a buffer: exactly the returned number of bytes is written. */
  method DecodeInto(input: seq<byte>, out: array<byte>) returns (count: nat)
    requires DecodeLength(|input|) <= out.Length
    modifies out
    ensures count == |Decoding(input)| && count <= out.Length
    ensures out[..count] == Decoding(input)
    ensures out[count..] == old(out[..])[count..]
  {
    DecodingFits(input);
    if input == [] {
      return 0;
    }
    var k := CountSextets(input);
    k := k % WORD32;
    ghost var v := SextetsOf(input)[..k];
    SextetsReady(input, k, v);
    count := DecodeSextets(input, out, k, v, Bytes(v));
  }

  method Decode(input: seq<byte>) returns (output: seq<byte>)
    ensures output == Decoding(input)
  {
    var length := ComputeDecodeLength(input);
    var buffer := new byte[length](_ => 0);
    var count := DecodeInto(input, buffer);
    output := buffer[..count];
  }

  // ----- Round trip -----

  /** How many alphabet characters n bytes are encoded with, padding aside. */
  function SextetCount(n: nat): nat {
    (4 * n + 2) / 3
  }

  lemma SextetsCons(v: sextet, rest: seq<byte>)
    ensures SextetsOf([Alphabet(v)] + rest) == [v] + SextetsOf(rest)
  {
    IndexMapInverse(v, 0);
    assert ([Alphabet(v)] + rest)[1..] == rest;
  }

  lemma SextetsOfQuad(r: seq<sextet>, rest: seq<byte>)
    requires |r| == 4
    ensures SextetsOf(Quad(r) + rest) == r + SextetsOf(rest)
  {
    var rest3 := [Alphabet(r[3])] + rest;
    var rest2 := [Alphabet(r[2])] + rest3;
    var rest1 := [Alphabet(r[1])] + rest2;
    assert Quad(r) + rest == [Alphabet(r[0])] + rest1;
    SextetsCons(r[0], rest1);
    SextetsCons(r[1], rest2);
    SextetsCons(r[2], rest3);
    SextetsCons(r[3], rest);
  }

  lemma RegroupUndone(a: byte, b: byte, c: byte)
    ensures var r := Regrouped(a, b, c);
            First(r[0], r[1]) == a && Second(r[1], r[2]) == b && Third(r[2], r[3]) == c
  {
    Regroup(a, b, c);
    JoinBits(a / 4, a % 4, b / 16, b % 16, c / 64, c % 64);
  }

  lemma JoinBits(a1: nat, a0: nat, b1: nat, b0: nat, c1: nat, c0: nat)
    requires a1 < 64 && a0 < 4 && b1 < 16 && b0 < 16 && c1 < 4 && c0 < 64
    ensures First(a1, a0 * 16 + b1) == a1 * 4 + a0
    ensures Second(a0 * 16 + b1, b0 * 4 + c1) == b1 * 16 + b0
    ensures Third(b0 * 4 + c1, c0) == c1 * 64 + c0
  {
    JoinFirst(a1, a0, b1);
    JoinSecond(a0, b1, b0, c1);
    JoinThird(b0, c1, c0);
  }

  lemma JoinFirst(a1: nat, a0: nat, b1: nat)
    requires a1 < 64 && a0 < 4 && b1 < 16
    ensures First(a1, a0 * 16 + b1) == a1 * 4 + a0
  {
    assert (a0 * 16 + b1) / 16 == a0;
  }

  lemma JoinSecond(a0: nat, b1: nat, b0: nat, c1: nat)
    requires a0 < 4 && b1 < 16 && b0 < 16 && c1 < 4
    ensures Second(a0 * 16 + b1, b0 * 4 + c1) == b1 * 16 + b0
  {
    assert (b0 * 4 + c1) / 4 == b0;
    CutToByte(a0, b1 * 16 + b0);
    assert (a0 * 16 + b1) * 16 + b0 == a0 * 256 + (b1 * 16 + b0);
  }

  lemma CutToByte(k: nat, r: nat)
    requires r < 256
    ensures (k * 256 + r) % 256 == r
  {
  }

  lemma JoinThird(b0: nat, c1: nat, c0: nat)
    requires b0 < 16 && c1 < 4 && c0 < 64
    ensures Third(b0 * 4 + c1, c0) == c1 * 64 + c0
  {
    CutToByte(b0, c1 * 64 + c0);
    assert (b0 * 4 + c1) * 64 + c0 == b0 * 256 + (c1 * 64 + c0);
  }

  lemma {:induction false} SextetsOfEncoding(s: seq<byte>)
    ensures Bytes(SextetsOf(Encoding(s))) == s
    ensures |SextetsOf(Encoding(s))| == SextetCount(|s|)
  {
    if |s| >= 3 {
      var r, rest := Regrouped(s[0], s[1], s[2]), s[3..];
      SextetsOfEncoding(rest);
      SextetsOfQuad(r, Encoding(rest));
      var v := r + SextetsOf(Encoding(rest));
      assert v[4..] == SextetsOf(Encoding(rest));
      RegroupUndone(s[0], s[1], s[2]);
      assert s == [s[0], s[1], s[2]] + rest;
      assert SextetCount(|s|) == SextetCount(|rest|) + 4;
    } else if |s| == 2 {
      PaddedTwo(s);
    } else if |s| == 1 {
      PaddedOne(s);
    }
  }

  lemma PaddedTwo(s: seq<byte>)
    requires |s| == 2
    ensures |SextetsOf(Encoding(s))| == 3 && Bytes(SextetsOf(Encoding(s))) == s
  {
    var r := Regrouped(s[0], s[1], 0);
    var end := [PAD];
    var e2 := [Alphabet(r[2])] + end;
    var e1 := [Alphabet(r[1])] + e2;
    assert Encoding(s) == [Alphabet(r[0])] + e1;
    SextetsCons(r[0], e1);
    SextetsCons(r[1], e2);
    SextetsCons(r[2], end);
    assert SextetsOf(end) == [];
    assert SextetsOf(Encoding(s)) == [r[0], r[1], r[2]];
    RegroupUndone(s[0], s[1], 0);
  }

  lemma PaddedOne(s: seq<byte>)
    requires |s| == 1
    ensures |SextetsOf(Encoding(s))| == 2 && Bytes(SextetsOf(Encoding(s))) == s
  {
    var r := Regrouped(s[0], 0, 0);
    var end := [PAD, PAD];
    var e1 := [Alphabet(r[1])] + end;
    assert Encoding(s) == [Alphabet(r[0])] + e1;
    SextetsCons(r[0], e1);
    SextetsCons(r[1], end);
    assert SextetsOf(end) == [];
    assert SextetsOf(Encoding(s)) == [r[0], r[1]];
    RegroupUndone(s[0], 0, 0);
  }

  lemma CutCount(length: nat)
    ensures length < WORD32 ==> length % WORD32 == length
    ensures length >= WORD32 ==> length % WORD32 + 4 <= length
  {
  }

  lemma CutAt(v: seq<sextet>, n: nat)
    requires n == |v| || n + 4 <= |v|
    ensures Bytes(v[..n]) == Bytes(v) <==> n == |v|
  {
    if n == |v| {
      assert v[..n] == v;
    } else {
      CutShortens(v, n);
    }
  }

  lemma CutShortens(v: seq<sextet>, n: nat)
    requires n + 4 <= |v|
    ensures |Bytes(v[..n])| < |Bytes(v)|
  {
    BytesLength(v);
    BytesLength(v[..n]);
  }

  /** decode undoes encode exactly as long as the number of sextets fits into 32 bits. */
  lemma RoundTrip(s: seq<byte>)
    ensures Decoding(Encoding(s)) == s <==> SextetCount(|s|) < WORD32
  {
    SextetsOfEncoding(s);
    var v := SextetsOf(Encoding(s));
    CutCount(|v|);
    CutAt(v, |v| % WORD32);
  }

  const LOST: nat := 3221225472 // 3 * 2^30

  /** Nothing at all is left exactly of the inputs whose length is a multiple of 3 * 2^30. */
  lemma LostAltogether(s: seq<byte>)
    ensures Decoding(Encoding(s)) == [] <==> |s| % LOST == 0
  {
    SextetsOfEncoding(s);
    NoSextetsLeft(|s|);
    NothingDecoded(Encoding(s), SextetCount(|s|) % WORD32);
  }

  lemma NothingDecoded(input: seq<byte>, n: nat)
    requires n == |SextetsOf(input)| % WORD32
    ensures Decoding(input) == [] <==> n <= 1
  {
    CutCount(|SextetsOf(input)|);
    NoBytes(SextetsOf(input)[..n]);
  }

  lemma NoBytes(v: seq<sextet>)
    ensures Bytes(v) == [] <==> |v| <= 1
  {
  }

  lemma NoSextetsLeft(n: nat)
    ensures SextetCount(n) % WORD32 <= 1 <==> n % LOST == 0
  {
    var q, r := n / LOST, n % LOST;
    assert SextetCount(n) == q * WORD32 + SextetCount(r);
    assert SextetCount(r) < WORD32;
    assert SextetCount(r) <= 1 <==> r == 0;
  }

  // ----- The text -----

  const CAPITALS := "ABCDEFGHIJKLMNOPQRSTUVWXYZ"
  const SMALL := "abcdefghijklmnopqrstuvwxyz"
  const OTHERS := "0123456789+/"
  const LETTERS := CAPITALS + SMALL + OTHERS

  /** The characters of table 1 of RFC 4648, in their order. */
  lemma AlphabetIsTable(v: sextet)
    ensures |LETTERS| == 64 && Alphabet(v) == LETTERS[v] as int
  {
    if v < 26 {
      CapitalLetters(v);
    } else if v < 52 {
      SmallLetters(v - 26);
    } else {
      OtherLetters(v - 52);
    }
  }

  lemma CapitalLetters(k: nat)
    requires k < 26
    ensures Alphabet(k) == CAPITALS[k] as int
  {
    if k < 13 {
      assert CAPITALS[..13] == "ABCDEFGHIJKLM";
      assert CAPITALS[k] == CAPITALS[..13][k];
    }
  }

  lemma SmallLetters(k: nat)
    requires k < 26
    ensures Alphabet(26 + k) == SMALL[k] as int
  {
    if k < 13 {
      assert SMALL[..13] == "abcdefghijklm";
      assert SMALL[k] == SMALL[..13][k];
    }
  }

  lemma OtherLetters(k: nat)
    requires k < 12
    ensures Alphabet(52 + k) == OTHERS[k] as int
  {
  }

  function ByteAt(s: seq<byte>, k: nat): byte {
    if k < |s| then s[k] else 0
  }

  /** Six bits of the input, counted from its beginning, with zero bits behind its end. */
  function SextetAt(s: seq<byte>, i: nat): sextet {
    var g := i / 4 * 3;
    Regrouped(ByteAt(s, g), ByteAt(s, g + 1), ByteAt(s, g + 2))[i % 4]
  }

  /** The character at a position, by its code. */
  function CharAt(s: seq<byte>, i: nat): byte {
    if i < SextetCount(|s|) then Alphabet(SextetAt(s, i)) else '=' as int
  }

  lemma SextetLater(s: seq<byte>, i: nat)
    requires |s| >= 3 && i >= 4
    ensures SextetAt(s, i) == SextetAt(s[3..], i - 4)
  {
    assert i / 4 == (i - 4) / 4 + 1 && i % 4 == (i - 4) % 4;
  }

  lemma CharLater(s: seq<byte>, i: nat)
    requires |s| >= 3 && i >= 4
    ensures CharAt(s, i) == CharAt(s[3..], i - 4)
  {
    SextetLater(s, i);
    assert SextetCount(|s|) == SextetCount(|s[3..]|) + 4;
  }

  lemma FirstGroup(s: seq<byte>, i: nat)
    requires i < 4 && i < |Encoding(s)|
    ensures Encoding(s)[i] == CharAt(s, i)
  {
    assert i / 4 == 0 && i % 4 == i;
  }

  lemma {:induction false} CharsOfEncoding(s: seq<byte>, i: nat)
    requires i < |Encoding(s)|
    ensures Encoding(s)[i] == CharAt(s, i)
    decreases |s|
  {
    if i < 4 {
      FirstGroup(s, i);
    } else {
      CharsOfEncoding(s[3..], i - 4);
      CharLater(s, i);
    }
  }

  /** Each character stands for the next six bits; then '=' up to a multiple of four. */
  lemma EncodingAt(s: seq<byte>, i: nat)
    requires i < |Encoding(s)|
    ensures |LETTERS| == 64
    ensures Encoding(s)[i] == (if i < SextetCount(|s|) then LETTERS[SextetAt(s, i)] else '=') as int
  {
    CharsOfEncoding(s, i);
    AlphabetIsTable(SextetAt(s, i));
  }

  lemma {:induction false} EncodingEnds(s: seq<byte>)
    ensures |Encoding(s)| == SextetCount(|s|) + (3 - |s| % 3) % 3
  {
    EncodingLength(s);
    PaddingCount(|s|);
  }

  lemma PaddingCount(n: nat)
    ensures (n + 2) / 3 * 4 == SextetCount(n) + (3 - n % 3) % 3
  {
    var q, r := n / 3, n % 3;
    assert (n + 2) / 3 == q + (r + 2) / 3;
    assert SextetCount(n) == 4 * q + SextetCount(r);
  }

  /** The first character outside the alphabet ends the input. */
  lemma DecodingStops(a: seq<byte>, x: byte, b: seq<byte>)
    requires forall v: sextet :: Alphabet(v) != x
    ensures Decoding(a + [x] + b) == Decoding(a)
  {
    IndexMapInverse(0, x);
    SextetsStop(a, x, b);
  }

  lemma {:induction false} SextetsStop(a: seq<byte>, x: byte, b: seq<byte>)
    requires IndexMap(x) > 63
    ensures SextetsOf(a + [x] + b) == SextetsOf(a)
  {
    if a != [] {
      assert (a + [x] + b)[1..] == a[1..] + [x] + b;
      SextetsStop(a[1..], x, b);
    }
  }

  /** decodeLength allots the least multiple of three that three bytes per four characters fit in. */
  lemma DecodeLengthTight(n: nat)
    ensures n * 3 / 4 <= DecodeLength(n) < n * 3 / 4 + 3 && DecodeLength(n) % 3 == 0
  {
  }
}
