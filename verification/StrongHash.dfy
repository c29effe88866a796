/**
  The 128-bit hash of crispy::strong_hash (the build without intrinsics), the FNV-1a step it is
  folded with, and the integer hashers.

  Lanes are 32-bit words; products wrap explicitly.
  */
module StrongHashing {
  import opened Words

  datatype StrongHash = StrongHash(a: uint32, b: uint32, c: uint32, d: uint32)

  /** One FNV-1a step with the 32-bit prime 16777619. */
  function FnvStep(memory: uint32, value: uint32): uint32 {
    Xor32(memory, value) * 16777619 % WORD32
  }

  function Xor32(x: uint32, y: uint32): uint32 {
    Pow2Of32();
    XorBelow(x, y, 32);
    BitXor(x, y)
  }

  /** strong_hash operator*(strong_hash, strong_hash) */
  function Combine(x: StrongHash, y: StrongHash): StrongHash {
    StrongHash(FnvStep(x.a, y.a), FnvStep(x.b, y.b), FnvStep(x.c, y.c), FnvStep(x.d, y.d))
  }

  /** strong_hash operator*(strong_hash, uint32_t) */
  function Append(x: StrongHash, codepoint: uint32): StrongHash {
    Combine(x, StrongHash(0, 0, 0, codepoint))
  }

  function FoldFrom(h: StrongHash, text: seq<uint32>): StrongHash
    decreases |text|
  {
    if text == [] then h else FoldFrom(Append(h, text[0]), text[1..])
  }

  function SeedFor(length: nat): StrongHash {
    StrongHash(0, 0, 0, length % WORD32)
  }

  /** strong_hash::compute over a string of (at most 32-bit) code units. */
  method Compute(text: seq<uint32>) returns (hash: StrongHash)
    ensures hash == FoldFrom(SeedFor(|text|), text)
  {
    hash := SeedFor(|text|);
    var i := 0;
    while i < |text|
      invariant 0 <= i <= |text|
      invariant FoldFrom(hash, text[i..]) == FoldFrom(SeedFor(|text|), text)
    {
      hash := Append(hash, text[i]);
      assert text[i..][0] == text[i] && text[i..][1..] == text[i + 1..];
      i := i + 1;
    }
  }

  /** Multiplying by 899433627, the inverse of the prime modulo 2^32, undoes the multiplication. */
  lemma TimesPrimeUndone(x: uint32)
    ensures (x * 16777619 % WORD32) * 899433627 % WORD32 == x
  {
    var k := x * 16777619 / WORD32;
    var y := x * 16777619 % WORD32;
    var q := x * 3513497 - k * 899433627;
    assert y * 899433627 == q * WORD32 + x;
    RemainderUnique(y * 899433627, WORD32, q, x);
  }

  lemma PrimeTimesUndone(x: uint32)
    ensures (x * 899433627 % WORD32) * 16777619 % WORD32 == x
  {
    var k := x * 899433627 / WORD32;
    var y := x * 899433627 % WORD32;
    var q := x * 3513497 - k * 16777619;
    assert y * 16777619 == q * WORD32 + x;
    RemainderUnique(y * 16777619, WORD32, q, x);
  }

  /** Either argument of a step from the other one and the result. */
  function FnvUnstep(other: uint32, result: uint32): uint32 {
    Xor32(result * 899433627 % WORD32, other)
  }

  /** A step is a bijection in the state (for a fixed character) and in the character (for a fixed state). */
  lemma FnvStepBijective(m: uint32, v: uint32, result: uint32)
    ensures FnvStep(m, v) == result <==> m == FnvUnstep(v, result)
    ensures FnvStep(m, v) == result <==> v == FnvUnstep(m, result)
  {
    var x := result * 899433627 % WORD32;
    PrimeTimesUndone(result);
    TimesPrimeUndone(Xor32(m, v));
    assert FnvStep(m, v) == result <==> BitXor(m, v) == x;
    XorMoves(m, v, x);
    XorCommutes(m, v);
    XorMoves(v, m, x);
  }

  lemma XorMoves(x: nat, y: nat, z: nat)
    ensures BitXor(x, y) == z <==> x == BitXor(z, y)
  {
    XorUndone(x, y);
    XorUndone(z, y);
  }

  lemma FnvStepInjective(m: uint32, m': uint32, v: uint32, v': uint32)
    requires FnvStep(m, v) == FnvStep(m', v')
    ensures m == m' <==> v == v'
  {
    TimesPrimeUndone(Xor32(m, v));
    TimesPrimeUndone(Xor32(m', v'));
    assert BitXor(m, v) == BitXor(m', v');
    XorUndone(m, v);
    XorUndone(m', v');
    XorCommutes(m, v);
    XorCommutes(m', v');
    XorUndone(v, m);
    XorUndone(v', m');
  }

  /** The hash before a character was appended. */
  function Unappend(h: StrongHash, codepoint: uint32): StrongHash {
    StrongHash(FnvUnstep(0, h.a), FnvUnstep(0, h.b), FnvUnstep(0, h.c), FnvUnstep(codepoint, h.d))
  }

  /** Appending a character is a bijection of the hashes. */
  lemma AppendBijective(h: StrongHash, v: uint32, result: StrongHash)
    ensures Append(h, v) == result <==> h == Unappend(result, v)
  {
    FnvStepBijective(h.a, 0, result.a);
    FnvStepBijective(h.b, 0, result.b);
    FnvStepBijective(h.c, 0, result.c);
    FnvStepBijective(h.d, v, result.d);
  }

  lemma AppendInjective(h: StrongHash, h': StrongHash, v: uint32, v': uint32)
    requires Append(h, v) == Append(h', v')
    ensures h == h' <==> v == v'
  {
    FnvStepInjective(h.a, h'.a, 0, 0);
    FnvStepInjective(h.b, h'.b, 0, 0);
    FnvStepInjective(h.c, h'.c, 0, 0);
    FnvStepInjective(h.d, h'.d, v, v');
  }

  lemma {:induction false} FoldInjective(h: StrongHash, h': StrongHash, text: seq<uint32>)
    ensures FoldFrom(h, text) == FoldFrom(h', text) <==> h == h'
    decreases |text|
  {
    if text != [] {
      if Append(h, text[0]) == Append(h', text[0]) {
        AppendInjective(h, h', text[0], text[0]);
      }
      FoldInjective(Append(h, text[0]), Append(h', text[0]), text[1..]);
    }
  }

  lemma {:induction false} FoldConcat(h: StrongHash, s: seq<uint32>, t: seq<uint32>)
    ensures FoldFrom(h, s + t) == FoldFrom(FoldFrom(h, s), t)
    decreases |s|
  {
    if s == [] {
      assert s + t == t;
    } else {
      assert (s + t)[0] == s[0] && (s + t)[1..] == s[1..] + t;
      FoldConcat(Append(h, s[0]), s[1..], t);
    }
  }

  function HashOf(text: seq<uint32>): StrongHash {
    FoldFrom(SeedFor(|text|), text)
  }

  /** Changing exactly one character of a string always changes its hash. */
  lemma OneCharacterApart(s: seq<uint32>, k: nat, c: uint32)
    requires k < |s|
    ensures HashOf(s[k := c]) == HashOf(s) <==> c == s[k]
  {
    var seed := SeedFor(|s|);
    var pre, post := s[..k], s[k + 1..];
    var before := FoldFrom(seed, pre);
    forall x: uint32
      ensures FoldFrom(seed, pre + [x] + post) == FoldFrom(Append(before, x), post)
    {
      FoldConcat(seed, pre + [x], post);
      FoldConcat(seed, pre, [x]);
      assert FoldFrom(before, [x]) == FoldFrom(Append(before, x), []);
    }
    assert s == pre + [s[k]] + post && s[k := c] == pre + [c] + post;
    FoldInjective(Append(before, s[k]), Append(before, c), post);
    if Append(before, s[k]) == Append(before, c) {
      AppendInjective(before, before, s[k], c);
    }
  }

  /** strong_hasher<uint64_t> */
  function HashUint64(v: uint64): StrongHash {
    StrongHash(0, 0, v / WORD32, v % WORD32)
  }

  /** strong_hasher<uint32_t>, and the narrower unsigned hashers */
  function HashUint32(v: uint32): StrongHash {
    StrongHash(0, 0, 0, v)
  }

  type int32 = x: int | -0x8000_0000 <= x < 0x8000_0000

  /** strong_hasher<int32_t>, and the narrower signed hashers: the value is cast to uint32_t. */
  function HashInt32(v: int32): StrongHash {
    StrongHash(0, 0, 0, v % WORD32)
  }

  ghost predicate Injective<K(!new)>(hasher: K -> StrongHash) {
    forall x, y :: hasher(x) == hasher(y) ==> x == y
  }

  lemma IntegerHashersInjective()
    ensures Injective(HashUint64)
    ensures Injective(HashUint32)
    ensures Injective(HashInt32)
  {
    forall x, y | HashUint64(x) == HashUint64(y)
      ensures x == y
    {
      assert x == HashUint64(x).c * WORD32 + HashUint64(x).d;
    }
  }

  // ----- What the hash is -----

  /** FNV-1a over the characters, from a given state. */
  function Fnv(state: uint32, text: seq<uint32>): uint32
    decreases |text|
  {
    if text == [] then state else Fnv(FnvStep(state, text[0]), text[1..])
  }

  lemma ZeroStays()
    ensures FnvStep(0, 0) == 0
  {
  }

  lemma {:induction false} FoldIsFnv(d: uint32, text: seq<uint32>)
    ensures FoldFrom(StrongHash(0, 0, 0, d), text) == StrongHash(0, 0, 0, Fnv(d, text))
    decreases |text|
  {
    if text != [] {
      ZeroStays();
      FoldIsFnv(FnvStep(d, text[0]), text[1..]);
    }
  }

  /** Of the four words only the last one is ever set: FNV-1a of the characters, starting from their number. */
  lemma HashIsFnv(text: seq<uint32>)
    ensures HashOf(text) == StrongHash(0, 0, 0, Fnv(|text| % WORD32, text))
  {
    FoldIsFnv(|text| % WORD32, text);
  }

  /** Exclusive or comes first, then the product with the 32-bit FNV prime. */
  lemma FnvStepIs(c: uint32)
    ensures FnvStep(0, c) == FnvStep(c, 0) == c * 16777619 % WORD32
    ensures FnvStep(c, c) == 0
  {
    XorZero(c);
    XorCommutes(0, c);
    XorSelf(c);
  }

  /** The hashers agree where their types do, and a 64-bit value can be read off its hash. */
  lemma HashersAgree(v: uint64, w: int32)
    ensures HashUint64(v).a == HashUint64(v).b == 0
    ensures HashUint64(v).c * WORD32 + HashUint64(v).d == v
    ensures v < WORD32 ==> HashUint64(v) == HashUint32(v)
    ensures HashInt32(w) == HashUint32(if w >= 0 then w else w + WORD32)
  {
  }
}
