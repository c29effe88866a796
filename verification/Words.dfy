/**
  Machine words as bounded integers, with the bitwise operators the original uses on them.
  */
module Words {

  const WORD32: int := 0x1_0000_0000
  const WORD64: int := 0x1_0000_0000_0000_0000

  type byte = x: int | 0 <= x < 256
  type uint32 = x: int | 0 <= x < 0x1_0000_0000
  type uint64 = x: int | 0 <= x < 0x1_0000_0000_0000_0000

  /** Bitwise and of two non-negative integers, least significant bit first. */
  function BitAnd(x: nat, y: nat): nat {
    if x == 0 || y == 0 then 0 else (if x % 2 == 1 && y % 2 == 1 then 1 else 0) + 2 * BitAnd(x / 2, y / 2)
  }

  /** Bitwise exclusive or of two non-negative integers. */
  function BitXor(x: nat, y: nat): nat
    decreases x + y
  {
    if x == 0 then y else if y == 0 then x
    else (if x % 2 != y % 2 then 1 else 0) + 2 * BitXor(x / 2, y / 2)
  }

  function Pow2(k: nat): (p: nat)
    ensures p >= 1
  {
    if k == 0 then 1 else 2 * Pow2(k - 1)
  }

  /** detail::isPowerOfTwo, on the positive values the constructor goes on to demand. */
  predicate IsPowerOfTwo(v: nat)
    requires v >= 1
  {
    BitAnd(v, v - 1) == 0
  }

  lemma {:induction false} AndAtMost(x: nat, y: nat)
    ensures BitAnd(x, y) <= y
  {
    if x != 0 && y != 0 {
      AndAtMost(x / 2, y / 2);
    }
  }

  lemma {:induction false} XorUndone(x: nat, y: nat)
    ensures BitXor(BitXor(x, y), y) == x
    decreases x + y
  {
    if x == 0 {
      XorSelf(y);
    } else if y != 0 {
      var z := BitXor(x, y);
      assert z / 2 == BitXor(x / 2, y / 2);
      XorUndone(x / 2, y / 2);
      if z == 0 {
        assert x / 2 == y / 2;
      }
    }
  }

  lemma {:induction false} XorSelf(x: nat)
    ensures BitXor(x, x) == 0
  {
    if x != 0 {
      XorSelf(x / 2);
    }
  }

  lemma {:induction false} XorCommutes(x: nat, y: nat)
    ensures BitXor(x, y) == BitXor(y, x)
    decreases x + y
  {
    if x != 0 && y != 0 {
      XorCommutes(x / 2, y / 2);
    }
  }

  lemma {:induction false} XorBelow(x: nat, y: nat, k: nat)
    requires x < Pow2(k) && y < Pow2(k)
    ensures BitXor(x, y) < Pow2(k)
    decreases x + y
  {
    if x != 0 && y != 0 {
      XorBelow(x / 2, y / 2, k - 1);
    }
  }

  lemma {:induction false} XorZero(x: nat)
    ensures BitXor(x, 0) == x
  {
    if x > 0 {
      XorZero(x / 2);
    }
  }

  lemma Pow2Of32()
    ensures Pow2(32) == 0x1_0000_0000
  {
    assert Pow2(8) == 256;
    assert Pow2(16) == 0x1_0000;
    assert Pow2(24) == 0x100_0000;
  }

  // ----- Remainders by a variable -----

  lemma TimesMonotone(a: int, b: int, m: int)
    requires a <= b && m >= 0
    ensures a * m <= b * m
  {
  }

  lemma SmallMultiple(k: int, m: int)
    requires m > 0 && -m < k * m < m
    ensures k == 0
  {
    if k >= 1 {
      TimesMonotone(1, k, m);
      assert false;
    } else if k <= -1 {
      TimesMonotone(k, -1, m);
      assert false;
    }
  }

  lemma RemainderUnique(x: int, m: int, q: int, r: int)
    requires m > 0 && x == q * m + r && 0 <= r < m
    ensures x % m == r && x / m == q
  {
    var q', r' := x / m, x % m;
    assert x == q' * m + r';
    assert (q - q') * m == r' - r;
    SmallMultiple(q - q', m);
  }

  /** Adding a multiple of the modulus changes nothing. */
  lemma RemainderShifted(x: int, k: int, m: int)
    requires m > 0
    ensures (x + k * m) % m == x % m
  {
    RemainderUnique(x + k * m, m, x / m + k, x % m);
  }

  lemma RemainderOfSum(x: int, y: int, m: int)
    requires m > 0
    ensures (x % m + y) % m == (x + y) % m
  {
    RemainderShifted(x % m + y, x / m, m);
  }

  /** x % n, reached by adding or subtracting n. */
  function Wrap(x: int, n: int): (r: nat)
    requires n > 0
    ensures r < n
    decreases if x >= 0 then x else n - x
  {
    if x < 0 then Wrap(x + n, n) else if x >= n then Wrap(x - n, n) else x
  }

  lemma {:induction false} WrapIsRemainder(x: int, n: int)
    requires n > 0
    ensures Wrap(x, n) == x % n
    decreases if x >= 0 then x else n - x
  {
    if x < 0 {
      WrapIsRemainder(x + n, n);
      RemainderShifted(x, 1, n);
    } else if x >= n {
      WrapIsRemainder(x - n, n);
      RemainderShifted(x, -1, n);
    } else {
      RemainderUnique(x, n, 0, x);
    }
  }

  lemma WrapOfSum(x: int, y: int, n: int)
    requires n > 0
    ensures Wrap(Wrap(x, n) + y, n) == Wrap(x + y, n)
  {
    WrapIsRemainder(x, n);
    WrapIsRemainder(x % n + y, n);
    WrapIsRemainder(x + y, n);
    RemainderOfSum(x, y, n);
  }
}
