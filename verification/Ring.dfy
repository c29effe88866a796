/**
  crispy::basic_ring and crispy::ring: a vector seen through a rotating origin.

  Positions are computed in 64-bit words, as in the original: sums and differences wrap at 2^64
  before the remainder is taken.
  */
module Rings {
  import opened Words

  /** What a ring with this storage and this origin shows at positions 0, 1, ... */
  function Logical<T>(storage: seq<T>, zero: nat): (r: seq<T>)
    ensures |r| == |storage|
    ensures forall i :: 0 <= i < |r| ==> r[i] == storage[Wrap(zero + i, |storage|)]
  {
    seq(|storage|, i requires 0 <= i < |storage| => storage[Wrap(zero + i, |storage|)])
  }

  /** A cyclic shift to the left by k places; a negative k shifts to the right. */
  function Rotated<T>(s: seq<T>, k: int): (r: seq<T>)
    ensures |r| == |s|
    ensures forall i :: 0 <= i < |r| ==> r[i] == s[Wrap(i + k, |s|)]
  {
    seq(|s|, i requires 0 <= i < |s| => s[Wrap(i + k, |s|)])
  }

  /** The index computation shared by operator[], at and the rotations: a sum cast to size_t, modulo n. */
  function Slot(zero: nat, n: nat, i: int): (k: nat)
    requires n > 0
    ensures k < n
  {
    (zero + n + i) % WORD64 % n
  }

  /** The sum fits into a word, or the number of slots divides 2^64 so that wrapping does no harm. */
  predicate InRange(zero: nat, n: nat, i: int)
    requires n > 0
  {
    0 <= zero + n + i < WORD64 || WORD64 % n == 0
  }

  lemma Multiple(x: int, k: int, n: int)
    requires n > 0 && x == k * n
    ensures x % n == 0
  {
    RemainderUnique(x, n, k, 0);
  }

  lemma WrapHarmless(x: int, q: int, n: int)
    requires n > 0 && WORD64 % n == 0
    ensures (x - q * WORD64) % n == x % n
  {
    var k := WORD64 / n;
    assert WORD64 == k * n;
    assert q * WORD64 == (q * k) * n;
    RemainderShifted(x, -(q * k), n);
    assert x + -(q * k) * n == x - q * WORD64;
  }

  lemma WrapHarmful(x: int, q: int, n: int)
    requires n > 0 && (q == 1 || q == -1) && (x - q * WORD64) % n == x % n
    ensures WORD64 % n == 0
  {
    var w := x - q * WORD64;
    assert x == x / n * n + x % n && w == w / n * n + w % n;
    assert q * WORD64 == (x / n - w / n) * n;
    Multiple(WORD64, q * (x / n - w / n), n);
  }

  /** The slot found is the one i places behind the origin exactly when the offset is in range. */
  lemma SlotExact(zero: nat, n: nat, i: int)
    requires n > 0 && -WORD64 <= zero + n + i < 2 * WORD64
    ensures Slot(zero, n, i) == Wrap(zero + i, n) <==> InRange(zero, n, i)
  {
    var x := zero + n + i;
    var q := x / WORD64;
    assert x % WORD64 == x - q * WORD64;
    WrapIsRemainder(zero + i, n);
    RemainderShifted(zero + i, 1, n);
    if 0 <= x < WORD64 {
    } else if WORD64 % n == 0 {
      WrapHarmless(x, q, n);
    } else if (x - q * WORD64) % n == x % n {
      WrapHarmful(x, q, n);
    }
  }

  /** Turning three elements right by four: the difference wraps, and 3 does not divide 2^64. */
  lemma TooFarRight()
    ensures !InRange(0, 3, -4) && Slot(0, 3, -4) == 0 && Wrap(-4, 3) == 2
  {
    assert Wrap(-4, 3) == Wrap(-1, 3) == Wrap(2, 3);
  }

  lemma SlotInRange(zero: nat, n: nat, i: int)
    requires n > 0 && InRange(zero, n, i)
    ensures Slot(zero, n, i) == Wrap(zero + i, n)
  {
    var x := zero + n + i;
    WrapIsRemainder(zero + i, n);
    RemainderShifted(zero + i, 1, n);
    if !(0 <= x < WORD64) {
      WrapHarmless(x, x / WORD64, n);
      assert x % WORD64 == x - x / WORD64 * WORD64;
    }
  }

  /** Position i, seen from the moved origin and in the rotated sequence. */
  lemma SamePlace(zero: nat, k: int, i: int, n: nat)
    requires n > 0
    ensures Wrap(Wrap(zero + k, n) + i, n) == Wrap(zero + Wrap(i + k, n), n)
  {
    WrapOfSum(zero + k, i, n);
    WrapOfSum(i + k, zero, n);
    assert zero + k + i == i + k + zero;
    assert zero + Wrap(i + k, n) == Wrap(i + k, n) + zero;
  }

  /** Moving the origin by k rotates what the ring shows. */
  lemma OriginMoved<T>(storage: seq<T>, zero: nat, k: int)
    requires storage != []
    ensures Logical(storage, Wrap(zero + k, |storage|)) == Rotated(Logical(storage, zero), k)
  {
    var n := |storage|;
    forall i | 0 <= i < n
      ensures Logical(storage, Wrap(zero + k, n))[i] == Rotated(Logical(storage, zero), k)[i]
    {
      SamePlace(zero, k, i, n);
    }
  }

  lemma RotatedTwice<T>(s: seq<T>, j: int, k: int)
    ensures Rotated(Rotated(s, j), k) == Rotated(s, j + k)
  {
    forall i | 0 <= i < |s|
      ensures Rotated(Rotated(s, j), k)[i] == Rotated(s, j + k)[i]
    {
      WrapOfSum(i + k, j, |s|);
      assert i + k + j == i + (j + k);
    }
  }

  lemma RotatedZero<T>(s: seq<T>)
    ensures Rotated(s, 0) == s && Logical(s, 0) == s
  {
  }

  /** The sum of a series of shifts, and the origin it leads to. */
  function Net(shifts: seq<int>): int {
    if shifts == [] then 0 else Net(shifts[..|shifts| - 1]) + shifts[|shifts| - 1]
  }

  function OriginAfter(zero: nat, n: nat, shifts: seq<int>): (z: nat)
    requires n > 0 && zero < n
    ensures z < n
  {
    if shifts == [] then zero else Slot(OriginAfter(zero, n, shifts[..|shifts| - 1]), n, shifts[|shifts| - 1])
  }

  ghost predicate AllInRange(zero: nat, n: nat, shifts: seq<int>)
    requires n > 0 && zero < n
  {
    forall i :: 0 <= i < |shifts| ==> InRange(OriginAfter(zero, n, shifts[..i]), n, shifts[i])
  }

  /** After any rotations in range, the ring shows its original contents shifted by the sum of them. */
  lemma {:induction false} RotationsAddUp<T>(storage: seq<T>, zero: nat, shifts: seq<int>)
    requires zero < |storage| && AllInRange(zero, |storage|, shifts)
    ensures Logical(storage, OriginAfter(zero, |storage|, shifts)) == Rotated(Logical(storage, zero), Net(shifts))
    decreases |shifts|
  {
    var n, shown := |storage|, Logical(storage, zero);
    if shifts == [] {
      RotatedZero(shown);
    } else {
      var before, last := shifts[..|shifts| - 1], shifts[|shifts| - 1];
      LastInRange(zero, n, shifts);
      RotationsAddUp(storage, zero, before);
      var z := OriginAfter(zero, n, before);
      SlotInRange(z, n, last);
      OriginMoved(storage, z, last);
      RotatedTwice(shown, Net(before), last);
    }
  }

  lemma LastInRange(zero: nat, n: nat, shifts: seq<int>)
    requires zero < n && shifts != [] && AllInRange(zero, n, shifts)
    ensures var before := shifts[..|shifts| - 1];
            AllInRange(zero, n, before) && InRange(OriginAfter(zero, n, before), n, shifts[|shifts| - 1])
  {
    var before := shifts[..|shifts| - 1];
    forall i | 0 <= i < |before|
      ensures InRange(OriginAfter(zero, n, before[..i]), n, before[i])
    {
      assert before[..i] == shifts[..i];
    }
  }

  class Ring<T> {
    var storage: seq<T>
    var zero: nat
    const defaultElement: T
    /** The vector's max_size(). */
    const maxSize: nat

    /** A vector has fewer than 2^62 elements, so no sum of two positions overflows a signed word. */
    ghost predicate Valid()
      reads this
    {
      |storage| <= maxSize < WORD64 / 4 && (if storage == [] then zero == 0 else zero < |storage|)
    }

    ghost function Shown(): seq<T>
      reads this
    {
      Logical(storage, zero)
    }

    constructor (contents: seq<T>, defaultElement: T, maxSize: nat)
      requires |contents| <= maxSize < WORD64 / 4
      ensures Valid() && Shown() == contents && this.defaultElement == defaultElement && this.maxSize == maxSize
    {
      storage, zero := contents, 0;
      this.defaultElement, this.maxSize := defaultElement, maxSize;
      new;
      RotatedZero(contents);
    }

    /** operator[] and at; positions count from the origin in both directions. */
    method Index(i: int) returns (x: T)
      requires Valid() && storage != [] && -WORD64 / 2 <= i < WORD64 / 2
      ensures x == storage[Slot(zero, |storage|, i)]
      ensures InRange(zero, |storage|, i) ==> x == Shown()[Wrap(i, |storage|)]
    {
      if InRange(zero, |storage|, i) {
        SlotInRange(zero, |storage|, i);
      }
      WrapOfSum(i, zero, |storage|);
      assert i + zero == zero + i && Wrap(i, |storage|) + zero == zero + Wrap(i, |storage|);
      x := storage[Slot(zero, |storage|, i)];
    }

    /** rotate_left: count is a size_t. */
    method RotateLeft(count: nat)
      requires Valid() && storage != [] && count < WORD64
      modifies this`zero
      ensures Valid() && zero == Slot(old(zero), |storage|, count)
      ensures zero == Wrap(old(zero) + count, |storage|) <==> InRange(old(zero), |storage|, count)
      ensures InRange(old(zero), |storage|, count) ==> Shown() == Rotated(old(Shown()), count)
    {
      SlotExact(zero, |storage|, count);
      OriginMoved(storage, zero, count);
      zero := (zero + |storage| + count) % WORD64 % |storage|;
    }

    /** rotate_right; the difference wraps when count exceeds the origin plus the size. */
    method RotateRight(count: int)
      requires Valid() && storage != [] && 0 <= count < WORD64
      modifies this`zero
      ensures Valid() && zero == Slot(old(zero), |storage|, -count)
      ensures zero == Wrap(old(zero) - count, |storage|) <==> InRange(old(zero), |storage|, -count)
      ensures InRange(old(zero), |storage|, -count) ==> Shown() == Rotated(old(Shown()), -count)
    {
      SlotExact(zero, |storage|, -count);
      OriginMoved(storage, zero, -count);
      zero := (zero + |storage| - count) % WORD64 % |storage|;
    }

    /** rotate: a positive count rotates right, a negative one left. */
    method Rotate(count: int)
      requires Valid() && storage != [] && -0x8000_0000 <= count < 0x8000_0000
      modifies this`zero
      ensures Valid() && zero == Slot(old(zero), |storage|, -count)
      ensures zero == Wrap(old(zero) - count, |storage|) <==> InRange(old(zero), |storage|, -count)
      ensures InRange(old(zero), |storage|, -count) ==> Shown() == Rotated(old(Shown()), -count)
    {
      SlotExact(zero, |storage|, -count);
      OriginMoved(storage, zero, -count);
      zero := (zero + |storage| - count) % WORD64 % |storage|;
    }

    /**
      rezero: std::rotate through the ring's own iterators, which already look through the origin,
      and only then the origin is reset.
      */
    method Rezero()
      requires Valid()
      modifies this`storage, this`zero
      ensures Valid() && zero == 0 && |storage| == |old(storage)|
      ensures Shown() == old(Shown())
    {
      ghost var shown := Shown();
      var before := Snapshot();
      for i := 0 to |storage|
        invariant |storage| == |shown| && zero == old(zero) && Valid()
        invariant forall m :: 0 <= m < i ==> Settled(storage, shown, zero, m)
      {
        SlotInRange(zero, |storage|, i);
        WrapIsRemainder(i + zero, |storage|);
        ghost var unsettled := storage;
        storage := storage[Slot(zero, |storage|, i) := before[(i + zero) % |storage|]];
        SettleOne(unsettled, storage, shown, zero, i);
      }
      AllSettled(storage, shown, zero);
      zero := 0;
      RotatedZero(storage);
    }

    /** What the iterators from begin() to end() show. */
    method Snapshot() returns (before: seq<T>)
      requires Valid()
      ensures before == Shown()
    {
      before := [];
      var i := 0;
      while i < |storage|
        invariant 0 <= i <= |storage| && |before| == i
        invariant forall m :: 0 <= m < i ==> before[m] == Shown()[m]
      {
        var x := Index(i);
        before := before + [x];
        i := i + 1;
      }
    }

    /** ring::resize; not ok where the vector throws length_error, which is after rezero. */
    method Resize(newSize: nat) returns (ok: bool)
      requires Valid()
      modifies this`storage, this`zero
      ensures Valid() && zero == 0 && ok == (newSize <= maxSize)
      ensures !ok ==> Shown() == old(Shown())
      ensures ok ==> |Shown()| == newSize
      ensures ok ==> forall i :: 0 <= i < newSize ==>
                Shown()[i] == if i < |old(Shown())| then old(Shown())[i] else defaultElement
    {
      Rezero();
      RotatedZero(storage);
      ok := newSize <= maxSize;
      if ok {
        storage := if newSize <= |storage| then storage[..newSize]
                   else storage + seq(newSize - |storage|, _ => defaultElement);
        RotatedZero(storage);
      }
    }
  }

  /** The slot m places behind the origin holds what is to be shown there once the origin is 0. */
  ghost predicate Settled<T>(storage: seq<T>, shown: seq<T>, zero: nat, m: int) {
    |storage| == |shown| && storage != [] && storage[Wrap(zero + m, |storage|)] == shown[Wrap(zero + m, |storage|)]
  }

  lemma SettleOne<T>(storage: seq<T>, after: seq<T>, shown: seq<T>, zero: nat, i: nat)
    requires |storage| == |shown| && i < |shown|
    requires forall m :: 0 <= m < i ==> Settled(storage, shown, zero, m)
    requires var p := Wrap(zero + i, |shown|); after == storage[p := shown[p]]
    ensures forall m :: 0 <= m < i + 1 ==> Settled(after, shown, zero, m)
  {
    forall m | 0 <= m < i + 1
      ensures Settled(after, shown, zero, m)
    {
      if m < i {
        assert Settled(storage, shown, zero, m);
      }
    }
  }

  /** Counting on from the origin reaches every slot. */
  lemma AllSettled<T>(storage: seq<T>, shown: seq<T>, zero: nat)
    requires |storage| == |shown|
    requires forall m :: 0 <= m < |shown| ==> Settled(storage, shown, zero, m)
    ensures storage == shown
  {
    var n := |shown|;
    forall p | 0 <= p < n
      ensures storage[p] == shown[p]
    {
      var m := Wrap(p - zero, n);
      WrapOfSum(p - zero, zero, n);
      assert zero + m == m + zero && p - zero + zero == p;
      assert Settled(storage, shown, zero, m);
    }
  }
}
