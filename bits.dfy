/** Python's bitwise OR on its unbounded integers. A negative integer behaves as its
    infinite two's-complement expansion: its low bit is n % 2 and the rest of its bits are
    those of n / 2 (both Euclidean, which for the divisor 2 is Python's floor division). */
module Bits {

  /** The distance of n from the fixed points 0 and -1 of halving. */
  function Size(n: int): nat
  {
    if n >= 0 then n else -n - 1
  }

  lemma HalfSize(n: int)
    ensures Size(n / 2) <= Size(n)
    ensures Size(n) > 0 ==> Size(n / 2) < Size(n)
  {
  }

  /** Bit k of n (k = 0 is the least significant). */
  predicate Bit(n: int, k: nat)
    decreases k
  {
    if k == 0 then n % 2 == 1 else Bit(n / 2, k - 1)
  }

  /** Python's `a | b`. */
  function Or(a: int, b: int): int
    decreases Size(a) + Size(b)
  {
    if Size(a) == 0 && Size(b) == 0 then
      (if a == -1 || b == -1 then -1 else 0)
    else
      HalfSize(a);
      HalfSize(b);
      2 * Or(a / 2, b / 2) + (if a % 2 == 1 || b % 2 == 1 then 1 else 0)
  }

  /** 0 has no bit set and -1 has every bit set. */
  lemma {:induction false} FixedPointBits(n: int, k: nat)
    requires Size(n) == 0
    ensures Bit(n, k) <==> n == -1
  {
    if k > 0 {
      assert n / 2 == n;
      FixedPointBits(n, k - 1);
    }
  }

  lemma Halves(q: int, r: int)
    requires 0 <= r < 2
    ensures (2 * q + r) % 2 == r && (2 * q + r) / 2 == q
  {
  }

  /** A bit of `a | b` is set exactly when it is set in a or in b. */
  lemma {:induction false} OrBit(a: int, b: int, k: nat)
    ensures Bit(Or(a, b), k) <==> Bit(a, k) || Bit(b, k)
    decreases Size(a) + Size(b)
  {
    if Size(a) == 0 && Size(b) == 0 {
      FixedPointBits(a, k);
      FixedPointBits(b, k);
      FixedPointBits(Or(a, b), k);
    } else {
      HalfSize(a);
      HalfSize(b);
      var r := if a % 2 == 1 || b % 2 == 1 then 1 else 0;
      Halves(Or(a / 2, b / 2), r);
      if k > 0 {
        OrBit(a / 2, b / 2, k - 1);
      }
    }
  }

  /** Two integers with the same bits are equal. */
  lemma {:induction false} BitsDetermine(a: int, b: int)
    requires forall k: nat :: Bit(a, k) == Bit(b, k)
    ensures a == b
    decreases Size(a) + Size(b)
  {
    assert Bit(a, 0) == Bit(b, 0);
    if Size(a) == 0 && Size(b) == 0 {
      assert a % 2 == b % 2;
    } else {
      HalfSize(a);
      HalfSize(b);
      forall k: nat
        ensures Bit(a / 2, k) == Bit(b / 2, k)
      {
        assert Bit(a, k + 1) == Bit(b, k + 1);
      }
      BitsDetermine(a / 2, b / 2);
    }
  }

  /** OR-ing in 0 changes nothing. */
  lemma OrZero(a: int)
    ensures Or(a, 0) == a
  {
    forall k: nat
      ensures Bit(Or(a, 0), k) == Bit(a, k)
    {
      OrBit(a, 0, k);
      FixedPointBits(0, k);
    }
    BitsDetermine(Or(a, 0), a);
  }

  lemma OrCommutes(a: int, b: int)
    ensures Or(a, b) == Or(b, a)
  {
    forall k: nat
      ensures Bit(Or(a, b), k) == Bit(Or(b, a), k)
    {
      OrBit(a, b, k);
      OrBit(b, a, k);
    }
    BitsDetermine(Or(a, b), Or(b, a));
  }

  lemma OrAssociates(a: int, b: int, c: int)
    ensures Or(Or(a, b), c) == Or(a, Or(b, c))
  {
    forall k: nat
      ensures Bit(Or(Or(a, b), c), k) == Bit(Or(a, Or(b, c)), k)
    {
      OrBit(Or(a, b), c, k);
      OrBit(a, b, k);
      OrBit(a, Or(b, c), k);
      OrBit(b, c, k);
    }
    BitsDetermine(Or(Or(a, b), c), Or(a, Or(b, c)));
  }

  lemma OrIdempotent(a: int)
    ensures Or(a, a) == a
  {
    forall k: nat
      ensures Bit(Or(a, a), k) == Bit(a, k)
    {
      OrBit(a, a, k);
    }
    BitsDetermine(Or(a, a), a);
  }

  lemma OrExamples()
    ensures Or(5, 3) == 7 && Or(-2, 1) == -1 && Or(12, 10) == 14
  {
  }
}
