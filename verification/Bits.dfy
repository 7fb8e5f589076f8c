/** Bytes, and JavaScript BigInt bit operators on unbounded integers with the bits they produce. */
module Bits {

  type Byte = b: int | 0 <= b < 256

  /** Bit z of an integer in two's complement with an unlimited sign. */
  predicate Bit(v: int, z: nat)
    decreases z
  {
    if z == 0 then v % 2 == 1 else Bit(v / 2, z - 1)
  }

  function Pow2(n: nat): (p: nat)
    ensures p >= 1
  {
    if n == 0 then 1 else 2 * Pow2(n - 1)
  }

  function Low(b: bool): nat { if b then 1 else 0 }

  function Xor(a: nat, b: nat): nat
    decreases a + b
  {
    if a == 0 && b == 0 then 0 else Low(a % 2 != b % 2) + 2 * Xor(a / 2, b / 2)
  }

  function Or(a: nat, b: nat): nat
    decreases a + b
  {
    if a == 0 && b == 0 then 0 else Low(a % 2 == 1 || b % 2 == 1) + 2 * Or(a / 2, b / 2)
  }

  function And(a: int, b: nat): nat
    decreases b
  {
    if b == 0 then 0 else Low(a % 2 == 1 && b % 2 == 1) + 2 * And(a / 2, b / 2)
  }

  function Not(a: int): int { -a - 1 }

  function Shl(v: nat, s: nat): nat { if s == 0 then v else 2 * Shl(v, s - 1) }

  function Shr(v: nat, s: nat): nat
    decreases s
  {
    if s == 0 then v else Shr(v / 2, s - 1)
  }

  lemma {:induction false} PowSum(m: nat, n: nat)
    ensures Pow2(m + n) == Pow2(m) * Pow2(n)
  {
    if m > 0 {
      PowSum(m - 1, n);
    }
  }

  lemma {:induction false} ZeroBit(z: nat)
    ensures !Bit(0, z)
  {
    if z > 0 {
      ZeroBit(z - 1);
    }
  }

  lemma {:induction false} XorBit(a: nat, b: nat, z: nat)
    ensures Bit(Xor(a, b), z) == (Bit(a, z) != Bit(b, z))
  {
    if a == 0 && b == 0 {
      ZeroBit(z);
    } else if z > 0 {
      XorBit(a / 2, b / 2, z - 1);
    }
  }

  lemma {:induction false} OrBit(a: nat, b: nat, z: nat)
    ensures Bit(Or(a, b), z) == (Bit(a, z) || Bit(b, z))
  {
    if a == 0 && b == 0 {
      ZeroBit(z);
    } else if z > 0 {
      OrBit(a / 2, b / 2, z - 1);
    }
  }

  lemma {:induction false} AndBit(a: int, b: nat, z: nat)
    ensures Bit(And(a, b), z) == (Bit(a, z) && Bit(b, z))
    decreases z
  {
    if b == 0 {
      ZeroBit(z);
    } else if z > 0 {
      AndBit(a / 2, b / 2, z - 1);
    }
  }

  lemma {:induction false} NotBit(a: int, z: nat)
    ensures Bit(Not(a), z) == !Bit(a, z)
    decreases z
  {
    if z > 0 {
      assert Not(a) / 2 == Not(a / 2);
      NotBit(a / 2, z - 1);
    }
  }

  lemma {:induction false} ShlBit(v: nat, s: nat, z: nat)
    ensures Bit(Shl(v, s), z) == (z >= s && Bit(v, z - s))
  {
    if s > 0 && z > 0 {
      ShlBit(v, s - 1, z - 1);
    }
  }

  lemma {:induction false} ShrBit(v: nat, s: nat, z: nat)
    ensures Bit(Shr(v, s), z) == Bit(v, z + s)
  {
    if s > 0 {
      ShrBit(v / 2, s - 1, z);
    }
  }

  lemma {:induction false} OnesBit(n: nat, z: nat)
    ensures Bit(Pow2(n) - 1, z) == (z < n)
  {
    if n == 0 {
      ZeroBit(z);
    } else if z > 0 {
      assert (Pow2(n) - 1) / 2 == Pow2(n - 1) - 1;
      OnesBit(n - 1, z - 1);
    }
  }

  /** A number below 2^n has no bit at or above n, and one without such bits is below 2^n. */
  lemma {:induction false} HighBit(v: nat, n: nat, z: nat)
    requires v < Pow2(n) && z >= n
    ensures !Bit(v, z)
  {
    if n == 0 {
      ZeroBit(z);
    } else {
      HighBit(v / 2, n - 1, z - 1);
    }
  }

  lemma {:induction false} BelowIfNoHighBit(v: nat, n: nat)
    requires forall z: nat :: z >= n ==> !Bit(v, z)
    ensures v < Pow2(n)
    decreases n + v
  {
    if v > 0 {
      if n == 0 {
        assert !Bit(v, 0);
      }
      forall z: nat | z >= (if n == 0 then 0 else n - 1) ensures !Bit(v / 2, z) {
        assert !Bit(v, z + 1);
      }
      BelowIfNoHighBit(v / 2, if n == 0 then 0 else n - 1);
    }
  }

  /** Low bits below, high bits above. */
  lemma {:induction false} SplitBit(low: nat, high: nat, k: nat, z: nat)
    requires low < Pow2(k)
    ensures Bit(low + Shl(high, k), z) == if z < k then Bit(low, z) else Bit(high, z - k)
  {
    if k > 0 {
      assert (low + Shl(high, k)) / 2 == low / 2 + Shl(high, k - 1);
      if z > 0 {
        SplitBit(low / 2, high, k - 1, z - 1);
      }
    }
  }
}
