/** BigInt bit operations on non-negative values, defined bit by bit, and the
    arithmetic of host masks 2^k - 1 that CIDR blocks rest on. */
module Bits {

  function Pow2(k: nat): (p: nat)
    ensures p >= 1
  {
    if k == 0 then 1 else 2 * Pow2(k - 1)
  }

  function Bit(b: bool): nat {
    if b then 1 else 0
  }

  function And(a: nat, b: nat): nat {
    if a == 0 || b == 0 then 0 else 2 * And(a / 2, b / 2) + Bit(a % 2 == 1 && b % 2 == 1)
  }

  /** `a & ~b`. */
  function AndNot(a: nat, b: nat): nat {
    if a == 0 then 0 else 2 * AndNot(a / 2, b / 2) + Bit(a % 2 == 1 && b % 2 == 0)
  }

  function Or(a: nat, b: nat): nat
    decreases a + b
  {
    if a == 0 && b == 0 then 0 else 2 * Or(a / 2, b / 2) + Bit(a % 2 == 1 || b % 2 == 1)
  }

  function Xor(a: nat, b: nat): nat
    decreases a + b
  {
    if a == 0 && b == 0 then 0 else 2 * Xor(a / 2, b / 2) + Bit(a % 2 != b % 2)
  }

  /** `a >> k`. */
  function Shr(a: nat, k: nat): nat
    decreases k, a
  {
    if k == 0 then a else Shr(a / 2, k - 1)
  }

  /** The low k bits of a. */
  function Low(a: nat, k: nat): nat
    decreases k, a
  {
    if k == 0 then 0 else 2 * Low(a / 2, k - 1) + a % 2
  }

  function Mask(k: nat): nat {
    Pow2(k) - 1
  }

  function BitLength(a: nat): nat {
    if a == 0 then 0 else 1 + BitLength(a / 2)
  }

  /** `h << k`, kept as repeated doubling so that the proofs stay linear. */
  function Scale(h: nat, k: nat): nat
    decreases k, h
  {
    if k == 0 then h else 2 * Scale(h, k - 1)
  }

  // ----- Splitting a value at bit k

  lemma {:induction false} LowBound(a: nat, k: nat)
    ensures Low(a, k) < Pow2(k) && Low(a, k) <= a
    decreases k
  {
    if k == 0 {
    } else {
      LowBound(a / 2, k - 1);
    }
  }

  lemma {:induction false} SplitAt(a: nat, k: nat)
    ensures a == Scale(Shr(a, k), k) + Low(a, k)
    decreases k
  {
    if k == 0 {
    } else {
      SplitAt(a / 2, k - 1);
    }
  }

  lemma {:induction false} ShrMask(n: nat, k: nat)
    requires k <= n
    ensures Shr(Mask(n), k) == Mask(n - k)
    decreases k
  {
    if k == 0 {
    } else {
      assert Mask(n) / 2 == Mask(n - 1);
      ShrMask(n - 1, k - 1);
    }
  }

  lemma {:induction false} ShrShr(a: nat, j: nat, k: nat)
    ensures Shr(Shr(a, j), k) == Shr(a, j + k)
    decreases j
  {
    if j == 0 {
    } else {
      ShrShr(a / 2, j - 1, k);
    }
  }

  // ----- Masks

  lemma {:induction false} AndNotMask(a: nat, k: nat)
    ensures AndNot(a, Mask(k)) == a - Low(a, k)
    decreases k, a
  {
    LowBound(a, k);
    if a == 0 {
    } else {
      if k > 0 {
        assert Mask(k) / 2 == Mask(k - 1);
        AndNotMask(a / 2, k - 1);
      } else {
        AndNotMask(a / 2, 0);
      }
    }
  }

  lemma {:induction false} OrMask(a: nat, k: nat)
    ensures Or(a, Mask(k)) == a - Low(a, k) + Mask(k)
    decreases k, a
  {
    LowBound(a, k);
    if k > 0 {
      assert Mask(k) / 2 == Mask(k - 1);
      OrMask(a / 2, k - 1);
    } else if a > 0 {
      OrMask(a / 2, 0);
    } else {
    }
  }

  /** Disjoint bit ranges: or-ing a small value into a multiple of 2^k adds it. */
  lemma {:induction false} OrDisjoint(a: nat, b: nat, k: nat)
    requires a < Pow2(k) && Low(b, k) == 0
    ensures Or(a, b) == a + b
    decreases k, b
  {
    if k > 0 {
      OrDisjoint(a / 2, b / 2, k - 1);
    } else if b > 0 {
      OrDisjoint(a, b / 2, 0);
    } else {
    }
  }

  lemma {:induction false} XorOfBlock(a: nat, k: nat)
    requires Low(a, k) == 0
    ensures Xor(a, a + Mask(k)) == Mask(k)
    decreases k, a
  {
    if k > 0 {
      assert (a + Mask(k)) / 2 == a / 2 + Mask(k - 1);
      XorOfBlock(a / 2, k - 1);
    } else if a > 0 {
      XorOfBlock(a / 2, 0);
    } else {
    }
  }

  /** A value and a mask above it: the xor determines the other end. */
  lemma {:induction false} XorInverse(a: nat, b: nat)
    ensures Xor(a, Xor(a, b)) == b
    decreases a + b
  {
    if a + b == 0 {
    } else {
      XorInverse(a / 2, b / 2);
      var x := Xor(a, b);
      assert x / 2 == Xor(a / 2, b / 2) && x % 2 == Bit(a % 2 != b % 2);
      if a == 0 && x == 0 {
        assert false;
      }
    }
  }

  lemma {:induction false} AndSelf(m: nat)
    ensures And(m, m) == m
  {
    if m == 0 {
    } else {
      AndSelf(m / 2);
    }
  }

  lemma MaskIsOdd(k: nat)
    ensures k > 0 ==> Mask(k) % 2 == 1
  {
  }

  /** `(m + 1) & m` is zero exactly for the masks 2^k - 1. */
  lemma {:induction false} MaskTest(m: nat)
    ensures And(m + 1, m) == 0 <==> m == Mask(BitLength(m))
    decreases m
  {
    if m == 0 {
    } else if m % 2 == 1 {
      assert (m + 1) / 2 == m / 2 + 1;
      MaskTest(m / 2);
    } else {
      AndSelf(m / 2);
      assert (m + 1) / 2 == m / 2;
      MaskIsOdd(BitLength(m));
    }
  }

  lemma {:induction false} BitLengthOfMask(k: nat)
    ensures BitLength(Mask(k)) == k
  {
    if k == 0 {
    } else {
      assert Mask(k) / 2 == Mask(k - 1);
      BitLengthOfMask(k - 1);
    }
  }

  lemma {:induction false} BitLengthShift(a: nat, k: nat)
    requires k <= BitLength(a)
    ensures BitLength(Shr(a, k)) == BitLength(a) - k
    decreases k
  {
    if k == 0 {
    } else {
      BitLengthShift(a / 2, k - 1);
    }
  }

  lemma {:induction false} BitLengthBound(a: nat, k: nat)
    ensures a < Pow2(k) <==> BitLength(a) <= k
    decreases k
  {
    if k > 0 && a > 0 {
      BitLengthBound(a / 2, k - 1);
    } else {
    }
  }

  lemma {:induction false} ScaleAdd(h: nat, j: nat, k: nat)
    ensures Scale(h, j + k) == Scale(Scale(h, j), k)
    decreases k
  {
    if k == 0 {
    } else {
      ScaleAdd(h, j, k - 1);
    }
  }

  lemma Scale8(h: nat)
    ensures Scale(h, 8) == 0x100 * h
  {
    assert Scale(h, 1) == 2 * h && Scale(h, 2) == 4 * h && Scale(h, 3) == 8 * h;
    assert Scale(h, 4) == 16 * h && Scale(h, 5) == 32 * h && Scale(h, 6) == 64 * h && Scale(h, 7) == 128 * h;
  }

  lemma Scale32(h: nat)
    ensures Scale(h, 16) == 0x1_0000 * h && Scale(h, 32) == 0x1_0000_0000 * h
  {
    Scale8(h);
    Scale8(0x100 * h);
    ScaleAdd(h, 8, 8);
    Scale8(0x1_0000 * h);
    Scale8(0x100_0000 * h);
    ScaleAdd(0x1_0000 * h, 8, 8);
    ScaleAdd(h, 16, 16);
  }

  lemma {:induction false} Pow2IsScale(k: nat)
    ensures Pow2(k) == Scale(1, k)
  {
    if k == 0 {
    } else {
      Pow2IsScale(k - 1);
    }
  }

  lemma Pow2Values()
    ensures Pow2(8) == 0x100 && Pow2(16) == 0x1_0000 && Pow2(32) == 0x1_0000_0000
  {
    Pow2IsScale(8);
    Pow2IsScale(16);
    Pow2IsScale(32);
    Scale8(1);
    Scale32(1);
  }

  lemma Pow2At128()
    ensures Pow2(128) == 0x1_0000_0000_0000_0000_0000_0000_0000_0000
  {
    Pow2IsScale(128);
    Scale32(1);
    Scale32(0x1_0000_0000);
    ScaleAdd(1, 32, 32);
    Scale32(0x1_0000_0000_0000_0000);
    ScaleAdd(1, 64, 32);
    Scale32(0x1_0000_0000_0000_0000_0000_0000);
    ScaleAdd(1, 96, 32);
  }

  lemma {:induction false} LowOfScaled(h: nat, k: nat)
    ensures Low(Scale(h, k), k) == 0
    decreases k
  {
    if k == 0 {
    } else {
      LowOfScaled(h, k - 1);
    }
  }

  lemma {:induction false} AndIsLow(a: nat, k: nat)
    ensures And(a, Mask(k)) == Low(a, k)
    decreases k
  {
    if a == 0 {
      LowBound(0, k);
    } else if k > 0 {
      assert Mask(k) / 2 == Mask(k - 1);
      AndIsLow(a / 2, k - 1);
    } else {
    }
  }

  lemma {:induction false} LowSucc(a: nat, k: nat)
    ensures Low(a, k + 1) == Low(a, k) + Scale(Shr(a, k) % 2, k)
    decreases k
  {
    if k == 0 {
    } else {
      LowSucc(a / 2, k - 1);
    }
  }

  /** Byte steps in division and remainder. */
  lemma ByteShift(a: nat)
    ensures Shr(a, 8) == a / 256 && And(a, 0xff) == a % 256
  {
    Pow2Values();
    SplitAt(a, 8);
    Scale8(Shr(a, 8));
    LowBound(a, 8);
    AndIsLow(a, 8);
  }

  // ----- Aligned blocks

  /** The 2^k values from `start` on, where `start` has k zero low bits. */
  predicate IsBlock(start: nat, end: nat, k: nat) {
    Low(start, k) == 0 && end == start + Mask(k)
  }

  lemma {:induction false} LowOfRounded(a: nat, k: nat)
    ensures Low(a, k) <= a && Low(a - Low(a, k), k) == 0
    decreases k
  {
    LowBound(a, k);
    if k == 0 {
    } else {
      LowOfRounded(a / 2, k - 1);
      assert (a - Low(a, k)) / 2 == a / 2 - Low(a / 2, k - 1);
    }
  }

  /** Rounding any value down and up at bit k makes a block that contains it. */
  lemma {:induction false} RoundingMakesBlock(a: nat, k: nat)
    ensures IsBlock(AndNot(a, Mask(k)), Or(a, Mask(k)), k)
    ensures AndNot(a, Mask(k)) <= a <= Or(a, Mask(k))
  {
    AndNotMask(a, k);
    OrMask(a, k);
    LowBound(a, k);
    LowOfRounded(a, k);
  }

  lemma {:induction false} LowOfLess(a: nat, k: nat)
    requires a < Pow2(k)
    ensures Low(a, k) == a
    decreases k
  {
    if k == 0 {
    } else {
      LowOfLess(a / 2, k - 1);
    }
  }

  lemma {:induction false} LowMonotone(a: nat, j: nat, k: nat)
    requires j <= k && Low(a, k) == 0
    ensures Low(a, j) == 0
    decreases k
  {
    if j == 0 {
    } else {
      LowMonotone(a / 2, j - 1, k - 1);
    }
  }

  /** Two blocks are nested or disjoint: this is what makes "most specific block" a total notion. */
  lemma {:induction false} NestedOrDisjoint(a: nat, b: nat, j: nat, k: nat)
    requires j <= k && Low(a, j) == 0 && Low(b, k) == 0
    ensures (b <= a && a + Mask(j) <= b + Mask(k)) || a + Mask(j) < b || b + Mask(k) < a
    decreases j
  {
    if j == 0 {
    } else {
      NestedOrDisjoint(a / 2, b / 2, j - 1, k - 1);
    }
  }

  // ----- What the operators mean

  /** Bit k of a. */
  predicate BitAt(a: nat, k: nat)
    decreases k, a
  {
    if k == 0 then a % 2 == 1 else BitAt(a / 2, k - 1)
  }

  lemma {:induction false} NoBits(k: nat)
    ensures !BitAt(0, k)
  {
    if k == 0 {
    } else {
      NoBits(k - 1);
    }
  }

  /** The four operators work bit by bit. */
  lemma {:induction false} BitwiseMeaning(a: nat, b: nat, k: nat)
    ensures BitAt(And(a, b), k) <==> BitAt(a, k) && BitAt(b, k)
    ensures BitAt(Or(a, b), k) <==> BitAt(a, k) || BitAt(b, k)
    ensures BitAt(Xor(a, b), k) <==> BitAt(a, k) != BitAt(b, k)
    ensures BitAt(AndNot(a, b), k) <==> BitAt(a, k) && !BitAt(b, k)
    decreases k
  {
    NoBits(k);
    if k == 0 {
    } else {
      BitwiseMeaning(a / 2, b / 2, k - 1);
    }
  }

  lemma TimesAtLeast(d: nat, e: nat)
    requires e >= 1
    ensures d * e >= d
  {
    assert d * e == d * (e - 1) + d;
  }

  lemma QuotientIsUnique(d: nat, q: nat, r: nat, t: nat, u: nat)
    requires d * q + r == d * t + u && r < d && u < d
    ensures q == t && r == u
  {
    if q > t {
      assert d * (q - t) == d * q - d * t;
      TimesAtLeast(d, q - t);
    } else if q < t {
      assert d * (t - q) == d * t - d * q;
      TimesAtLeast(d, t - q);
    }
  }

  lemma DivMod(a: nat, d: nat)
    requires d > 0
    ensures a == d * (a / d) + a % d && a % d < d
  {
  }

  lemma DoubleTimes(p: nat, t: nat)
    ensures 2 * p * t == 2 * (p * t)
  {
  }

  lemma HalvedRemainder(a: nat, p: nat, q: nat, l: nat)
    requires a / 2 == p * q + l && l < p
    ensures a % (2 * p) == 2 * l + a % 2 && a / (2 * p) == q
  {
    DivMod(a, 2 * p);
    DoubleTimes(p, q);
    QuotientIsUnique(2 * p, a / (2 * p), a % (2 * p), q, 2 * l + a % 2);
  }

  /** The low k bits are the remainder of the division by 2^k, the others the quotient. */
  lemma {:induction false} LowIsRemainder(a: nat, k: nat)
    ensures Low(a, k) == a % Pow2(k) && Shr(a, k) == a / Pow2(k)
    decreases k
  {
    if k == 0 {
    } else {
      LowIsRemainder(a / 2, k - 1);
      DivMod(a / 2, Pow2(k - 1));
      HalvedRemainder(a, Pow2(k - 1), Shr(a / 2, k - 1), Low(a / 2, k - 1));
    }
  }
}
