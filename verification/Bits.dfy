/** Bitwise conjunction and shifts on natural numbers. */
module Bits {

  function Pow2(n: nat): (p: nat)
    ensures p > 0
  {
    if n == 0 then 1 else 2 * Pow2(n - 1)
  }

  function And(x: nat, y: nat): nat {
    if x == 0 || y == 0 then 0
    else 2 * And(x / 2, y / 2) + if x % 2 == 1 && y % 2 == 1 then 1 else 0
  }

  /** x without its n low bits, shifted down. */
  function Shr(x: nat, n: nat): nat
    decreases n
  {
    if n == 0 then x else Shr(x / 2, n - 1)
  }

  function Shl(x: nat, n: nat): nat {
    if n == 0 then x else 2 * Shl(x, n - 1)
  }

  /** The n low bits of x. */
  function Low(x: nat, n: nat): nat
    decreases n
  {
    if n == 0 then 0 else 2 * Low(x / 2, n - 1) + x % 2
  }

  function Bit(x: nat, i: nat): bool {
    Shr(x, i) % 2 == 1
  }

  function OneBits(x: nat, n: nat): nat
    decreases n
  {
    if n == 0 then 0 else x % 2 + OneBits(x / 2, n - 1)
  }

  /** The w-bit mask whose k highest bits are set. */
  function Mask(w: nat, k: nat): (m: nat)
    requires k <= w
    ensures m == Pow2(w) - Pow2(w - k)
  {
    Pow2Mono(w - k, w);
    Pow2(w) - Pow2(w - k)
  }

  lemma {:induction false} Pow2Mono(m: nat, n: nat)
    requires m <= n
    ensures Pow2(m) <= Pow2(n)
  {
    if m < n { Pow2Mono(m, n - 1); }
  }

  // ----- shifts

  lemma {:induction false} ShrAdd(x: nat, a: nat, b: nat)
    ensures Shr(x, a + b) == Shr(Shr(x, a), b)
    decreases a
  {
    if a > 0 { ShrAdd(x / 2, a - 1, b); }
  }

  /** A number is its high part, shifted back up, plus its low part. */
  lemma {:induction false} Split(x: nat, n: nat)
    ensures x == Shl(Shr(x, n), n) + Low(x, n) && Low(x, n) < Pow2(n)
    decreases n
  {
    if n > 0 { Split(x / 2, n - 1); }
  }

  lemma {:induction false} SplitUnique(n: nat, q: nat, r: nat, s: nat, t: nat)
    requires r < Pow2(n) && t < Pow2(n) && Shl(q, n) + r == Shl(s, n) + t
    ensures q == s && r == t
  {
    if n > 0 { SplitUnique(n - 1, q, r / 2, s, t / 2); }
  }

  lemma {:induction false} ShlIsProduct(x: nat, n: nat)
    ensures Shl(x, n) == Pow2(n) * x
  {
    if n > 0 {
      ShlIsProduct(x, n - 1);
      assert Pow2(n) * x == 2 * (Pow2(n - 1) * x);
    }
  }

  lemma QuotientParts(x: nat, n: nat, q: nat, r: nat)
    requires r < Pow2(n) && x == Pow2(n) * q + r
    ensures Shr(x, n) == q && Low(x, n) == r
  {
    Split(x, n);
    ShlIsProduct(q, n);
    SplitUnique(n, Shr(x, n), Low(x, n), q, r);
  }

  lemma Quotient(x: nat, p: nat)
    requires p > 0
    ensures x == p * (x / p) + x % p && x / p >= 0 && 0 <= x % p < p
  {
  }

  /** Shifting down is division by a power of two. */
  lemma ShrIsQuotient(x: nat, n: nat)
    ensures Shr(x, n) == x / Pow2(n) && Low(x, n) == x % Pow2(n)
  {
    Quotient(x, Pow2(n));
    QuotientParts(x, n, x / Pow2(n), x % Pow2(n));
  }

  lemma Shr8(x: nat)
    ensures Shr(x, 8) == x / 256
  {
    ShrIsQuotient(x, 8);
    assert Pow2(8) == 256;
  }

  lemma Shl8(x: nat)
    ensures Shl(x, 8) == 256 * x && Pow2(8) == 256
  {
    ShlIsProduct(x, 8);
    assert Pow2(8) == 256;
  }

  lemma {:induction false} Pow2Shift(a: nat, b: nat)
    ensures Pow2(a + b) == Shl(Pow2(a), b)
  {
    if b > 0 { Pow2Shift(a, b - 1); }
  }

  lemma Pow2Of32()
    ensures Pow2(32) == 0x1_0000_0000
  {
    Pow2Shift(8, 8);
    Pow2Shift(16, 8);
    Pow2Shift(24, 8);
    Shl8(Pow2(8));
    Shl8(Pow2(16));
    Shl8(Pow2(24));
  }

  lemma {:induction false} BelowPow2(x: nat, w: nat, j: nat)
    requires j <= w && x < Pow2(w)
    ensures Shr(x, j) < Pow2(w - j)
    decreases j
  {
    if j > 0 { BelowPow2(x / 2, w - 1, j - 1); }
  }

  // ----- masks

  lemma AndEven(x: nat, z: nat)
    ensures And(x, 2 * z) == 2 * And(x / 2, z)
  {
  }

  lemma {:induction false} AndOnes(x: nat, n: nat)
    ensures And(x, Pow2(n) - 1) == Low(x, n)
    decreases n
  {
    if n > 0 {
      AndOnes(x / 2, n - 1);
      assert (Pow2(n) - 1) / 2 == Pow2(n - 1) - 1 && (Pow2(n) - 1) % 2 == 1;
      if x == 0 { LowZero(n); }
    }
  }

  lemma {:induction false} LowZero(n: nat)
    ensures Low(0, n) == 0
  {
    if n > 0 { LowZero(n - 1); }
  }

  lemma {:induction false} ShlZero(n: nat)
    ensures Shl(0, n) == 0
  {
    if n > 0 { ShlZero(n - 1); }
  }

  lemma LowSmall(x: nat, n: nat)
    requires x < Pow2(n)
    ensures Low(x, n) == x && Shr(x, n) == 0
  {
    Split(x, n);
    ShlZero(n);
    SplitUnique(n, 0, x, Shr(x, n), Low(x, n));
  }

  /** Masking with the k highest of w bits keeps exactly the high part. */
  lemma {:induction false} AndMask(x: nat, w: nat, k: nat)
    requires k <= w && x < Pow2(w)
    ensures And(x, Mask(w, k)) == Shl(Shr(x, w - k), w - k)
    decreases w
  {
    if k == w {
      AndOnes(x, w);
      LowSmall(x, w);
    } else {
      assert Mask(w, k) == 2 * Mask(w - 1, k);
      AndEven(x, Mask(w - 1, k));
      AndMask(x / 2, w - 1, k);
    }
  }

  /** Two numbers agree under the mask exactly when their high parts agree. */
  lemma MaskedEqual(x: nat, y: nat, w: nat, k: nat)
    requires k <= w && x < Pow2(w) && y < Pow2(w)
    ensures And(x, Mask(w, k)) == And(y, Mask(w, k)) <==> Shr(x, w - k) == Shr(y, w - k)
  {
    AndMask(x, w, k);
    AndMask(y, w, k);
    if And(x, Mask(w, k)) == And(y, Mask(w, k)) {
      SplitUnique(w - k, Shr(x, w - k), 0, Shr(y, w - k), 0);
    }
  }

  /** Testing one bit. */
  lemma {:induction false} AndOneBit(x: nat, i: nat)
    ensures And(x, Pow2(i)) != 0 <==> Bit(x, i)
    decreases i
  {
    if i > 0 {
      AndEven(x, Pow2(i - 1));
      AndOneBit(x / 2, i - 1);
    }
  }

  lemma {:induction false} BitsDetermine(x: nat, y: nat, w: nat)
    requires x < Pow2(w) && y < Pow2(w)
    requires forall i: nat :: i < w ==> Bit(x, i) == Bit(y, i)
    ensures x == y
    decreases w
  {
    if w > 0 {
      assert Bit(x, 0) == Bit(y, 0);
      forall i: nat | i < w - 1
        ensures Bit(x / 2, i) == Bit(y / 2, i)
      {
        assert Bit(x, i + 1) == Bit(y, i + 1);
      }
      BitsDetermine(x / 2, y / 2, w - 1);
    }
  }

  lemma {:induction false} MaskBits(w: nat, k: nat, i: nat)
    requires k <= w && i < w
    ensures Bit(Mask(w, k), i) <==> i >= w - k
    decreases w
  {
    if k == w {
      OnesBits(w, i);
    } else {
      assert Mask(w, k) == 2 * Mask(w - 1, k);
      if i > 0 { MaskBits(w - 1, k, i - 1); }
    }
  }

  lemma {:induction false} OnesBits(w: nat, i: nat)
    requires i < w
    ensures Bit(Pow2(w) - 1, i)
    decreases w
  {
    assert (Pow2(w) - 1) / 2 == Pow2(w - 1) - 1;
    if i > 0 { OnesBits(w - 1, i - 1); }
  }

  lemma {:induction false} MaskOneBits(w: nat, k: nat)
    requires k <= w
    ensures OneBits(Mask(w, k), w) == k
    decreases w
  {
    if w > 0 {
      if k == w {
        assert Mask(w, w) == 2 * Mask(w - 1, w - 1) + 1;
        MaskOneBits(w - 1, w - 1);
      } else {
        assert Mask(w, k) == 2 * Mask(w - 1, k);
        MaskOneBits(w - 1, k);
      }
    }
  }

  lemma {:induction false} OneBitsSplit(x: nat, m: nat, n: nat)
    ensures OneBits(x, m + n) == OneBits(x, m) + OneBits(Shr(x, m), n)
    decreases m
  {
    if m > 0 { OneBitsSplit(x / 2, m - 1, n); }
  }

  lemma {:induction false} OneBitsLow(x: nat, m: nat)
    ensures OneBits(Low(x, m), m) == OneBits(x, m)
    decreases m
  {
    if m > 0 { OneBitsLow(x / 2, m - 1); }
  }

  lemma AndHalves(x: nat, y: nat)
    ensures And(x, y) == 2 * And(x / 2, y / 2) + if x % 2 == 1 && y % 2 == 1 then 1 else 0
  {
  }

  lemma LowHalves(x: nat, n: nat)
    requires n > 0
    ensures Low(x, n) / 2 == Low(x / 2, n - 1) && Low(x, n) % 2 == x % 2
  {
  }

  /** Conjunction works on the high and the low part independently. */
  lemma {:induction false} AndSplit(x: nat, y: nat, n: nat)
    ensures And(x, y) == Shl(And(Shr(x, n), Shr(y, n)), n) + And(Low(x, n), Low(y, n))
    decreases n
  {
    if n > 0 {
      AndSplit(x / 2, y / 2, n - 1);
      AndHalves(x, y);
      LowHalves(x, n);
      LowHalves(y, n);
      AndHalves(Low(x, n), Low(y, n));
    }
  }

  lemma {:induction false} AndBounded(x: nat, y: nat)
    ensures And(x, y) <= x && And(x, y) <= y
    decreases x
  {
    if x > 0 && y > 0 { AndBounded(x / 2, y / 2); }
  }
}
