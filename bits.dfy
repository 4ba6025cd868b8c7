/**
 * Bitwise AND on unsigned integers, as the containers use it for alignment:
 * `(x + 15) & -16` rounds up to a multiple of 16 and `i & (m - 1)` tests divisibility by a
 * power of two `m`. The operands are naturals here; an integer mask such as `-16` is written as
 * the bit pattern it has in a register of `w` bits, `Pow2(w) - 16`.
 */
module Bits {

  function Pow2(k: nat): (p: nat)
    ensures p >= 1
  {
    if k == 0 then 1 else 2 * Pow2(k - 1)
  }

  /** `x & y`, bit by bit from the least significant one. */
  function And(x: nat, y: nat): (r: nat)
    ensures r <= x && r <= y
  {
    if x == 0 || y == 0 then 0
    else 2 * And(x / 2, y / 2) + (if x % 2 == 1 && y % 2 == 1 then 1 else 0)
  }

  /** The value of the lowest `k` bits of `x`. */
  function Low(x: nat, k: nat): (r: nat)
    ensures r <= x
  {
    if k == 0 then 0 else 2 * Low(x / 2, k - 1) + x % 2
  }

  /** The conversion of a (possibly negative) `int` to `unsigned int`. */
  function Unsigned32(x: int): (u: nat)
    ensures u < 0x1_0000_0000
    ensures 0 <= x < 0x1_0000_0000 ==> u == x
  {
    x % 0x1_0000_0000
  }

  /** The largest `int`; counts and indices are `int` in the source. */
  const IntMax := 0x7fff_ffff

  /** The bound check `(unsigned int)i < (unsigned int)n` of the containers' index operators. */
  predicate UnsignedBelow(i: int, n: nat)
  {
    Unsigned32(i) < n
  }

  /** For an `int` index and a count that fits an `int`, the check is `0 <= i < n`. */
  lemma UnsignedBelowMeans(i: int, n: nat)
    requires -IntMax - 1 <= i <= IntMax && n <= IntMax
    ensures UnsignedBelow(i, n) <==> 0 <= i < n
    ensures UnsignedBelow(i, n) ==> Unsigned32(i) == i
  {
  }

  /** Masking with `m = Pow2(k) - 1` (the lowest `k` bits set) keeps the lowest `k` bits. */
  lemma {:induction false} LowMask(x: nat, k: nat, m: nat)
    requires m + 1 == Pow2(k)
    ensures And(x, m) == Low(x, k)
  {
    if k > 0 && x > 0 {
      LowMask(x / 2, k - 1, m / 2);
    } else if k > 0 {
      LowOfZero(k);
    }
  }

  lemma {:induction false} LowOfZero(k: nat)
    ensures Low(0, k) == 0
  {
    if k > 0 {
      LowOfZero(k - 1);
    }
  }

  /** A `w`-bit value is its own lowest `w` bits. */
  lemma {:induction false} LowAll(x: nat, w: nat)
    requires x < Pow2(w)
    ensures Low(x, w) == x
  {
    if w > 0 {
      LowAll(x / 2, w - 1);
    }
  }

  /**
   * Masking a `w`-bit value with `m = Pow2(w) - Pow2(k)` (the bit pattern of `-Pow2(k)`) clears
   * its lowest `k` bits.
   */
  lemma {:induction false} HighMask(x: nat, k: nat, w: nat, m: nat)
    requires k <= w && x < Pow2(w) && m + Pow2(k) == Pow2(w)
    ensures And(x, m) == x - Low(x, k)
    decreases k
  {
    if k == w {
      LowAll(x, w);
    } else if k == 0 {
      LowMask(x, w, m);
      LowAll(x, w);
    } else if x > 0 {
      var h := m / 2;
      assert m == 2 * h;
      HighMask(x / 2, k - 1, w - 1, h);
      assert And(x, m) == 2 * And(x / 2, h);
    } else {
      LowOfZero(k);
    }
  }

  /** For the lane counts of the vector types in use (up to 16), the lowest bits are a remainder. */
  lemma {:induction false} LowIsMod(x: nat, k: nat)
    requires k <= 4
    ensures Low(x, k) == x % Pow2(k)
  {
    if k > 0 {
      LowIsMod(x / 2, k - 1);
      if k == 2 {
        HalfMod2(x);
      } else if k == 3 {
        HalfMod4(x);
      } else if k == 4 {
        HalfMod8(x);
      }
    }
  }

  lemma HalfMod2(x: nat)
    ensures 2 * ((x / 2) % 2) + x % 2 == x % 4
  {
  }

  lemma HalfMod4(x: nat)
    ensures 2 * ((x / 2) % 4) + x % 2 == x % 8
  {
  }

  lemma HalfMod8(x: nat)
    ensures 2 * ((x / 2) % 8) + x % 2 == x % 16
  {
  }

  /** The least multiple of 16 that is at least `n`. */
  function RoundUp16(n: nat): (r: nat)
    ensures r % 16 == 0 && n <= r < n + 16
  {
    n + 15 - (n + 15) % 16
  }

  /** `(n + 15) & -16` in `w`-bit arithmetic is `RoundUp16(n)`, when `n + 15` does not overflow. */
  lemma AlignUp16(n: nat, w: nat)
    requires 4 <= w && n + 15 < Pow2(w)
    ensures Pow2(w) >= 16 && And(n + 15, Pow2(w) - 16) == RoundUp16(n)
  {
    assert Pow2(4) == 16;
    PowMonotone(4, w);
    HighMask(n + 15, 4, w, Pow2(w) - 16);
    LowIsMod(n + 15, 4);
  }

  lemma {:induction false} PowMonotone(k: nat, w: nat)
    requires k <= w
    ensures Pow2(k) <= Pow2(w)
    decreases w
  {
    if k < w {
      PowMonotone(k, w - 1);
    }
  }
}
