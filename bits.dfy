/**
 * Bitwise AND and OR on non-negative integers, defined one bit at a time,
 * and the facts about the masks the codec uses (0x8000 and 0x7FFF).
 * Every induction below only halves its arguments, so each step is linear.
 */
module Bits {

  function Pow2(k: nat): (p: nat)
    ensures p >= 1
  {
    if k == 0 then 1 else 2 * Pow2(k - 1)
  }

  /** 2^k - 1: k low ones. */
  function LowOnes(k: nat): nat
  {
    if k == 0 then 0 else 2 * LowOnes(k - 1) + 1
  }

  /** Bit k of p, that is (p >> k) & 1. */
  function BitAt(p: nat, k: nat): nat
  {
    if k == 0 then p % 2 else BitAt(p / 2, k - 1)
  }

  /** The k low bits of p, that is p mod 2^k. */
  function Low(p: nat, k: nat): nat
  {
    if k == 0 then 0 else 2 * Low(p / 2, k - 1) + p % 2
  }

  /** `a & b` */
  function And(a: nat, b: nat): (r: nat)
    ensures r <= a && r <= b
    decreases a
  {
    if a == 0 || b == 0 then 0
    else 2 * And(a / 2, b / 2) + (if a % 2 == 1 && b % 2 == 1 then 1 else 0)
  }

  /** `a | b` */
  function Or(a: nat, b: nat): (r: nat)
    ensures a <= r && b <= r && r <= a + b
    decreases a + b
  {
    if a == 0 then b
    else if b == 0 then a
    else 2 * Or(a / 2, b / 2) + (if a % 2 == 1 || b % 2 == 1 then 1 else 0)
  }

  /** The constants of the 16-bit word layout. */
  lemma WordConstants()
    ensures Pow2(15) == 0x8000
    ensures LowOnes(15) == 0x7FFF
  {
    assert Pow2(4) == 16 && LowOnes(4) == 15;
    assert Pow2(8) == 256 && LowOnes(8) == 255;
    assert Pow2(12) == 4096 && LowOnes(12) == 4095;
  }

  lemma {:induction false} LowOfZero(k: nat)
    ensures Low(0, k) == 0
  {
    if k != 0 {
      LowOfZero(k - 1);
    }
  }

  lemma {:induction false} BitOfZero(k: nat)
    ensures BitAt(0, k) == 0
  {
    if k != 0 {
      BitOfZero(k - 1);
    }
  }

  /** Masking with k low ones keeps the k low bits. */
  lemma {:induction false} AndLowOnes(p: nat, k: nat)
    ensures And(p, LowOnes(k)) == Low(p, k)
  {
    if k == 0 {
    } else if p == 0 {
      LowOfZero(k);
    } else {
      AndLowOnes(p / 2, k - 1);
    }
  }

  /** Masking with the single bit 2^k keeps exactly bit k. */
  lemma {:induction false} AndSingleBit(p: nat, k: nat)
    ensures And(p, Pow2(k)) == if BitAt(p, k) == 1 then Pow2(k) else 0
  {
    if p == 0 {
      BitOfZero(k);
    } else if k == 0 {
      assert And(p / 2, 0) == 0;
    } else {
      AndSingleBit(p / 2, k - 1);
    }
  }

  /** Bit k of `a & b` is set exactly when bit k is set in both. */
  lemma {:induction false} AndBitOf(a: nat, b: nat, k: nat)
    ensures BitAt(And(a, b), k) == 1 <==> BitAt(a, k) == 1 && BitAt(b, k) == 1
  {
    if a == 0 || b == 0 {
      BitOfZero(k);
    } else if k != 0 {
      var bit := if a % 2 == 1 && b % 2 == 1 then 1 else 0;
      assert And(a, b) == 2 * And(a / 2, b / 2) + bit;
      assert And(a, b) / 2 == And(a / 2, b / 2);
      AndBitOf(a / 2, b / 2, k - 1);
    }
  }

  /** Clearing bits of a value never raises its k low bits. */
  lemma {:induction false} LowAndBelow(a: nat, b: nat, k: nat)
    ensures Low(And(a, b), k) <= Low(a, k)
  {
    if k == 0 {
    } else if a == 0 || b == 0 {
      LowOfZero(k);
    } else {
      var bit := if a % 2 == 1 && b % 2 == 1 then 1 else 0;
      assert And(a, b) == 2 * And(a / 2, b / 2) + bit;
      assert And(a, b) / 2 == And(a / 2, b / 2) && And(a, b) % 2 == bit;
      LowAndBelow(a / 2, b / 2, k - 1);
    }
  }

  /** A value below 2^k is its own k low bits. */
  lemma {:induction false} LowOfSmall(m: nat, k: nat)
    requires m < Pow2(k)
    ensures Low(m, k) == m
  {
    if k != 0 {
      LowOfSmall(m / 2, k - 1);
    }
  }

  /** Bit k set over a value below 2^k: the k low bits are that value. */
  lemma {:induction false} LowUnderTopBit(m: nat, k: nat)
    requires m < Pow2(k)
    ensures Low(Pow2(k) + m, k) == m
  {
    if k != 0 {
      assert (Pow2(k) + m) / 2 == Pow2(k - 1) + m / 2;
      assert (Pow2(k) + m) % 2 == m % 2;
      LowUnderTopBit(m / 2, k - 1);
    }
  }

  /** Below 2^(k+1), bit k is set exactly from 2^k upward. */
  lemma {:induction false} TopBit(p: nat, k: nat)
    requires p < 2 * Pow2(k)
    ensures BitAt(p, k) == 1 <==> p >= Pow2(k)
  {
    if k != 0 {
      TopBit(p / 2, k - 1);
    }
  }

  /** Setting bit k above a value below 2^k adds 2^k. */
  lemma {:induction false} OrHighBit(m: nat, k: nat)
    requires m < Pow2(k)
    ensures Or(Pow2(k), m) == Pow2(k) + m
  {
    if k != 0 && m != 0 {
      OrHighBit(m / 2, k - 1);
    }
  }

  lemma {:induction false} OrSelf(a: nat)
    ensures Or(a, a) == a
  {
    if a != 0 {
      OrSelf(a / 2);
    }
  }

  /** `p & 0x8000` on a 16-bit pattern: the sign bit alone. */
  lemma AndSignMask(p: nat)
    requires p < 0x1_0000
    ensures And(p, 0x8000) == if p >= 0x8000 then 0x8000 else 0
  {
    WordConstants();
    AndSingleBit(p, 15);
    TopBit(p, 15);
  }

  /** `p & 0x7FFF` on a 16-bit pattern: the pattern without its sign bit. */
  lemma AndMagnitudeMask(p: nat)
    requires p < 0x1_0000
    ensures And(p, 0x7FFF) == if p >= 0x8000 then p - 0x8000 else p
  {
    WordConstants();
    AndLowOnes(p, 15);
    if p >= 0x8000 {
      LowUnderTopBit(p - 0x8000, 15);
    } else {
      LowOfSmall(p, 15);
    }
  }

  /** `0x8000 | m` for m below 2^15: the sign bit over the magnitude. */
  lemma OrSignMask(m: nat)
    requires m < 0x8000
    ensures Or(0x8000, m) == 0x8000 + m
  {
    WordConstants();
    OrHighBit(m, 15);
  }

  /**
   * Clearing bits of a 16-bit pattern with a mask that keeps the sign bit
   * keeps the sign bit and never raises the fifteen low bits.
   */
  lemma AndKeepingSign(p: nat, keep: nat)
    requires p < 0x1_0000 && 0x8000 <= keep < 0x1_0000
    ensures And(p, keep) < 0x1_0000
    ensures And(p, keep) >= 0x8000 <==> p >= 0x8000
    ensures And(And(p, keep), 0x7FFF) <= And(p, 0x7FFF)
  {
    WordConstants();
    var c := And(p, keep);
    AndBitOf(p, keep, 15);
    TopBit(p, 15);
    TopBit(keep, 15);
    TopBit(c, 15);
    AndLowOnes(c, 15);
    AndLowOnes(p, 15);
    LowAndBelow(p, keep, 15);
  }
}
