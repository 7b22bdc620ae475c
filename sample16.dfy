/**
 * Signed 16-bit sample arithmetic as numpy performs it on int16 arrays:
 * every sum, difference and product wraps around modulo 2^16.
 * The bit pattern of a sample is its two's-complement reading, kept as an
 * unsigned integer below 2^16.
 */
module Sample16 {

  const Modulus: int := 0x1_0000
  const Half: int := 0x8000

  /** A signed 16-bit sample (numpy int16). */
  type Int16 = x: int | -0x8000 <= x < 0x8000

  /** Two's-complement wrap-around of an unbounded integer into int16. */
  function Wrap(x: int): (r: Int16)
    ensures (r - x) % Modulus == 0
    ensures -0x8000 <= x < 0x8000 ==> r == x
  {
    (x + Half) % Modulus - Half
  }

  /** `a - b` on int16 operands. */
  function Sub(a: Int16, b: Int16): (r: Int16)
    ensures (r - (a - b)) % Modulus == 0
    ensures -0x8000 <= a - b < 0x8000 ==> r == a - b
  {
    Wrap(a - b)
  }

  /** `a + b` on int16 operands. */
  function Add(a: Int16, b: Int16): (r: Int16)
    ensures (r - (a + b)) % Modulus == 0
    ensures -0x8000 <= a + b < 0x8000 ==> r == a + b
  {
    Wrap(a + b)
  }

  /** Two integers congruent modulo 2^16 wrap to the same sample. */
  lemma WrapCongruent(x: int, y: int)
    requires (x - y) % Modulus == 0
    ensures Wrap(x) == Wrap(y)
  {
    var k := (x - y) / Modulus;
    assert x == y + k * Modulus;
    assert (x + Half) % Modulus == (y + Half + k * Modulus) % Modulus;
    ModAddMultiple(y + Half, k);
  }

  lemma ModAddMultiple(a: int, k: int)
    ensures (a + k * Modulus) % Modulus == a % Modulus
  {
  }

  /** Differences that are multiples of 2^16 add up to a multiple of 2^16. */
  lemma CongruentSum(u: int, v: int)
    requires u % Modulus == 0 && v % Modulus == 0
    ensures (u + v) % Modulus == 0
  {
    var i, j := u / Modulus, v / Modulus;
    assert u + v == (i + j) * Modulus;
  }

  /** Adding back what was subtracted restores the sample exactly, even when the difference wrapped. */
  lemma AddSubCancel(a: Int16, b: Int16)
    ensures Add(Sub(a, b), b) == a
  {
    var d := Sub(a, b);
    assert (d - (a - b)) % Modulus == 0;
    WrapCongruent(d + b, a);
  }

  /**
   * Adding c to the wrapped difference a - b gives a back exactly when c is
   * the b that was subtracted.
   */
  lemma AddSubRecovers(a: Int16, b: Int16, c: Int16)
    ensures Add(Sub(a, b), c) == a <==> c == b
  {
    var d := Sub(a, b);
    if Add(d, c) == a {
      CongruentSum(Add(d, c) - (d + c), d - (a - b));
      assert (b - c) % Modulus == 0;
    } else if c == b {
      AddSubCancel(a, b);
    }
  }

  /** The 16-bit two's-complement pattern of a sample, as an unsigned integer. */
  function Pattern(x: Int16): (p: nat)
    ensures p < Modulus
    ensures x >= 0 ==> p == x
    ensures x < 0 ==> p == x + Modulus
  {
    x % Modulus
  }

  /** The signed reading of a 16-bit pattern: what an int16 array holds for it. */
  function OfPattern(p: nat): (x: Int16)
    requires p < Modulus
    ensures Pattern(x) == p
    ensures x < 0 <==> p >= Half
  {
    if p < Half then p else p - Modulus
  }
}
