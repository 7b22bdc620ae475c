/**
 * The sign-magnitude words the wavelet intercom sends and buffers.
 *
 * Packing (intercom_dwt.py, lines 114-116) keeps the sign of a sample in
 * bit 15 and its absolute value in bits 0..14. Unpacking (lines 119-121)
 * reads the word as a signed 16-bit value, as the int16 playback buffer
 * holds it, so that `w >> 15` is an arithmetic shift giving 0 or -1.
 * All arithmetic is int16 arithmetic and wraps modulo 2^16.
 */
module SignMagnitude {
  import opened Sample16
  import Bits

  const SignMask: nat := 0x8000
  const MagnitudeMask: nat := 0x7FFF

  /** `abs(x)` on an int16 array: -32768 has no positive counterpart and wraps back to itself. */
  function Abs(x: Int16): (r: Int16)
    ensures x > -0x8000 ==> r >= 0 && (r == x || r == -x)
    ensures x == -0x8000 ==> r == -0x8000
  {
    var a: int := if x < 0 then -(x as int) else x;
    Wrap(a)
  }

  /**
   * The low 16 bits of `(x & 0x8000) | abs(x)`: the sign bit over the
   * magnitude, and a lone sign bit for -32768.
   */
  function PackedPattern(x: Int16): (p: nat)
    ensures p == if x >= 0 then x else if x == -0x8000 then SignMask else SignMask - x
  {
    var sign := Bits.And(Pattern(x), SignMask);
    var magnitude := Pattern(Abs(x));
    Bits.AndSignMask(Pattern(x));
    if x >= 0 then Bits.Or(sign, magnitude)
    else if x == -0x8000 then Bits.OrSelf(SignMask); Bits.Or(sign, magnitude)
    else Bits.OrSignMask(-x); Bits.Or(sign, magnitude)
  }

  /**
   * Pack one sample into a sign-magnitude word, read back as int16: a
   * non-negative sample is its own word, a negative one sets bit 15 over |x|.
   */
  function Pack(x: Int16): (w: Int16)
    ensures w == if x >= 0 then x else if x == -0x8000 then x else -0x8000 - x
    ensures Pattern(w) == PackedPattern(x)
  {
    OfPattern(PackedPattern(x))
  }

  /** `w >> 15` on an int16: an arithmetic shift, which is floor division by 2^15. */
  function SignOf(w: Int16): (s: int)
    ensures s == 0 || s == -1
    ensures s == -1 <==> w < 0
  {
    w / Half
  }

  /** `w & 0x7FFF`: the fifteen magnitude bits, which are the pattern less the sign bit. */
  function MagnitudeOf(w: Int16): (m: nat)
    ensures m == if w < 0 then w + Half else w
  {
    Bits.AndMagnitudeMask(Pattern(w));
    Bits.And(Pattern(w), MagnitudeMask)
  }

  /** `m + m * s * 2` evaluated with int16 wrap-around at every operation. */
  function Recombine(m: int, s: int): (r: Int16)
    ensures (r - (m + m * s * 2)) % Modulus == 0
  {
    var p := m * s;
    var d := Wrap(p);
    var e := Wrap(d * 2);
    CongruentSum(d - p, d - p);
    CongruentSum(e - d * 2, (d - p) * 2);
    CongruentSum(Wrap(m + e) - (m + e), e - p * 2);
    Wrap(m + e)
  }

  /**
   * `s = w >> 15`, `m = w & 0x7FFF`, then `m + m * s * 2`, all on int16:
   * +m when the sign bit is clear and -m when it is set, even though
   * `m * s * 2` wraps.
   */
  function Unpack(w: Int16): (r: Int16)
    ensures r == if w < 0 then -(MagnitudeOf(w) as int) else MagnitudeOf(w)
  {
    var m := MagnitudeOf(w);
    if w < 0 then RecombineNegative(m); Recombine(m, SignOf(w))
    else RecombinePositive(m); Recombine(m, SignOf(w))
  }

  /** With s = -1 the wrapped recombination m + m * s * 2 is exactly -m. */
  lemma RecombineNegative(m: int)
    requires 0 <= m < Half
    ensures Recombine(m, -1) == -m
  {
    var d := Wrap(-m) * 2;
    assert d == -2 * m;
    var e := Wrap(d);
    assert ((m + e) - (-m)) % Modulus == 0;
    WrapCongruent(m + e, -m);
  }

  /** With s = 0 the recombination is m itself. */
  lemma RecombinePositive(m: int)
    requires 0 <= m < Half
    ensures Recombine(m, 0) == m
  {
  }

  /** Bit 15 of the packed word is set exactly for negative samples. */
  lemma PackSignBit(x: Int16)
    ensures Bits.And(Pattern(Pack(x)), SignMask) == if x < 0 then SignMask else 0
  {
    Bits.AndSignMask(PackedPattern(x));
  }

  /** The fifteen low bits of the packed word hold |x| for every sample but -32768. */
  lemma PackMagnitude(x: Int16)
    requires x > -0x8000
    ensures MagnitudeOf(Pack(x)) == if x < 0 then -x else x
  {
  }

  /** Unpacking a packed sample gives it back, for every sample but -32768. */
  lemma UnpackPack(x: Int16)
    requires x > -0x8000
    ensures Unpack(Pack(x)) == x
  {
  }

  /** -32768 packs to a lone sign bit (a negative zero), which unpacks to 0. */
  lemma PackMostNegative(x: Int16)
    requires x == -0x8000
    ensures Pack(x) == x
    ensures Unpack(Pack(x)) == 0
  {
  }

  /** A word whose magnitude bits are all zero unpacks to 0 whatever its sign bit. */
  lemma ZeroMagnitudeIsSilence(w: Int16)
    requires MagnitudeOf(w) == 0
    ensures Unpack(w) == 0
  {
  }

  /**
   * The same expression, `s = w >> 15`, `m = w & 0x7FFF`, `m + m * s * 2`, over
   * a word read as a non-negative wide integer, as the int32 array built at
   * line 116 holds it: the shift then yields 0 or 1.
   */
  function UnpackWide(v: nat): (r: int)
    ensures v < Modulus ==> r == if v >= Half then 3 * (v - Half) else v
  {
    var s := v / Half;
    var m := Bits.And(v, MagnitudeMask);
    if v < Modulus then Bits.AndMagnitudeMask(v); m + m * s * 2
    else m + m * s * 2
  }

  /** Under the wide reading a negative sample comes back as three times its magnitude. */
  lemma UnpackWideTriples(x: Int16)
    requires -0x8000 < x < 0
    ensures UnpackWide(PackedPattern(x)) == -3 * x
  {
  }

  /**
   * Dropping magnitude bitplanes (clearing bits of the word other than the
   * sign bit) never raises the magnitude and never flips the sign: the
   * sample moves toward zero.
   */
  lemma UnpackPartialBitplanes(w: Int16, received: nat)
    requires received < Modulus && Bits.And(received, SignMask) == SignMask
    ensures Bits.And(Pattern(w), received) < Modulus
    ensures var w' := Unpack(OfPattern(Bits.And(Pattern(w), received)));
      var u := Unpack(w);
      (u >= 0 ==> 0 <= w' <= u) && (u < 0 ==> u <= w' <= 0)
  {
    var p := Pattern(w);
    Bits.AndSignMask(received);
    Bits.AndKeepingSign(p, received);
  }

  /** Packing applied element-wise to a column, as numpy applies it to an array. */
  function PackColumn(xs: seq<Int16>): (ws: seq<Int16>)
    ensures |ws| == |xs|
    ensures forall f :: 0 <= f < |xs| ==> ws[f] == Pack(xs[f])
  {
    seq(|xs|, f requires 0 <= f < |xs| => Pack(xs[f]))
  }

  /** Unpacking applied element-wise to a column. */
  function UnpackColumn(ws: seq<Int16>): (xs: seq<Int16>)
    ensures |xs| == |ws|
    ensures forall f :: 0 <= f < |ws| ==> xs[f] == Unpack(ws[f])
  {
    seq(|ws|, f requires 0 <= f < |ws| => Unpack(ws[f]))
  }

  /** A column without -32768 survives packing and unpacking unchanged. */
  lemma UnpackPackColumn(xs: seq<Int16>)
    requires forall f :: 0 <= f < |xs| ==> xs[f] != -0x8000
    ensures UnpackColumn(PackColumn(xs)) == xs
  {
    forall f | 0 <= f < |xs|
      ensures UnpackColumn(PackColumn(xs))[f] == xs[f]
    {
      UnpackPack(xs[f]);
    }
  }
}
