/**
 * The integer part of the bitplane calibration in intercom_dwt.py
 * (`get_coeffs_bitplanes`, lines 97-100): the range max - min of a
 * coefficient array and the number of bitplanes floor(log2(range)).
 * The probe signal and the wavelet analysis that produce the coefficients
 * are not part of this model; the coefficients are an input, as integers.
 */
module Calibration {
  import opened Bits

  /** Why calibration cannot produce a bitplane count. */
  datatype CalibrationError =
    | EmptyCoefficients  // np.amax / np.amin of an empty array raise
    | ZeroRange          // math.log(0) raises

  datatype Result<T> = Ok(value: T) | Err(error: CalibrationError)

  /** `np.amax`: the largest coefficient. */
  function MaxOf(s: seq<int>): (m: int)
    requires |s| > 0
    ensures exists i :: 0 <= i < |s| && s[i] == m
    ensures forall i :: 0 <= i < |s| ==> s[i] <= m
  {
    if |s| == 1 then s[0]
    else
      var rest := MaxOf(s[1..]);
      if s[0] >= rest then s[0] else rest
  }

  /** `np.amin`: the smallest coefficient. */
  function MinOf(s: seq<int>): (m: int)
    requires |s| > 0
    ensures exists i :: 0 <= i < |s| && s[i] == m
    ensures forall i :: 0 <= i < |s| ==> m <= s[i]
  {
    if |s| == 1 then s[0]
    else
      var rest := MinOf(s[1..]);
      if s[0] <= rest then s[0] else rest
  }

  /** `max - min`: the widest difference between two coefficients, attained by some pair. */
  function CoeffsRange(s: seq<int>): (r: nat)
    requires |s| > 0
    ensures forall i, j :: 0 <= i < |s| && 0 <= j < |s| ==> s[i] - s[j] <= r
    ensures exists i, j :: 0 <= i < |s| && 0 <= j < |s| && s[i] - s[j] == r
  {
    MaxOf(s) - MinOf(s)
  }

  /** floor(log2(n)) for a positive integer. */
  function Log2Floor(n: nat): (b: nat)
    requires n >= 1
    ensures Pow2(b) <= n < Pow2(b + 1)
  {
    if n == 1 then 0 else 1 + Log2Floor(n / 2)
  }

  /** floor(log2(n)) is the only b with 2^b <= n < 2^(b+1). */
  lemma {:induction false} Log2FloorUnique(n: nat, b: nat)
    requires Pow2(b) <= n < Pow2(b + 1)
    ensures Log2Floor(n) == b
  {
    if b == 0 {
    } else {
      assert n >= 2;
      assert Pow2(b - 1) <= n / 2 < Pow2(b);
      Log2FloorUnique(n / 2, b - 1);
    }
  }

  /**
   * `get_coeffs_bitplanes` on given coefficients: fails on an empty array and
   * on a zero range, otherwise returns floor(log2(max - min)).
   */
  function CoeffsBitplanes(coeffs: seq<int>): (r: Result<nat>)
    ensures r == Err(EmptyCoefficients) <==> |coeffs| == 0
    ensures r == Err(ZeroRange) <==>
      |coeffs| > 0 && forall i, j :: 0 <= i < |coeffs| && 0 <= j < |coeffs| ==> coeffs[i] == coeffs[j]
    ensures r.Ok? ==> |coeffs| > 0 && Pow2(r.value) <= CoeffsRange(coeffs) < Pow2(r.value + 1)
  {
    if |coeffs| == 0 then Err(EmptyCoefficients)
    else
      var range := CoeffsRange(coeffs);
      if range == 0 then Err(ZeroRange)
      else Ok(Log2Floor(range))
  }
}
