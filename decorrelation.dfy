/**
 * Binaural redundancy removal: one channel of a stereo chunk is replaced by
 * its int16 difference against the other (the reference), and later restored
 * by adding the reference back. Both the plain variant (intercom_binaural.py,
 * channel 0 -= channel 1) and the transform variant (intercom_dwt.py,
 * channel 1 -= channel 0) are this operation with the roles exchanged.
 */
module Decorrelation {
  import opened Sample16

  /** Element-wise `x - reference` on int16 columns. */
  function Residue(x: seq<Int16>, reference: seq<Int16>): (r: seq<Int16>)
    requires |x| == |reference|
    ensures |r| == |x|
    ensures forall f :: 0 <= f < |x| ==> (r[f] - (x[f] - reference[f])) % Modulus == 0
    ensures forall f :: 0 <= f < |x| && -Half <= x[f] - reference[f] < Half ==> r[f] == x[f] - reference[f]
  {
    seq(|x|, f requires 0 <= f < |x| => Sub(x[f], reference[f]))
  }

  /** Element-wise `r + reference` on int16 columns. */
  function Restore(r: seq<Int16>, reference: seq<Int16>): (x: seq<Int16>)
    requires |r| == |reference|
    ensures |x| == |r|
    ensures forall f :: 0 <= f < |r| ==> (x[f] - (r[f] + reference[f])) % Modulus == 0
  {
    seq(|r|, f requires 0 <= f < |r| => Add(r[f], reference[f]))
  }

  /** Restoring a residue against the same reference gives the column back exactly, overflow or not. */
  lemma RestoreResidue(x: seq<Int16>, reference: seq<Int16>)
    requires |x| == |reference|
    ensures Restore(Residue(x, reference), reference) == x
  {
    var back := Restore(Residue(x, reference), reference);
    forall f | 0 <= f < |x|
      ensures back[f] == x[f]
    {
      AddSubCancel(x[f], reference[f]);
    }
  }

  /** Restoring a residue gives the column back if and only if the reference added is the one subtracted. */
  lemma RestoreResidueOnlyWithReference(x: seq<Int16>, reference: seq<Int16>, other: seq<Int16>)
    requires |x| == |reference| == |other|
    ensures Restore(Residue(x, reference), other) == x <==> other == reference
  {
    var back := Restore(Residue(x, reference), other);
    if back == x {
      forall f | 0 <= f < |x|
        ensures other[f] == reference[f]
      {
        assert back[f] == x[f];
        AddSubRecovers(x[f], reference[f], other[f]);
      }
    } else if other == reference {
      RestoreResidue(x, reference);
    }
  }

  /** Two equal channels leave a silent residue. */
  lemma ResidueOfEqualChannels(x: seq<Int16>)
    ensures Residue(x, x) == seq(|x|, f => 0)
  {
  }

  /** Column `c` of a frames-by-channels chunk: `a[:, c]`. */
  function Column(a: array2<Int16>, c: nat): (col: seq<Int16>)
    requires c < a.Length1
    reads a
    ensures |col| == a.Length0
    ensures forall f :: 0 <= f < a.Length0 ==> col[f] == a[f, c]
  {
    seq(a.Length0, f requires 0 <= f < a.Length0 reads a => a[f, c])
  }

  /** `a[:, dst] -= a[:, src]` in place; every other column is left as it was. */
  method SubtractColumn(a: array2<Int16>, dst: nat, src: nat)
    requires dst < a.Length1 && src < a.Length1 && dst != src
    modifies a
    ensures Column(a, dst) == Residue(old(Column(a, dst)), old(Column(a, src)))
    ensures forall f, c :: 0 <= f < a.Length0 && 0 <= c < a.Length1 && c != dst ==> a[f, c] == old(a[f, c])
  {
    ghost var x := Column(a, dst);
    ghost var reference := Column(a, src);
    var f := 0;
    while f < a.Length0
      invariant 0 <= f <= a.Length0
      invariant forall g :: 0 <= g < f ==> a[g, dst] == Sub(x[g], reference[g])
      invariant forall g :: f <= g < a.Length0 ==> a[g, dst] == x[g]
      invariant forall g, c :: 0 <= g < a.Length0 && 0 <= c < a.Length1 && c != dst ==> a[g, c] == old(a[g, c])
    {
      a[f, dst] := Sub(a[f, dst], a[f, src]);
      f := f + 1;
    }
    assert Column(a, dst) == Residue(x, reference);
  }
}
