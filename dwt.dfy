/**
 * intercom_dwt.py: the wavelet variant. Channel 1 of the recorded chunk
 * becomes the residue channel 1 - channel 0, channel 0 is replaced by its
 * wavelet coefficients, and every sample is packed into a sign-magnitude
 * word before it is sent. On the playback side the slot's words are
 * unpacked, channel 0 is added back into channel 1, and the slot's count of
 * received bitplanes is reset.
 *
 * The wavelet analysis (with its float-to-int16 store) is the parameter
 * `forward`; the inverse wavelet synthesis of line 124 is not part of this
 * model, so the slot is left in the coefficient domain.
 */
module Dwt {
  import opened Sample16
  import opened Decorrelation
  import opened SignMagnitude
  import opened Session
  import Calibration
  import Binaural

  /**
   * `init`: the inherited initialisation (which binds the stereo handler on
   * a two-channel session), then calibration of the bitplane count from the
   * coefficients of the probe chunk. Calibration that fails aborts `init`
   * and leaves the bitplane count unset.
   */
  method Init(ic: Intercom, probeCoeffs: seq<int>) returns (r: Calibration.Result<nat>)
    requires ic.Valid()
    modifies ic`stereoHandler, ic`precisionBits
    ensures ic.Valid()
    ensures ic.stereoHandler <==> ic.numberOfChannels == 2
    ensures r == Calibration.CoeffsBitplanes(probeCoeffs)
    ensures ic.precisionBits == if r.Ok? then r.value else old(ic.precisionBits)
  {
    Binaural.Init(ic);
    r := Calibration.CoeffsBitplanes(probeCoeffs);
    if r.Ok? {
      ic.precisionBits := r.value;
    }
  }

  /** `indata[:,c] = column` for a column of the chunk's length. */
  method StoreColumn(a: array2<Int16>, c: nat, column: seq<Int16>)
    requires c < a.Length1 && |column| == a.Length0
    modifies a
    ensures Column(a, c) == column
    ensures forall f, d :: 0 <= f < a.Length0 && 0 <= d < a.Length1 && d != c ==> a[f, d] == old(a[f, d])
  {
    var f := 0;
    while f < a.Length0
      invariant 0 <= f <= a.Length0
      invariant forall g :: 0 <= g < f ==> a[g, c] == column[g]
      invariant forall g, d :: 0 <= g < a.Length0 && 0 <= d < a.Length1 && d != c ==> a[g, d] == old(a[g, d])
    {
      a[f, c] := column[f];
      f := f + 1;
    }
  }

  /** Lines 114-116 over a whole chunk: a new array of sign-magnitude words. */
  method PackChunk(a: array2<Int16>) returns (packed: array2<Int16>)
    ensures fresh(packed)
    ensures packed.Length0 == a.Length0 && packed.Length1 == a.Length1
    ensures forall f, c :: 0 <= f < a.Length0 && 0 <= c < a.Length1 ==> packed[f, c] == Pack(a[f, c])
  {
    packed := new Int16[a.Length0, a.Length1];
    var f := 0;
    while f < a.Length0
      invariant 0 <= f <= a.Length0
      invariant forall g, c :: 0 <= g < f && 0 <= c < a.Length1 ==> packed[g, c] == Pack(a[g, c])
    {
      MapFrame(a, packed, f, Pack);
      f := f + 1;
    }
  }

  /** One frame of `PackChunk`: `packed[f, :]` receives `op` applied to each sample of `a[f, :]`. */
  method MapFrame(a: array2<Int16>, packed: array2<Int16>, f: nat, op: Int16 -> Int16)
    requires packed != a && f < a.Length0
    requires packed.Length0 == a.Length0 && packed.Length1 == a.Length1
    modifies packed
    ensures forall c :: 0 <= c < a.Length1 ==> packed[f, c] == op(a[f, c])
    ensures forall g, c :: 0 <= g < a.Length0 && 0 <= c < a.Length1 && g != f ==> packed[g, c] == old(packed[g, c])
  {
    var c := 0;
    while c < a.Length1
      invariant 0 <= c <= a.Length1
      invariant forall d :: 0 <= d < c ==> packed[f, d] == op(a[f, d])
      invariant forall g, d :: 0 <= g < a.Length0 && 0 <= d < a.Length1 && g != f ==> packed[g, d] == old(packed[g, d])
    {
      packed[f, c] := op(a[f, c]);
      c := c + 1;
    }
  }

  /** Lines 118-122: replace the slot's words by the samples they unpack to; no other slot changes. */
  method UnpackSlot(ic: Intercom, slot: nat)
    requires slot < ic.buffer.Length0
    modifies ic.buffer
    ensures forall s, f, c :: 0 <= s < ic.buffer.Length0 && 0 <= f < ic.buffer.Length1 && 0 <= c < ic.buffer.Length2 ==>
              ic.buffer[s, f, c] == if s == slot then Unpack(old(ic.buffer[s, f, c])) else old(ic.buffer[s, f, c])
  {
    var b := ic.buffer;
    var f := 0;
    while f < b.Length1
      invariant 0 <= f <= b.Length1
      invariant forall s, g, c :: 0 <= s < b.Length0 && 0 <= g < b.Length1 && 0 <= c < b.Length2 ==>
                  b[s, g, c] == if s == slot && g < f then Unpack(old(b[s, g, c])) else old(b[s, g, c])
    {
      var c := 0;
      while c < b.Length2
        invariant 0 <= c <= b.Length2
        invariant forall s, g, d :: 0 <= s < b.Length0 && 0 <= g < b.Length1 && 0 <= d < b.Length2 ==>
                    b[s, g, d] == if s == slot && (g < f || (g == f && d < c)) then Unpack(old(b[s, g, d])) else old(b[s, g, d])
      {
        b[slot, f, c] := Unpack(b[slot, f, c]);
        c := c + 1;
      }
      f := f + 1;
    }
  }

  /**
   * `record_send_and_play_stereo`. Send side: `indata[:,1] -= indata[:,0]`,
   * `indata[:,0] = forward(indata[:,0])`, and the chunk handed to `send` is
   * the sign-magnitude packing of the result. Play side, on the slot
   * `played_chunk_number % cells_in_buffer`: every word is unpacked, column 0
   * is added into column 1, and only that slot's received-bitplane counter
   * is reset to 0.
   */
  method RecordSendAndPlayStereo(ic: Intercom, indata: array2<Int16>, forward: seq<Int16> -> seq<Int16>)
    returns (sent: array2<Int16>)
    requires ic.Valid() && ic.numberOfChannels == 2 && indata.Length1 == 2
    requires |forward(Column(indata, 0))| == indata.Length0
    modifies indata, ic.buffer, ic.receivedBitplanesPerChunk
    ensures Column(indata, 1) == Residue(old(Column(indata, 1)), old(Column(indata, 0)))
    ensures Column(indata, 0) == forward(old(Column(indata, 0)))
    ensures fresh(sent) && sent.Length0 == indata.Length0 && sent.Length1 == 2
    ensures Column(sent, 0) == PackColumn(Column(indata, 0)) && Column(sent, 1) == PackColumn(Column(indata, 1))
    ensures ic.SlotColumn(ic.PlayedSlot(), 0) == UnpackColumn(old(ic.SlotColumn(ic.PlayedSlot(), 0)))
    ensures ic.SlotColumn(ic.PlayedSlot(), 1) ==
              Restore(UnpackColumn(old(ic.SlotColumn(ic.PlayedSlot(), 1))), UnpackColumn(old(ic.SlotColumn(ic.PlayedSlot(), 0))))
    ensures forall s, f, c :: 0 <= s < ic.buffer.Length0 && 0 <= f < ic.buffer.Length1 && 0 <= c < 2 && s != ic.PlayedSlot() ==>
              ic.buffer[s, f, c] == old(ic.buffer[s, f, c])
    ensures forall s :: 0 <= s < ic.cellsInBuffer ==>
              ic.receivedBitplanesPerChunk[s] == if s == ic.PlayedSlot() then 0 else old(ic.receivedBitplanesPerChunk[s])
  {
    SubtractColumn(indata, 1, 0);
    assert Column(indata, 0) == old(Column(indata, 0));
    StoreColumn(indata, 0, forward(Column(indata, 0)));
    sent := PackChunk(indata);
    // send(sent) and play(outdata) are I/O of the base classes
    assert Column(sent, 0) == PackColumn(Column(indata, 0));
    assert Column(sent, 1) == PackColumn(Column(indata, 1));
    var slot := ic.PlayedSlot();
    ghost var words0, words1 := ic.SlotColumn(slot, 0), ic.SlotColumn(slot, 1);
    UnpackSlot(ic, slot);
    assert ic.SlotColumn(slot, 0) == UnpackColumn(words0);
    assert ic.SlotColumn(slot, 1) == UnpackColumn(words1);
    ic.AddColumnInSlot(slot, 1, 0);
    ic.receivedBitplanesPerChunk[slot] := 0;
  }

  /**
   * What lines 112-123 give back for channel 1. The sent chunk holds
   * `Pack(Residue(ch1, ch0))`, the residue against the recorded channel 0
   * (line 112), and `Pack(forward(ch0))` (lines 113-116). After unpacking,
   * line 123 adds the coefficients, not ch0, into channel 1. When neither
   * column holds -32768, packing is lossless and channel 1 becomes
   * `Restore(Residue(ch1, ch0), forward(ch0))`. That is the recorded
   * channel 1 if and only if `forward(ch0) == ch0`.
   */
  lemma RecorrelatedChannel1(ch0: seq<Int16>, ch1: seq<Int16>, forward: seq<Int16> -> seq<Int16>)
    requires |ch0| == |ch1| && |forward(ch0)| == |ch0|
    requires forall f :: 0 <= f < |ch0| ==> forward(ch0)[f] != -0x8000
    requires forall f :: 0 <= f < |ch0| ==> Residue(ch1, ch0)[f] != -0x8000
    ensures UnpackColumn(PackColumn(forward(ch0))) == forward(ch0)
    ensures Restore(UnpackColumn(PackColumn(Residue(ch1, ch0))), UnpackColumn(PackColumn(forward(ch0)))) ==
            Restore(Residue(ch1, ch0), forward(ch0))
    ensures Restore(Residue(ch1, ch0), forward(ch0)) == ch1 <==> forward(ch0) == ch0
  {
    UnpackPackColumn(forward(ch0));
    UnpackPackColumn(Residue(ch1, ch0));
    RestoreResidueOnlyWithReference(ch1, ch0, forward(ch0));
  }
}
