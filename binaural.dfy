/**
 * intercom_binaural.py: the plain binaural variant. Channel 0 of the recorded
 * chunk becomes the residue channel 0 - channel 1 before it is sent, and the
 * chunk about to be played gets channel 1 added back into its channel 0.
 */
module Binaural {
  import opened Sample16
  import opened Decorrelation
  import opened Session

  /**
   * `init`: bind `record_send_and_play` to the stereo override when the
   * session has two channels; otherwise keep the inherited handler.
   */
  method Init(ic: Intercom)
    requires ic.Valid()
    modifies ic`stereoHandler
    ensures ic.Valid()
    ensures ic.stereoHandler <==> ic.numberOfChannels == 2
    ensures ic.numberOfChannels != 2 ==> ic.stereoHandler == old(ic.stereoHandler)
  {
    if ic.numberOfChannels == 2 {
      ic.stereoHandler := true;
    }
  }

  /**
   * `record_send_and_play_stereo`: `indata[:,0] -= indata[:,1]` on the
   * recorded chunk, then `_buffer[slot][:,0] += _buffer[slot][:,1]` on the
   * slot `played_chunk_number % cells_in_buffer`.
   */
  method RecordSendAndPlayStereo(ic: Intercom, indata: array2<Int16>)
    requires ic.Valid() && ic.numberOfChannels == 2 && indata.Length1 == 2
    modifies indata, ic.buffer
    ensures Column(indata, 0) == Residue(old(Column(indata, 0)), old(Column(indata, 1)))
    ensures Column(indata, 1) == old(Column(indata, 1))
    ensures ic.SlotColumn(ic.PlayedSlot(), 0) ==
              Restore(old(ic.SlotColumn(ic.PlayedSlot(), 0)), old(ic.SlotColumn(ic.PlayedSlot(), 1)))
    ensures forall s, f, c ::
              0 <= s < ic.buffer.Length0 && 0 <= f < ic.buffer.Length1 && 0 <= c < 2 && (s != ic.PlayedSlot() || c != 0)
              ==> ic.buffer[s, f, c] == old(ic.buffer[s, f, c])
  {
    SubtractColumn(indata, 0, 1);
    ic.AddColumnInSlot(ic.PlayedSlot(), 0, 1);
  }

  /**
   * The `record_send_and_play` the session has bound: the stereo override
   * after `Init` on a two-channel session. The inherited handler is not part
   * of this model; all the model says of it is that it does not decorrelate,
   * so the recorded chunk and the buffer keep their samples.
   */
  method RecordSendAndPlay(ic: Intercom, indata: array2<Int16>)
    requires ic.Valid() && indata.Length1 == ic.numberOfChannels
    modifies indata, ic.buffer
    ensures !ic.stereoHandler ==> unchanged(indata) && unchanged(ic.buffer)
    ensures ic.stereoHandler ==>
              Column(indata, 0) == Residue(old(Column(indata, 0)), old(Column(indata, 1))) &&
              Column(indata, 1) == old(Column(indata, 1))
    ensures ic.stereoHandler ==>
              ic.SlotColumn(ic.PlayedSlot(), 0) ==
              Restore(old(ic.SlotColumn(ic.PlayedSlot(), 0)), old(ic.SlotColumn(ic.PlayedSlot(), 1)))
    ensures ic.stereoHandler ==>
              forall s, f, c ::
                0 <= s < ic.buffer.Length0 && 0 <= f < ic.buffer.Length1 && 0 <= c < ic.buffer.Length2 && (s != ic.PlayedSlot() || c != 0)
                ==> ic.buffer[s, f, c] == old(ic.buffer[s, f, c])
  {
    if ic.stereoHandler {
      RecordSendAndPlayStereo(ic, indata);
    }
  }

  /**
   * A mono session never installs the stereo override, so a chunk passes
   * through `record_send_and_play` without decorrelation.
   */
  method MonoPassThrough(ic: Intercom, indata: array2<Int16>)
    requires ic.Valid() && ic.numberOfChannels == 1 && indata.Length1 == 1
    modifies ic`stereoHandler, indata, ic.buffer
    ensures !ic.stereoHandler
    ensures unchanged(indata) && unchanged(ic.buffer)
  {
    Init(ic);
    RecordSendAndPlay(ic, indata);
  }
}
