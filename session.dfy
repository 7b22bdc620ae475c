/**
 * The per-session state the intercom handlers read and update: the playback
 * buffer of chunk slots, the per-slot count of received bitplanes, the
 * number of the chunk being played and the installed record/play handler.
 * These fields belong to base classes (Intercom, Intercom_buffer,
 * Intercom_bitplanes) whose code is not part of this model.
 */
module Session {
  import opened Sample16
  import opened Decorrelation

  class Intercom {
    const numberOfChannels: nat
    const cellsInBuffer: nat
    /** `_buffer[cell][frame, channel]`: the int16 chunks waiting to be played. */
    var buffer: array3<Int16>
    var receivedBitplanesPerChunk: array<nat>
    var playedChunkNumber: nat
    /** True once `record_send_and_play` is bound to the stereo override. */
    var stereoHandler: bool
    /** Bitplane count from calibration (wavelet variant). */
    var precisionBits: nat

    ghost predicate Valid()
      reads this
    {
      cellsInBuffer > 0 &&
      buffer.Length0 == cellsInBuffer &&
      buffer.Length2 == numberOfChannels &&
      receivedBitplanesPerChunk.Length == cellsInBuffer &&
      (stereoHandler ==> numberOfChannels == 2)
    }

    /** A session with silent slots, no bitplanes received and the inherited handler. */
    constructor (channels: nat, framesPerChunk: nat, cells: nat)
      requires cells > 0
      ensures Valid() && fresh(buffer) && fresh(receivedBitplanesPerChunk)
      ensures numberOfChannels == channels && cellsInBuffer == cells && buffer.Length1 == framesPerChunk
      ensures playedChunkNumber == 0 && !stereoHandler && precisionBits == 0
      ensures forall s, f, c :: 0 <= s < cells && 0 <= f < framesPerChunk && 0 <= c < channels ==> buffer[s, f, c] == 0
      ensures forall s :: 0 <= s < cells ==> receivedBitplanesPerChunk[s] == 0
    {
      numberOfChannels := channels;
      cellsInBuffer := cells;
      buffer := new Int16[cells, framesPerChunk, channels]((s, f, c) => 0);
      receivedBitplanesPerChunk := new nat[cells](s => 0);
      playedChunkNumber := 0;
      stereoHandler := false;
      precisionBits := 0;
    }

    /** `played_chunk_number % cells_in_buffer`: always a slot of the buffer. */
    function PlayedSlot(): (slot: nat)
      requires Valid()
      reads this
      ensures slot < cellsInBuffer
    {
      playedChunkNumber % cellsInBuffer
    }

    /** `_buffer[slot][:, c]` */
    function SlotColumn(slot: nat, c: nat): (col: seq<Int16>)
      requires slot < buffer.Length0 && c < buffer.Length2
      reads this, buffer
      ensures |col| == buffer.Length1
      ensures forall f :: 0 <= f < buffer.Length1 ==> col[f] == buffer[slot, f, c]
    {
      var b := buffer;
      seq(b.Length1, f requires 0 <= f < b.Length1 reads b => b[slot, f, c])
    }

    /** `_buffer[slot][:, dst] += _buffer[slot][:, src]`; nothing else in the buffer changes. */
    method AddColumnInSlot(slot: nat, dst: nat, src: nat)
      requires slot < buffer.Length0 && dst < buffer.Length2 && src < buffer.Length2 && dst != src
      modifies buffer
      ensures SlotColumn(slot, dst) == Restore(old(SlotColumn(slot, dst)), old(SlotColumn(slot, src)))
      ensures forall s, f, c ::
                0 <= s < buffer.Length0 && 0 <= f < buffer.Length1 && 0 <= c < buffer.Length2 && (s != slot || c != dst)
                ==> buffer[s, f, c] == old(buffer[s, f, c])
    {
      ghost var r := SlotColumn(slot, dst);
      ghost var reference := SlotColumn(slot, src);
      var f := 0;
      while f < buffer.Length1
        invariant 0 <= f <= buffer.Length1
        invariant forall g :: 0 <= g < f ==> buffer[slot, g, dst] == Add(r[g], reference[g])
        invariant forall g :: f <= g < buffer.Length1 ==> buffer[slot, g, dst] == r[g]
        invariant forall s, g, c ::
                    0 <= s < buffer.Length0 && 0 <= g < buffer.Length1 && 0 <= c < buffer.Length2 && (s != slot || c != dst)
                    ==> buffer[s, g, c] == old(buffer[s, g, c])
      {
        buffer[slot, f, dst] := Add(buffer[slot, f, dst], buffer[slot, f, src]);
        f := f + 1;
      }
      assert SlotColumn(slot, dst) == Restore(r, reference);
    }
  }
}
