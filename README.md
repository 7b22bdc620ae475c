# InterCom: binaural decorrelation, sign-magnitude packing and bitplane calibration in Dafny

This project models the integer per-chunk processing of two InterCom stages. InterCom is a real-time stereo audio intercom.

- `Intercom_binaural` (`intercom_binaural.py`) removes binaural redundancy. Channel 0 of each recorded chunk becomes channel 0 − channel 1 before sending. Channel 1 is added back into channel 0 of the buffer slot about to be played.
- `Intercom_DWT` (`intercom_dwt.py`) works in the wavelet domain:
  - Send side: channel 1 becomes channel 1 − channel 0, and channel 0 is replaced by its wavelet coefficients. Every sample is then packed into a sign-magnitude word, with bit 15 as the sign and bits 0..14 as the magnitude.
  - Play side: the slot's words are unpacked and channel 0 is added back into channel 1. The slot's count of received bitplanes is reset to 0.
  - At start-up, the number of bitplanes is calibrated as floor(log2(max − min)) of a probe's coefficients.

## Files

| file | module | contents |
|---|---|---|
| `sample16.dfy` | `Sample16` | int16 samples, wrap-around arithmetic, two's-complement bit patterns |
| `bits.dfy` | `Bits` | `&` and `|` on naturals, defined bit by bit, and lemmas for the masks 0x8000 and 0x7FFF |
| `signmagnitude.dfy` | `SignMagnitude` | pack and unpack of sign-magnitude words, and their properties |
| `decorrelation.dfy` | `Decorrelation` | residue and restore on columns, and the in-place `a[:, dst] -= a[:, src]` |
| `calibration.dfy` | `Calibration` | max, min, range, integer log2, and the bitplane count with its error cases |
| `session.dfy` | `Session` | class `Intercom`: the playback buffer, the received-bitplane counters, the played-chunk number and the bound handler |
| `binaural.dfy` | `Binaural` | `init` and `record_send_and_play_stereo` of the plain variant |
| `dwt.dfy` | `Dwt` | `init` and `record_send_and_play_stereo` of the wavelet variant |

## How the source's numbers are modelled

- Samples, coefficients and packed words are `Int16`, the integers in [−32768, 32767]. Every numpy int16 operation wraps modulo 2^16. The model applies `Wrap` after each operation, including each step of `m + m*s*2`.
- The buffer is taken to hold int16. So a packed word is read back as a signed 16-bit value, and `w >> 15` is an arithmetic shift (floor division by 2^15) that yields 0 or −1.
- The model also states the other reading. Under NumPy 1.x value-based casting, the array built at `intercom_dwt.py:116` is int32, because `& 0x8000` promotes int16. (NumPy 2 instead rejects 0x8000 as an int16 operand.) If that array were unpacked directly, `>> 15` would yield 1 and a negative sample would come back as three times its magnitude (`SignMagnitude.UnpackWideTriples`).
- `abs` of −32768 wraps to −32768 in int16. So −32768 packs to a lone sign bit, a negative zero, and unpacks to 0 (`SignMagnitude.PackMostNegative`). Every other sample survives pack and unpack exactly.
- Bitwise `&` and `|` are defined bit by bit on the unsigned 16-bit pattern of a word.

## Notes on the code

- `intercom_dwt.py` adds channel 0 back into channel 1 at line 123, while channel 0 of the slot still holds wavelet coefficients. Only then, at line 124, does it apply the inverse transform to the whole two-channel slot. Channel 1 was made a residue against the time-domain channel 0 at line 112, before line 113 transformed channel 0. So, with lossless packing, line 123 leaves channel 1 as ch1 − ch0 + forward(ch0) modulo 2^16. `Dwt.RecorrelatedChannel1` proves this, and proves that it equals the recorded channel 1 if and only if forward(ch0) == ch0. The model follows lines 118-123 as written and makes no claim that channel 1 is reconstructed.
- The masks are fixed at 16 bits (0x8000, 0x7FFF, `>> 15`) and never use `precision_bits`. The model uses the fixed masks, and the calibrated count is not connected to packing.

## Model

| member | source | states |
|---|---|---|
| `Sample16.Wrap` | intercom_binaural.py:24-26 | int16 arithmetic: the result is in range, congruent to the exact value modulo 2^16, and equal to it when no overflow occurs |
| `Sample16.Sub` | intercom_binaural.py:24 | int16 `-`: congruent to a − b modulo 2^16, and exactly a − b when that fits |
| `Sample16.Add` | intercom_binaural.py:26 | int16 `+`: congruent to a + b modulo 2^16, and exactly a + b when that fits |
| `Sample16.AddSubRecovers` | intercom_dwt.py:112-123 | adding c to the wrapped a − b gives a if and only if c == b |
| `Sample16.AddSubCancel` | intercom_binaural.py:24-26 | adding back the subtracted sample restores the original exactly, even when the difference wrapped |
| `Bits.And` | intercom_dwt.py:114 | `a & b` (also line 120) is no larger than either operand |
| `Bits.Or` | intercom_dwt.py:116 | `a \| b` is at least each operand and at most their sum |
| `Bits.AndSingleBit` | intercom_dwt.py:114 | `p & 2^k` keeps exactly bit k of p (for `& 0x8000`) |
| `Bits.AndLowOnes` | intercom_dwt.py:120 | `p & (2^k − 1)` keeps exactly the k low bits of p (for `& 0x7FFF`) |
| `Bits.AndBitOf` | intercom_dwt.py:114 | bit k of `a & b` is set if and only if bit k is set in both a and b |
| `Bits.LowAndBelow` | intercom_dwt.py:120 | clearing bits of a value never raises its k low bits |
| `Bits.TopBit` | intercom_dwt.py:119 | below 2^(k+1), bit k is set exactly for values from 2^k upward |
| `Bits.OrHighBit` | intercom_dwt.py:116 | OR-ing bit k over a value below 2^k adds 2^k (sign bit over magnitude) |
| `Bits.AndSignMask` | intercom_dwt.py:114 | `p & 0x8000` on a 16-bit pattern is 0x8000 from 0x8000 upward and 0 below |
| `Bits.AndMagnitudeMask` | intercom_dwt.py:120 | `p & 0x7FFF` on a 16-bit pattern is the pattern with its sign bit removed |
| `Bits.OrSignMask` | intercom_dwt.py:116 | `0x8000 \| m` for a magnitude m below 2^15 is 0x8000 + m |
| `Bits.AndKeepingSign` | intercom_dwt.py:119-120 | a mask that keeps bit 15 keeps the sign of a 16-bit pattern and never raises its 15 low bits |
| `SignMagnitude.Abs` | intercom_dwt.py:115 | `abs` on int16: \|x\| for x > −32768; −32768 stays −32768 |
| `SignMagnitude.PackedPattern` | intercom_dwt.py:114-116 | the low 16 bits of `(x & 0x8000) \| abs(x)` are x for x ≥ 0, 0x8000 + \|x\| for −32768 < x < 0, and 0x8000 for −32768 |
| `SignMagnitude.Pack` | intercom_dwt.py:114-116 | read back as int16, the packed word is x for x ≥ 0 and for −32768, and −32768 − x for other negative x; its pattern is the packed pattern |
| `SignMagnitude.SignOf` | intercom_dwt.py:119 | `w >> 15` on a signed 16-bit word is 0 or −1, and −1 exactly for negative words |
| `SignMagnitude.MagnitudeOf` | intercom_dwt.py:120 | `w & 0x7FFF` is w for a non-negative word and w + 2^15 for a negative one |
| `SignMagnitude.Recombine` | intercom_dwt.py:121 | `m + m*s*2` evaluated with int16 wrap-around is congruent to the exact value modulo 2^16 |
| `SignMagnitude.RecombineNegative` | intercom_dwt.py:121 | with s = −1, `m + m*s*2` under int16 wrap-around is exactly −m |
| `SignMagnitude.RecombinePositive` | intercom_dwt.py:121 | with s = 0, `m + m*s*2` is m |
| `SignMagnitude.Unpack` | intercom_dwt.py:119-121 | unpack yields +m when the sign bit is clear and −m when it is set, m being the 15 magnitude bits |
| `SignMagnitude.PackSignBit` | intercom_dwt.py:114-116 | bit 15 of the packed word is set if and only if the sample is negative |
| `SignMagnitude.PackMagnitude` | intercom_dwt.py:115-116 | for x > −32768 the low 15 bits of the packed word equal \|x\| |
| `SignMagnitude.UnpackPack` | intercom_dwt.py:114-121 | unpack(pack(x)) = x for every x in [−32767, 32767] |
| `SignMagnitude.PackMostNegative` | intercom_dwt.py:114-121 | −32768 packs to a lone sign bit, which unpacks to 0 |
| `SignMagnitude.ZeroMagnitudeIsSilence` | intercom_dwt.py:119-121 | a word with all 15 magnitude bits zero unpacks to 0 whatever its sign bit |
| `SignMagnitude.UnpackWide` | intercom_dwt.py:119-121 | on a non-negative pattern below 2^16 (the int32 reading), `>> 15` is 0 or 1, so the result is the pattern below 2^15 and 3·(v − 2^15) from 2^15 upward |
| `SignMagnitude.UnpackWideTriples` | intercom_dwt.py:114-121 | read as a non-negative wide integer (the int32 array of line 116), a packed negative sample unpacks to −3x, not x |
| `SignMagnitude.UnpackPartialBitplanes` | intercom_dwt.py:119-121 | clearing magnitude bits of a word, with the sign bit kept, moves the unpacked sample toward 0 and never flips its sign |
| `SignMagnitude.PackColumn` | intercom_dwt.py:114-116 | element-wise packing of a column: one word per sample, in order, each the packed sample |
| `SignMagnitude.UnpackColumn` | intercom_dwt.py:119-121 | element-wise unpacking of a column: one sample per word, in order, each the unpacked word |
| `SignMagnitude.UnpackPackColumn` | intercom_dwt.py:114-121 | element-wise unpack of element-wise pack returns a column free of −32768 unchanged |
| `Decorrelation.Residue` | intercom_binaural.py:24 | each residue sample is x − reference modulo 2^16, and exactly x − reference when that fits int16 |
| `Decorrelation.Restore` | intercom_binaural.py:26 | each restored sample is residue + reference modulo 2^16 |
| `Decorrelation.RestoreResidue` | intercom_binaural.py:24-26 | restoring a residue against the unchanged reference gives the original column exactly |
| `Decorrelation.RestoreResidueOnlyWithReference` | intercom_dwt.py:112-123 | restoring a residue against another column gives the original if and only if that column is the reference subtracted |
| `Decorrelation.ResidueOfEqualChannels` | intercom_binaural.py:22-24 | two equal channels give an all-zero residue |
| `Decorrelation.SubtractColumn` | intercom_dwt.py:112 | in-place `a[:, dst] -= a[:, src]`: column dst becomes the residue, and every other column is unchanged |
| `Session.Intercom.constructor` | intercom_binaural.py:16-17 | stands in for the base-class initialisation: every slot silent, every counter 0, chunk number 0, the inherited handler bound |
| `Session.Intercom.PlayedSlot` | intercom_dwt.py:118 | `played_chunk_number % cells_in_buffer` lies in [0, cells_in_buffer) |
| `Session.Intercom.AddColumnInSlot` | intercom_binaural.py:26 | in-place `_buffer[slot][:, dst] += _buffer[slot][:, src]`: only that column of that slot changes, and it becomes the restore |
| `Binaural.Init` | intercom_binaural.py:16-20 | the stereo handler is bound if and only if the session has two channels; otherwise the inherited handler is kept |
| `Binaural.RecordSendAndPlayStereo` | intercom_binaural.py:23-27 | recorded channel 0 becomes channel 0 − channel 1 and channel 1 is unchanged; in the played slot channel 0 becomes channel 0 + channel 1; every other slot and column is unchanged |
| `Binaural.RecordSendAndPlay` | intercom_binaural.py:18-19 | the bound handler decorrelates with the stereo override (channel 0 of the played slot restored, every other slot and column unchanged), and leaves the chunk and buffer unchanged otherwise |
| `Binaural.MonoPassThrough` | intercom_binaural.py:18-19 | after `init` on a mono session, a recorded chunk passes through without decorrelation |
| `Calibration.MaxOf` | intercom_dwt.py:97 | `np.amax`: an element of the array that no element exceeds |
| `Calibration.MinOf` | intercom_dwt.py:98 | `np.amin`: an element of the array that exceeds no element |
| `Calibration.CoeffsRange` | intercom_dwt.py:97-99 | max − min is ≥ 0, bounds every difference of two coefficients, and is attained by some pair |
| `Calibration.Log2Floor` | intercom_dwt.py:100 | for n ≥ 1 the result b satisfies 2^b ≤ n < 2^(b+1) |
| `Calibration.Log2FloorUnique` | intercom_dwt.py:100 | floor(log2(n)) is the only b with 2^b ≤ n < 2^(b+1) |
| `Calibration.CoeffsBitplanes` | intercom_dwt.py:93-101 | fails on an empty array and on a zero range (all coefficients equal), both directions; otherwise 2^b ≤ max − min < 2^(b+1) |
| `Dwt.Init` | intercom_dwt.py:80-90 | binds the stereo handler as the binaural `init` does; the result is the calibration outcome; `precision_bits` is set only when calibration succeeds |
| `Dwt.StoreColumn` | intercom_dwt.py:113 | `indata[:, c] = column` overwrites column c only |
| `Dwt.PackChunk` | intercom_dwt.py:114-116 | a fresh array whose every element is the packed word of the chunk's element |
| `Dwt.MapFrame` | intercom_dwt.py:114-116 | one frame of the output receives the element-wise image of the same input frame; no other frame changes |
| `Dwt.UnpackSlot` | intercom_dwt.py:118-122 | every word of the played slot is replaced by its unpacked sample; no other slot changes |
| `Dwt.RecordSendAndPlayStereo` | intercom_dwt.py:111-126 | recorded channel 1 becomes channel 1 − channel 0 and channel 0 becomes forward(channel 0); the sent chunk is their packing; the played slot is unpacked and then gets channel 0 added into channel 1; other slots are unchanged; only that slot's counter is reset to 0 |
| `Dwt.RecorrelatedChannel1` | intercom_dwt.py:112-123 | the sent columns `Pack(forward(ch0))` and `Pack(ch1 − ch0)`, without −32768, unpack losslessly, and re-correlation leaves channel 1 as `Restore(Residue(ch1, ch0), forward(ch0))`, which is ch1 if and only if forward(ch0) == ch0 |

## Left out

- The wavelet transforms. `wavedec`, `coeffs_to_array`, `array_to_coeffs` and `waverec` (intercom_dwt.py:95-96, 128-134) are a floating-point library. The analysis, with its float-to-int16 store at line 113, is the function parameter `forward` of `Dwt.RecordSendAndPlayStereo`.
- The inverse transform and rounding at line 124 and line 134 are not modelled. The slot is left holding the re-correlated coefficients. The slice map is not modelled either.
- The configuration constants of `init` (levels, wavelet, overlap, padding, `precision_type`, `extended_chunk_size`) are not modelled. They only configure the wavelet library.
- The calibration probe. The random chunk (line 94) and its analysis are not modelled; `Dwt.Init` takes the probe's coefficients as input, as integers.
- `Calibration.CoeffsBitplanes`: models the idealised integer floor(log2(range)), not the float `math.log(range)/math.log(2)`. Float rounding near powers of two and a fractional range below 1 (which would give a negative count) are not captured.
- `send`, `play`, the sound device, sockets and printing. These belong to base classes (`Intercom`, `Intercom_buffer`, `Intercom_bitplanes`, `Intercom_empty`) that are not part of this model.
- The state those base classes keep (`_buffer`, `cells_in_buffer`, `played_chunk_number`, `received_bitplanes_per_chunk`) is the class `Session.Intercom`. Its constructor stands in for their initialisation.
- `Dwt.RecordSendAndPlayStereo`: assumes that `play` (line 125) leaves `played_chunk_number` as it was, so the counter reset at line 126 targets the slot of lines 118-124. The code of `play` is not part of this model.
- `Binaural.RecordSendAndPlay`: the inherited handler is modelled only as "no decorrelation". It leaves the chunk and the buffer as they were, and its own sending and playing are not modelled.
- The packed chunk handed to `send` is modelled as the 16-bit words that reach an int16 buffer. The int32 intermediate of line 116 appears only in `SignMagnitude.UnpackWideTriples`.
- Aliasing between the recorded chunk and buffer slots is not modelled. They are distinct arrays in the model.
- `Intercom_DFC` and `Intercom_empty`, which sit between `Intercom_binaural` and `Intercom_DWT` (intercom_dwt.py:10-14), are not part of this model. `Dwt.Init` calls `Binaural.Init` for `Intercom_empty.init` (line 81), which assumes that neither class rebinds `record_send_and_play` or changes the state modelled here.
- test/transforms/rfft2.py is a live-plot utility and is not part of this model.
