# ThinkGear stream decoder (`Brain`) in Dafny

This project models the `Brain` class of py/Brain.py. The class decodes the
serial telemetry stream of a NeuroSky MindSet / ThinkGear headset, one byte
per call. There are two parts.

- The **frame assembler** is `update`. It waits for two consecutive 0xAA
  sync bytes and reads a length byte, rejecting values above 32. It buffers
  that many payload bytes into the 32-slot `packet_data` list while summing
  them into `checksum_accumulator`. It then compares the trailing checksum
  byte with `255 - accumulator`. On a match it runs the decoder and sets
  `fresh_packet` if the decoder succeeded. The call returns the fresh flag
  and clears it.
- The **payload decoder** is `parse_packet`. It walks `packet_data` with a
  cursor, up to `packet_length`:
  - 0x02, 0x04 and 0x05 set `signal_quality`, `attention` and `meditation`.
  - 0x83 fills the eight 24-bit big-endian `eeg_power` bands and sets `has_power`.
  - 0x80 (a raw sample) is skipped.
  - Any other identifier stops decoding with failure.

The project has four modules.

- `Wire` (wire.dfy) holds:
  - the byte type and the constants;
  - the unbounded checksum arithmetic;
  - the 24-bit band encoding;
  - `Dialect`, which tells the behaviour of py/Brain.py as written (`AsWritten`) apart from the ThinkGear protocol's behaviour (`Intended`: modulo-256 checksum, four-byte raw-wave field).
- `Decoder` (decoder.dfy) is `parse_packet` as functions over the buffer:
  - `DecodeField` is one pass of the loop body;
  - `DecodeFrom` is the loop;
  - `Parse` is the whole call.

  It also defines the wire encoding of the recognised fields, and proves the round trip between encoding and decoding.
- `Assembler` (assembler.dfy) is `update` as a transition function `Step` over a `Snapshot` of the object's fields. `Feed` runs it over a byte stream. The module also holds the lemmas about single calls, whole frames and streams.
- `MindSet` (brain.dfy) holds the class `Brain` itself:
  - its fields, with `packet_data` and `eeg_power` as arrays;
  - the imperative `Update`, `ParsePacket` (with its `while` loop and inner `for` loop), `ClearEegPower` and `ClearPacket`;
  - the accessors.

  Each method is proved against the Assembler or Decoder function it implements (`Abs()` maps the object to a `Snapshot`). The class follows py/Brain.py as written.

A read past the 32 slots makes Python raise IndexError. The model makes this
explicit:
- `ParseOutcome.IndexError` marks the decoder's failure.
- `Poll.Raised` marks the failed `update` call.
- The state after the raise is what Python leaves behind:
  - partial sensor writes stay;
  - `in_packet` is still set;
  - `packet_index` and `last_byte` are not updated.

Two other texts describe the same decoder. One is the ThinkGear protocol
document, `mindset_communications_protocol.pdf` of the NeuroSky MindSet SDK,
which py/Brain.py:117 names. The other is the C# version of the class,
C#/Brain.cs. Where they disagree with py/Brain.py, the model follows
py/Brain.py:
- **Checksum width.** The protocol document reduces the payload sum modulo 256. So does C#/Brain.cs, because its accumulator is a `byte` (:17) and the complement is cast back to a byte (:73). py/Brain.py keeps an unbounded integer and compares the checksum byte with `255 - sum` (:61, :69).
- **Raw-wave stride.** The protocol document gives a 0x80 field a length byte and two value bytes, four places with the tag. C#/Brain.cs moves four places (:150-153). py/Brain.py moves the cursor three (:153, :158).
- **Unknown identifier.** C#/Brain.cs records the failure and keeps scanning with the next byte (:154-156). py/Brain.py leaves the loop with `break` (:157). In both, the fields decoded before the unknown identifier stay committed.
- **Checksum example.** The protocol document sums every payload byte, tags included. For 02 C8 04 64 05 32 that gives 361 (0x169), so the checksum is 255 - 0x69 = 150, as `AttentionPayloadChecksum` shows. py/Brain.py compares 150 with 255 - 361 = -106 and rejects the frame (`AttentionStreamAsWritten`).

The `Intended` dialect takes the protocol's side on the first two points only. On the unknown identifier it stops, as py/Brain.py does.

## Model

| member | source | states |
|---|---|---|
| Wire.Sum | py/Brain.py:61 | the accumulator after the payload is a non-negative sum of at most 255 per byte, with no reduction |
| Wire.SumAppend | py/Brain.py:61 | summing a concatenation is adding the sums of its parts |
| Wire.BandValue | py/Brain.py:145 | three bytes combined big-endian give a value below 2^24 |
| Wire.BandValueDigits | py/Brain.py:145 | the three bytes can be recovered exactly from the band value |
| Wire.BandBytes | py/Brain.py:137-145 | every 24-bit value has a three-byte big-endian encoding that combines back to it |
| Wire.Dialect.Complement | py/Brain.py:69 | the value the checksum byte is compared with; with the intended rule it is a byte |
| Wire.Dialect.RawStride | py/Brain.py:150-153 | the raw-wave tag moves the cursor at least 3 places |
| Wire.SenderChecksum | py/Brain.py:68-72 | the byte a ThinkGear sender appends is exactly the complement the intended (modulo-256) checksum test compares with |
| Wire.IntendedAcceptsExactlySender | py/Brain.py:68-72 | with the modulo-256 rule, a checksum byte is accepted iff it is the sender's byte |
| Wire.AsWrittenRejectsLargeSums | py/Brain.py:61-72 | as written, no checksum byte matches when the payload sum exceeds 255 |
| Wire.DialectsAgreeOnSmallSums | py/Brain.py:68-72 | the two checksum rules accept the same bytes when the sum is at most 255 |
| Decoder.Zeros | py/Brain.py:110-112 | the cleared band list has eight entries, all zero |
| Decoder.ReadBands | py/Brain.py:143-146 | the band loop keeps every band 24-bit; it completes iff all eight reads stay inside the 32 slots |
| Decoder.ReadBandsValues | py/Brain.py:143-146 | band k gets the big-endian value of the three bytes after base+3k exactly when they are inside the buffer; any other band keeps its value |
| Decoder.DecodeField | py/Brain.py:128-158 | one loop pass moves the cursor on by at least 2, or ends decoding; a pass at a non-power tag leaves has_power, the bands, and on a stop every reading, unchanged |
| Decoder.DecodeFrom | py/Brain.py:127-160 | the cursor loop keeps all eight bands 24-bit however it ends |
| Decoder.Reset | py/Brain.py:119-123 | the loop starts with has_power false, all eight bands zero and the three one-byte readings kept |
| Decoder.Parse | py/Brain.py:114-160 | parse_packet leaves eight 24-bit bands on every outcome |
| Decoder.PowerOnlyFromPowerField | py/Brain.py:128-158 | when no byte from the cursor on equals 0x83, decoding keeps has_power and every band, for any buffer |
| Decoder.ParseWithoutPowerField | py/Brain.py:119-160 | a payload with no byte equal to 0x83 leaves has_power false and every band zero, however decoding ends (even when it fails or raises) |
| Decoder.UnknownCodeStops | py/Brain.py:154-157 | an unknown identifier ends decoding with failure, keeping every reading decoded so far |
| Decoder.PowerBytes | py/Brain.py:137-145 | a power field carries three value bytes per band |
| Decoder.PowerBytesAt | py/Brain.py:145 | bytes 3k..3k+2 of a power field combine back into band k |
| Decoder.EncodeField | py/Brain.py:128-153 | every encoded field is at least a tag and one byte |
| Decoder.DecodeOneField | py/Brain.py:128-158 | decoding one encoded field applies its value and moves the cursor exactly past it (as written: no raw-wave field) |
| Decoder.DecodeFields | py/Brain.py:127-158 | decoding a run of encoded fields applies them in order and leaves the cursor just past them (as written: no raw-wave field) |
| Decoder.ParseEncoded | py/Brain.py:114-160 | round trip: a buffer starting with encoded fields, decoded up to their length, succeeds and yields exactly their readings, whatever stale bytes follow (as written: no raw-wave field) |
| Decoder.ApplyAllNoPower | py/Brain.py:127-158 | applying fields none of which is a 0x83 power field keeps has_power and every band |
| Decoder.ParseEncodedNoPower | py/Brain.py:119-160 | a payload of encoded fields with no power field, whatever its value bytes (0x83 included), decodes with has_power false and every band zero (as written: no raw-wave field) |
| Decoder.QualityByteLikePowerTag | py/Brain.py:127-129 | the payload 02 83 sets signal quality 131, succeeds and leaves has_power false and the bands zero |
| Decoder.ParseStopsAfterEncoded | py/Brain.py:127-157 | encoded fields followed by an unknown tag give failure with those fields committed (as written: no raw-wave field) |
| Decoder.RawWaveMisreadAsWritten | py/Brain.py:150-158 | a raw-wave field 80 02 hi lo whose low byte is no known tag is rejected as written and accepted with the four-place stride |
| Decoder.RawWaveMisreadAccepted | py/Brain.py:127-158 | a raw-wave field 80 02 hi 02 is accepted as written with the signal quality taken from the stale slot 4; with the four-place stride the quality is kept |
| Assembler.Initial | py/Brain.py:10-32 | the constructed state: out of a frame, no fresh flag, no last byte, quality 200, attention and meditation 0, no power, all bands 0, invariant holds |
| Assembler.Resync | py/Brain.py:90-99 | after a byte, the remembered byte is that byte, and a frame is open iff one was open or this byte completes a 0xAA pair |
| Assembler.InPacket | py/Brain.py:39-88 | the in-packet branch raises only on the checksum byte, leaving the frame open and the index unchanged; otherwise it advances the index by one; the frame stays open iff the length byte is at most 32 or the byte was a payload byte; a fresh flag only comes with a closed frame; last_byte is not touched |
| Assembler.Step | py/Brain.py:34-105 | every call of update keeps the invariant (32-slot buffer, 24-bit bands, no fresh flag left set, length at most 32 and index at most one past the payload) |
| Assembler.Feed | py/Brain.py:34-105 | a run of calls keeps the invariant and reports once per byte |
| Assembler.IdleIsNoOp | py/Brain.py:35 | with no byte waiting, update changes nothing and returns false |
| Assembler.ReturnsTrueExactlyOnDecodedFrame | py/Brain.py:72-74 | update returns true iff its byte is a matching checksum byte and the decoder succeeded; fresh_packet is never left set |
| Assembler.SearchingStep | py/Brain.py:91-99 | outside a frame, a frame opens iff this byte and the last are 0xAA, resetting index and accumulator; otherwise only last_byte changes |
| Assembler.OverlongLengthByte | py/Brain.py:42-49 | a length byte over 32 records the too-long error and leaves the readings and the buffer unchanged; the frame stays open only if that byte completes a sync pair |
| Assembler.PayloadByteStored | py/Brain.py:51-61 | payload byte k goes to slot k-1, inside 0..31, and into the accumulator; nothing else changes but the index and last byte |
| Assembler.ChecksumByteStep | py/Brain.py:63-86 | checksum byte: a mismatch keeps the readings and records the mismatch; a match installs the decoder's readings, reports its verdict or raises, records a decoder failure; the frame closes unless the decoder raised |
| Assembler.FeedAppend | py/Brain.py:34-105 | feeding a+b is feeding a and then b from the state a left |
| Assembler.NoiseStaysSearching | py/Brain.py:90-99 | noise without a 0xAA pair keeps the object out of a frame, every call returns false, and only last_byte changes |
| Assembler.FeedPayload | py/Brain.py:51-61 | the payload bytes land in consecutive slots from the index on, are summed, and report nothing |
| Assembler.BeforeChecksum | py/Brain.py:42-61 | after the length byte and payload, the buffer holds the payload then stale bytes, and the accumulator holds the payload sum |
| Assembler.FrameOutcome | py/Brain.py:39-99 | a whole frame: nothing is reported before the checksum byte; the checksum decides between mismatch (readings kept) and decode of the payload plus stale bytes |
| Assembler.LargePayloadAlwaysRejected | py/Brain.py:61-81 | as written, a frame whose payload sum exceeds 255 never returns true and leaves the readings unchanged |
| Assembler.EncodedFrameDelivered | py/Brain.py:39-105 | a frame of encoded fields with the sender's checksum returns true on its checksum byte and nowhere else, and yields exactly the fields' readings (as written: sum at most 255 and no raw-wave field) |
| Assembler.CorruptedByteRejected | py/Brain.py:61-81 | changing one payload byte of a correctly checksummed frame makes it a mismatch in both dialects and for every payload: readings unchanged, nothing returns true |
| Assembler.SyncPairOpensFrame | py/Brain.py:90-99 | a 0xAA pair fed outside a frame opens one with index and accumulator 0 |
| Assembler.PairThenFrame | py/Brain.py:90-99 | a sync pair followed by a frame is the pair's two silent calls followed by the frame fed to a just-synced object |
| Assembler.AttentionPayload | py/Brain.py:128-136 | the payload 02 C8 04 64 05 32 is the encoding of quality 200, attention 100, meditation 50 |
| Assembler.AttentionPayloadChecksum | py/Brain.py:61-72 | that payload sums to 361 and its sender checksum is 150 |
| Assembler.AttentionFieldsApplied | py/Brain.py:119-136 | decoding its fields gives quality 200, attention 100, meditation 50, no power, bands zero |
| Assembler.AttentionFrameIntended | py/Brain.py:39-86 | with the modulo-256 checksum, that frame returns true on its checksum byte with those readings |
| Assembler.AttentionStreamIntended | py/Brain.py:34-105 | the full stream AA AA 06 02 C8 04 64 05 32 96 is delivered with those readings under the modulo-256 checksum |
| Assembler.AttentionStreamAsWritten | py/Brain.py:34-105 | as written, the same stream is never delivered: all calls return false and the readings are unchanged |
| MindSet.Brain.constructor | py/Brain.py:10-32 | the new object is the initial snapshot, on two newly allocated arrays |
| MindSet.Brain.ClearEegPower | py/Brain.py:110-112 | a new all-zero array of eight bands replaces eeg_power |
| MindSet.Brain.ClearPacket | py/Brain.py:107-108 | a new all-zero 32-slot buffer replaces packet_data and nothing else changes |
| MindSet.Brain.ReadPowerBands | py/Brain.py:143-146 | the in-place band loop leaves eeg_power and its completion flag as ReadBands says |
| MindSet.Brain.ParseField | py/Brain.py:128-158 | one pass of the in-place loop body moves, changes the readings and stops exactly as DecodeField says |
| MindSet.Brain.ParsePacket | py/Brain.py:114-160 | the in-place decoder leaves the readings and returns the outcome that Parse gives, on a fresh band array |
| MindSet.Brain.CloseFrame | py/Brain.py:63-88 | the checksum branch changes the object's fields as the assembler's checksum branch (CloseBranch, part of InPacket) does, raising exactly when it raises |
| MindSet.Brain.InPacketStep | py/Brain.py:39-88 | the in-packet branch changes the fields as the assembler's in-packet step does, and leaves the old band array untouched |
| MindSet.Brain.ConsumeByte | py/Brain.py:35-99 | consuming a byte is the in-packet branch followed, unless it raised, by the sync check and last_byte |
| MindSet.Brain.Update | py/Brain.py:34-105 | one call moves the object and reports exactly as Step does (so every Assembler lemma holds of the class); the invariant is kept |
| MindSet.Brain.ReadErrors | py/Brain.py:162-163 | the error slot of the current state |
| MindSet.Brain.ReadSignalQuality | py/Brain.py:177-178 | the current signal quality |
| MindSet.Brain.ReadAttention | py/Brain.py:180-181 | the current attention |
| MindSet.Brain.ReadMeditation | py/Brain.py:183-184 | the current meditation |
| MindSet.Brain.ReadEegPower | py/Brain.py:186-187 | the band list itself, of eight 24-bit values |
| MindSet.Brain.ReadBand | py/Brain.py:189-211 | band k of the current state, below 2^24 |
| MindSet.Brain.ReadDelta | py/Brain.py:189-190 | band 0, below 2^24 |
| MindSet.Brain.ReadTheta | py/Brain.py:192-193 | band 1, below 2^24 |
| MindSet.Brain.ReadLowAlpha | py/Brain.py:195-196 | band 2, below 2^24 |
| MindSet.Brain.ReadHighAlpha | py/Brain.py:198-199 | band 3, below 2^24 |
| MindSet.Brain.ReadLowBeta | py/Brain.py:201-202 | band 4, below 2^24 |
| MindSet.Brain.ReadHighBeta | py/Brain.py:204-205 | band 5, below 2^24 |
| MindSet.Brain.ReadLowGamma | py/Brain.py:207-208 | band 6, below 2^24 |
| MindSet.Brain.ReadMidGamma | py/Brain.py:210-211 | band 7, below 2^24 |
| MindSet.Brain.ReadCsvFields | py/Brain.py:166-171 | quality, attention and meditation, then the eight bands iff has_power |

## Left out

- Serial I/O is not modelled: the `serial` import, `brain_stream`, `in_waiting` and `read(1)`. The byte waiting, if any, is the `Option<byte>` argument of `Update`.
- The `__main__` polling loop is not modelled; it is I/O.
- Error messages are not modelled as text. `latest_error` is an enum with slots for too long (with the length), parse failed and checksum mismatch, plus `NoError` for the initial empty string.
- `read_csv`'s decimal text rendering and its `csv_buffer` field are left out. `ReadCsvFields` gives the values it renders, in order.
- `eeg_power_length` is left out: it is set and never read.
- The raw-wave sample is not decoded; the source never computes it.
- Shifts and bitwise or in the band formula are written as `hi*65536 + mid*256 + lo`. On byte operands the two are equal.
- Decoder.PowerOnlyFromPowerField: asks that no byte from the cursor on equals 0x83, tag or not, because a byte-level condition holds for any buffer. Power-less payloads that carry 0x83 as a value byte are not covered here. For encoded payloads, `Decoder.ParseEncodedNoPower` covers them.
- Decoder.ParseWithoutPowerField: the same byte-level condition, so for example `02 83` is not covered here. It is covered by `Decoder.ParseEncodedNoPower` and `Decoder.QualityByteLikePowerTag`. A payload that fails or raises part-way and carries 0x83 only as a value byte is covered by neither lemma.
- MindSet.Brain.ReadEegPower: the result aliases the object's array, and the model does not state what a caller may do by writing through it.

## Findings

| source | as written | input that shows it | evidently intended | confidence | as-written member | corrected member |
|---|---|---|---|---|---|---|
| py/Brain.py:61-72 | the accumulator is never reduced modulo 256, so `255 - acc` is negative once the payload sum exceeds 255 and no checksum byte can match | the frame AA AA 06 02 C8 04 64 05 32 96: sum 361, sender checksum 150, compared with -106 | compare the checksum byte with `(255 - sum) mod 256`, as the ThinkGear protocol does | not executed | Assembler.AttentionStreamAsWritten | Assembler.AttentionStreamIntended |
| py/Brain.py:150-158 | a raw-wave field (tag 0x80, length byte 2, two value bytes) moves the cursor three places, so its last byte is read as the next identifier | payload 80 02 12 34 with length 4: 0x34 is read as an unknown identifier and the payload is rejected | move the cursor four places past a raw-wave field | not executed | Decoder.RawWaveMisreadAsWritten | Decoder.ParseEncoded |
| py/Brain.py:127-158 | the same three-place stride reads a raw-wave field's low value byte 0x02 as a signal-quality tag | payload 80 02 12 02 with length 4: the signal quality is set from the stale slot 4 and the payload is reported as decoded | move the cursor four places past a raw-wave field, keeping the signal quality | not executed | Decoder.RawWaveMisreadAccepted | Decoder.ParseEncoded |

The corrected behaviours are the `Intended` dialect of the Decoder and
Assembler functions. For encoded frames they are proved in general by
`Assembler.EncodedFrameDelivered` and `Decoder.ParseEncoded`. The `Brain`
class keeps the behaviour of the code as written, so that it reads as
py/Brain.py does.
