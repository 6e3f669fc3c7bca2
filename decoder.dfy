/** The payload decoder of py/Brain.py (`parse_packet`) as functions over the
    32-byte payload buffer, together with the wire encoding of the fields it
    recognises and the round trip between the two. */
module Decoder {
  import opened Wire

  /** The sensor readings the decoder writes: `signal_quality`,
      `attention`, `meditation`, `has_power` and the eight `eeg_power`
      bands (Delta, Theta, LowAlpha, HighAlpha, LowBeta, HighBeta,
      LowGamma, MidGamma, in that order). */
  datatype Sensor = Sensor(
    signalQuality: byte,
    attention: byte,
    meditation: byte,
    hasPower: bool,
    eegPower: seq<int>)

  /** Eight bands, each an unsigned 24-bit value. */
  predicate BandsInRange(eeg: seq<int>) {
    |eeg| == EegPowerBands && forall k :: 0 <= k < |eeg| ==> 0 <= eeg[k] < PowerLimit
  }

  /** What `clear_eeg_power` leaves in `eeg_power`. */
  function Zeros(): (z: seq<int>)
    ensures BandsInRange(z)
    ensures forall k :: 0 <= k < |z| ==> z[k] == 0
  {
    seq(EegPowerBands, _ => 0)
  }

  /** `parse_packet` either returns its success flag or raises IndexError
      on a read past the end of the 32-entry buffer. */
  datatype ParseOutcome = Parsed(success: bool) | IndexError

  /** The sensor state the decoder leaves behind, and how it ended. */
  datatype Decoded = Decoded(sensor: Sensor, outcome: ParseOutcome)

  /** The bands after the inner `for j` loop, and whether it ran to the end. */
  datatype Bands = Bands(values: seq<int>, complete: bool)

  /** Cursor positions the 0x83 field occupies: tag, length byte, 24 value bytes. */
  const EegPowerStride: nat := 2 + 3 * EegPowerBands

  /** The inner loop of the 0x83 branch from band j on, the cursor standing
      at base + 3j: band k is read from the three bytes after base + 3k,
      and the first read past the buffer stops the loop with the bands
      written so far kept. */
  function ReadBands(data: seq<byte>, base: nat, j: nat, eeg: seq<int>): (r: Bands)
    requires |data| == MaxPacketLength && j <= EegPowerBands && BandsInRange(eeg)
    ensures BandsInRange(r.values)
    ensures r.complete <==> j == EegPowerBands || base + 3 * EegPowerBands < |data|
    decreases EegPowerBands - j
  {
    if j == EegPowerBands then Bands(eeg, true)
    else if base + 3 * j + 3 >= |data| then Bands(eeg, false)
    else
      var p := base + 3 * j;
      ReadBands(data, base, j + 1, eeg[j := BandValue(data[p + 1], data[p + 2], data[p + 3])])
  }

  /** Which bands the inner loop writes: band k (from j on) gets the
      big-endian value of the three bytes after base + 3k exactly when
      those bytes lie inside the buffer; every other band keeps its value. */
  lemma {:induction false} ReadBandsValues(data: seq<byte>, base: nat, j: nat, eeg: seq<int>)
    requires |data| == MaxPacketLength && j <= EegPowerBands && BandsInRange(eeg)
    ensures forall k :: 0 <= k < EegPowerBands ==>
      ReadBands(data, base, j, eeg).values[k] ==
        if j <= k && base + 3 * k + 3 < |data|
        then BandValue(data[base + 3 * k + 1], data[base + 3 * k + 2], data[base + 3 * k + 3])
        else eeg[k]
    decreases EegPowerBands - j
  {
    if j < EegPowerBands && base + 3 * j + 3 < |data| {
      var p := base + 3 * j;
      ReadBandsValues(data, base, j + 1, eeg[j := BandValue(data[p + 1], data[p + 2], data[p + 3])]);
    }
  }

  /** What one pass of the loop body does at cursor i: move on to the next
      cursor with updated readings, or end decoding. */
  datatype Move = Next(cursor: nat, sensor: Sensor) | Done(result: Decoded)

  /** One pass of the body of the `while` loop of `parse_packet`, at
      cursor i. A one-byte field moves the cursor 2 places, a power field
      26, a raw-wave field `RawStride()`; an unknown identifier ends
      decoding with failure keeping the readings so far; a read past the
      32-slot buffer ends it with IndexError. */
  function DecodeField(d: Dialect, data: seq<byte>, i: nat, s: Sensor): (m: Move)
    requires |data| == MaxPacketLength && BandsInRange(s.eegPower)
    ensures m.Next? ==> i + 2 <= m.cursor && BandsInRange(m.sensor.eegPower)
    ensures m.Done? ==> BandsInRange(m.result.sensor.eegPower)
    ensures i < |data| && data[i] != CodeEegPower ==>
      (m.Next? ==> m.sensor.hasPower == s.hasPower && m.sensor.eegPower == s.eegPower) &&
      (m.Done? ==> m.result.sensor == s)
  {
    if i >= |data| then Done(Decoded(s, IndexError))
    else
      var code := data[i];
      if code == CodeSignalQuality then
        if i + 1 >= |data| then Done(Decoded(s, IndexError))
        else Next(i + 2, s.(signalQuality := data[i + 1]))
      else if code == CodeAttention then
        if i + 1 >= |data| then Done(Decoded(s, IndexError))
        else Next(i + 2, s.(attention := data[i + 1]))
      else if code == CodeMeditation then
        if i + 1 >= |data| then Done(Decoded(s, IndexError))
        else Next(i + 2, s.(meditation := data[i + 1]))
      else if code == CodeEegPower then
        var bands := ReadBands(data, i + 1, 0, s.eegPower);
        if !bands.complete then Done(Decoded(s.(eegPower := bands.values), IndexError))
        else Next(i + EegPowerStride, s.(eegPower := bands.values, hasPower := true))
      else if code == CodeRawWave then
        Next(i + d.RawStride(), s)
      else
        Done(Decoded(s, Parsed(false)))
  }

  /** The `while i < packet_length` loop of `parse_packet`, from cursor i on.
      Reads past `len` see whatever the buffer holds. */
  function DecodeFrom(d: Dialect, data: seq<byte>, len: int, i: nat, s: Sensor): (r: Decoded)
    requires |data| == MaxPacketLength && BandsInRange(s.eegPower)
    ensures BandsInRange(r.sensor.eegPower)
    decreases len - i
  {
    if i >= len then Decoded(s, Parsed(true))
    else
      match DecodeField(d, data, i, s)
      case Done(r) => r
      case Next(j, s') => DecodeFrom(d, data, len, j, s')
  }

  /** The sensor state `parse_packet` starts its loop from: no power field
      seen yet and every band cleared. */
  function Reset(s: Sensor): (r: Sensor)
    ensures !r.hasPower && BandsInRange(r.eegPower) && r.eegPower == Zeros()
    ensures r.signalQuality == s.signalQuality && r.attention == s.attention && r.meditation == s.meditation
  {
    s.(hasPower := false, eegPower := Zeros())
  }

  /** `parse_packet` as a whole. */
  function Parse(d: Dialect, data: seq<byte>, len: int, s: Sensor): (r: Decoded)
    requires |data| == MaxPacketLength
    ensures BandsInRange(r.sensor.eegPower)
  {
    DecodeFrom(d, data, len, 0, Reset(s))
  }

  /** Only a 0x83 field touches `has_power` and the bands: when no byte
      from the cursor on equals 0x83, decoding leaves both as they were.
      This holds for any buffer, well-formed or not; ParseEncodedNoPower
      covers encoded payloads that carry 0x83 as a value byte. */
  lemma {:induction false} PowerOnlyFromPowerField(d: Dialect, data: seq<byte>, len: int, i: nat, s: Sensor)
    requires |data| == MaxPacketLength && BandsInRange(s.eegPower)
    requires forall k :: i <= k < len && k < |data| ==> data[k] != CodeEegPower
    ensures DecodeFrom(d, data, len, i, s).sensor.hasPower == s.hasPower
    ensures DecodeFrom(d, data, len, i, s).sensor.eegPower == s.eegPower
    decreases len - i
  {
    if i < len {
      var m := DecodeField(d, data, i, s);
      if m.Next? {
        assert i < |data|;
        PowerOnlyFromPowerField(d, data, len, m.cursor, m.sensor);
      }
    }
  }

  /** A payload with no byte equal to 0x83 leaves `has_power` false and all
      bands zero, however decoding ends. */
  lemma ParseWithoutPowerField(d: Dialect, data: seq<byte>, len: int, s: Sensor)
    requires |data| == MaxPacketLength
    requires forall k :: 0 <= k < len && k < |data| ==> data[k] != CodeEegPower
    ensures !Parse(d, data, len, s).sensor.hasPower
    ensures forall k :: 0 <= k < EegPowerBands ==> Parse(d, data, len, s).sensor.eegPower[k] == 0
  {
    PowerOnlyFromPowerField(d, data, len, 0, Reset(s));
  }

  /** An unknown identifier at the cursor ends decoding at once: failure is
      reported and everything decoded before it stays committed. */
  lemma UnknownCodeStops(d: Dialect, data: seq<byte>, len: int, i: nat, s: Sensor)
    requires |data| == MaxPacketLength && BandsInRange(s.eegPower)
    requires i < len && i < |data| && data[i] !in {CodeSignalQuality, CodeAttention, CodeMeditation, CodeEegPower, CodeRawWave}
    ensures DecodeFrom(d, data, len, i, s) == Decoded(s, Parsed(false))
  {
  }

  // ---------------------------------------------------------------------
  // The wire encoding of the recognised fields, for the round trip.

  /** One field of a well-formed ThinkGear payload. */
  datatype Field =
    | SignalQuality(quality: byte)
    | Attention(level: byte)
    | Meditation(level: byte)
    | EegPower(bands: seq<int>)
    | RawWave(hi: byte, lo: byte)

  predicate WellFormed(fs: seq<Field>) {
    forall k :: 0 <= k < |fs| ==> (fs[k].EegPower? ==> BandsInRange(fs[k].bands))
  }

  predicate HasRawWave(fs: seq<Field>) {
    exists k :: 0 <= k < |fs| && fs[k].RawWave?
  }

  /** The 24 value bytes of a power field, three per band, big-endian. */
  function PowerBytes(bands: seq<int>): (r: seq<byte>)
    requires forall k :: 0 <= k < |bands| ==> 0 <= bands[k] < PowerLimit
    ensures |r| == 3 * |bands|
  {
    if bands == [] then [] else BandBytes(bands[0]) + PowerBytes(bands[1..])
  }

  lemma {:induction false} PowerBytesAt(bands: seq<int>, k: nat)
    requires forall m :: 0 <= m < |bands| ==> 0 <= bands[m] < PowerLimit
    requires k < |bands|
    ensures BandValue(PowerBytes(bands)[3 * k], PowerBytes(bands)[3 * k + 1], PowerBytes(bands)[3 * k + 2]) == bands[k]
  {
    var rest := PowerBytes(bands[1..]);
    assert PowerBytes(bands) == BandBytes(bands[0]) + rest;
    if k > 0 {
      PowerBytesAt(bands[1..], k - 1);
    }
  }

  function EncodeField(f: Field): (r: seq<byte>)
    requires f.EegPower? ==> BandsInRange(f.bands)
    ensures |r| >= 2
  {
    match f
    case SignalQuality(q) => [CodeSignalQuality, q]
    case Attention(a) => [CodeAttention, a]
    case Meditation(m) => [CodeMeditation, m]
    case EegPower(bands) => [CodeEegPower, 3 * EegPowerBands] + PowerBytes(bands)
    case RawWave(hi, lo) => [CodeRawWave, 2, hi, lo]
  }

  function Encode(fs: seq<Field>): seq<byte>
    requires WellFormed(fs)
  {
    if fs == [] then [] else EncodeField(fs[0]) + Encode(fs[1..])
  }

  /** What decoding one field does to the sensor state. */
  function Apply(s: Sensor, f: Field): Sensor {
    match f
    case SignalQuality(q) => s.(signalQuality := q)
    case Attention(a) => s.(attention := a)
    case Meditation(m) => s.(meditation := m)
    case EegPower(bands) => s.(eegPower := bands, hasPower := true)
    case RawWave(_, _) => s
  }

  function ApplyAll(s: Sensor, fs: seq<Field>): Sensor
    decreases |fs|
  {
    if fs == [] then s else ApplyAll(Apply(s, fs[0]), fs[1..])
  }

  /** Decoding one encoded field at the cursor applies it and moves the
      cursor past it (as written, a raw-wave field is one byte short). */
  lemma DecodeOneField(d: Dialect, data: seq<byte>, i: nat, s: Sensor, f: Field)
    requires |data| == MaxPacketLength && BandsInRange(s.eegPower)
    requires f.EegPower? ==> BandsInRange(f.bands)
    requires d == AsWritten ==> !f.RawWave?
    requires i + |EncodeField(f)| <= |data| && data[i..i + |EncodeField(f)|] == EncodeField(f)
    ensures BandsInRange(Apply(s, f).eegPower)
    ensures DecodeField(d, data, i, s) == Next(i + |EncodeField(f)|, Apply(s, f))
  {
    var e := EncodeField(f);
    assert data[i] == e[0];
    match f
    case SignalQuality(q) => assert data[i + 1] == e[1];
    case Attention(a) => assert data[i + 1] == e[1];
    case Meditation(m) => assert data[i + 1] == e[1];
    case EegPower(bands) => DecodePowerField(data, i, s, bands);
    case RawWave(hi, lo) =>
  }

  lemma DecodePowerField(data: seq<byte>, i: nat, s: Sensor, bands: seq<int>)
    requires |data| == MaxPacketLength && BandsInRange(s.eegPower) && BandsInRange(bands)
    requires i + |EncodeField(EegPower(bands))| <= |data|
    requires data[i..i + |EncodeField(EegPower(bands))|] == EncodeField(EegPower(bands))
    ensures ReadBands(data, i + 1, 0, s.eegPower) == Bands(bands, true)
  {
    var e := EncodeField(EegPower(bands));
    var r := ReadBands(data, i + 1, 0, s.eegPower);
    ReadBandsValues(data, i + 1, 0, s.eegPower);
    forall k | 0 <= k < EegPowerBands
      ensures r.values[k] == bands[k]
    {
      PowerBytesAt(bands, k);
      assert data[i + 2 + 3 * k] == e[2 + 3 * k];
      assert data[i + 3 + 3 * k] == e[3 + 3 * k];
      assert data[i + 4 + 3 * k] == e[4 + 3 * k];
    }
    assert r.values == bands;
  }

  /** Unfolding the loop once when the pass at the cursor moves on. */
  lemma DecodeFromNext(d: Dialect, data: seq<byte>, len: int, i: nat, s: Sensor, j: nat, s': Sensor)
    requires |data| == MaxPacketLength && BandsInRange(s.eegPower) && BandsInRange(s'.eegPower)
    requires i < len && DecodeField(d, data, i, s) == Next(j, s')
    ensures DecodeFrom(d, data, len, i, s) == DecodeFrom(d, data, len, j, s')
  {
  }

  lemma TailWellFormed(d: Dialect, fs: seq<Field>)
    requires fs != [] && WellFormed(fs) && (d == AsWritten ==> !HasRawWave(fs))
    ensures WellFormed(fs[1..]) && (d == AsWritten ==> !HasRawWave(fs[1..]))
  {
    forall k | 0 <= k < |fs| - 1 ensures fs[1..][k] == fs[k + 1] { }
  }

  /** Layout of a run of encoded fields: the first field's bytes, then the
      others'. */
  lemma FirstField(data: seq<byte>, i: nat, fs: seq<Field>, j: nat, k: nat)
    requires WellFormed(fs) && fs != []
    requires j == i + |EncodeField(fs[0])| && k == i + |Encode(fs)|
    requires k <= |data| && data[i..k] == Encode(fs)
    ensures k == j + |Encode(fs[1..])|
    ensures data[i..j] == EncodeField(fs[0]) && data[j..k] == Encode(fs[1..])
  {
    var e0 := EncodeField(fs[0]);
    assert Encode(fs) == e0 + Encode(fs[1..]);
    assert data[i..j] == data[i..k][..|e0|];
    assert data[j..k] == data[i..k][|e0|..];
  }

  /** Decoding one encoded field inside the declared length; j names the
      position just past it. */
  lemma DecodeFromField(d: Dialect, data: seq<byte>, len: int, i: nat, s: Sensor, f: Field, j: nat)
    requires |data| == MaxPacketLength && BandsInRange(s.eegPower)
    requires f.EegPower? ==> BandsInRange(f.bands)
    requires d == AsWritten ==> !f.RawWave?
    requires j == i + |EncodeField(f)| && j <= len && j <= |data|
    requires data[i..j] == EncodeField(f)
    ensures BandsInRange(Apply(s, f).eegPower)
    ensures DecodeFrom(d, data, len, i, s) == DecodeFrom(d, data, len, j, Apply(s, f))
  {
    DecodeOneField(d, data, i, s, f);
    DecodeFromNext(d, data, len, i, s, j, Apply(s, f));
  }

  /** Decoding a run of encoded fields applies each of them in turn; e and
      t name the position past the run and the readings it leaves. */
  lemma {:induction false} DecodeFields(d: Dialect, data: seq<byte>, len: int, i: nat, s: Sensor, fs: seq<Field>, e: nat, t: Sensor)
    requires |data| == MaxPacketLength && len <= MaxPacketLength && BandsInRange(s.eegPower)
    requires WellFormed(fs) && (d == AsWritten ==> !HasRawWave(fs))
    requires e == i + |Encode(fs)| && e <= len && data[i..e] == Encode(fs)
    requires t == ApplyAll(s, fs)
    ensures BandsInRange(t.eegPower)
    ensures DecodeFrom(d, data, len, i, s) == DecodeFrom(d, data, len, e, t)
    decreases |fs|
  {
    if fs == [] {
      assert Encode(fs) == [] && i == e && t == s;
    } else {
      var j, s1 := i + |EncodeField(fs[0])|, Apply(s, fs[0]);
      FirstField(data, i, fs, j, e);
      TailWellFormed(d, fs);
      assert (d == AsWritten ==> !fs[0].RawWave?) && (fs[0].EegPower? ==> BandsInRange(fs[0].bands));
      assert t == ApplyAll(s1, fs[1..]);
      DecodeFromField(d, data, len, i, s, fs[0], j);
      DecodeFields(d, data, len, j, s1, fs[1..], e, t);
    }
  }

  /** Round trip: a buffer that begins with the encoding of well-formed
      fields, and whose length byte counts exactly those bytes, decodes
      successfully to the readings the fields carry, whatever stale bytes
      follow. For the source as written this needs the payload to carry no
      raw-wave field. */
  lemma ParseEncoded(d: Dialect, data: seq<byte>, s: Sensor, fs: seq<Field>)
    requires |data| == MaxPacketLength && WellFormed(fs) && (d == AsWritten ==> !HasRawWave(fs))
    requires |Encode(fs)| <= MaxPacketLength && data[..|Encode(fs)|] == Encode(fs)
    ensures Parse(d, data, |Encode(fs)|, s) == Decoded(ApplyAll(Reset(s), fs), Parsed(true))
  {
    DecodeFields(d, data, |Encode(fs)|, 0, Reset(s), fs, |Encode(fs)|, ApplyAll(Reset(s), fs));
  }

  /** Applying fields none of which is a power field keeps `has_power`
      and the bands. */
  lemma {:induction false} ApplyAllNoPower(s: Sensor, fs: seq<Field>)
    requires forall k :: 0 <= k < |fs| ==> !fs[k].EegPower?
    ensures ApplyAll(s, fs).hasPower == s.hasPower && ApplyAll(s, fs).eegPower == s.eegPower
    decreases |fs|
  {
    if fs != [] {
      assert !fs[0].EegPower?;
      ApplyAllNoPower(Apply(s, fs[0]), fs[1..]);
    }
  }

  /** A payload of encoded fields with no power field leaves `has_power`
      false and all bands zero, whatever bytes its values hold (0x83
      included). */
  lemma ParseEncodedNoPower(d: Dialect, data: seq<byte>, s: Sensor, fs: seq<Field>)
    requires |data| == MaxPacketLength && WellFormed(fs) && (d == AsWritten ==> !HasRawWave(fs))
    requires |Encode(fs)| <= MaxPacketLength && data[..|Encode(fs)|] == Encode(fs)
    requires forall k :: 0 <= k < |fs| ==> !fs[k].EegPower?
    ensures !Parse(d, data, |Encode(fs)|, s).sensor.hasPower
    ensures Parse(d, data, |Encode(fs)|, s).sensor.eegPower == Zeros()
  {
    ParseEncoded(d, data, s, fs);
    ApplyAllNoPower(Reset(s), fs);
  }

  /** The signal quality 131 is the byte 0x83: the payload 02 83 is still
      decoded without touching the bands. */
  lemma QualityByteLikePowerTag(d: Dialect, data: seq<byte>, s: Sensor)
    requires |data| == MaxPacketLength && data[..2] == [CodeSignalQuality, CodeEegPower]
    ensures var r := Parse(d, data, 2, s);
      r.outcome == Parsed(true) && r.sensor.signalQuality == 131 && !r.sensor.hasPower && r.sensor.eegPower == Zeros()
  {
    assert Encode([SignalQuality(131)]) == [CodeSignalQuality, CodeEegPower];
    ParseEncodedNoPower(d, data, s, [SignalQuality(131)]);
    ParseEncoded(d, data, s, [SignalQuality(131)]);
  }

  /** Partial commit: when an unknown identifier follows well-formed fields,
      decoding reports failure and the fields before it stay applied. */
  lemma ParseStopsAfterEncoded(d: Dialect, data: seq<byte>, len: int, s: Sensor, fs: seq<Field>)
    requires |data| == MaxPacketLength && len <= MaxPacketLength
    requires WellFormed(fs) && (d == AsWritten ==> !HasRawWave(fs))
    requires |Encode(fs)| < len && data[..|Encode(fs)|] == Encode(fs)
    requires data[|Encode(fs)|] !in {CodeSignalQuality, CodeAttention, CodeMeditation, CodeEegPower, CodeRawWave}
    ensures Parse(d, data, len, s) == Decoded(ApplyAll(Reset(s), fs), Parsed(false))
  {
    DecodeFields(d, data, len, 0, Reset(s), fs, |Encode(fs)|, ApplyAll(Reset(s), fs));
  }

  /** As written, the cursor moves only three places past a raw-wave tag,
      so a well-formed raw-wave field has its low value byte read as the
      next identifier. When that byte is no known tag (0x34, say) the
      payload is rejected. */
  lemma RawWaveMisreadAsWritten(data: seq<byte>, hi: byte, lo: byte, s: Sensor)
    requires |data| == MaxPacketLength && data[..4] == Encode([RawWave(hi, lo)])
    requires lo !in {CodeSignalQuality, CodeAttention, CodeMeditation, CodeEegPower, CodeRawWave}
    ensures Parse(AsWritten, data, 4, s).outcome == Parsed(false)
    ensures Parse(Intended, data, 4, s).outcome == Parsed(true)
  {
    assert Encode([RawWave(hi, lo)]) == [CodeRawWave, 2, hi, lo];
    assert data[0] == CodeRawWave && data[3] == lo;
  }

  /** The same misreading with a low value byte of 0x02: as written it is
      taken for a signal-quality tag, so the stale byte in slot 4 becomes
      the signal quality and the payload is reported as decoded. With the
      four-place stride the field is skipped and the quality is kept. */
  lemma RawWaveMisreadAccepted(data: seq<byte>, hi: byte, s: Sensor)
    requires |data| == MaxPacketLength && data[..4] == Encode([RawWave(hi, CodeSignalQuality)])
    ensures var r := Parse(AsWritten, data, 4, s);
      r.outcome == Parsed(true) && r.sensor.signalQuality == data[4]
    ensures var r := Parse(Intended, data, 4, s);
      r.outcome == Parsed(true) && r.sensor.signalQuality == s.signalQuality
  {
    assert Encode([RawWave(hi, CodeSignalQuality)]) == [CodeRawWave, 2, hi, CodeSignalQuality];
    assert data[0] == CodeRawWave && data[3] == CodeSignalQuality;
  }
}
