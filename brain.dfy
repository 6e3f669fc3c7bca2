/** The `Brain` object of py/Brain.py: its fields, the byte-at-a-time
    `update`, the decoder `parse_packet`, the two buffer clears and the
    accessors, each proved against the functions of Assembler and Decoder. */
module MindSet {
  import opened Wire
  import opened Decoder
  import opened Assembler

  class Brain {
    var freshPacket: bool
    var inPacket: bool
    var packetIndex: nat
    var packetLength: byte
    var hasPower: bool
    var checksum: byte
    var checksumAccumulator: int
    var signalQuality: byte
    var attention: byte
    var meditation: byte
    var lastByte: Option<byte>
    var latestError: ErrorKind
    /** `packet_data`: the payload buffer, reused from frame to frame. */
    var packetData: array<byte>
    /** `eeg_power`: replaced by a new list each time it is cleared. */
    var eegPower: array<int>

    ghost function Readings(): Sensor
      reads this, eegPower
    {
      Sensor(signalQuality, attention, meditation, hasPower, eegPower[..])
    }

    /** The object's fields as the snapshot the assembler works on. */
    ghost function Abs(): Snapshot
      reads this, packetData, eegPower
    {
      Snapshot(inPacket, packetIndex, packetLength, checksum, checksumAccumulator,
               lastByte, freshPacket, latestError, Readings(), packetData[..])
    }

    ghost predicate Valid()
      reads this, packetData, eegPower
    {
      packetData.Length == MaxPacketLength && eegPower.Length == EegPowerBands && Assembler.Valid(Abs())
    }

    /** `__init__`, without the stream it is handed (the byte source is the
        argument of Update). */
    constructor ()
      ensures Valid() && Abs() == Initial()
      ensures signalQuality == 200 && attention == 0 && meditation == 0
      ensures eegPower[..] == Zeros() && !inPacket && !freshPacket
      ensures fresh(packetData) && fresh(eegPower)
    {
      freshPacket := false;
      inPacket := false;
      packetIndex := 0;
      packetLength := 0;
      hasPower := false;
      checksum := 0;
      checksumAccumulator := 0;
      signalQuality := 200;
      attention := 0;
      meditation := 0;
      lastByte := None;
      latestError := NoError;
      packetData := new byte[MaxPacketLength](_ => 0);
      eegPower := new int[EegPowerBands](_ => 0);
      new;
      ClearEegPower();
    }

    /** `clear_eeg_power`: a new all-zero list takes the old one's place. */
    method ClearEegPower()
      modifies this`eegPower
      ensures fresh(eegPower) && eegPower[..] == Zeros()
    {
      eegPower := new int[EegPowerBands](_ => 0);
      assert eegPower[..] == Zeros();
    }

    /** `clear_packet`: a new all-zero buffer takes the old one's place. */
    method ClearPacket()
      requires Valid()
      modifies this`packetData
      ensures Valid() && fresh(packetData)
      ensures Abs() == old(Abs()).(packetData := seq(MaxPacketLength, _ => 0))
    {
      packetData := new byte[MaxPacketLength](_ => 0);
      assert packetData[..] == seq(MaxPacketLength, _ => 0);
    }

    /** The band loop of `parse_packet` for a power field whose length byte
        sits at `base`: band j is read from the three bytes after
        base + 3j, until a read runs past the 32 slots. */
    method ReadPowerBands(base: nat) returns (complete: bool)
      requires packetData.Length == MaxPacketLength && eegPower.Length == EegPowerBands
      requires BandsInRange(eegPower[..])
      modifies eegPower
      ensures var b := ReadBands(packetData[..], base, 0, old(eegPower[..]));
        eegPower[..] == b.values && complete == b.complete
    {
      ghost var data := packetData[..];
      var i := base;
      for j := 0 to EegPowerBands
        invariant i == base + 3 * j && BandsInRange(eegPower[..])
        invariant ReadBands(data, base, j, eegPower[..]) == ReadBands(data, base, 0, old(eegPower[..]))
      {
        if i + 3 >= MaxPacketLength {
          return false;
        }
        eegPower[j] := BandValue(packetData[i + 1], packetData[i + 2], packetData[i + 3]);
        i := i + 3;
      }
      return true;
    }

    /** One pass of the `parse_packet` loop body at cursor i: either the
        cursor after the field, or the way the loop ends. */
    method ParseField(i: nat) returns (next: nat, stop: Option<ParseOutcome>)
      requires packetData.Length == MaxPacketLength && eegPower.Length == EegPowerBands
      requires BandsInRange(eegPower[..])
      modifies this`signalQuality, this`attention, this`meditation, this`hasPower, eegPower
      ensures BandsInRange(eegPower[..])
      ensures var m := DecodeField(AsWritten, packetData[..], i, old(Readings()));
        if stop.None? then m == Next(next, Readings()) else m == Done(Decoded(Readings(), stop.value))
    {
      if i >= MaxPacketLength {
        return i, Some(IndexError);
      }
      var code := packetData[i];
      if code == CodeSignalQuality || code == CodeAttention || code == CodeMeditation {
        if i + 1 >= MaxPacketLength {
          return i, Some(IndexError);
        }
        if code == CodeSignalQuality {
          signalQuality := packetData[i + 1];
        } else if code == CodeAttention {
          attention := packetData[i + 1];
        } else {
          meditation := packetData[i + 1];
        }
        return i + 2, None;
      } else if code == CodeEegPower {
        // The length byte that follows the tag is skipped, not read.
        var complete := ReadPowerBands(i + 1);
        if !complete {
          return i, Some(IndexError);
        }
        hasPower := true;
        return i + EegPowerStride, None;
      } else if code == CodeRawWave {
        // The raw sample is not decoded; the cursor moves three places.
        return i + 3, None;
      } else {
        return i, Some(Parsed(false));
      }
    }

    /** `parse_packet`: walks the buffer from slot 0 while the cursor is
        below `packet_length`, writing the readings in place; a read past
        the 32 slots ends it with IndexError. */
    method ParsePacket() returns (r: ParseOutcome)
      requires packetData.Length == MaxPacketLength
      modifies this`signalQuality, this`attention, this`meditation, this`hasPower, this`eegPower
      ensures fresh(eegPower) && eegPower.Length == EegPowerBands
      ensures var p := Parse(AsWritten, packetData[..], packetLength, old(Readings()));
        Readings() == p.sensor && r == p.outcome
    {
      ghost var data := packetData[..];
      ghost var len := packetLength as int;
      hasPower := false;
      ClearEegPower();
      ghost var start := Readings();
      assert start == Reset(old(Readings()));
      var i: nat := 0;
      while i < packetLength as nat
        invariant fresh(eegPower) && eegPower.Length == EegPowerBands
        invariant BandsInRange(eegPower[..]) && packetData[..] == data
        invariant DecodeFrom(AsWritten, data, len, i, Readings()) == DecodeFrom(AsWritten, data, len, 0, start)
        decreases packetLength - i
      {
        ghost var s0 := Readings();
        var next, stop := ParseField(i);
        if stop.Some? {
          return stop.value;
        }
        DecodeFromNext(AsWritten, data, len, i, s0, next, Readings());
        i := next;
      }
      return Parsed(true);
    }

    /** The checksum byte of an open frame: the accumulator is replaced by
        its complement, and on a match the decoder runs. */
    method CloseFrame(b: byte) returns (raised: bool)
      requires Valid() && inPacket && 0 < packetIndex && packetLength < packetIndex
      modifies this
      ensures packetData == old(packetData)
      ensures eegPower == old(eegPower) || fresh(eegPower)
      ensures eegPower.Length == EegPowerBands
      ensures var br := CloseBranch(AsWritten, old(Abs()), b);
        Abs() == br.state && raised == br.Threw?
    {
      raised := false;
      checksum := b;
      checksumAccumulator := 255 - checksumAccumulator;
      if checksum == checksumAccumulator {
        var parsed := ParsePacket();
        if parsed == IndexError {
          // The exception leaves `update` here: the index is not advanced.
          return true;
        }
        if parsed.success {
          freshPacket := true;
        } else {
          latestError := ParseFailed;
        }
      } else {
        latestError := ChecksumMismatch;
      }
      inPacket := false;
      packetIndex := packetIndex + 1;
    }

    /** The `in_packet` branch of `update` for one byte: the length byte, a
        payload byte or the checksum byte. */
    method InPacketStep(b: byte) returns (raised: bool)
      requires Valid() && inPacket
      modifies this, packetData
      ensures packetData == old(packetData) && packetData.Length == MaxPacketLength
      ensures eegPower == old(eegPower) || fresh(eegPower)
      ensures eegPower.Length == EegPowerBands && unchanged(old(eegPower))
      ensures var br := InPacket(AsWritten, old(Abs()), b);
        Abs() == br.state && raised == br.Threw?
    {
      raised := false;
      if packetIndex == 0 {
        packetLength := b;
        if packetLength > MaxPacketLength {
          latestError := PacketTooLong(packetLength);
          inPacket := false;
        }
        packetIndex := packetIndex + 1;
      } else if packetIndex <= packetLength as nat {
        packetData[packetIndex - 1] := b;
        checksumAccumulator := checksumAccumulator + b;
        packetIndex := packetIndex + 1;
      } else {
        raised := CloseFrame(b);
      }
    }

    /** The part of `update` that consumes a byte: the `in_packet` branch,
        then the sync search and `last_byte`. */
    method ConsumeByte(b: byte) returns (raised: bool)
      requires Valid()
      modifies this, packetData
      ensures packetData == old(packetData) && packetData.Length == MaxPacketLength
      ensures eegPower == old(eegPower) || fresh(eegPower)
      ensures eegPower.Length == EegPowerBands && unchanged(old(eegPower))
      ensures var br := if old(inPacket) then InPacket(AsWritten, old(Abs()), b) else Went(old(Abs()));
        raised == br.Threw? && Abs() == if raised then br.state else Resync(old(lastByte), br.state, b)
    {
      raised := false;
      if inPacket {
        raised := InPacketStep(b);
        if raised {
          return;
        }
      }
      if b == SyncByte && lastByte == Some(SyncByte) && !inPacket {
        inPacket := true;
        packetIndex := 0;
        checksumAccumulator := 0;
      }
      lastByte := Some(b);
    }

    /** `update`: consumes the waiting byte, if any, advancing the frame
        assembler by one step, and reports whether that byte completed a
        frame the decoder accepted; an IndexError raised by the decoder
        leaves the call at once. */
    method Update(input: Option<byte>) returns (r: Poll)
      requires Valid()
      modifies this, packetData
      ensures Valid() && packetData == old(packetData)
      ensures eegPower == old(eegPower) || fresh(eegPower)
      ensures unchanged(old(eegPower))
      ensures StepResult(Abs(), r) == Step(AsWritten, old(Abs()), input)
    {
      if input.Some? {
        var raised := ConsumeByte(input.value);
        if raised {
          return Raised;
        }
      }
      if freshPacket {
        freshPacket := false;
        r := Returned(true);
      } else {
        r := Returned(false);
      }
    }

    /** `read_errors`. */
    function ReadErrors(): (e: ErrorKind)
      reads this, packetData, eegPower
      ensures e == Abs().latestError
    {
      latestError
    }

    /** `read_signal_quality`. */
    function ReadSignalQuality(): (q: byte)
      reads this, packetData, eegPower
      ensures q == Abs().sensor.signalQuality
    {
      signalQuality
    }

    /** `read_attention`. */
    function ReadAttention(): (a: byte)
      reads this, packetData, eegPower
      ensures a == Abs().sensor.attention
    {
      attention
    }

    /** `read_meditation`. */
    function ReadMeditation(): (m: byte)
      reads this, packetData, eegPower
      ensures m == Abs().sensor.meditation
    {
      meditation
    }

    /** `read_eeg_power`: the list itself, which a later decode does not
        write (it replaces the list). */
    function ReadEegPower(): (a: array<int>)
      reads this, packetData, eegPower
      requires Valid()
      ensures a == eegPower && a.Length == EegPowerBands
      ensures a[..] == Abs().sensor.eegPower && BandsInRange(a[..])
    {
      eegPower
    }

    /** Band k of `eeg_power`, 0 = Delta … 7 = MidGamma. */
    function ReadBand(k: nat): (v: int)
      reads this, packetData, eegPower
      requires Valid() && k < EegPowerBands
      ensures v == Abs().sensor.eegPower[k] && 0 <= v < PowerLimit
    {
      eegPower[k]
    }

    /** `read_delta` … `read_mid_gamma`. */
    function ReadDelta(): (v: int)
      reads this, packetData, eegPower
      requires Valid()
      ensures v == Abs().sensor.eegPower[0] && 0 <= v < PowerLimit
    {
      ReadBand(0)
    }

    function ReadTheta(): (v: int)
      reads this, packetData, eegPower
      requires Valid()
      ensures v == Abs().sensor.eegPower[1] && 0 <= v < PowerLimit
    {
      ReadBand(1)
    }

    function ReadLowAlpha(): (v: int)
      reads this, packetData, eegPower
      requires Valid()
      ensures v == Abs().sensor.eegPower[2] && 0 <= v < PowerLimit
    {
      ReadBand(2)
    }

    function ReadHighAlpha(): (v: int)
      reads this, packetData, eegPower
      requires Valid()
      ensures v == Abs().sensor.eegPower[3] && 0 <= v < PowerLimit
    {
      ReadBand(3)
    }

    function ReadLowBeta(): (v: int)
      reads this, packetData, eegPower
      requires Valid()
      ensures v == Abs().sensor.eegPower[4] && 0 <= v < PowerLimit
    {
      ReadBand(4)
    }

    function ReadHighBeta(): (v: int)
      reads this, packetData, eegPower
      requires Valid()
      ensures v == Abs().sensor.eegPower[5] && 0 <= v < PowerLimit
    {
      ReadBand(5)
    }

    function ReadLowGamma(): (v: int)
      reads this, packetData, eegPower
      requires Valid()
      ensures v == Abs().sensor.eegPower[6] && 0 <= v < PowerLimit
    {
      ReadBand(6)
    }

    function ReadMidGamma(): (v: int)
      reads this, packetData, eegPower
      requires Valid()
      ensures v == Abs().sensor.eegPower[7] && 0 <= v < PowerLimit
    {
      ReadBand(7)
    }

    /** The values `read_csv` renders, in order: signal quality, attention,
        meditation, then the eight bands exactly when a power field was
        decoded. */
    function ReadCsvFields(): (fields: seq<int>)
      reads this, packetData, eegPower
      requires Valid()
      ensures |fields| == if hasPower then 3 + EegPowerBands else 3
      ensures fields[..3] == [Abs().sensor.signalQuality, Abs().sensor.attention, Abs().sensor.meditation]
      ensures hasPower ==> fields[3..] == Abs().sensor.eegPower
    {
      [signalQuality as int, attention as int, meditation as int] + (if hasPower then eegPower[..] else [])
    }
  }
}
