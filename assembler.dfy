/** The frame assembler of py/Brain.py (`update`) as a state-transition
    function over a snapshot of the object's fields, and what feeding it
    bytes does: sync search, length check, payload buffering and the
    checksum test that hands the payload to the decoder. */
module Assembler {
  import opened Wire
  import opened Decoder

  /** The `latest_error` slot; each new error overwrites it. */
  datatype ErrorKind = NoError | PacketTooLong(length: byte) | ParseFailed | ChecksumMismatch

  /** The fields of a `Brain` object that `update` reads and writes. */
  datatype Snapshot = Snapshot(
    inPacket: bool,
    packetIndex: nat,
    packetLength: byte,
    checksum: byte,
    checksumAccumulator: int,
    lastByte: Option<byte>,
    freshPacket: bool,
    latestError: ErrorKind,
    sensor: Sensor,
    packetData: seq<byte>)

  /** The invariant every reachable snapshot keeps between calls: the
      buffer has its 32 slots, the bands are 24-bit, no fresh flag is left
      set, and once the length byte is in, it is at most 32 and the index
      has not gone past the checksum position. */
  predicate Valid(st: Snapshot) {
    && |st.packetData| == MaxPacketLength
    && BandsInRange(st.sensor.eegPower)
    && !st.freshPacket
    && (st.inPacket && st.packetIndex > 0 ==>
          st.packetLength <= MaxPacketLength && st.packetIndex <= st.packetLength + 1)
  }

  /** The state `__init__` builds. */
  function Initial(): (st: Snapshot)
    ensures Valid(st)
    ensures !st.inPacket && !st.freshPacket && st.lastByte == None
    ensures st.sensor.signalQuality == 200 && st.sensor.attention == 0 && st.sensor.meditation == 0
    ensures !st.sensor.hasPower && forall k :: 0 <= k < EegPowerBands ==> st.sensor.eegPower[k] == 0
  {
    Snapshot(false, 0, 0, 0, 0, None, false, NoError,
             Sensor(200, 0, 0, false, Zeros()), seq(MaxPacketLength, _ => 0))
  }

  /** What one call of `update` reports: its return value, or the
      IndexError that `parse_packet` let escape. */
  datatype Poll = Returned(result: bool) | Raised

  datatype StepResult = StepResult(state: Snapshot, outcome: Poll)

  /** The in-packet branch either runs to its end or raises. */
  datatype Branch = Went(state: Snapshot) | Threw(state: Snapshot)

  /** The branch of `update` taken while `in_packet` holds: the length
      byte, a payload byte, or the checksum byte. */
  function InPacket(d: Dialect, st: Snapshot, b: byte): (r: Branch)
    requires Valid(st) && st.inPacket
    ensures r.Threw? ==> st.packetLength < st.packetIndex && r.state.inPacket && r.state.packetIndex == st.packetIndex
    ensures r.Went? ==> r.state.packetIndex == st.packetIndex + 1
    ensures r.state.inPacket <==>
      r.Threw? || (st.packetIndex == 0 && b <= MaxPacketLength) || 0 < st.packetIndex <= st.packetLength
    ensures r.state.freshPacket ==> r.Went? && !r.state.inPacket
    ensures r.state.lastByte == st.lastByte
  {
    if st.packetIndex == 0 then
      var s := st.(packetLength := b, packetIndex := 1);
      if b > MaxPacketLength then Went(s.(latestError := PacketTooLong(b), inPacket := false))
      else Went(s)
    else if st.packetIndex <= st.packetLength then
      Went(st.(packetData := st.packetData[st.packetIndex - 1 := b],
               checksumAccumulator := st.checksumAccumulator + b,
               packetIndex := st.packetIndex + 1))
    else
      CloseBranch(d, st, b)
  }

  /** The checksum byte: the accumulator is replaced by its complement; on
      a match the decoder runs, and unless it raises the frame is closed. */
  function CloseBranch(d: Dialect, st: Snapshot, b: byte): Branch
    requires Valid(st)
  {
    var s := st.(checksum := b, checksumAccumulator := d.Complement(st.checksumAccumulator));
    if b != s.checksumAccumulator then
      Went(s.(latestError := ChecksumMismatch, inPacket := false, packetIndex := st.packetIndex + 1))
    else
      var p := Parse(d, st.packetData, st.packetLength, st.sensor);
      match p.outcome
      case IndexError => Threw(s.(sensor := p.sensor))
      case Parsed(ok) =>
        Went(s.(sensor := p.sensor,
                freshPacket := ok,
                latestError := if ok then st.latestError else ParseFailed,
                inPacket := false,
                packetIndex := st.packetIndex + 1))
  }

  /** The sync search that ends every byte of `update`: a second 0xAA in a
      row, arriving while no frame is open, opens one; then the byte is
      remembered. */
  function Resync(last: Option<byte>, s: Snapshot, b: byte): (r: Snapshot)
    ensures r.lastByte == Some(b)
    ensures r.inPacket <==> s.inPacket || (b == SyncByte && last == Some(SyncByte))
  {
    var s2 := if b == SyncByte && last == Some(SyncByte) && !s.inPacket
              then s.(inPacket := true, packetIndex := 0, checksumAccumulator := 0)
              else s;
    s2.(lastByte := Some(b))
  }

  /** The end of `update`: the fresh flag is returned and cleared. */
  function Report(s: Snapshot): StepResult {
    StepResult(s.(freshPacket := false), Returned(s.freshPacket))
  }

  /** One call of `update`, given the byte the stream had waiting, if any. */
  function Step(d: Dialect, st: Snapshot, input: Option<byte>): (r: StepResult)
    requires Valid(st)
    ensures Valid(r.state)
  {
    match input
    case None => Report(st)
    case Some(b) =>
      var branch := if st.inPacket then InPacket(d, st, b) else Went(st);
      if branch.Threw? then StepResult(branch.state, Raised)
      else Report(Resync(st.lastByte, branch.state, b))
  }

  /** The states and the reports of a run of `update` calls, one per byte. */
  datatype Trace = Trace(state: Snapshot, outcomes: seq<Poll>)

  function Feed(d: Dialect, st: Snapshot, bs: seq<byte>): (t: Trace)
    requires Valid(st)
    ensures Valid(t.state) && |t.outcomes| == |bs|
    decreases |bs|
  {
    if bs == [] then Trace(st, [])
    else
      var r := Step(d, st, Some(bs[0]));
      var t := Feed(d, r.state, bs[1..]);
      Trace(t.state, [r.outcome] + t.outcomes)
  }

  function Quiet(n: nat): (r: seq<Poll>)
    ensures |r| == n && forall k :: 0 <= k < n ==> r[k] == Returned(false)
  {
    seq(n, _ => Returned(false))
  }

  lemma QuietCons(n: nat)
    ensures [Returned(false)] + Quiet(n) == Quiet(n + 1)
  {
  }

  /** Every call of a run returned false. */
  predicate Silent(outs: seq<Poll>) {
    forall k :: 0 <= k < |outs| ==> outs[k] == Returned(false)
  }

  lemma SilentAppend(a: seq<Poll>, b: seq<Poll>)
    requires Silent(a) && Silent(b)
    ensures Silent(a + b)
  {
    forall k | 0 <= k < |a + b| ensures (a + b)[k] == Returned(false) {
      if k >= |a| {
        assert (a + b)[k] == b[k - |a|];
      }
    }
  }

  /** A run whose calls return false up to its last, which does too. */
  lemma QuietThenFalse(outs: seq<Poll>, n: nat)
    requires |outs| == n + 1 && outs[..n] == Quiet(n) && outs[n] == Returned(false)
    ensures Silent(outs)
  {
    forall k | 0 <= k < |outs| ensures outs[k] == Returned(false) {
      if k < n {
        assert outs[k] == outs[..n][k];
      }
    }
  }

  function LastOf(last: Option<byte>, bs: seq<byte>): Option<byte> {
    if bs == [] then last else Some(bs[|bs| - 1])
  }

  /** The buffer after `rest` is written from slot `off` on. */
  function Splice(data: seq<byte>, off: nat, rest: seq<byte>): (r: seq<byte>)
    requires off + |rest| <= |data|
    ensures |r| == |data| && r[..off] == data[..off] && r[off..off + |rest|] == rest
    ensures r[off + |rest|..] == data[off + |rest|..]
  {
    data[..off] + rest + data[off + |rest|..]
  }

  // ---------------------------------------------------------------------
  // One call.

  /** With no byte waiting, `update` changes nothing and returns false. */
  lemma IdleIsNoOp(d: Dialect, st: Snapshot)
    requires Valid(st)
    ensures Step(d, st, None) == StepResult(st, Returned(false))
  {
  }

  /** `update` returns true exactly when its byte was the checksum byte of
      a frame whose checksum matched and whose payload decoded without an
      unknown identifier; the fresh flag is never left set. */
  lemma ReturnsTrueExactlyOnDecodedFrame(d: Dialect, st: Snapshot, input: Option<byte>)
    requires Valid(st)
    ensures !Step(d, st, input).state.freshPacket
    ensures Step(d, st, input).outcome == Returned(true) <==>
      && input.Some?
      && st.inPacket && 0 < st.packetIndex && st.packetLength < st.packetIndex
      && input.value == d.Complement(st.checksumAccumulator)
      && Parse(d, st.packetData, st.packetLength, st.sensor).outcome == Parsed(true)
  {
  }

  /** Outside a packet, a byte opens one exactly when it and the byte before
      it are both 0xAA; opening resets the index and the accumulator, and
      nothing else but the remembered last byte changes. */
  lemma SearchingStep(d: Dialect, st: Snapshot, b: byte)
    requires Valid(st) && !st.inPacket
    ensures Step(d, st, Some(b)).outcome == Returned(false)
    ensures Step(d, st, Some(b)).state ==
      if b == SyncByte && st.lastByte == Some(SyncByte)
      then st.(inPacket := true, packetIndex := 0, checksumAccumulator := 0, lastByte := Some(b))
      else st.(lastByte := Some(b))
  {
  }

  /** A length byte over 32 records the too-long error and abandons the
      frame without touching the sensor readings or the buffer. The same
      byte is then checked for sync, so 0xAA (170 > 32) right after the
      sync pair reopens a frame at once. */
  lemma OverlongLengthByte(d: Dialect, st: Snapshot, b: byte)
    requires Valid(st) && st.inPacket && st.packetIndex == 0 && b > MaxPacketLength
    ensures Step(d, st, Some(b)).outcome == Returned(false)
    ensures Step(d, st, Some(b)).state.latestError == PacketTooLong(b)
    ensures Step(d, st, Some(b)).state.sensor == st.sensor
    ensures Step(d, st, Some(b)).state.packetData == st.packetData
    ensures Step(d, st, Some(b)).state.inPacket <==> b == SyncByte && st.lastByte == Some(SyncByte)
  {
  }

  /** Payload byte number k (k = `packet_index`, 1-based) goes to slot k - 1,
      which is inside the 32-slot buffer, and into the accumulator. */
  lemma PayloadByteStored(d: Dialect, st: Snapshot, b: byte)
    requires Valid(st) && st.inPacket && 1 <= st.packetIndex <= st.packetLength
    ensures 0 <= st.packetIndex - 1 < MaxPacketLength
    ensures Step(d, st, Some(b)) == StepResult(
      st.(packetData := st.packetData[st.packetIndex - 1 := b],
          checksumAccumulator := st.checksumAccumulator + b,
          packetIndex := st.packetIndex + 1,
          lastByte := Some(b)),
      Returned(false))
  {
  }

  /** The checksum byte of an open frame. On a mismatch the readings are
      left alone and the mismatch is recorded. On a match the readings are
      what the decoder makes of the buffer, the call reports the decoder's
      verdict (or raises) and a decoder failure is recorded. The buffer is
      never touched, and the frame is closed unless the decoder raised
      (the late sync check may open the next one at once). */
  lemma ChecksumByteStep(d: Dialect, st: Snapshot, b: byte)
    requires Valid(st) && st.inPacket && 0 < st.packetIndex && st.packetLength < st.packetIndex
    ensures var r := Step(d, st, Some(b));
      var p := Parse(d, st.packetData, st.packetLength, st.sensor);
      && r.state.packetData == st.packetData
      && (b != d.Complement(st.checksumAccumulator) ==>
            && r.outcome == Returned(false)
            && r.state.sensor == st.sensor
            && r.state.latestError == ChecksumMismatch
            && (r.state.inPacket <==> b == SyncByte && st.lastByte == Some(SyncByte)))
      && (b == d.Complement(st.checksumAccumulator) ==>
            && r.state.sensor == p.sensor
            && r.outcome == (if p.outcome == IndexError then Raised else Returned(p.outcome.success))
            && r.state.latestError == (if p.outcome == Parsed(false) then ParseFailed else st.latestError)
            && (r.state.inPacket <==> p.outcome == IndexError || (b == SyncByte && st.lastByte == Some(SyncByte))))
  {
  }

  // ---------------------------------------------------------------------
  // Runs of calls.

  /** Feeding a + b is feeding a, then b from where a left the object:
      the reports of the two runs follow one another. */
  lemma FeedAppend(d: Dialect, st: Snapshot, a: seq<byte>, b: seq<byte>)
    requires Valid(st)
    ensures Feed(d, st, a + b) ==
      Trace(Feed(d, Feed(d, st, a).state, b).state,
            Feed(d, st, a).outcomes + Feed(d, Feed(d, st, a).state, b).outcomes)
  {
    var mid := Feed(d, st, a);
    FeedSplit(d, st, a, b, mid, Feed(d, mid.state, b));
  }

  /** FeedAppend with the two partial runs named. */
  lemma {:induction false} FeedSplit(d: Dialect, st: Snapshot, a: seq<byte>, b: seq<byte>, mid: Trace, fin: Trace)
    requires Valid(st) && mid == Feed(d, st, a) && Valid(mid.state) && fin == Feed(d, mid.state, b)
    ensures Feed(d, st, a + b) == Trace(fin.state, mid.outcomes + fin.outcomes)
    decreases |a|
  {
    if a == [] {
      assert a + b == b;
    } else {
      AppendTail(a, b);
      var r := Step(d, st, Some(a[0]));
      var t1 := Feed(d, r.state, a[1..]);
      FeedSplit(d, r.state, a[1..], b, t1, fin);
      AppendAssoc([r.outcome], t1.outcomes, fin.outcomes);
    }
  }

  /** One unfolding of Feed, with the first step and the rest named. */
  lemma FeedCons(d: Dialect, st: Snapshot, x: byte, rest: seq<byte>, r: StepResult, t: Trace)
    requires Valid(st) && r == Step(d, st, Some(x)) && t == Feed(d, r.state, rest)
    ensures Feed(d, st, [x] + rest) == Trace(t.state, [r.outcome] + t.outcomes)
  {
    AppendTail([x], rest);
  }

  lemma AppendTail<T>(a: seq<T>, b: seq<T>)
    requires a != []
    ensures (a + b)[0] == a[0] && (a + b)[1..] == a[1..] + b
  {
  }

  lemma AppendAssoc<T>(a: seq<T>, b: seq<T>, c: seq<T>)
    ensures a + (b + c) == a + b + c
  {
  }

  /** No byte of `bs` is a 0xAA that follows another 0xAA (the first byte
      is compared with `last`). */
  predicate NoSyncPair(last: Option<byte>, bs: seq<byte>) {
    && (bs != [] && bs[0] == SyncByte ==> last != Some(SyncByte))
    && forall k :: 1 <= k < |bs| && bs[k] == SyncByte ==> bs[k - 1] != SyncByte
  }

  /** Noise without a 0xAA pair never opens a packet: every call returns
      false and nothing but the remembered last byte changes, so the
      buffer, the sensor readings and the error slot are untouched. */
  lemma {:induction false} NoiseStaysSearching(d: Dialect, st: Snapshot, bs: seq<byte>)
    requires Valid(st) && !st.inPacket && NoSyncPair(st.lastByte, bs)
    ensures Feed(d, st, bs) == Trace(st.(lastByte := LastOf(st.lastByte, bs)), Quiet(|bs|))
    decreases |bs|
  {
    if bs != [] {
      SearchingStep(d, st, bs[0]);
      var s1 := st.(lastByte := Some(bs[0]));
      assert Step(d, st, Some(bs[0])) == StepResult(s1, Returned(false));
      var tail := bs[1..];
      assert NoSyncPair(s1.lastByte, tail) by {
        forall k | 1 <= k < |tail| && tail[k] == SyncByte
          ensures tail[k - 1] != SyncByte
        {
          assert tail[k] == bs[k + 1] && tail[k - 1] == bs[k];
        }
        if tail != [] && tail[0] == SyncByte {
          assert bs[1] == SyncByte;
        }
      }
      NoiseStaysSearching(d, s1, tail);
      assert LastOf(s1.lastByte, tail) == LastOf(st.lastByte, bs);
      assert s1.(lastByte := LastOf(s1.lastByte, tail)) == st.(lastByte := LastOf(st.lastByte, bs));
      QuietCons(|tail|);
    }
  }

  /** The payload bytes of a frame are stored one after another from the
      slot the index points at, summed into the accumulator, and report
      nothing. */
  lemma FeedPayload(d: Dialect, st: Snapshot, rest: seq<byte>)
    requires Valid(st) && st.inPacket && 1 <= st.packetIndex
    requires st.packetIndex - 1 + |rest| == st.packetLength
    ensures Feed(d, st, rest) == Trace(
      st.(packetData := Splice(st.packetData, st.packetIndex - 1, rest),
          checksumAccumulator := st.checksumAccumulator + Sum(rest),
          packetIndex := st.packetIndex + |rest|,
          lastByte := LastOf(st.lastByte, rest)),
      Quiet(|rest|))
  {
    FeedPayloadTo(d, st, rest, st.(packetData := Splice(st.packetData, st.packetIndex - 1, rest),
                                   checksumAccumulator := st.checksumAccumulator + Sum(rest),
                                   packetIndex := st.packetIndex + |rest|,
                                   lastByte := LastOf(st.lastByte, rest)));
  }

  /** FeedPayload with the final state named. */
  lemma {:induction false} FeedPayloadTo(d: Dialect, st: Snapshot, rest: seq<byte>, want: Snapshot)
    requires Valid(st) && st.inPacket && 1 <= st.packetIndex
    requires st.packetIndex - 1 + |rest| == st.packetLength
    requires want == st.(packetData := Splice(st.packetData, st.packetIndex - 1, rest),
                         checksumAccumulator := st.checksumAccumulator + Sum(rest),
                         packetIndex := st.packetIndex + |rest|,
                         lastByte := LastOf(st.lastByte, rest))
    ensures Feed(d, st, rest) == Trace(want, Quiet(|rest|))
    decreases |rest|
  {
    if rest == [] {
      assert Splice(st.packetData, st.packetIndex - 1, rest) == st.packetData;
    } else {
      var tail := rest[1..];
      var s1 := st.(packetData := st.packetData[st.packetIndex - 1 := rest[0]],
                    checksumAccumulator := st.checksumAccumulator + rest[0],
                    packetIndex := st.packetIndex + 1,
                    lastByte := Some(rest[0]));
      FirstPayloadByte(d, st, rest, s1);
      PayloadAfterFirst(st, rest, s1);
      FeedPayloadTo(d, s1, tail, want);
      QuietCons(|tail|);
    }
  }

  /** Storing the first remaining byte and then the others is storing them
      all. */
  lemma PayloadAfterFirst(st: Snapshot, rest: seq<byte>, s1: Snapshot)
    requires |st.packetData| == MaxPacketLength && 1 <= st.packetIndex && rest != []
    requires st.packetIndex - 1 + |rest| <= MaxPacketLength
    requires Sum(rest) == rest[0] + Sum(rest[1..])
    requires s1 == st.(packetData := st.packetData[st.packetIndex - 1 := rest[0]],
                       checksumAccumulator := st.checksumAccumulator + rest[0],
                       packetIndex := st.packetIndex + 1,
                       lastByte := Some(rest[0]))
    ensures s1.(packetData := Splice(s1.packetData, s1.packetIndex - 1, rest[1..]),
                checksumAccumulator := s1.checksumAccumulator + Sum(rest[1..]),
                packetIndex := s1.packetIndex + |rest[1..]|,
                lastByte := LastOf(s1.lastByte, rest[1..])) ==
            st.(packetData := Splice(st.packetData, st.packetIndex - 1, rest),
                checksumAccumulator := st.checksumAccumulator + Sum(rest),
                packetIndex := st.packetIndex + |rest|,
                lastByte := LastOf(st.lastByte, rest))
  {
    var tail := rest[1..];
    SpliceStep(st.packetData, st.packetIndex - 1, rest);
    assert Splice(s1.packetData, s1.packetIndex - 1, tail) == Splice(st.packetData, st.packetIndex - 1, rest);
    assert s1.checksumAccumulator + Sum(tail) == st.checksumAccumulator + Sum(rest);
    assert s1.packetIndex + |tail| == st.packetIndex + |rest|;
    assert LastOf(s1.lastByte, tail) == LastOf(st.lastByte, rest);
  }

  /** The first of the remaining payload bytes, fed: it is stored and
      summed, and the call returns false. */
  lemma FirstPayloadByte(d: Dialect, st: Snapshot, rest: seq<byte>, s1: Snapshot)
    requires Valid(st) && st.inPacket && 1 <= st.packetIndex
    requires st.packetIndex - 1 + |rest| == st.packetLength && rest != []
    requires s1 == st.(packetData := st.packetData[st.packetIndex - 1 := rest[0]],
                       checksumAccumulator := st.checksumAccumulator + rest[0],
                       packetIndex := st.packetIndex + 1,
                       lastByte := Some(rest[0]))
    ensures Valid(s1) && Sum(rest) == rest[0] + Sum(rest[1..])
    ensures Feed(d, st, rest) == Trace(Feed(d, s1, rest[1..]).state, [Returned(false)] + Feed(d, s1, rest[1..]).outcomes)
  {
    PayloadByteStored(d, st, rest[0]);
    var r := Step(d, st, Some(rest[0]));
    assert rest == [rest[0]] + rest[1..];
    FeedCons(d, st, rest[0], rest[1..], r, Feed(d, s1, rest[1..]));
  }

  lemma SpliceStep(data: seq<byte>, off: nat, rest: seq<byte>)
    requires rest != [] && off + |rest| <= |data|
    ensures Splice(data[off := rest[0]], off + 1, rest[1..]) == Splice(data, off, rest)
  {
  }

  /** Just after a sync pair: the next byte is the length byte. */
  predicate JustSynced(st: Snapshot) {
    Valid(st) && st.inPacket && st.packetIndex == 0 && st.checksumAccumulator == 0
  }

  /** The byte sequence of one frame after its sync pair. */
  function FrameBytes(payload: seq<byte>, cs: byte): seq<byte>
    requires |payload| <= MaxPacketLength
  {
    [|payload|] + payload + [cs]
  }

  /** The state just before the checksum byte of a frame fed after a sync
      pair: the payload sits in the first slots, stale bytes after it. */
  lemma BeforeChecksum(d: Dialect, st: Snapshot, payload: seq<byte>)
    requires JustSynced(st) && |payload| <= MaxPacketLength
    ensures Feed(d, st, [|payload|] + payload) == Trace(
      st.(packetLength := |payload|,
          packetData := Splice(st.packetData, 0, payload),
          checksumAccumulator := Sum(payload),
          packetIndex := |payload| + 1,
          lastByte := LastOf(Some(|payload| as byte), payload)),
      Quiet(|payload| + 1))
  {
    var len: byte := |payload|;
    FeedAppend(d, st, [len], payload);
    var s1 := Step(d, st, Some(len)).state;
    assert Feed(d, st, [len]) == Trace(s1, [Returned(false)]);
    assert s1 == st.(packetLength := len, packetIndex := 1, lastByte := Some(len));
    FeedPayload(d, s1, payload);
    QuietCons(|payload|);
  }

  /** What a whole frame does, fed after a sync pair: every byte before the
      checksum byte reports nothing; the checksum byte is accepted iff it
      equals the complement of the payload sum; on a mismatch the readings
      stay as they were and the mismatch is recorded; on a match the
      readings are what the decoder makes of the buffer (payload followed
      by stale bytes), the call reports the decoder's verdict or raises,
      and a decoder failure is recorded. */
  lemma {:induction false} FrameOutcome(d: Dialect, st: Snapshot, payload: seq<byte>, cs: byte)
    requires JustSynced(st) && |payload| <= MaxPacketLength
    ensures var t := Feed(d, st, FrameBytes(payload, cs));
      var buffer := payload + st.packetData[|payload|..];
      var p := Parse(d, buffer, |payload|, st.sensor);
      && |buffer| == MaxPacketLength
      && t.outcomes[..|payload| + 1] == Quiet(|payload| + 1)
      && (cs != d.Complement(Sum(payload)) ==>
            && t.outcomes[|payload| + 1] == Returned(false)
            && t.state.sensor == st.sensor
            && t.state.latestError == ChecksumMismatch
            && t.state.packetData == buffer)
      && (cs == d.Complement(Sum(payload)) ==>
            && t.state.sensor == p.sensor
            && t.outcomes[|payload| + 1] == (if p.outcome == IndexError then Raised else Returned(p.outcome.success))
            && t.state.latestError == (if p.outcome == Parsed(false) then ParseFailed else st.latestError)
            && t.state.packetData == buffer)
  {
    var len: byte := |payload|;
    var head := [len] + payload;
    var buffer := payload + st.packetData[|payload|..];
    assert FrameBytes(payload, cs) == head + [cs];
    BeforeChecksum(d, st, payload);
    assert Splice(st.packetData, 0, payload) == buffer;
    var s2 := st.(packetLength := len, packetData := buffer, checksumAccumulator := Sum(payload),
                  packetIndex := len + 1, lastByte := LastOf(Some(len), payload));
    var mid := Trace(s2, Quiet(len + 1));
    assert Feed(d, st, head) == mid;
    var r := Step(d, s2, Some(cs));
    var fin := Trace(r.state, [r.outcome]);
    FeedCons(d, s2, cs, [], r, Feed(d, r.state, []));
    assert [cs] == [cs] + [];
    ChecksumByteStep(d, s2, cs);
    FeedSplit(d, st, head, [cs], mid, fin);
    var outs := Quiet(len + 1) + [r.outcome];
    assert outs[..len + 1] == Quiet(len + 1) && outs[len + 1] == r.outcome;
  }

  /** As written, a frame whose payload bytes add up to more than 255 can
      never be accepted: every checksum byte is a mismatch, no call returns
      true and the readings do not change. */
  lemma LargePayloadAlwaysRejected(st: Snapshot, payload: seq<byte>, cs: byte)
    requires JustSynced(st) && |payload| <= MaxPacketLength && Sum(payload) > 255
    ensures var t := Feed(AsWritten, st, FrameBytes(payload, cs));
      && Silent(t.outcomes)
      && t.state.sensor == st.sensor
      && t.state.latestError == ChecksumMismatch
  {
    AsWrittenRejectsLargeSums(payload, cs);
    FrameOutcome(AsWritten, st, payload, cs);
    QuietThenFalse(Feed(AsWritten, st, FrameBytes(payload, cs)).outcomes, |payload| + 1);
  }

  /** A frame that carries the encoding of well-formed fields and the
      checksum a ThinkGear sender computes is delivered exactly once: the
      checksum byte's call, and only it, returns true, and the readings are
      those the fields carry. As written this holds only while the payload
      sum fits in a byte and no raw-wave field is present; with the
      intended checksum and raw-wave stride it holds for every frame. */
  lemma EncodedFrameDelivered(d: Dialect, st: Snapshot, fs: seq<Field>)
    requires JustSynced(st) && WellFormed(fs) && |Encode(fs)| <= MaxPacketLength
    requires d == AsWritten ==> !HasRawWave(fs) && Sum(Encode(fs)) <= 255
    ensures var payload := Encode(fs);
      var t := Feed(d, st, FrameBytes(payload, SenderChecksum(payload)));
      && (forall k :: 0 <= k < |t.outcomes| ==> (t.outcomes[k] == Returned(true) <==> k == |payload| + 1))
      && t.state.sensor == ApplyAll(Reset(st.sensor), fs)
      && t.state.latestError == st.latestError
  {
    var payload := Encode(fs);
    var cs := SenderChecksum(payload);
    IntendedAcceptsExactlySender(payload, cs);
    if d == AsWritten {
      DialectsAgreeOnSmallSums(payload, cs);
    }
    FrameOutcome(d, st, payload, cs);
    var buffer := payload + st.packetData[|payload|..];
    assert buffer[..|payload|] == payload;
    ParseEncoded(d, buffer, st.sensor, fs);
    var t := Feed(d, st, FrameBytes(payload, cs));
    forall k | 0 <= k < |t.outcomes|
      ensures t.outcomes[k] == Returned(true) <==> k == |payload| + 1
    {
      if k <= |payload| {
        assert t.outcomes[k] == t.outcomes[..|payload| + 1][k];
      }
    }
  }

  /** Sum after one byte of the payload is replaced. */
  lemma {:induction false} SumUpdate(s: seq<byte>, k: nat, v: byte)
    requires k < |s|
    ensures Sum(s[k := v]) == Sum(s) - s[k] + v
  {
    if k == 0 {
      assert s[k := v][1..] == s[1..];
    } else {
      assert s[k := v][1..] == s[1..][k - 1 := v];
      SumUpdate(s[1..], k - 1, v);
    }
  }

  /** Replacing one payload byte of a correctly checksummed frame by a
      different value makes the checksum a mismatch, so the readings stay
      as they were before the frame. As written this holds for every
      payload too: a large sum was rejected anyway. */
  lemma CorruptedByteRejected(d: Dialect, st: Snapshot, payload: seq<byte>, k: nat, v: byte)
    requires JustSynced(st) && |payload| <= MaxPacketLength && k < |payload| && v != payload[k]
    ensures var t := Feed(d, st, FrameBytes(payload[k := v], SenderChecksum(payload)));
      && t.state.sensor == st.sensor
      && t.state.latestError == ChecksumMismatch
      && Silent(t.outcomes)
  {
    var bad := payload[k := v];
    var cs := SenderChecksum(payload);
    SumUpdate(payload, k, v);
    var s := Sum(payload);
    var s' := Sum(bad);
    assert -256 < s' - s < 256 && s' != s;
    if d == Intended {
      IntendedAcceptsExactlySender(bad, cs);
      // cs is the sender byte of `payload`; it would have to be that of `bad` too.
      assert cs != SenderChecksum(bad);
    } else {
      // cs is 255 - s % 256; the stored complement 255 - s' would need
      // s' == s % 256, which is s itself or at least 256 below it.
      assert s == 256 * (s / 256) + s % 256 && s / 256 >= 0;
    }
    assert cs != d.Complement(s');
    FrameOutcome(d, st, bad, cs);
    QuietThenFalse(Feed(d, st, FrameBytes(bad, cs)).outcomes, |bad| + 1);
  }

  /** An object outside a frame whose last byte was not 0xAA (a new one,
      say) that receives the sync pair is ready for a length byte. */
  lemma SyncPairOpensFrame(d: Dialect, st: Snapshot)
    requires Valid(st) && !st.inPacket && st.lastByte != Some(SyncByte)
    ensures Feed(d, st, [SyncByte, SyncByte]) ==
      Trace(st.(inPacket := true, packetIndex := 0, checksumAccumulator := 0, lastByte := Some(SyncByte)), Quiet(2))
  {
    var s1 := st.(lastByte := Some(SyncByte));
    var s2 := st.(inPacket := true, packetIndex := 0, checksumAccumulator := 0, lastByte := Some(SyncByte));
    SearchingStep(d, st, SyncByte);
    SearchingStep(d, s1, SyncByte);
    FeedCons(d, s1, SyncByte, [], Step(d, s1, Some(SyncByte)), Feed(d, s2, []));
    FeedCons(d, st, SyncByte, [SyncByte], Step(d, st, Some(SyncByte)), Feed(d, s1, [SyncByte]));
  }

  /** The payload 02 C8 04 64 05 32: signal quality 200, attention 100,
      meditation 50. */
  function AttentionPayload(): (p: seq<byte>)
    ensures p == Encode([SignalQuality(0xC8), Attention(0x64), Meditation(0x32)])
  {
    var fs := [SignalQuality(0xC8), Attention(0x64), Meditation(0x32)];
    assert Encode(fs[2..]) == [0x05, 0x32];
    assert Encode(fs[1..]) == [0x04, 0x64] + Encode(fs[2..]);
    [0x02, 0xC8, 0x04, 0x64, 0x05, 0x32]
  }

  /** Its byte sum, tags included, is 0x169 = 361, so a ThinkGear sender
      appends 255 - 0x69 = 150. */
  lemma AttentionPayloadChecksum()
    ensures Sum(AttentionPayload()) == 361 && SenderChecksum(AttentionPayload()) == 150
  {
    var a: seq<byte>, b: seq<byte>, c: seq<byte> := [0x02, 0xC8], [0x04, 0x64], [0x05, 0x32];
    assert AttentionPayload() == a + b + c;
    assert Sum(a) == 0xCA && Sum(b) == 0x68 && Sum(c) == 0x37;
    SumAppend(a, b);
    SumAppend(a + b, c);
    assert 361 % 256 == 105;
  }

  /** The stream AA AA 06 02 C8 04 64 05 32 96 (checksum byte 0x96 = 150),
      as the caller's polling loop would feed it. */
  function AttentionStream(): seq<byte> {
    [SyncByte, SyncByte] + FrameBytes(AttentionPayload(), 150)
  }

  /** The readings the three fields of that payload leave, whatever came
      before: every reading is set, the power bands are cleared. */
  lemma AttentionFieldsApplied(s: Sensor)
    ensures ApplyAll(Reset(s), [SignalQuality(0xC8), Attention(0x64), Meditation(0x32)]) ==
      Sensor(200, 100, 50, false, Zeros())
  {
    var fs := [SignalQuality(0xC8), Attention(0x64), Meditation(0x32)];
    var s1 := Reset(s).(signalQuality := 200);
    var s2 := s1.(attention := 100);
    assert fs[1..] == [Attention(0x64), Meditation(0x32)] && fs[1..][1..] == [Meditation(0x32)];
    assert ApplyAll(Reset(s), fs) == ApplyAll(s1, fs[1..]);
    assert ApplyAll(s1, fs[1..]) == ApplyAll(s2, fs[1..][1..]);
    assert ApplyAll(s2, fs[1..][1..]) == s2.(meditation := 50);
  }

  /** A sync pair and then a frame, fed to an object outside a frame whose
      last byte was not 0xAA: the pair reports nothing and leaves the object
      ready for the frame's length byte. */
  lemma PairThenFrame(d: Dialect, st: Snapshot, frame: seq<byte>)
    requires Valid(st) && !st.inPacket && st.lastByte != Some(SyncByte)
    ensures var synced := st.(inPacket := true, packetIndex := 0, checksumAccumulator := 0, lastByte := Some(SyncByte));
      var t := Feed(d, synced, frame);
      JustSynced(synced) && Feed(d, st, [SyncByte, SyncByte] + frame) == Trace(t.state, Quiet(2) + t.outcomes)
  {
    var synced := st.(inPacket := true, packetIndex := 0, checksumAccumulator := 0, lastByte := Some(SyncByte));
    SyncPairOpensFrame(d, st);
    FeedSplit(d, st, [SyncByte, SyncByte], frame, Trace(synced, Quiet(2)), Feed(d, synced, frame));
  }

  /** With the intended modulo-256 checksum, the frame of that payload is
      delivered to an object that has just seen a sync pair. */
  lemma AttentionFrameIntended(st: Snapshot)
    requires JustSynced(st)
    ensures var t := Feed(Intended, st, FrameBytes(AttentionPayload(), 150));
      && t.outcomes[|AttentionPayload()| + 1] == Returned(true)
      && t.state.sensor == Sensor(200, 100, 50, false, Zeros())
  {
    var fs := [SignalQuality(0xC8), Attention(0x64), Meditation(0x32)];
    AttentionPayloadChecksum();
    EncodedFrameDelivered(Intended, st, fs);
    AttentionFieldsApplied(st.sensor);
  }

  /** With the intended modulo-256 checksum that stream is delivered to an
      object outside a frame (a new one, for instance): the last call
      returns true with signal quality 200, attention 100, meditation 50 and
      no power field. */
  lemma AttentionStreamIntended(st: Snapshot)
    requires Valid(st) && !st.inPacket && st.lastByte != Some(SyncByte)
    ensures var t := Feed(Intended, st, AttentionStream());
      && t.outcomes[|AttentionStream()| - 1] == Returned(true)
      && t.state.sensor == Sensor(200, 100, 50, false, Zeros())
  {
    var synced := st.(inPacket := true, packetIndex := 0, checksumAccumulator := 0, lastByte := Some(SyncByte));
    var frame := FrameBytes(AttentionPayload(), 150);
    PairThenFrame(Intended, st, frame);
    AttentionFrameIntended(synced);
    var fin := Feed(Intended, synced, frame);
    assert (Quiet(2) + fin.outcomes)[|AttentionStream()| - 1] == fin.outcomes[|AttentionPayload()| + 1];
  }

  /** As written, the unbounded sum 361 makes the same stream a checksum
      mismatch: no call returns true and the readings are left as they
      were. */
  lemma AttentionStreamAsWritten(st: Snapshot)
    requires Valid(st) && !st.inPacket && st.lastByte != Some(SyncByte)
    ensures var t := Feed(AsWritten, st, AttentionStream());
      && Silent(t.outcomes)
      && t.state.sensor == st.sensor
      && t.state.latestError == ChecksumMismatch
  {
    var synced := st.(inPacket := true, packetIndex := 0, checksumAccumulator := 0, lastByte := Some(SyncByte));
    var frame := FrameBytes(AttentionPayload(), 150);
    PairThenFrame(AsWritten, st, frame);
    AttentionPayloadChecksum();
    LargePayloadAlwaysRejected(synced, AttentionPayload(), 150);
    SilentAppend(Quiet(2), Feed(AsWritten, synced, frame).outcomes);
  }
}
