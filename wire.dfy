/** Wire-level vocabulary of the ThinkGear (NeuroSky MindSet) serial stream:
    bytes, the fixed sizes of the decoder, the checksum rule and the
    big-endian 24-bit band encoding. */
module Wire {

  /** One byte read from the serial stream (Python's `ord(read(1))`). */
  type byte = x: int | 0 <= x < 256

  datatype Option<T> = None | Some(value: T)

  /** Capacity of the payload buffer `packet_data`. */
  const MaxPacketLength: nat := 32
  /** Number of EEG power bands kept in `eeg_power`. */
  const EegPowerBands: nat := 8
  /** The sync marker; two in a row open a frame. */
  const SyncByte: byte := 0xAA
  /** Every band value is an unsigned 24-bit integer. */
  const PowerLimit: int := 0x100_0000

  /** Field identifiers the decoder recognises. */
  const CodeSignalQuality: byte := 0x02
  const CodeAttention: byte := 0x04
  const CodeMeditation: byte := 0x05
  const CodeRawWave: byte := 0x80
  const CodeEegPower: byte := 0x83

  /** Sum of the payload bytes over unbounded integers. */
  function Sum(s: seq<byte>): (r: int)
    ensures 0 <= r <= 255 * |s|
  {
    if s == [] then 0 else s[0] + Sum(s[1..])
  }

  lemma {:induction false} SumAppend(a: seq<byte>, b: seq<byte>)
    ensures Sum(a + b) == Sum(a) + Sum(b)
  {
    if a == [] {
      assert a + b == b;
    } else {
      assert (a + b)[1..] == a[1..] + b;
      SumAppend(a[1..], b);
    }
  }

  /** A big-endian 24-bit unsigned value spread over three bytes. */
  function BandValue(hi: byte, mid: byte, lo: byte): (v: int)
    ensures 0 <= v < PowerLimit
  {
    hi * 65536 + mid * 256 + lo
  }

  /** The three bytes can be read back from the value they make up. */
  lemma BandValueDigits(hi: byte, mid: byte, lo: byte)
    ensures BandBytes(BandValue(hi, mid, lo)) == [hi, mid, lo]
  {
    var v := hi * 65536 + mid * 256 + lo;
    DivMod256(mid * 256 + lo, mid, lo);
    DivMod256(v, hi * 256 + mid, lo);
    DivMod256(hi * 256 + mid, hi, mid);
    DivMod65536(v, hi, mid * 256 + lo);
  }

  lemma DivMod256(x: int, q: int, r: int)
    requires 0 <= r < 256 && x == 256 * q + r
    ensures x / 256 == q && x % 256 == r
  {
  }

  lemma DivMod65536(x: int, q: int, r: int)
    requires 0 <= r < 65536 && x == 65536 * q + r
    ensures x / 65536 == q
  {
  }

  /** The three bytes that carry a 24-bit value, most significant first. */
  function BandBytes(v: int): (r: seq<byte>)
    requires 0 <= v < PowerLimit
    ensures |r| == 3 && BandValue(r[0], r[1], r[2]) == v
  {
    var hi, mid, lo := v / 65536, (v / 256) % 256, v % 256;
    assert v == hi * 65536 + mid * 256 + lo by {
      assert v == (v / 256) * 256 + lo;
      assert v / 256 == hi * 256 + mid;
    }
    [hi, mid, lo]
  }

  /** Which behaviour of the source a definition follows.
      AsWritten is py/Brain.py. Intended differs from it in exactly two
      points, on which it follows the ThinkGear protocol (and C#/Brain.cs):
      the checksum is taken modulo 256, and a raw-wave field occupies four
      bytes. In every other respect, including the stop at an unknown
      identifier, Intended is py/Brain.py too. */
  datatype Dialect = AsWritten | Intended {

    /** What the assembler stores in the accumulator when the checksum byte
        arrives; the frame is accepted iff the checksum byte equals it. */
    function Complement(acc: int): (c: int)
      ensures this == Intended ==> 0 <= c < 256
    {
      if this == AsWritten then 255 - acc else (255 - acc) % 256
    }

    /** How far the decoder's cursor moves past a raw-wave tag. */
    function RawStride(): (n: nat)
      ensures n >= 3
    {
      if this == AsWritten then 3 else 4
    }
  }

  /** The checksum byte a ThinkGear sender appends: the one's complement of
      the low byte of the payload sum. It is the value the intended rule
      stores in the accumulator, so the sender's byte is the one the
      intended check compares with. */
  function SenderChecksum(payload: seq<byte>): (c: byte)
    ensures c == Intended.Complement(Sum(payload))
  {
    var s := Sum(payload);
    var m := s % 256;
    assert 255 - s == 256 * (-(s / 256)) + (255 - m);
    DivMod256(255 - s, -(s / 256), 255 - m);
    255 - m
  }

  /** Intended checksum check: the sender's byte is the one and only byte
      accepted, whatever the payload. */
  lemma IntendedAcceptsExactlySender(payload: seq<byte>, cs: byte)
    ensures cs == Intended.Complement(Sum(payload)) <==> cs == SenderChecksum(payload)
  {
  }

  /** As written, a payload whose byte sum exceeds 255 makes the stored
      complement negative, so no byte can ever match it. */
  lemma AsWrittenRejectsLargeSums(payload: seq<byte>, cs: byte)
    requires Sum(payload) > 255
    ensures cs != AsWritten.Complement(Sum(payload))
  {
  }

  /** The two rules agree exactly on payloads whose sum fits in a byte. */
  lemma DialectsAgreeOnSmallSums(payload: seq<byte>, cs: byte)
    requires Sum(payload) <= 255
    ensures (cs == AsWritten.Complement(Sum(payload))) == (cs == Intended.Complement(Sum(payload)))
  {
  }
}
