/**
 * The bracelet's 19-byte serial frame and its decoder.
 *
 *   offset  0      start marker 0xFA
 *   offset  1-2    GSR, big-endian
 *   offset  3-8    gyroscope X, Y, Z, each big-endian
 *   offset  9-14   reserved
 *   offset 15      heart rate
 *   offset 16      reserved
 *   offset 17      checksum: sum of bytes 1..16, low 8 bits
 *   offset 18      end marker 0xAF
 */
module Packet {

  /** A byte as the decoder sees it: an integer 0..255. */
  type Byte = b: int | 0 <= b < 0x100

  /** An unsigned 16-bit field. */
  type Word = w: int | 0 <= w < 0x1_0000

  const PacketLength: nat := 19
  const StartMarker: Byte := 0xFA
  const EndMarker: Byte := 0xAF

  datatype Option<+T> = None | Some(value: T)

  /** One decoded reading, fields in the order the decoder returns them (the capture time is not modelled). */
  datatype Sample = Sample(gsr: Word, hr: Byte, gyroX: Word, gyroY: Word, gyroZ: Word)

  /** Arithmetic sum of a byte sequence. */
  function Sum(s: seq<Byte>): (r: nat)
    ensures r <= 0xFF * |s|
  {
    if s == [] then 0 else s[0] + Sum(s[1..])
  }

  /** A 16-bit value assembled as `hi << 8 | lo`; the two bytes do not overlap, so this is `hi * 256 + lo`. */
  function BigEndian16(hi: Byte, lo: Byte): (w: Word)
    ensures w / 0x100 == hi && w % 0x100 == lo
  {
    hi * 0x100 + lo
  }

  /** The checksum a frame should carry at offset 17: the sum of bytes 1..16 masked with 0xFF. */
  function Checksum(packet: seq<Byte>): Byte
    requires |packet| == PacketLength
  {
    Sum(packet[1..17]) % 0x100
  }

  /**
   * Decodes one candidate frame. A frame of the wrong length, with a wrong start or end
   * marker, or whose checksum byte disagrees with its payload yields None; otherwise the
   * five fields are read at their fixed offsets.
   */
  function ParseSensorPacket(packet: seq<Byte>): (r: Option<Sample>)
    ensures r.Some? <==>
              && |packet| == PacketLength
              && packet[0] == StartMarker
              && packet[18] == EndMarker
              && Checksum(packet) == packet[17]
    ensures r.Some? ==>
              && r.value.gsr == packet[1] as int * 0x100 + packet[2]
              && r.value.gyroX == packet[3] as int * 0x100 + packet[4]
              && r.value.gyroY == packet[5] as int * 0x100 + packet[6]
              && r.value.gyroZ == packet[7] as int * 0x100 + packet[8]
              && r.value.hr == packet[15]
  {
    if |packet| != PacketLength || packet[0] != StartMarker || packet[|packet| - 1] != EndMarker then
      None
    else if Checksum(packet) != packet[17] then
      None
    else
      Some(Sample(
        gsr := BigEndian16(packet[1], packet[2]),
        hr := packet[15],
        gyroX := BigEndian16(packet[3], packet[4]),
        gyroY := BigEndian16(packet[5], packet[6]),
        gyroZ := BigEndian16(packet[7], packet[8])))
  }

  /**
   * The frame a device sends for a sample, given the seven reserved bytes
   * (offsets 9..14, then offset 16). It is the inverse of ParseSensorPacket.
   */
  function Encode(s: Sample, reserved: seq<Byte>): (f: seq<Byte>)
    requires |reserved| == 7
    ensures |f| == PacketLength && f[0] == StartMarker && f[18] == EndMarker
    ensures f[9..15] == reserved[..6] && f[16] == reserved[6]
  {
    var payload := [s.gsr / 0x100, s.gsr % 0x100,
                    s.gyroX / 0x100, s.gyroX % 0x100,
                    s.gyroY / 0x100, s.gyroY % 0x100,
                    s.gyroZ / 0x100, s.gyroZ % 0x100]
                   + reserved[..6] + [s.hr, reserved[6]];
    [StartMarker] + payload + [Sum(payload) % 0x100, EndMarker]
  }

  /** The reserved bytes of a frame, in the order Encode takes them. */
  function Reserved(f: seq<Byte>): (r: seq<Byte>)
    requires |f| == PacketLength
    ensures |r| == 7 && r[..6] == f[9..15] && r[6] == f[16]
  {
    f[9..15] + [f[16]]
  }

  /** Decoding an encoded sample gives the sample back, whatever the reserved bytes are. */
  lemma ParseEncode(s: Sample, reserved: seq<Byte>)
    requires |reserved| == 7
    ensures ParseSensorPacket(Encode(s, reserved)) == Some(s)
  {
    var f := Encode(s, reserved);
    var payload := [s.gsr / 0x100, s.gsr % 0x100,
                    s.gyroX / 0x100, s.gyroX % 0x100,
                    s.gyroY / 0x100, s.gyroY % 0x100,
                    s.gyroZ / 0x100, s.gyroZ % 0x100]
                   + reserved[..6] + [s.hr, reserved[6]];
    assert f[1..17] == payload;
  }

  /** Every frame the decoder accepts is the encoding of what it decodes to: nothing else is accepted. */
  lemma EncodeParse(f: seq<Byte>)
    requires ParseSensorPacket(f).Some?
    ensures Encode(ParseSensorPacket(f).value, Reserved(f)) == f
  {
    var s := ParseSensorPacket(f).value;
    var g := Encode(s, Reserved(f));
    assert s.gsr == BigEndian16(f[1], f[2]);
    assert s.gyroX == BigEndian16(f[3], f[4]);
    assert s.gyroY == BigEndian16(f[5], f[6]);
    assert s.gyroZ == BigEndian16(f[7], f[8]);
    assert g[1..17] == f[1..17];
  }

  /** Replacing element j of a sequence changes its sum by the difference of the two values. */
  lemma {:induction false} SumUpdate(s: seq<Byte>, j: nat, v: Byte)
    requires j < |s|
    ensures Sum(s[j := v]) == Sum(s) - s[j] + v
  {
    if j > 0 {
      SumUpdate(s[1..], j - 1, v);
      assert s[j := v][1..] == s[1..][j - 1 := v];
    }
  }

  /**
   * The checksum catches any single changed byte of a valid frame's payload
   * (offsets 1..16) when the checksum byte is not updated to match.
   */
  lemma ChangedPayloadByteRejected(f: seq<Byte>, i: nat, v: Byte)
    requires ParseSensorPacket(f).Some?
    requires 1 <= i <= 16 && v != f[i]
    ensures ParseSensorPacket(f[i := v]) == None
  {
    var g := f[i := v];
    assert g[1..17] == f[1..17][i - 1 := v];
    SumUpdate(f[1..17], i - 1, v);
  }

  /**
   * The reserved bytes (offsets 9..14 and 16) never reach the decoded fields, yet they
   * count towards validity: changing one of a valid frame alone makes it invalid, and
   * changing it together with the checksum byte decodes to the same sample.
   */
  lemma ReservedByteChange(f: seq<Byte>, i: nat, v: Byte)
    requires ParseSensorPacket(f).Some?
    requires (9 <= i <= 14 || i == 16) && v != f[i]
    ensures ParseSensorPacket(f[i := v]) == None
    ensures ParseSensorPacket(f[i := v][17 := Checksum(f[i := v])]) == ParseSensorPacket(f)
  {
    ChangedPayloadByteRejected(f, i, v);
    var g := f[i := v][17 := Checksum(f[i := v])];
    assert g[1..17] == f[i := v][1..17];
  }

  /** The sum of a sequence is its first element plus the sum of the rest. */
  lemma SumCons(x: Byte, rest: seq<Byte>)
    ensures Sum([x] + rest) == x + Sum(rest)
  {
    assert ([x] + rest)[1..] == rest;
  }

  /** A run of zero bytes sums to zero. */
  lemma {:induction false} AllZeroSum(s: seq<Byte>)
    requires forall i :: 0 <= i < |s| ==> s[i] == 0
    ensures Sum(s) == 0
  {
    if s != [] {
      AllZeroSum(s[1..]);
    }
  }
}
