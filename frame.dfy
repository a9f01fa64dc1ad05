/**
  The 16-byte wire frame that handleReadyRead looks for:
    bytes 0..3   the marker "$DC"
    bytes 3..14  eleven one-byte channel samples
    bytes 14..16 the CRC of bytes 0..14, high byte first.
  `Accepts` is the test at lines 190-194 of the source; `Encode` is the
  sender's side of it (what a well-behaved sender puts on the wire), which
  the source itself does not contain.
*/
module Frame {
  import opened Crc16
  import opened ByteArray

  const FrameSize: nat := 16
  /** Number of leading bytes covered by the checksum. */
  const CrcOffset: nat := 14
  const PayloadOffset: nat := 3
  const PayloadSize: nat := 11

  const Dollar: Byte := 0x24
  /** The ASCII bytes '$', 'D', 'C'. */
  const Marker: seq<Byte> := [0x24, 0x44, 0x43]

  /** The checksum a window carries, read big-endian from its last two bytes. */
  function ReceivedCrc(packet: seq<Byte>): bv16
    requires |packet| == FrameSize
  {
    ((packet[14] as bv16) << 8) | (packet[15] as bv16)
  }

  /** A window is accepted when the checksum it carries matches the one computed over its first 14 bytes. */
  predicate Accepts(packet: seq<Byte>)
    requires |packet| == FrameSize
  {
    ReceivedCrc(packet) == Crc(Left(packet, CrcOffset))
  }

  /** The eleven channel samples of a window (packet.mid(3, 11)). */
  function Payload(packet: seq<Byte>): (p: seq<Byte>)
    requires |packet| == FrameSize
    ensures |p| == PayloadSize
    ensures p == packet[PayloadOffset..CrcOffset]
  {
    Mid(packet, PayloadOffset, PayloadSize)
  }

  /** A 16-bit value as two bytes, high byte first. */
  function BigEndian(c: bv16): (r: seq<Byte>)
    ensures |r| == 2
    ensures ((r[0] as bv16) << 8) | (r[1] as bv16) == c
  {
    [(c >> 8) as Byte, (c & 0xFF) as Byte]
  }

  /** Two bytes read big-endian and written back give the same two bytes. */
  lemma BigEndianOfReceived(hi: Byte, lo: Byte)
    ensures BigEndian(((hi as bv16) << 8) | (lo as bv16)) == [hi, lo]
  {
  }

  /** The frame a sender builds around eleven samples. */
  function Encode(p: seq<Byte>): (w: seq<Byte>)
    requires |p| == PayloadSize
    ensures |w| == FrameSize
    ensures w[..PayloadOffset] == Marker
  {
    Marker + p + BigEndian(Crc(Marker + p))
  }

  /** Every encoded frame is accepted and gives back its samples. */
  lemma EncodeAccepted(p: seq<Byte>)
    requires |p| == PayloadSize
    ensures Accepts(Encode(p))
    ensures Payload(Encode(p)) == p
  {
    var w := Encode(p);
    assert w[..CrcOffset] == Marker + p;
    assert w[CrcOffset..] == BigEndian(Crc(Marker + p));
  }

  /** A window that starts with the marker is accepted exactly when it is the encoding of its own samples. */
  lemma AcceptsIffEncoded(w: seq<Byte>)
    requires |w| == FrameSize && w[..PayloadOffset] == Marker
    ensures Accepts(w) <==> w == Encode(Payload(w))
  {
    var p := Payload(w);
    assert w[..CrcOffset] == Marker + p;
    if Accepts(w) {
      BigEndianOfReceived(w[14], w[15]);
      assert w == w[..CrcOffset] + [w[14], w[15]];
    }
    if w == Encode(p) {
      EncodeAccepted(p);
    }
  }

  /**
    Changing any single byte of an accepted window (and so any single bit)
    makes it rejected: in the first 14 bytes the computed checksum changes,
    in the last two the carried one does.
  */
  lemma CorruptedWindowRejected(w: seq<Byte>, v: seq<Byte>, k: nat)
    requires |w| == FrameSize && |v| == FrameSize && k < FrameSize
    requires w[k] != v[k]
    requires forall i :: 0 <= i < FrameSize && i != k ==> w[i] == v[i]
    requires Accepts(w)
    ensures !Accepts(v)
  {
    if k < CrcOffset {
      SingleByteErrorDetected(w[..CrcOffset], v[..CrcOffset], k);
      assert ReceivedCrc(w) == ReceivedCrc(v);
    } else {
      assert w[..CrcOffset] == v[..CrcOffset];
      BigEndianOfReceived(w[14], w[15]);
      BigEndianOfReceived(v[14], v[15]);
    }
  }
}
