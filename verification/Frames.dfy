/** The wire format of tf_io.c: what a frame looks like in memory and on the bus. */
module Frames {
  import opened Bytes
  import opened Crc16

  const HEAD_SIZE: nat := 8
  const MAXIMUM_PACKET_SIZE: nat := 0xFFFF

  /** sizeof(tf_packet_t): the largest packet and one dummy byte. */
  const STRUCT_SIZE: nat := 0x10000

  datatype Frame = Frame(cmd: u32, data: seq<byte>)

  function Length(f: Frame): nat {
    HEAD_SIZE + |f.data|
  }

  predicate Sendable(f: Frame) {
    Length(f) <= MAXIMUM_PACKET_SIZE
  }

  // ---- Encoding

  /** The CRC of a byte string as a number. */
  function Checksum(data: seq<byte>): u16 {
    Number(Crc(0, data))
  }

  /** The bytes under the CRC. */
  function Body(f: Frame): (r: seq<byte>)
    ensures |r| == Length(f) - 4
  {
    Be32(f.cmd) + f.data
  }

  /** The frame in memory: length, CRC, command, data. */
  function Image(f: Frame): (r: seq<byte>)
    requires Sendable(f)
    ensures |r| == Length(f)
  {
    Be16(Length(f)) + Be16(Checksum(Body(f))) + Body(f)
  }

  function Pad(n: nat): (r: seq<byte>)
    ensures |r| == n % 2
  {
    if n % 2 == 1 then [0] else []
  }

  /** The frame on the bus: an even number of bytes, exchanged in pairs. */
  function Wire(f: Frame): (r: seq<byte>)
    requires Sendable(f)
    ensures |r| == Length(f) + Length(f) % 2
  {
    Swap(Image(f) + Pad(Length(f)))
  }

  // ---- Decoding

  datatype Reception = Received(frame: Frame) | ShortRead | BadCrc(frame: Frame)

  /** The length a transfer declares. */
  function Declared(r: seq<byte>): (n: nat)
    requires |r| >= 2
  {
    Get16Raw(r, 0)
  }

  /** All the bytes the transfer declares have arrived. */
  predicate Complete(r: seq<byte>) {
    |r| >= HEAD_SIZE && |r| >= Declared(r)
  }

  /** A complete transfer declares at least its own header. */
  predicate Framed(r: seq<byte>) {
    Complete(r) ==> Declared(r) >= HEAD_SIZE
  }

  /** The first n bytes of a receive buffer that was cleared before r was read into it. */
  function Filled(r: seq<byte>, n: nat): (s: seq<byte>)
    ensures |s| == n
  {
    if n <= |r| then r[..n] else r + seq(n - |r|, _ => 0 as byte)
  }

  /** The received frame back in memory order. */
  function Restored(r: seq<byte>): (s: seq<byte>)
    requires |r| >= 2
    ensures |s| == Declared(r) + Declared(r) % 2
  {
    Swap(Filled(r, Declared(r) + Declared(r) % 2))
  }

  function Decode(r: seq<byte>, nocrc: bool): Reception
    requires Framed(r)
  {
    if !Complete(r) then
      ShortRead
    else
      var n := Declared(r);
      var s := Restored(r);
      var f := Frame(Get32(s, 4), s[HEAD_SIZE..n]);
      if nocrc || Get16(s, 2) == Checksum(s[4..n]) then Received(f) else BadCrc(f)
  }

  // ---- Round trip

  lemma WireHead(f: Frame, tail: seq<byte>)
    requires Sendable(f)
    ensures Declared(Wire(f) + tail) == Length(f)
  {
    var s := Image(f) + Pad(Length(f));
    assert s[0..2] == Be16(Length(f));
    assert Wire(f)[0] == s[1] && Wire(f)[1] == s[0];
    assert (Wire(f) + tail)[0] == s[1] && (Wire(f) + tail)[1] == s[0];
    Get16Be16(Length(f));
  }

  lemma ImageParts(f: Frame)
    requires Sendable(f)
    ensures Image(f)[2..4] == Be16(Checksum(Body(f)))
    ensures Image(f)[4..8] == Be32(f.cmd)
    ensures Image(f)[4..] == Body(f)
    ensures Image(f)[8..] == f.data
  {
  }

  /** The receiver restores exactly what the sender had, whatever follows it on the bus. */
  lemma RestoredWire(f: Frame, tail: seq<byte>)
    requires Sendable(f)
    ensures Complete(Wire(f) + tail) && Declared(Wire(f) + tail) == Length(f)
    ensures Restored(Wire(f) + tail) == Image(f) + Pad(Length(f))
  {
    WireHead(f, tail);
    assert Filled(Wire(f) + tail, |Wire(f)|) == Wire(f);
    SwapTwice(Image(f) + Pad(Length(f)));
  }

  lemma DecodeImage(f: Frame, r: seq<byte>, nocrc: bool)
    requires Sendable(f) && Complete(r) && Declared(r) == Length(f)
    requires Restored(r)[..Length(f)] == Image(f)
    ensures Decode(r, nocrc) == Received(f)
  {
    var s, n := Restored(r), Length(f);
    ImageParts(f);
    assert s[2..4] == Image(f)[2..4] && s[4..8] == Image(f)[4..8];
    assert s[4..n] == Image(f)[4..] && s[8..n] == Image(f)[8..];
    assert s[2] == s[2..4][0] && s[3] == s[2..4][1];
    Get16Be16(Checksum(Body(f)));
    assert s[4] == s[4..8][0] && s[5] == s[4..8][1] && s[6] == s[4..8][2] && s[7] == s[4..8][3];
    Get32Be32(f.cmd);
  }

  /** Every frame that fits a packet survives padding, byte swapping and decoding, with the CRC
      checked or not, and with any bytes sent after it. */
  lemma RoundTrip(f: Frame, tail: seq<byte>, nocrc: bool)
    requires Sendable(f)
    ensures Framed(Wire(f) + tail)
    ensures Decode(Wire(f) + tail, nocrc) == Received(f)
  {
    RestoredWire(f, tail);
    assert (Image(f) + Pad(Length(f)))[..Length(f)] == Image(f);
    DecodeImage(f, Wire(f) + tail, nocrc);
  }

  /** An even number of bytes of a transfer either lacks some that are declared or decodes like all of it. */
  lemma DecodeCut(r: seq<byte>, n: nat, nocrc: bool)
    requires n <= |r| && n % 2 == 0 && Framed(r)
    ensures Framed(r[..n])
    ensures Decode(r[..n], nocrc) == if Complete(r[..n]) then Decode(r, nocrc) else ShortRead
  {
    if Complete(r[..n]) {
      RestoredCut(r, n);
    }
  }

  lemma RestoredCut(r: seq<byte>, n: nat)
    requires n <= |r| && n % 2 == 0 && Complete(r[..n])
    ensures Declared(r[..n]) == Declared(r) && Restored(r[..n]) == Restored(r)
  {
    var k := Declared(r) + Declared(r) % 2;
    assert r[..n][0] == r[0] && r[..n][1] == r[1];
    assert Filled(r[..n], k) == Filled(r, k);
  }
}
