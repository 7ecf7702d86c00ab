/** The handle of tf_io.c: its calls, byte by byte through packet, bus and device, proved to do what
    the step functions of Protocol say. */
module Handles {
  import opened Bytes
  import opened Folds
  import opened Crc16
  import opened Frames
  import opened Integrity
  import opened Packets
  import opened Requests
  import opened Devices
  import opened Dirents
  import opened Protocol
  import Mjd
  import Usb

  // ---- What a device makes of the bytes of one transfer

  /** A device takes a transfer for a message if it is whole and its CRC is right. */
  function Absorb(d: Peer, r: seq<byte>): Peer {
    if Framed(r) && Decode(r, false).Received? then Hear(d, Decode(r, false).frame) else d
  }

  /** The transfer of TransferSize bytes of a buffer that starts with a sealed frame. */
  lemma TransferCoversWire(f: Frame)
    requires Sendable(f)
    ensures |Wire(f)| <= TransferSize(Length(f))
    ensures Length(f) % 2 == 0 && Length(f) % 64 != 0 ==> |Wire(f)| == TransferSize(Length(f)) == Length(f)
  {
  }

  // ---- What the bus did, and what the log says of it

  /** How a send went, from the bytes that were written. */
  function ArrivedAs(f: Frame, written: seq<byte>): SendEnv {
    if |written| == TransferSize(Length(f)) then Delivered
    else if Framed(written) && Decode(written, false).Received? then Late
    else Lost
  }

  /** How a read went, from the number of bytes it brought of what was offered. */
  function Brought(offered: seq<byte>, n: nat): ReadEnv
    requires n <= |offered|
  {
    if n == 0 then Silent
    else if n == |offered| || Complete(offered[..n]) then Heard
    else Broken
  }

  /** Two byte strings agree as far as both go. */
  predicate Agree(s: seq<byte>, t: seq<byte>) {
    if |s| <= |t| then s <= t else t <= s
  }

  /** An event of the log is what happened in a transfer. */
  predicate Bears(e: Event, t: Usb.Transfer) {
    match e
    case Sent(f, went) =>
      && Sendable(f) && t.Out? && t.length == TransferSize(Length(f)) && |t.written| <= t.length
      && Agree(t.written, Wire(f)) && went == ArrivedAs(f, t.written)
    case Read(_, went) => t.In? && t.read <= t.offered && went == Brought(t.offered, |t.read|)
  }

  /** Every event of the log happened on the bus, and nothing else did. */
  ghost predicate Told(log: seq<Event>, ts: seq<Usb.Transfer>) {
    |log| == |ts| && forall i {:trigger Bears(log[i], ts[i])} :: 0 <= i < |log| ==> Bears(log[i], ts[i])
  }

  lemma ToldMore(log: seq<Event>, ts: seq<Usb.Transfer>, e: Event, t: Usb.Transfer)
    requires Told(log, ts) && Bears(e, t)
    ensures Told(log + [e], ts + [t])
  {
    forall i | 0 <= i < |log + [e]| ensures Bears((log + [e])[i], (ts + [t])[i]) {
      if i < |log| {
        assert Bears(log[i], ts[i]);
      }
    }
  }

  /** What one write came to: some of the bytes, or all. What is missing the kernel refused. */
  ghost predicate Wrote(ts: seq<Usb.Transfer>, rs0: seq<int>, rs: seq<int>, bytes: seq<byte>, all: bool) {
    && ts != []
    && var t := ts[|ts| - 1];
    && t.Out? && t.length == |bytes| && t.written <= bytes
    && (all <==> t.written == bytes)
    && (!all ==> Usb.EndedWith(rs0, rs, 0))
  }

  /** What one read came to: some of what was offered. What is missing the kernel failed to bring. */
  ghost predicate Collected(ts: seq<Usb.Transfer>, rs0: seq<int>, rs: seq<int>, offered: seq<byte>) {
    && ts != []
    && var t := ts[|ts| - 1];
    && t.In? && t.offered == offered && t.read <= offered
    && (t.read != offered ==> Usb.EndedWith(rs0, rs, -1))
  }

  /** All of the frame arrived, padding or not. */
  lemma ArrivesWhole(d: Peer, f: Frame, s: seq<byte>, n: nat)
    requires Sendable(f) && |Wire(f)| <= n <= |s| && s[..|Wire(f)|] == Wire(f)
    ensures Absorb(d, s[..n]) == Hear(d, f) && ArrivedAs(f, s[..n]) != Lost
  {
    var tail := s[|Wire(f)|..n];
    assert s[..n] == Wire(f) + tail;
    RoundTrip(f, tail, false);
  }

  /** Not all of it arrived: it is ignored, or else taken for what it was. */
  lemma ArrivesPart(d: Peer, f: Frame, n: nat)
    requires Sendable(f) && n < |Wire(f)|
    ensures var r := Wire(f)[..n];
      && Absorb(d, r) == (if ArrivedAs(f, r) == Lost then d else Hear(d, f))
      && ArrivedAs(f, r) != Delivered
      && (Length(f) % 2 == 0 ==> ArrivedAs(f, r) == Lost)
  {
    TransferCoversWire(f);
    Truncated(f, n);
  }

  // ---- The prepared acknowledgement

  const SUCCESS_PACKET: seq<byte> := [0x08, 0x00, 0x81, 0xC1, 0x00, 0x00, 0x02, 0x00]

  lemma StepZero()
    ensures ByteStep(0, 0) == 0
  {
    assert Bv(0) == 0;
    assert Steps(0, 8) == 0;
  }

  lemma StepTwo()
    ensures ByteStep(0, 2) == 0xC181
  {
    assert Bv(2) == 2;
    assert Steps(2, 8) == 0xC181;
  }

  lemma SuccessCrc()
    ensures Crc(0, [0, 0, 0, 2]) == 0xC181
  {
    StepZero();
    StepTwo();
    var s: seq<byte> := [0, 0, 0, 2];
    assert s[1..] == [0, 0, 2] && s[1..][1..] == [0, 2] && s[1..][1..][1..] == [2] && s[1..][1..][1..][1..] == [];
    assert Fold(ByteStep, 0, s) == Fold(ByteStep, ByteStep(0, 0), s[1..]);
    assert Fold(ByteStep, 0, s[1..]) == Fold(ByteStep, ByteStep(0, 0), s[1..][1..]);
    assert Fold(ByteStep, 0, s[1..][1..]) == Fold(ByteStep, ByteStep(0, 0), s[1..][1..][1..]);
    assert Fold(ByteStep, 0, [2]) == Fold(ByteStep, ByteStep(0, 2), [2][1..]);
  }

  lemma CrcNumber()
    ensures Number(0xC181) == 0xC181
  {
  }

  /** The eight constant bytes of tf_send_success are a sealed SUCCESS frame. */
  lemma SuccessPacket()
    ensures Wire(SUCCESS) == SUCCESS_PACKET
  {
    SuccessCrc();
    CrcNumber();
    assert Body(SUCCESS) == [0, 0, 0, 2];
    assert Image(SUCCESS) + Pad(8) == [0x00, 0x08, 0xC1, 0x81, 0x00, 0x00, 0x00, 0x02];
  }

  /** A reply as tf_get_response leaves it. */
  class Reply {
    const buf: array<byte>
    var length: nat
    var cmd: u32

    constructor ()
      ensures fresh(buf) && buf.Length == STRUCT_SIZE
    {
      buf := new byte[STRUCT_SIZE];
      length := 0;
      cmd := 0;
    }

    ghost predicate Holds(f: Frame)
      reads this, buf
    {
      && buf.Length == STRUCT_SIZE && length == Length(f) <= MAXIMUM_PACKET_SIZE && cmd == f.cmd
      && buf[HEAD_SIZE..length] == f.data
    }
  }

  lemma FilledBuffer(b: seq<byte>, r: seq<byte>, k: nat)
    requires |r| <= |b| && k <= |b| && b[..|r|] == r && forall i :: |r| <= i < |b| ==> b[i] == 0
    ensures b[..k] == Filled(r, k)
  {
    forall i | 0 <= i < k ensures b[i] == Filled(r, k)[i] {
      if i < |r| {
        assert b[i] == b[..|r|][i];
      }
    }
  }

  /** Checks and restores in place the n bytes read into a cleared buffer. */
  method DecodeInPlace(reply: Reply, n: nat, nocrc: bool, ghost r: seq<byte>) returns (error: int)
    requires reply.buf.Length == STRUCT_SIZE && n == |r| <= STRUCT_SIZE && Framed(r)
    requires reply.buf[..n] == r && forall k :: n <= k < STRUCT_SIZE ==> reply.buf[k] == 0
    modifies reply, reply.buf
    ensures error == ErrorOf(Decode(r, nocrc))
    ensures Decode(r, nocrc).Received? ==> reply.Holds(Decode(r, nocrc).frame)
  {
    if n < HEAD_SIZE {
      return TF_ERR_IO;
    }
    assert reply.buf[0] == r[0] && reply.buf[1] == r[1];
    var len: nat := Get16Raw(reply.buf[..2], 0);
    if n < len {
      return TF_ERR_IO;
    }
    FilledBuffer(reply.buf[..], r, len + len % 2);
    assert reply.buf[..][..len + len % 2] == reply.buf[..len + len % 2];
    ByteSwap(reply.buf, len + len % 2);
    error := Inspect(reply, len, nocrc, Restored(r));
  }

  /** What is received from a device brings the data its command stands for. */
  lemma ReceivedMeaningful(d: Peer, went: ReadEnv, nocrc: bool)
    requires Listen(d, went, nocrc).1.Received?
    ensures Meaningful(Listen(d, went, nocrc).1)
  {
    if d.Conforming? {
      RoundTrip(d.out[0], [], nocrc);
      assert Wire(d.out[0]) + [] == Wire(d.out[0]);
    } else {
      assert d.replies[0] in d.replies;
    }
  }

  /** The code of a failure message, read from the reply buffer. */
  method FailureIn(reply: Reply, ghost g: Frame) returns (code: int)
    requires reply.Holds(g) && |g.data| >= 4
    ensures code == FailCode(g)
  {
    assert reply.buf[8..12] == g.data[..4];
    code := Negated(Get32(reply.buf[8..12], 0));
  }

  /** The file description in the reply buffer. */
  method DescriptionIn(reply: Reply, ghost g: Frame) returns (d: Dirent)
    requires reply.Holds(g) && Describes(g.data)
    ensures d == Unpack(g.data)
  {
    assert reply.buf[8..8 + TYPEFILE_SIZE] == g.data[..TYPEFILE_SIZE];
    UnpackPrefix(g.data);
    d := UnpackDirent(reply.buf, 8);
  }

  /** The offset and the bytes of a data frame in the reply buffer. */
  method BufferIn(reply: Reply, ghost g: Frame) returns (b: Buffer)
    requires reply.Holds(g) && |g.data| >= 8
    ensures b == Buffer(Get64(Filled(g.data, 8), 0), g.data[8..])
  {
    assert reply.buf[8..16] == g.data[..8];
    var size := reply.length - (HEAD_SIZE + 8);
    assert reply.buf[16..16 + size] == g.data[8..];
    b := Buffer(Get64(reply.buf[8..16], 0), reply.buf[16..16 + size]);
  }

  /** Checks the CRC of a restored reply and notes its length and command. */
  method Inspect(reply: Reply, len: nat, nocrc: bool, ghost s: seq<byte>) returns (error: int)
    requires reply.buf.Length == STRUCT_SIZE
    requires HEAD_SIZE <= len <= MAXIMUM_PACKET_SIZE && |s| == len + len % 2 && reply.buf[..|s|] == s
    modifies reply
    ensures error == if nocrc || Get16(s, 2) == Checksum(s[4..len]) then TF_ERR_NONE else TF_ERR_CRC
    ensures reply.Holds(Frame(Get32(s, 4), s[HEAD_SIZE..len]))
  {
    error := TF_ERR_NONE;
    FieldsOf(reply.buf[..], s, len);
    assert reply.buf[..4] == reply.buf[..][..4] && reply.buf[4..8] == reply.buf[..][4..8];
    if !nocrc {
      var crc := Get16(reply.buf[..4], 2);
      var computed := Crc16Ansi(0, reply.buf, 4, len - 4);
      assert reply.buf[4..4 + (len - 4)] == reply.buf[..][4..len];
      if crc != Number(computed) {
        error := TF_ERR_CRC;
      }
    }
    reply.length := len;
    reply.cmd := Get32(reply.buf[4..8], 0);
  }

  /** The fields of a buffer that starts with s. */
  lemma FieldsOf(b: seq<byte>, s: seq<byte>, len: nat)
    requires HEAD_SIZE <= len <= |s| <= |b| && b[..|s|] == s
    ensures Get16(b[..4], 2) == Get16(s, 2) && Get32(b[4..8], 0) == Get32(s, 4)
    ensures b[4..len] == s[4..len] && b[8..len] == s[8..len]
  {
    forall k | 0 <= k < |s| ensures b[k] == s[k] {
      assert b[..|s|][k] == b[k];
    }
    assert b[..4][2] == b[2] && b[..4][3] == b[3];
  }

  // ---- Requests, built in a packet

  method BuildOpen(direction: byte, path: CString, offset: u64) returns (req: Packet)
    requires PathFits(path) && Sendable(RequestFrame(Send(direction, path, offset)))
    ensures fresh(req) && fresh(req.buf) && req.Sealed(RequestFrame(Send(direction, path, offset)))
  {
    req := new Packet();
    req.Init(TF_MSG_HDD_FILE_SEND);
    req.Put8(direction);
    assert req.Content().data == [direction] && req.length == 9;
    req.PutFilename(path, true);
    req.Put64(offset);
    ghost var f := req.Content();
    assert f.data == RequestFrame(Send(direction, path, offset)).data;
    req.Done();
  }

  method BuildPlain(cmd: u32, data: seq<byte>) returns (req: Packet)
    requires Sendable(Frame(cmd, data))
    ensures fresh(req) && fresh(req.buf) && req.Sealed(Frame(cmd, data))
  {
    req := new Packet();
    req.Init(cmd);
    req.PutData(data);
    assert [] + data == data;
    req.Done();
  }

  method BuildData(b: Buffer) returns (req: Packet)
    requires b.offset < 0x1_0000_0000_0000_0000 && Sendable(DataFrame(b))
    ensures fresh(req) && fresh(req.buf) && req.Sealed(DataFrame(b))
  {
    req := new Packet();
    req.Init(TF_MSG_HDD_FILE_DATA);
    req.Put64(b.offset);
    req.PutData(b.data);
    assert [] + Be64(b.offset) + b.data == DataFrame(b).data;
    req.Done();
  }

  method PreparedSuccess() returns (packet: array<byte>)
    ensures fresh(packet) && packet.Length == 8 && packet[..] == Wire(SUCCESS)
  {
    packet := new byte[8] [0x08, 0x00, 0x81, 0xC1, 0x00, 0x00, 0x02, 0x00];
    assert packet[..] == SUCCESS_PACKET;
    SuccessPacket();
  }

  method BuildFail(reason: u32) returns (req: Packet)
    ensures fresh(req) && fresh(req.buf) && req.Sealed(Fail(reason))
  {
    req := new Packet();
    req.Init(TF_MSG_FAIL);
    req.Put32(reason);
    assert [] + Be32(reason) == Be32(reason);
    req.Done();
  }

  method BuildEmpty(cmd: u32) returns (req: Packet)
    ensures fresh(req) && fresh(req.buf) && req.Sealed(Frame(cmd, []))
  {
    req := new Packet();
    req.Init(cmd);
    req.Done();
  }

  class Handle {
    var connected: bool
    var nocrc: bool
    var pending: bool
    var error: int
    var timeout: int
    const dev: Usb.Pipe
    /** The device at the other end. */
    var peer: Peer
    ghost var log: seq<Event>

    ghost function State(): View
      reads this
    {
      View(connected, nocrc, pending, error, timeout, peer, log)
    }

    /** The log tells what happened on the bus. */
    ghost predicate Valid()
      reads this, dev
    {
      Told(log, dev.transfers)
    }

    constructor (connected: bool, nocrc: bool, timeout: int, peer: Peer)
      ensures Valid() && fresh(dev)
      ensures State() == View(connected, nocrc, false, 0, timeout, peer, [])
    {
      dev := new Usb.Pipe();
      this.connected, this.nocrc, this.timeout, this.peer := connected, nocrc, timeout, peer;
      pending, error, log := false, 0, [];
    }

    /** The length to transmit, from the length in the packet. */
    method PaddedLength(buf: array<byte>, ghost f: Frame) returns (len: nat)
      requires Sendable(f) && |Wire(f)| <= buf.Length && buf[..|Wire(f)|] == Wire(f)
      ensures len == TransferSize(Length(f))
    {
      WireHead(f, []);
      assert Wire(f) + [] == Wire(f);
      assert buf[0] == buf[..|Wire(f)|][0] && buf[1] == buf[..|Wire(f)|][1];
      len := Get16Raw(buf[..2], 0);
      var pad := 0;
      if len % 64 == 0 {
        pad := 2;
      } else if len % 2 == 1 {
        pad := 1;
      }
      len := len + pad;
    }

    /** Writes a transfer to the bus and lets the device have what arrived. */
    method Transmit(buf: array<byte>, len: nat, ghost f: Frame) returns (n: nat, ghost went: SendEnv)
      requires Valid() && Sendable(f) && len == TransferSize(Length(f)) <= buf.Length && buf[..|Wire(f)|] == Wire(f)
      modifies this`peer, this`log, dev
      ensures Valid()
      ensures |dev.transfers| == |old(dev.transfers)| + 1
      ensures Wrote(dev.transfers, old(dev.results), dev.results, buf[..len], n == len)
      ensures went == Delivered <==> n == len
      ensures peer == (if went == Lost then old(peer) else Hear(old(peer), f)) && log == old(log) + [Sent(f, went)]
      ensures Length(f) % 2 == 0 && Length(f) % 64 != 0 ==> went != Late
    {
      TransferCoversWire(f);
      n := Usb.BulkWrite(dev, buf, 0, len);
      ghost var written := buf[..n];
      assert buf[0..0 + n] == written && buf[..][..n] == written && buf[..len][..n] == written;
      went := ArrivedAs(f, written);
      Arrival(peer, f, buf[..], n);
      ToldMore(log, old(dev.transfers), Sent(f, went), Usb.Out(written, len));
      peer := Absorb(peer, buf[..n]);
      log := log + [Sent(f, went)];
    }

    /** tf_send: transmits a sealed packet, and succeeds exactly if the bus took all of it. When it
        did not, that was the kernel's doing. A frame that needs no padding is never late. */
    method Send(buf: array<byte>, ghost f: Frame) returns (ret: int, ghost went: SendEnv)
      requires Valid() && Sendable(f) && TransferSize(Length(f)) <= buf.Length && buf[..|Wire(f)|] == Wire(f)
      modifies this`error, this`peer, this`log, dev
      ensures Valid() && (State(), ret) == SendStep(old(State()), f, went)
      ensures Length(f) % 2 == 0 && Length(f) % 64 != 0 ==> went != Late
      ensures !connected ==> dev.transfers == old(dev.transfers)
      ensures connected ==> |dev.transfers| == |old(dev.transfers)| + 1
      ensures connected ==> Wrote(dev.transfers, old(dev.results), dev.results, buf[..TransferSize(Length(f))], ret == 0)
    {
      went := Lost;
      if connected {
        var len := PaddedLength(buf, f);
        var n;
        n, went := Transmit(buf, len, f);
        error := if n == len then TF_ERR_NONE else TF_ERR_IO;
      } else {
        error := TF_ERR_NOCONN;
      }
      ret := error;
    }

    /** What the device is sending. */
    ghost function Offered(): seq<byte>
      reads this
    {
      if Speaks(peer) then Next(peer) else []
    }

    /** Reads the device's next transfer, or part of it, into a cleared buffer. */
    method Collect(buf: array<byte>) returns (n: nat, ghost went: ReadEnv)
      requires Valid() && buf.Length == STRUCT_SIZE
      modifies this`peer, this`log, dev, buf
      ensures Valid()
      ensures n <= |old(Offered())| && Framed(old(Offered())[..n]) && Usb.Arrived(buf, old(Offered()), n)
      ensures dev.transfers == old(dev.transfers) + [Usb.In(old(Offered())[..n], old(Offered()))] && went == Brought(old(Offered()), n)
      ensures n < |old(Offered())| ==> Usb.EndedWith(old(dev.results), dev.results, -1)
      ensures Listen(old(peer), went, nocrc) == (peer, Decode(old(Offered())[..n], nocrc))
      ensures log == old(log) + [Read(timeout, went)]
    {
      ghost var offered := Offered();
      dev.incoming := if Speaks(peer) then Next(peer) else [];
      n := Usb.BulkRead(dev, buf);
      went := Brought(offered, n);
      if Speaks(peer) {
        Hearing(peer, n, nocrc);
      } else {
        assert offered[..n] == [];
      }
      ToldMore(log, old(dev.transfers), Read(timeout, went), Usb.In(offered[..n], offered));
      peer := if Speaks(peer) && n > 0 then Spoken(peer) else peer;
      log := log + [Read(timeout, went)];
    }

    /** tf_get_response: reads the device's next transfer into the reply. Less than all of it arrives
        only if a kernel call failed. */
    method GetResponse(reply: Reply) returns (ret: int, ghost went: ReadEnv, ghost f: Frame)
      requires Valid() && reply.buf.Length == STRUCT_SIZE
      modifies this`error, this`peer, this`log, dev, reply, reply.buf
      ensures Valid() && (State(), ret, f) == ReceiveStep(old(State()), went)
      ensures ret == 0 ==> reply.Holds(f) && Meaningful(Received(f))
      ensures !connected ==> dev.transfers == old(dev.transfers)
      ensures connected ==> |dev.transfers| == |old(dev.transfers)| + 1
      ensures connected ==> Collected(dev.transfers, old(dev.results), dev.results, old(Offered()))
    {
      went, f := Silent, SUCCESS;
      if connected {
        ghost var offered, before := Offered(), peer;
        var n;
        n, went := Collect(reply.buf);
        ghost var r := offered[..n];
        error := DecodeInPlace(reply, n, nocrc, r);
        if Decode(r, nocrc).Received? {
          ReceivedMeaningful(before, went, nocrc);
          f := Decode(r, nocrc).frame;
        }
      } else {
        error := TF_ERR_NOCONN;
      }
      ret := error;
    }

    /** Sends a request that has been sealed. */
    method SendPacket(req: Packet, ghost f: Frame) returns (ret: int, ghost went: SendEnv)
      requires Valid() && req.Sealed(f)
      modifies this`error, this`peer, this`log, dev
      ensures Valid() && (State(), ret) == SendStep(old(State()), f, went)
      ensures Length(f) % 2 == 0 && Length(f) % 64 != 0 ==> went != Late
    {
      TransferShape(Length(f));
      ret, went := Send(req.buf, f);
    }

    /** Sends a packet that holds nothing but a frame without data. */
    method SendEmpty(buf: array<byte>, ghost f: Frame) returns (ret: int, ghost went: SendEnv)
      requires Valid() && f.data == [] && buf[..] == Wire(f)
      modifies this`error, this`peer, this`log, dev
      ensures Valid() && (State(), ret) == SendStep(old(State()), f, went) && went != Late
    {
      assert buf[..|Wire(f)|] == Wire(f);
      ret, went := Send(buf, f);
    }

    /** tf_send_success. */
    method SendSuccess() returns (ret: int, ghost went: SendEnv)
      requires Valid()
      modifies this`error, this`peer, this`log, dev
      ensures Valid() && (State(), ret) == SendStep(old(State()), SUCCESS, went) && went != Late
    {
      var packet := PreparedSuccess();
      ret, went := SendEmpty(packet, SUCCESS);
    }

    /** tf_send_fail. */
    method SendFail(reason: u32) returns (ret: int, ghost went: SendEnv)
      requires Valid()
      modifies this`error, this`peer, this`log, dev
      ensures Valid() && (State(), ret) == SendStep(old(State()), Fail(reason), went) && went != Late
    {
      var req := BuildFail(reason);
      ret, went := SendPacket(req, Fail(reason));
    }

    /** Takes a reply for an answer: SUCCESS, a failure and its code, or unexpected. */
    method SettleReply(reply: Reply, ghost g: Frame) returns (ret: int)
      requires Valid() && reply.Holds(g) && Meaningful(Received(g)) && error == 0
      modifies this`error
      ensures Valid() && (State(), ret) == Settle(old(State()), 0, g)
    {
      ret := TF_ERR_NONE;
      if reply.cmd == TF_MSG_FAIL {
        error := FailureIn(reply, g);
        ret := error;
      } else if reply.cmd != TF_MSG_SUCCESS {
        error := TF_ERR_UNEXPECTED;
        ret := error;
      }
    }

    /** tf_cmd: sends a request and expects SUCCESS. */
    method Cmd(req: Packet, ghost f: Frame) returns (ret: int, ghost send: SendEnv, ghost read: ReadEnv)
      requires Valid() && req.Sealed(f)
      modifies this`error, this`peer, this`log, dev
      ensures Valid() && (State(), ret) == CmdStep(old(State()), f, send, read)
    {
      read := Silent;
      ret, send := SendPacket(req, f);
      if ret == 0 {
        var reply := new Reply();
        ghost var g;
        ret, read, g := GetResponse(reply);
        if ret == 0 {
          ret := SettleReply(reply, g);
        }
      }
    }

    /** tf_cmd_cancel. */
    method CmdCancel() returns (ret: int, ghost send: SendEnv, ghost read: ReadEnv)
      requires Valid()
      modifies this`error, this`peer, this`log, dev
      ensures Valid() && (State(), ret) == CmdStep(old(State()), CANCEL, send, read)
    {
      var req := BuildEmpty(TF_MSG_CANCEL);
      ret, send, read := Cmd(req, CANCEL);
    }

    /** Sends the request to open a transfer. */
    method Ask(direction: byte, path: CString, offset: u64) returns (ret: int, ghost send: SendEnv)
      requires Valid() && PathFits(path) && Sendable(RequestFrame(Request.Send(direction, path, offset)))
      modifies this`error, this`peer, this`log, dev
      ensures Valid() && (State(), ret) == SendStep(old(State()), RequestFrame(Request.Send(direction, path, offset)), send)
    {
      var req := BuildOpen(direction, path, offset);
      ret, send := SendPacket(req, RequestFrame(Request.Send(direction, path, offset)));
    }

    /** tf_cmd_get: asks for a file. If it comes, its description replaces what the caller's entry held. */
    method CmdGet(path: CString, offset: u64, before: Dirent)
      returns (ret: int, dirent: Dirent, ghost send: SendEnv, ghost read: ReadEnv, ghost g: Frame)
      requires Valid() && PathFits(path) && Sendable(RequestFrame(Request.Send(DIR_GET, path, offset)))
      modifies this`error, this`peer, this`log, dev
      ensures Valid() && (State(), ret, g) == GetStep(old(State()), path, offset, send, read)
      ensures ret == 0 && g.cmd == TF_MSG_HDD_FILE_START ==> Describes(g.data)
      ensures dirent == if ret == 0 && g.cmd == TF_MSG_HDD_FILE_START then Unpack(g.data) else before
    {
      read, g, dirent := Silent, SUCCESS, before;
      ret, send := Ask(DIR_GET, path, offset);
      if ret == 0 {
        var reply := new Reply();
        ret, read, g := GetResponse(reply);
        if ret == 0 {
          if reply.cmd == TF_MSG_HDD_FILE_START {
            dirent := DescriptionIn(reply, g);
          } else if reply.cmd == TF_MSG_FAIL {
            ret := FailureIn(reply, g);
          } else {
            ret := TF_ERR_UNEXPECTED;
          }
        }
      }
    }

    /** Acknowledges a data frame and hands out what it brought. */
    method TakeData(reply: Reply, ghost g: Frame) returns (b: Buffer, ghost early: SendEnv)
      requires Valid() && reply.Holds(g) && |g.data| >= 8
      modifies this`error, this`pending, this`peer, this`log, dev
      ensures Valid() && (State().(error := 0), 0, b) == TakeStep(old(State()), g, early)
      ensures early != Late
    {
      var sent;
      sent, early := SendSuccess();
      pending := sent == 0;
      b := BufferIn(reply, g);
    }

    /** Reads the reply to an acknowledgement and, if it brings data or the end, acknowledges it right away. */
    method NextReply(reply: Reply) returns (ret: int, b: Buffer, ghost read: ReadEnv, ghost early: SendEnv)
      requires Valid() && reply.buf.Length == STRUCT_SIZE && !pending
      modifies this`error, this`pending, this`peer, this`log, dev, reply, reply.buf
      ensures Valid() && (State(), ret, b) == NextReplyStep(old(State()), read, early)
      ensures early != Late
    {
      ghost var g;
      b, early := NO_BUFFER, Lost;
      ret, read, g := GetResponse(reply);
      if ret == 0 {
        if reply.cmd == TF_MSG_HDD_FILE_END {
          var sent;
          sent, early := SendSuccess();
          ret := TF_ERR_DONE;
        } else if reply.cmd == TF_MSG_HDD_FILE_DATA {
          b, early := TakeData(reply, g);
        } else if reply.cmd == TF_MSG_FAIL {
          ret := TF_ERR_IO;
        } else {
          ret := TF_ERR_UNEXPECTED;
        }
      }
      error := ret;
    }

    /** tf_cmd_get_next: the next buffer of a file. */
    method CmdGetNext(reply: Reply) returns (ret: int, b: Buffer, ghost e: NextEnv)
      requires Valid() && reply.buf.Length == STRUCT_SIZE
      modifies this`error, this`pending, this`peer, this`log, dev, reply, reply.buf
      ensures Valid() && (State(), ret, b) == GetNextStep(old(State()), e)
      ensures e.ack != Late && e.early != Late
    {
      ret, b := 0, NO_BUFFER;
      ghost var ack, read, early := Lost, Silent, Lost;
      if !pending {
        ret, ack := SendSuccess();
      }
      pending := false;
      if ret == 0 {
        ret, b, read, early := NextReply(reply);
      }
      e := NextEnv(ack, read, early);
      error := ret;
    }

    /** One turn of the loop in tf_cmd_get_cancel. */
    method CancelAttempt() returns (ret: int, ghost e: AttemptEnv)
      requires Valid()
      modifies this`error, this`peer, this`log, dev
      ensures Valid() && (State(), ret) == AttemptStep(old(State()), e)
    {
      ghost var fail, send, read, again := Lost, Lost, Silent, Silent;
      var failed;
      failed, fail := SendFail(0xFFFF_FFFF);
      ret, send, read := CmdCancel();
      if ret != 0 {
        var reply := new Reply();
        ghost var g;
        ret, again, g := GetResponse(reply);
      }
      e := AttemptEnv(fail, send, read, again);
    }

    /** tf_cmd_get_cancel: drops a pending reply and tries to cancel, five times at most. */
    method CmdGetCancel() returns (ret: int, ghost drained: ReadEnv, ghost es: seq<AttemptEnv>)
      requires Valid()
      modifies this`error, this`pending, this`peer, this`log, dev
      ensures 1 <= |es| <= 5 && (ret != 0 ==> |es| == 5)
      ensures Valid() && (State(), ret) == Attempts(DrainStep(old(State()), drained), es)
      ensures !pending
    {
      ret, drained, es := 0, Silent, [];
      if pending {
        var reply := new Reply();
        pending := false;
        ghost var g;
        var got;
        got, drained, g := GetResponse(reply);
      }
      ghost var start := State();
      assert start == DrainStep(old(State()), drained);
      var i := 0;
      while i < 5
        invariant 0 <= i <= 5 && |es| == i
        invariant i == 0 ==> State() == start
        invariant i > 0 ==> (State(), ret) == Attempts(start, es) && ret != 0
        invariant !pending && Valid()
      {
        ghost var e;
        ret, e := CancelAttempt();
        AttemptsAppend(start, es, e);
        es := es + [e];
        if ret == 0 {
          break;
        }
        i := i + 1;
      }
    }

    /** Sends a description and expects SUCCESS. */
    method Announce(typefile: array<byte>, ghost description: seq<byte>)
      returns (ret: int, ghost start: SendEnv, ghost started: ReadEnv)
      requires Valid() && typefile[..] == description && |description| == TYPEFILE_SIZE
      modifies this`error, this`peer, this`log, dev
      ensures Valid() && (State(), ret) == StartStep(old(State()), description, start, started)
    {
      started := Silent;
      var req := BuildPlain(TF_MSG_HDD_FILE_START, typefile[..]);
      ret, start := SendPacket(req, Frame(TF_MSG_HDD_FILE_START, description));
      if ret == 0 {
        var reply := new Reply();
        ghost var g;
        ret, started, g := GetResponse(reply);
        if ret == 0 && reply.cmd != TF_MSG_SUCCESS {
          ret := TF_ERR_UNEXPECTED;
        }
      }
    }

    /** Fills in the description of a file and sends it. */
    method Describe(path: CString, size: u64, tm: Mjd.Tm, littleEndian: bool)
      returns (ret: int, ghost start: SendEnv, ghost started: ReadEnv, ghost garbage: seq<byte>)
      requires Valid() && TimeFits(tm)
      modifies this`error, this`peer, this`log, dev
      ensures |garbage| == NAME_SIZE
      ensures Valid() && (State(), ret) == StartStep(old(State()), TypeFile(path, size, tm, littleEndian, garbage), start, started)
    {
      var typefile := new byte[TYPEFILE_SIZE];
      garbage := FillTypeFile(typefile, path, size, tm, littleEndian);
      ret, start, started := Announce(typefile, TypeFile(path, size, tm, littleEndian, garbage));
    }

    /** tf_cmd_put: opens a file for writing and sends its description, whose size is in the host's
        byte order and whose name field ends in what was in memory before. */
    method CmdPut(path: CString, size: u64, tm: Mjd.Tm, offset: u64, littleEndian: bool)
      returns (ret: int, ghost e: PutEnv, ghost garbage: seq<byte>)
      requires Valid() && PathFits(path) && Sendable(RequestFrame(Request.Send(DIR_PUT, path, offset)))
      requires TimeFits(tm)
      modifies this`error, this`peer, this`log, dev
      ensures |garbage| == NAME_SIZE
      ensures Valid() && (State(), ret) == PutStep(old(State()), path, TypeFile(path, size, tm, littleEndian, garbage), offset, e)
    {
      ghost var answer, start, started, g := Silent, Lost, Silent, SUCCESS;
      garbage := seq(NAME_SIZE, _ => 0 as byte);
      ghost var open;
      ret, open := Ask(DIR_PUT, path, offset);
      if ret == 0 {
        var reply := new Reply();
        ret, answer, g := GetResponse(reply);
        if ret == 0 {
          if reply.cmd == TF_MSG_SUCCESS {
            ret, start, started, garbage := Describe(path, size, tm, littleEndian);
          } else if reply.cmd == TF_MSG_FAIL {
            ret := FailureIn(reply, g);
          } else {
            ret := TF_ERR_UNEXPECTED;
          }
        }
      }
      e := PutEnv(open, answer, start, started);
    }

    /** Reads a response that may take twice the usual time. */
    method GetResponsePatiently(reply: Reply) returns (ret: int, ghost read: ReadEnv, ghost g: Frame)
      requires Valid() && reply.buf.Length == STRUCT_SIZE
      modifies this`error, this`timeout, this`peer, this`log, dev, reply, reply.buf
      ensures Valid() && (State(), ret, g) == PatientStep(old(State()), read)
      ensures ret == 0 ==> reply.Holds(g)
    {
      var saved := timeout;
      timeout := saved * 2;
      ret, read, g := GetResponse(reply);
      timeout := saved;
    }

    /** tf_cmd_put_data: sends one piece and gives the device twice the time to answer. */
    method CmdPutData(b: Buffer) returns (ret: int, ghost send: SendEnv, ghost read: ReadEnv)
      requires Valid() && b.offset < 0x1_0000_0000_0000_0000 && Sendable(DataFrame(b))
      modifies this`error, this`timeout, this`peer, this`log, dev
      ensures Valid() && (State(), ret) == PutDataStep(old(State()), b, send, read)
      ensures timeout == old(timeout)
    {
      read := Silent;
      var req := BuildData(b);
      ret, send := SendPacket(req, DataFrame(b));
      if ret == 0 {
        var reply := new Reply();
        ghost var g;
        ret, read, g := GetResponsePatiently(reply);
        if ret == 0 {
          if reply.cmd != TF_MSG_SUCCESS {
            ret := TF_ERR_UNEXPECTED;
          }
        }
      }
    }

    /** tf_cmd_put_done: ends the file, and cancels if the device does not confirm. */
    method CmdPutDone() returns (ret: int, ghost e: DoneEnv)
      requires Valid()
      modifies this`error, this`peer, this`log, dev
      ensures Valid() && (State(), ret) == PutDoneStep(old(State()), e)
    {
      e := DoneEnv(Lost, Silent, Lost, Silent);
      var req := BuildEmpty(TF_MSG_HDD_FILE_END);
      ghost var send, read, g;
      ret, send := SendPacket(req, FILE_END);
      e := e.(send := send);
      if ret == 0 {
        var reply := new Reply();
        ret, read, g := GetResponse(reply);
        e := e.(read := read);
        if ret == 0 && reply.cmd != TF_MSG_SUCCESS {
          ret := TF_ERR_UNEXPECTED;
        }
        if ret != 0 {
          ghost var cancel, cancelled;
          var unused;
          unused, cancel, cancelled := CmdCancel();
          e := e.(cancel := cancel, cancelled := cancelled);
        }
      }
    }
  }

  /** A whole read of the device's next transfer. */
  lemma HearingWhole(d: Peer, nocrc: bool)
    requires Speaks(d) && Next(d) != []
    ensures Listen(d, Heard, nocrc) == (Spoken(d), Decode(Next(d), nocrc))
  {
  }

  /** An even part of a transfer that is not all of it: whole as far as was declared, or short. */
  lemma BroughtDecodes(w: seq<byte>, n: nat, nocrc: bool)
    requires 0 < n < |w| && n % Usb.MAX_READ == 0 && Framed(w)
    ensures Framed(w[..n]) && Brought(w, n) == (if Complete(w[..n]) then Heard else Broken)
    ensures Decode(w[..n], nocrc) == if Complete(w[..n]) then Decode(w, nocrc) else ShortRead
  {
    assert n % 2 == 0;
    DecodeCut(w, n, nocrc);
  }

  /** A read that came up short brings all that was declared or nothing of use. */
  lemma HearingCut(d: Peer, n: nat, nocrc: bool)
    requires Speaks(d) && 0 < n < |Next(d)| && n % Usb.MAX_READ == 0
    ensures Framed(Next(d)[..n])
    ensures Listen(d, Brought(Next(d), n), nocrc) == (Spoken(d), Decode(Next(d)[..n], nocrc))
  {
    BroughtDecodes(Next(d), n, nocrc);
  }

  /** A read of n bytes of the device's next transfer. */
  lemma Hearing(d: Peer, n: nat, nocrc: bool)
    requires Speaks(d) && n <= |Next(d)| && (n < |Next(d)| ==> n % Usb.MAX_READ == 0)
    ensures Framed(Next(d)[..n])
    ensures Listen(d, Brought(Next(d), n), nocrc) == (if n == 0 then d else Spoken(d), Decode(Next(d)[..n], nocrc))
  {
    if n == 0 {
    } else if n == |Next(d)| {
      assert Next(d)[..n] == Next(d);
      HearingWhole(d, nocrc);
    } else {
      HearingCut(d, n, nocrc);
    }
  }

  /** A send of which n bytes arrived. */
  lemma Arrival(d: Peer, f: Frame, s: seq<byte>, n: nat)
    requires Sendable(f) && n <= TransferSize(Length(f)) <= |s| && |Wire(f)| <= |s| && s[..|Wire(f)|] == Wire(f)
    ensures Agree(s[..n], Wire(f))
    ensures Absorb(d, s[..n]) == if ArrivedAs(f, s[..n]) == Lost then d else Hear(d, f)
    ensures Length(f) % 2 == 0 && Length(f) % 64 != 0 ==> ArrivedAs(f, s[..n]) != Late
  {
    TransferCoversWire(f);
    if n >= |Wire(f)| {
      assert s[..n][..|Wire(f)|] == Wire(f);
      ArrivesWhole(d, f, s, n);
    } else {
      assert s[..n] == Wire(f)[..n];
      ArrivesPart(d, f, n);
    }
  }
}
