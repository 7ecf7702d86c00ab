/** The firmware upload of tf_fwio.c: its packet, its checksum and its nested slicing. */
module Firmware {
  import opened Bytes
  import opened Folds
  import Usb

  const MAX_DATA_SIZE: nat := 0x8000
  const MAX_SEND_SIZE: nat := 0x4000
  const HEAD_SIZE: nat := 8
  /** Header, data and one byte for the checksum. */
  const STRUCT_SIZE: nat := 0x8009
  /** The structure and the byte of memory behind it, which is not the packet's. */
  const MEMORY_SIZE: nat := STRUCT_SIZE + 1

  const TF_FW_ID: byte := 0x02
  const TF_FW_PC_TO_STB: byte := 0x01
  const TF_FW_REQ_DATA: byte := 0x04
  const TF_FW_DATA: byte := 0x05
  const TF_FW_END: byte := 0x06

  const TOFI: seq<byte> := [0x54, 0x6F, 0x46, 0x69]

  datatype Frame = Frame(seqno: byte, cmd: byte, data: seq<byte>)

  // ---- Checksum

  function AddByte(sum: byte, b: byte): byte {
    Byte(sum as nat + b as nat)
  }

  function Sum(s: seq<byte>): byte {
    Fold(AddByte, 0, s)
  }

  method CalcChecksum(buf: array<byte>, start: nat, len: nat) returns (sum: byte)
    requires start + len <= buf.Length
    ensures sum == Sum(buf[start..start + len])
  {
    sum := 0;
    var p, n := start, len;
    while n > 0
      invariant p + n == start + len
      invariant Sum(buf[start..start + len]) == Fold(AddByte, sum, buf[p..start + len])
    {
      assert buf[p..start + len][1..] == buf[p + 1..start + len];
      sum := AddByte(sum, buf[p]);
      p, n := p + 1, n - 1;
    }
  }

  lemma SumOfThree(u: seq<byte>, a: byte, v: seq<byte>)
    ensures Sum(u + [a] + v) == Fold(AddByte, AddByte(Sum(u), a), v)
  {
    FoldAppend(AddByte, 0, u + [a], v);
    FoldAppend(AddByte, 0, u, [a]);
    assert [a][1..] == [];
    assert Fold(AddByte, Sum(u), [a]) == Fold(AddByte, AddByte(Sum(u), a), [a][1..]);
  }

  /** The bytes added up without wrapping. */
  function Added(s: seq<byte>): nat {
    if s == [] then 0 else s[0] as nat + Added(s[1..])
  }

  /** The checksum is the sum of the bytes, modulo 256. */
  lemma {:induction false} SumIsAdded(sum: byte, s: seq<byte>)
    ensures Fold(AddByte, sum, s) as nat == (sum as nat + Added(s)) % 0x100
    decreases |s|
  {
    if s != [] {
      SumIsAdded(AddByte(sum, s[0]), s[1..]);
      ModPlus(sum as nat + s[0] as nat, Added(s[1..]));
    }
  }

  lemma ModPlus(a: nat, b: nat)
    ensures (a % 0x100 + b) % 0x100 == (a + b) % 0x100
  {
    assert a == a / 0x100 * 0x100 + a % 0x100;
    assert a + b == a / 0x100 * 0x100 + (a % 0x100 + b);
  }

  lemma AddByteInjective()
    ensures forall p, q, x :: AddByte(p, x) == AddByte(q, x) ==> p == q
    ensures forall p, x, y :: AddByte(p, x) == AddByte(p, y) ==> x == y
  {
  }

  /** A single changed byte changes the sum. */
  lemma SumDetects(u: seq<byte>, a: byte, b: byte, v: seq<byte>)
    requires a != b
    ensures Sum(u + [a] + v) != Sum(u + [b] + v)
  {
    SumOfThree(u, a, v);
    SumOfThree(u, b, v);
    AddByteInjective();
    if Sum(u + [a] + v) == Sum(u + [b] + v) {
      FoldInjective(AddByte, AddByte(Sum(u), a), AddByte(Sum(u), b), v);
    }
  }

  lemma ChangedSum(c: seq<byte>, i: nat, b: byte)
    requires i < |c| && c[i] != b
    ensures Sum(c[i := b]) != Sum(c)
  {
    assert c == c[..i] + [c[i]] + c[i + 1..];
    assert c[i := b] == c[..i] + [b] + c[i + 1..];
    SumDetects(c[..i], c[i], b, c[i + 1..]);
  }

  // ---- Wire format

  /** The bytes under the checksum. */
  function Covered(f: Frame): (r: seq<byte>)
    requires |f.data| <= MAX_DATA_SIZE
    ensures |r| == |f.data| + 4
  {
    [f.seqno, f.cmd] + Be16(|f.data|) + f.data
  }

  function Image(f: Frame): (r: seq<byte>)
    requires |f.data| <= MAX_DATA_SIZE
    ensures |r| == HEAD_SIZE + |f.data| + 1
  {
    TOFI + Covered(f) + [Sum(Covered(f))]
  }

  /** How many bytes tf_send transmits for a packet with n data bytes. */
  function Total(n: nat): (total: nat)
    ensures HEAD_SIZE + n + 1 <= total <= HEAD_SIZE + n + 4
  {
    var len := HEAD_SIZE + n + 1;
    var pad := if len % 2 != 0 then 1 else 0;
    len + if (len + pad) % 0x200 == 0 && pad + len != MAX_SEND_SIZE then pad + 2 else pad
  }

  /** The transmitted size is even, is the one size that is a whole number of 0x200 blocks only
      when it is exactly one full slice, and stays inside the structure for all but the largest data,
      for which it takes one byte from behind it. */
  lemma TotalShape(n: nat)
    requires n <= MAX_DATA_SIZE
    ensures Total(n) % 2 == 0
    ensures Total(n) % 0x200 == 0 <==> Total(n) == MAX_SEND_SIZE
    ensures Total(n) <= STRUCT_SIZE <==> n < MAX_DATA_SIZE
    ensures Total(n) <= MEMORY_SIZE
  {
  }

  /** It is the least size that holds the packet, is even, and is a whole number of 0x200 blocks only
      as one full slice. */
  lemma TotalLeast(n: nat, total: nat)
    requires HEAD_SIZE + n + 1 <= total < Total(n)
    ensures total % 2 != 0 || (total % 0x200 == 0 && total != 0x4000)
  {
    var len := HEAD_SIZE + n + 1;
    if total % 2 == 0 {
      assert total == len + len % 2;
    }
  }

  /** One full slice is not padded. */
  lemma TotalFullSlice()
    ensures Total(0x4000 - 9) == 0x4000 && Total(0x200 - 9) == 0x202
  {
  }

  /** What is transmitted behind the checksum: zeros, or the byte behind the structure. */
  function Padding(n: nat, behind: byte): (r: seq<byte>)
    requires n <= MAX_DATA_SIZE
    ensures |r| == Total(n) - (HEAD_SIZE + n + 1)
  {
    if n == MAX_DATA_SIZE then [behind] else seq(Total(n) - (HEAD_SIZE + n + 1), _ => 0 as byte)
  }

  function Wire(f: Frame, behind: byte): (r: seq<byte>)
    requires |f.data| <= MAX_DATA_SIZE
    ensures |r| == Total(|f.data|)
  {
    Image(f) + Padding(|f.data|, behind)
  }

  /** The receiving end: the frame of a transfer with a good mark, length and checksum. */
  function Parse(r: seq<byte>): (f: Frame)
    requires |r| >= HEAD_SIZE
  {
    var n := Get16(r, 6);
    Frame(r[4], r[5], if HEAD_SIZE + n <= |r| then r[HEAD_SIZE..HEAD_SIZE + n] else [])
  }

  predicate Acceptable(r: seq<byte>) {
    && |r| >= HEAD_SIZE && r[..4] == TOFI
    && var n := Get16(r, 6);
    && |r| > HEAD_SIZE + n && r[HEAD_SIZE + n] == Sum(r[4..HEAD_SIZE + n])
  }

  /** What is transmitted is accepted and is the frame that was built, and any prefix that lacks
      the checksum is not accepted. */
  lemma RoundTrip(f: Frame, behind: byte)
    requires |f.data| <= MAX_DATA_SIZE
    ensures Acceptable(Wire(f, behind)) && Parse(Wire(f, behind)) == f
    ensures forall n :: 0 <= n < |Image(f)| ==> !Acceptable(Wire(f, behind)[..n])
  {
    var w, c := Wire(f, behind), Covered(f);
    assert w[4..8 + |f.data|] == c;
    assert w[6] == c[2] && w[7] == c[3];
    Get16Be16(|f.data|);
    assert w[8..8 + |f.data|] == f.data;
  }

  lemma WireParts(f: Frame, behind: byte)
    requires |f.data| <= MAX_DATA_SIZE
    ensures var w, n := Wire(f, behind), |f.data|;
      w[..4] == TOFI && w[4..8 + n] == Covered(f) && w[8 + n] == Sum(Covered(f)) && Get16(w, 6) == n
  {
    var w, c := Wire(f, behind), Covered(f);
    assert w[6] == c[2] && w[7] == c[3];
    Get16Be16(|f.data|);
  }

  /** Where everything is in a transmitted frame. */
  lemma WireLaid(f: Frame, behind: byte)
    requires |f.data| <= MAX_DATA_SIZE
    ensures var w, n := Wire(f, behind), |f.data|;
      && w[..4] == [0x54, 0x6F, 0x46, 0x69] && w[4] == f.seqno && w[5] == f.cmd
      && Value(w[6..8]) == n && w[8..8 + n] == f.data
      && w[8 + n] as nat == (f.seqno as nat + f.cmd as nat + w[6] as nat + w[7] as nat + Added(f.data)) % 0x100
  {
    var w, n := Wire(f, behind), |f.data|;
    WireParts(f, behind);
    Get16Value(w, 6);
    var c := w[4..8 + n];
    assert w[4] == c[0] && w[5] == c[1] && w[6] == c[2] && w[7] == c[3] && w[8..8 + n] == c[4..];
    SumIsAdded(0, c);
    AddedHead(c);
  }

  lemma AddedHead(c: seq<byte>)
    requires |c| >= 4
    ensures Added(c) == c[0] as nat + c[1] as nat + c[2] as nat + c[3] as nat + Added(c[4..])
  {
    assert c[1..][1..] == c[2..] && c[2..][1..] == c[3..] && c[3..][1..] == c[4..];
    assert Added(c[1..]) == c[1] as nat + Added(c[2..]);
    assert Added(c[2..]) == c[2] as nat + Added(c[3..]);
    assert Added(c[3..]) == c[3] as nat + Added(c[4..]);
  }

  /** Any one changed byte of a transmitted frame, from the sequence number to the checksum and
      outside the length, is noticed. */
  lemma DamagedByteRejected(f: Frame, behind: byte, i: nat, b: byte)
    requires |f.data| <= MAX_DATA_SIZE
    requires 4 <= i < |Image(f)| && i != 6 && i != 7 && b != Wire(f, behind)[i]
    ensures !Acceptable(Wire(f, behind)[i := b])
  {
    WireParts(f, behind);
    var w, n := Wire(f, behind), |f.data|;
    var r, c := w[i := b], w[4..8 + n];
    assert Get16(r, 6) == n;
    if i < 8 + n {
      assert r[4..8 + n] == c[i - 4 := b];
      ChangedSum(c, i - 4, b);
    } else {
      assert r[4..8 + n] == c;
    }
  }

  lemma SealedWire(s: seq<byte>, f: Frame)
    requires |s| == MEMORY_SIZE && |f.data| <= MAX_DATA_SIZE
    requires s[..4] == TOFI && s[4] == f.seqno && s[5] == f.cmd && s[HEAD_SIZE..HEAD_SIZE + |f.data|] == f.data
    requires forall k :: HEAD_SIZE + |f.data| <= k < STRUCT_SIZE ==> s[k] == 0
    ensures Total(|f.data|) <= |s|
    ensures var n, t := |f.data|, Splice(s, 6, Be16(|f.data|));
      && t[4..HEAD_SIZE + n] == Covered(f)
      && t[HEAD_SIZE + n := Sum(Covered(f))][..Total(n)] == Wire(f, s[STRUCT_SIZE])
  {
    var n, t := |f.data|, Splice(s, 6, Be16(|f.data|));
    TotalShape(n);
    assert t[..4] == TOFI && t[8..8 + n] == f.data;
    assert t[4..8 + n] == [t[4], t[5], t[6], t[7]] + t[8..8 + n];
    var r := t[HEAD_SIZE + n := Sum(Covered(f))];
    assert r[..9 + n] == t[..4] + t[4..8 + n] + [Sum(Covered(f))];
    SealedPadding(s, t, r, n);
    assert r[..Total(n)] == r[..9 + n] + r[9 + n..Total(n)];
  }

  lemma SealedPadding(s: seq<byte>, t: seq<byte>, r: seq<byte>, n: nat)
    requires |s| == |t| == |r| == MEMORY_SIZE && n <= MAX_DATA_SIZE
    requires forall k :: HEAD_SIZE + n <= k < STRUCT_SIZE ==> s[k] == 0
    requires forall k :: 8 <= k < |s| ==> t[k] == s[k]
    requires forall k :: 9 + n <= k < |s| ==> r[k] == t[k]
    ensures Total(n) <= MEMORY_SIZE && r[9 + n..Total(n)] == Padding(n, s[STRUCT_SIZE])
  {
    TotalShape(n);
  }

  // ---- The packet in memory

  class Packet {
    const buf: array<byte>
    var length: nat

    /** A packet under construction: header, data so far, zeros up to the end of the structure. */
    ghost predicate Building(f: Frame)
      reads this, buf
    {
      && buf.Length == MEMORY_SIZE && length == |f.data| <= MAX_DATA_SIZE
      && buf[..4] == TOFI && buf[4] == f.seqno && buf[5] == f.cmd
      && buf[HEAD_SIZE..HEAD_SIZE + length] == f.data
      && forall k :: HEAD_SIZE + length <= k < STRUCT_SIZE ==> buf[k] == 0
    }

    constructor Init(cmd: byte, seqno: byte)
      ensures Building(Frame(seqno, cmd, [])) && fresh(buf)
    {
      buf := new byte[MEMORY_SIZE];
      length := 0;
      new;
      forall k | 0 <= k < STRUCT_SIZE {
        buf[k] := 0;
      }
      buf[0], buf[1], buf[2], buf[3] := 0x54, 0x6F, 0x46, 0x69;
      buf[5] := cmd;
      buf[4] := seqno;
    }

    method PutData(data: seq<byte>, ghost f: Frame)
      requires Building(f) && length + |data| <= MAX_DATA_SIZE
      modifies this, buf
      ensures Building(f.(data := f.data + data)) && buf[STRUCT_SIZE] == old(buf[STRUCT_SIZE])
    {
      forall k | 0 <= k < |data| {
        buf[HEAD_SIZE + length + k] := data[k];
      }
      assert buf[HEAD_SIZE..HEAD_SIZE + length] == f.data && buf[HEAD_SIZE + length..HEAD_SIZE + length + |data|] == data;
      length := length + |data|;
      assert buf[HEAD_SIZE..HEAD_SIZE + length] == f.data + data;
    }

    /** Stores length and checksum. */
    method Done(ghost f: Frame)
      requires Building(f)
      modifies buf
      ensures buf.Length == MEMORY_SIZE && Total(length) <= MEMORY_SIZE && buf[..Total(length)] == Wire(f, old(buf[STRUCT_SIZE]))
    {
      SealedWire(buf[..], f);
      Put16(buf, 6, length);
      assert buf[4..HEAD_SIZE + length] == buf[..][4..HEAD_SIZE + length];
      var sum := CalcChecksum(buf, 4, length + 4);
      buf[HEAD_SIZE + length] := sum;
    }
  }

  // ---- The session

  datatype Request = Request(seqno: byte, len: u16, offset: u32)

  /** A cleared reply buffer after r has been read into it. */
  function Cleared(r: seq<byte>): (s: seq<byte>)
    requires |r| <= STRUCT_SIZE
    ensures |s| == STRUCT_SIZE
  {
    r + seq(STRUCT_SIZE - |r|, _ => 0 as byte)
  }

  /** What the loader said with the bytes r: 0 and a request, 1 at the end, or -1. */
  function Answer(connected: bool, r: seq<byte>): (int, Request)
    requires |r| <= STRUCT_SIZE
  {
    var s := Cleared(r);
    if !connected || |r| < HEAD_SIZE || |r| < Get16(r, 6) then (-1, Request(0, 0, 0))
    else if s[5] == TF_FW_REQ_DATA then (0, Request(s[4], Get16(s, HEAD_SIZE), Get24(s, HEAD_SIZE + 2)))
    else if s[5] == TF_FW_END then (1, Request(0, 0, 0))
    else (-1, Request(0, 0, 0))
  }

  /** What the host makes of a frame that arrives whole: the request's sequence number, the number of
      bytes wanted and where they start; or the end; and -1 for anything else. */
  lemma AnswerFrame(f: Frame, behind: byte)
    requires |f.data| < MAX_DATA_SIZE
    ensures f.cmd == 0x06 ==> Answer(true, Wire(f, behind)) == (1, Request(0, 0, 0))
    ensures f.cmd != 0x04 && f.cmd != 0x06 ==> Answer(true, Wire(f, behind)) == (-1, Request(0, 0, 0))
    ensures Identified(Wire(f, behind)) <==> f.cmd == 0x02
  {
    WireLaid(f, behind);
    Get16Value(Wire(f, behind), 6);
  }

  lemma AnswerRequest(seqno: byte, len: u16, a: byte, b: byte, c: byte, behind: byte)
    ensures Answer(true, Wire(Frame(seqno, 0x04, Be16(len) + [a, b, c]), behind)) ==
            (0, Request(seqno, len, a as nat * 0x1_0000 + b as nat * 0x100 + c as nat))
  {
    var f := Frame(seqno, 0x04, Be16(len) + [a, b, c]);
    var w := Wire(f, behind);
    WireLaid(f, behind);
    Get16Value(w, 6);
    Get16Be16(len);
    assert w[8..13] == f.data;
    assert w[8] == f.data[0] && w[9] == f.data[1] && w[10] == f.data[2] && w[11] == f.data[3] && w[12] == f.data[4];
  }

  /** Nothing is made of a reply that is shorter than its header or than the length in it. */
  lemma AnswerShort(connected: bool, r: seq<byte>)
    requires |r| <= STRUCT_SIZE
    requires !connected || |r| < 8 || |r| < Value(r[6..8])
    ensures Answer(connected, r) == (-1, Request(0, 0, 0))
    ensures connected ==> !Identified(r)
  {
    if |r| >= 8 {
      Get16Value(r, 6);
    }
  }

  /** A whole reply by which the loader names itself. */
  predicate Identified(r: seq<byte>)
    requires |r| <= STRUCT_SIZE
  {
    |r| >= HEAD_SIZE && |r| >= Get16(r, 6) && Cleared(r)[5] == TF_FW_ID
  }

  method BuildStart() returns (req: Packet)
    ensures fresh(req) && fresh(req.buf) && req.buf.Length == MEMORY_SIZE
    ensures Get16(req.buf[..], 6) == 0 && req.buf[..Total(0)] == Wire(Frame(0, TF_FW_PC_TO_STB, []), 0)
  {
    ghost var f := Frame(0, TF_FW_PC_TO_STB, []);
    req := new Packet.Init(TF_FW_PC_TO_STB, 0);
    req.Done(f);
    WireParts(f, 0);
    assert Get16(req.buf[..], 6) == Get16(req.buf[..Total(0)], 6);
  }

  class Handle {
    var connected: bool
    var error: int
    const dev: Usb.Pipe
    /** The transfers the loader will send, in order. */
    var replies: seq<seq<byte>>

    ghost predicate Valid()
      reads this
    {
      forall r :: r in replies ==> |r| <= STRUCT_SIZE
    }

    constructor (connected: bool, replies: seq<seq<byte>>)
      requires forall r :: r in replies ==> |r| <= STRUCT_SIZE
      ensures Valid() && fresh(dev) && this.connected == connected && this.replies == replies && dev.accepted == []
    {
      dev := new Usb.Pipe();
      this.connected, this.error, this.replies := connected, 0, replies;
    }

    /** Transmits a sealed packet in slices the loader can take. n is how much of it arrived. */
    method Send(req: Packet) returns (ret: int, ghost n: nat)
      requires req.buf.Length == MEMORY_SIZE
      requires Get16(req.buf[..], 6) <= MAX_DATA_SIZE
      modifies this`error, dev
      ensures ret == error && ret in {0, -1, -2}
      ensures ret == -2 <==> !connected
      ensures var total := Total(Get16(req.buf[..], 6));
        && n <= total <= MEMORY_SIZE
        && dev.accepted == old(dev.accepted) + req.buf[..n]
        && (ret == 0 <==> connected && n == total)
        && (connected && n < total ==> Usb.EndedWith(old(dev.results), dev.results, 0))
      ensures Usb.Sliced(old(dev.slices), dev.slices, MAX_SEND_SIZE)
    {
      n := 0;
      TotalShape(Get16(req.buf[..], 6));
      if connected {
        var len := HEAD_SIZE + Get16(req.buf[..], 6) + 1;
        var pad := 0;
        if len % 2 != 0 {
          pad := 1;
        }
        if (len + pad) % 0x200 == 0 && pad + len != MAX_SEND_SIZE {
          pad := pad + 2;
        }
        n := SendSlices(req.buf, len + pad);
      } else {
        error := -2;
      }
      ret := error;
    }

    /** One slice, behind the data bytes that have been sent. */
    method SendSlice(buf: array<byte>, data: nat, len: nat, ghost sent0: seq<byte>, ghost slices: seq<nat>)
      returns (whole: bool, ghost n: nat)
      requires 0 < len <= MAX_SEND_SIZE && data + len <= buf.Length
      requires dev.accepted == sent0 + buf[..data] && Usb.Sliced(slices, dev.slices, MAX_SEND_SIZE)
      modifies dev
      ensures data <= n <= data + len && (whole <==> n == data + len)
      ensures dev.accepted == sent0 + buf[..n] && Usb.Sliced(slices, dev.slices, MAX_SEND_SIZE)
      ensures |old(dev.results)| <= |dev.results| && (!whole ==> Usb.EndedWith(old(dev.results), dev.results, 0))
    {
      ghost var before := dev.slices;
      var sent := Usb.BulkWrite(dev, buf, data, len);
      Usb.SlicedOn(slices, before, dev.slices, MAX_SEND_SIZE, Usb.Shorter(Usb.MAX_WRITE, len));
      assert buf[..data] + buf[data..data + sent] == buf[..data + sent];
      whole, n := sent == len, data + sent;
    }

    method SendSlices(buf: array<byte>, total: nat) returns (ghost n: nat)
      requires 0 < total <= buf.Length
      modifies this`error, dev
      ensures n <= total && dev.accepted == old(dev.accepted) + buf[..n]
      ensures error == if n == total then 0 else -1
      ensures n < total ==> Usb.EndedWith(old(dev.results), dev.results, 0)
      ensures Usb.Sliced(old(dev.slices), dev.slices, MAX_SEND_SIZE)
    {
      error := 0;
      n := 0;
      var data, len := 0, total;
      while len > 0
        invariant len >= 0 && data + len == total && n == data && error == 0
        invariant |old(dev.results)| <= |dev.results|
        invariant dev.accepted == old(dev.accepted) + buf[..n]
        invariant Usb.Sliced(old(dev.slices), dev.slices, MAX_SEND_SIZE)
      {
        var tosend := if len > MAX_SEND_SIZE then MAX_SEND_SIZE else len;
        var whole;
        whole, n := SendSlice(buf, data, tosend, old(dev.accepted), old(dev.slices));
        if !whole {
          error := -1;
          break;
        }
        len := len - tosend;
        data := data + tosend;
      }
    }

    /** Reads the next transfer. r is what arrived of it. */
    method GetResponse(reply: array<byte>) returns (ret: int, ghost r: seq<byte>)
      requires Valid() && reply.Length == STRUCT_SIZE
      modifies this, dev, reply
      ensures Valid() && ret == error && connected == old(connected) && |r| <= STRUCT_SIZE
      ensures dev.accepted == old(dev.accepted)
      ensures if connected && old(replies) != [] then r <= old(replies)[0] && replies == old(replies)[1..]
              else r == [] && replies == old(replies)
      ensures connected && old(replies) != [] && r != old(replies)[0] ==> Usb.EndedWith(old(dev.results), dev.results, -1)
      ensures !connected ==> ret == -2
      ensures connected ==> ret == if |r| >= HEAD_SIZE && |r| >= Get16(r, 6) then 0 else -1
      ensures reply[..|r|] == r && forall k :: |r| <= k < reply.Length && connected ==> reply[k] == 0
    {
      r := [];
      if !connected {
        error := -2;
        return error, r;
      }
      dev.incoming := if replies == [] then [] else replies[0];
      replies := if replies == [] then [] else replies[1..];
      ghost var incoming := dev.incoming;
      var n := Usb.BulkRead(dev, reply);
      r := incoming[..n];
      if n < HEAD_SIZE {
        error := -1;
      } else {
        assert Get16(reply[..], 6) == Get16(r, 6);
        error := if n < Get16(reply[..], 6) then -1 else 0;
      }
      ret := error;
    }

    /** Waits for the loader to ask for a block (0) or to say that it has them all (1). */
    method WaitForReqData() returns (ret: int, block: Request, ghost r: seq<byte>)
      requires Valid()
      modifies this, dev
      ensures Valid() && connected == old(connected) && dev.accepted == old(dev.accepted) && |r| <= STRUCT_SIZE
      ensures if connected && old(replies) != [] then r <= old(replies)[0] && replies == old(replies)[1..]
              else r == [] && replies == old(replies)
      ensures (ret, block) == Answer(connected, r)
    {
      var reply := new byte[STRUCT_SIZE];
      ret, r := GetResponse(reply);
      block := Request(0, 0, 0);
      assert connected ==> reply[..] == Cleared(r);
      if ret != 0 {
        ret := -1;
      } else if reply[5] == TF_FW_REQ_DATA {
        block := Request(reply[4], Get16(reply[..], HEAD_SIZE), Get24(reply[..], HEAD_SIZE + 2));
      } else if reply[5] == TF_FW_END {
        ret := 1;
      } else {
        ret := -1;
      }
    }

    /** Announces an upload, expects the loader's identification and waits for its first request. */
    method Upload() returns (ret: int, block: Request, ghost n: nat, ghost id: seq<byte>, ghost r: seq<byte>)
      requires Valid()
      modifies this, dev
      ensures Valid() && connected == old(connected) && |id| <= STRUCT_SIZE && |r| <= STRUCT_SIZE
      ensures var wire := Wire(Frame(0, TF_FW_PC_TO_STB, []), 0);
        && n <= |wire| && dev.accepted == old(dev.accepted) + wire[..n]
        && (!connected || n < |wire| ==> ret == -1 && replies == old(replies))
        && (connected && n == |wire| ==> (ret, block) == if Identified(id) then Answer(connected, r) else (-1, Request(0, 0, 0)))
      ensures id != [] ==> old(replies) != [] && id <= old(replies)[0]
      ensures r != [] ==> |old(replies)| > 1 && r <= old(replies)[1]
      ensures connected && n == |Wire(Frame(0, TF_FW_PC_TO_STB, []), 0)| ==>
        replies == if Identified(id) && |old(replies)| > 1 then old(replies)[2..] else if old(replies) != [] then old(replies)[1..] else []
    {
      ret, block, n, id, r := -1, Request(0, 0, 0), 0, [], [];
      var req := BuildStart();
      var sent;
      sent, n := Send(req);
      if sent == 0 {
        var reply := new byte[STRUCT_SIZE];
        ret, id := GetResponse(reply);
        assert connected ==> reply[..] == Cleared(id);
        if ret != 0 || reply[5] != TF_FW_ID {
          ret := -1;
        } else {
          ret, block, r := WaitForReqData();
        }
      }
    }

    /** Sends one block under the sequence number of its request and waits for the next request. A
        block of exactly MAX_DATA_SIZE bytes is followed by the byte behind the packet in memory. */
    method UploadNext(data: seq<byte>, block: Request)
      returns (ret: int, next: Request, ghost behind: byte, ghost n: nat, ghost r: seq<byte>)
      requires Valid()
      modifies this, dev
      ensures Valid() && connected == old(connected) && |r| <= STRUCT_SIZE
      ensures |data| > MAX_DATA_SIZE ==> ret == -1 && dev.accepted == old(dev.accepted) && replies == old(replies)
      ensures |data| <= MAX_DATA_SIZE ==>
        var wire := Wire(Frame(block.seqno, TF_FW_DATA, data), behind);
        && n <= |wire| && dev.accepted == old(dev.accepted) + wire[..n]
        && (!connected || n < |wire| ==> ret == -1 && replies == old(replies))
        && (connected && n == |wire| ==>
             && (ret, next) == Answer(connected, r)
             && if old(replies) != [] then r <= old(replies)[0] && replies == old(replies)[1..] else r == [])
    {
      ret, next, behind, n, r := -1, Request(0, 0, 0), 0, 0, [];
      if |data| > MAX_DATA_SIZE {
        return;
      }
      ghost var f := Frame(block.seqno, TF_FW_DATA, data);
      var req;
      req, behind := BuildBlock(data, block.seqno);
      var sent;
      sent, n := Send(req);
      assert req.buf[..n] == Wire(f, behind)[..n];
      if sent == 0 {
        ret, next, r := WaitForReqData();
      }
    }
  }

  method BuildBlock(data: seq<byte>, seqno: byte) returns (req: Packet, ghost behind: byte)
    requires |data| <= MAX_DATA_SIZE
    ensures fresh(req) && fresh(req.buf) && req.buf.Length == MEMORY_SIZE
    ensures Get16(req.buf[..], 6) == |data| && Total(|data|) <= MEMORY_SIZE
    ensures req.buf[..Total(|data|)] == Wire(Frame(seqno, TF_FW_DATA, data), behind)
  {
    ghost var f := Frame(seqno, TF_FW_DATA, data);
    req := new Packet.Init(TF_FW_DATA, seqno);
    behind := req.buf[STRUCT_SIZE];
    req.PutData(data, Frame(seqno, TF_FW_DATA, []));
    assert [] + data == data;
    req.Done(f);
    WireParts(f, behind);
    assert Get16(req.buf[..], 6) == Get16(req.buf[..Total(req.length)], 6);
  }
}
