/** The other end of the bus: a device that keeps to the protocol, and one that says anything. */
module Devices {
  import opened Bytes
  import opened Frames
  import opened Packets
  import opened Requests
  import opened Dirents

  const SUCCESS := Frame(TF_MSG_SUCCESS, [])
  const FILE_END := Frame(TF_MSG_HDD_FILE_END, [])

  /** The most file data one frame holds. */
  const MAX_CHUNK: nat := 0xFFFF - 16

  // ---- Files in transit

  datatype Buffer = Buffer(offset: nat, data: seq<byte>)

  /** How a device cuts up what it sends: policy gives the sizes it would like, one after the other. */
  function Chunks(offset: nat, content: seq<byte>, policy: seq<nat>): (r: seq<Buffer>)
    decreases |content|
  {
    if content == [] then []
    else
      var wish := if policy == [] || policy[0] == 0 then MAX_CHUNK else policy[0];
      var most := if wish < MAX_CHUNK then wish else MAX_CHUNK;
      var n := if most < |content| then most else |content|;
      [Buffer(offset, content[..n])] + Chunks(offset + n, content[n..], if policy == [] then [] else policy[1..])
  }

  /** Buffers laid end to end from an offset. */
  ghost predicate Consecutive(offset: nat, bs: seq<Buffer>)
    decreases |bs|
  {
    bs == [] || (bs[0].offset == offset && Consecutive(offset + |bs[0].data|, bs[1..]))
  }

  function Joined(bs: seq<Buffer>): seq<byte> {
    if bs == [] then [] else bs[0].data + Joined(bs[1..])
  }

  /** Whatever its policy, the device sends exactly the content, in order and without gaps. */
  lemma {:induction false} ChunksAreContent(offset: nat, content: seq<byte>, policy: seq<nat>)
    ensures Consecutive(offset, Chunks(offset, content, policy))
    ensures Joined(Chunks(offset, content, policy)) == content
    decreases |content|
  {
    if content != [] {
      var bs := Chunks(offset, content, policy);
      var n := |bs[0].data|;
      assert bs[0].data == content[..n];
      ChunksAreContent(offset + n, content[n..], if policy == [] then [] else policy[1..]);
      assert content[..n] + content[n..] == content;
      assert bs[1..] == Chunks(offset + n, content[n..], if policy == [] then [] else policy[1..]);
    }
  }

  lemma {:induction false} ChunksFit(offset: nat, content: seq<byte>, policy: seq<nat>)
    ensures forall b :: b in Chunks(offset, content, policy) ==> 0 < |b.data| <= MAX_CHUNK && b.offset + |b.data| <= offset + |content|
    decreases |content|
  {
    if content != [] {
      var bs := Chunks(offset, content, policy);
      var n := |bs[0].data|;
      ChunksFit(offset + n, content[n..], if policy == [] then [] else policy[1..]);
      assert bs[1..] == Chunks(offset + n, content[n..], if policy == [] then [] else policy[1..]);
    }
  }

  function DataFrame(b: Buffer): (f: Frame)
    requires b.offset < 0x1_0000_0000_0000_0000
  {
    Frame(TF_MSG_HDD_FILE_DATA, Be64(b.offset) + b.data)
  }

  /** A file with data written over it at an offset; a gap before it is filled with zeros. */
  function Overwrite(file: seq<byte>, offset: nat, data: seq<byte>): (r: seq<byte>)
    ensures |r| == if offset + |data| > |file| then offset + |data| else |file|
    ensures r[offset..offset + |data|] == data
    ensures forall i :: 0 <= i < |file| && !(offset <= i < offset + |data|) ==> r[i] == file[i]
  {
    var base := if offset <= |file| then file[..offset] else file + seq(offset - |file|, _ => 0 as byte);
    base + data + if offset + |data| < |file| then file[offset + |data|..] else []
  }

  // ---- Replies that make sense

  /** A reply brings the data its command stands for. */
  predicate Meaningful(r: Reception) {
    match r
    case Received(f) =>
      && (f.cmd == TF_MSG_FAIL ==> |f.data| >= 4)
      && (f.cmd == TF_MSG_HDD_FILE_DATA ==> |f.data| >= 8)
      && (f.cmd == TF_MSG_HDD_FILE_START ==> Describes(f.data))
      && (f.cmd == TF_MSG_HDD_DIRENT ==>
           forall i :: 0 <= i < EntryCount(f.data) ==> Describes(Entry(f.data, i)))
    case _ => true
  }

  // ---- Directories in transit

  const DIREND := Frame(TF_MSG_HDD_DIREND, [])

  function BatchFrame(data: seq<byte>): Frame {
    Frame(TF_MSG_HDD_DIRENT, data)
  }

  /** A batch a device may send. */
  predicate Batch(data: seq<byte>) {
    Sendable(BatchFrame(data)) && Meaningful(Received(BatchFrame(data)))
  }

  /** The i-th frame of a listing: the batches, then the end. */
  function ListFrame(batches: seq<seq<byte>>, i: nat): (f: Frame)
    requires i <= |batches| && forall d :: d in batches ==> Batch(d)
    ensures Sendable(f) && Meaningful(Received(f))
  {
    if i < |batches| then
      assert Batch(batches[i]);
      BatchFrame(batches[i])
    else DIREND
  }

  // ---- The conforming device

  /** The description of a file that is being stored. */
  datatype About = Unknown | Known(description: seq<byte>)

  /** A file description of the right size. */
  predicate Description(b: seq<byte>) {
    |b| == TYPEFILE_SIZE && Describes(b)
  }

  datatype Mode =
    | Idle
    | Serving(content: seq<byte>, offset: nat, chunks: seq<Buffer>, next: nat)
    | Listing(batches: seq<seq<byte>>, said: nat)
    | Storing(name: CString, contents: seq<byte>, about: About)
    | Confused

  /** Names are kept as they arrive, with backslashes. abouts are the descriptions that files were put
      with, and info is the one of all other files; policy says how it cuts files up; dirs are
      directories, cut into batches. */
  datatype Device =
    | Conforming(disk: map<CString, seq<byte>>, abouts: map<CString, seq<byte>>, dirs: map<CString, seq<seq<byte>>>,
                 info: seq<byte>, policy: seq<nat>, mode: Mode, out: seq<Frame>)
    | Scripted(replies: seq<seq<byte>>)

  predicate SaneMode(mode: Mode) {
    match mode
    case Serving(_, _, chunks, _) =>
      forall b :: b in chunks ==> |b.data| <= MAX_CHUNK && b.offset < 0x1_0000_0000_0000_0000
    case Listing(batches, _) => forall d :: d in batches ==> Batch(d)
    case Storing(_, _, about) => about.Known? ==> Description(about.description)
    case _ => true
  }

  predicate Sane(d: Device) {
    match d
    case Conforming(disk, abouts, dirs, info, policy, mode, out) =>
      && Description(info)
      && (forall name :: name in abouts ==> Description(abouts[name]))
      && (forall name :: name in disk ==> |disk[name]| < 0x1_0000_0000_0000_0000)
      && (forall name :: name in dirs ==> forall d :: d in dirs[name] ==> Batch(d))
      && (forall f :: f in out ==> Sendable(f) && Meaningful(Received(f)))
      && SaneMode(mode)
    case Scripted(replies) =>
      forall r :: r in replies ==> |r| <= STRUCT_SIZE && Framed(r) && Meaningful(Decode(r, true))
  }

  /** A device in a state it can be in. */
  type Peer = d: Device | Sane(d) witness Scripted([])

  function Say(d: Device, mode: Mode, out: seq<Frame>): Device
    requires d.Conforming?
  {
    d.(mode := mode, out := out)
  }

  /** The device with nothing going on. */
  function Rested(d: Peer): (r: Peer)
    requires d.Conforming?
    ensures r == Say(d, Idle, [])
  {
    Say(d, Idle, [])
  }

  /** The same device, but for what it is doing. */
  predicate SameFiles(d: Device, r: Device)
    requires d.Conforming?
  {
    r.Conforming? && Say(r, Idle, []) == Say(d, Idle, [])
  }

  /** The description of a file. */
  function AboutFile(d: Peer, name: CString): (b: seq<byte>)
    requires d.Conforming?
    ensures Description(b)
  {
    if name in d.abouts then d.abouts[name] else d.info
  }

  /** The i-th frame of a file transfer, behind the description: the chunks, then the end. */
  function PlanFrame(chunks: seq<Buffer>, i: nat): Frame
    requires 0 < i <= |chunks| + 1
    requires forall b :: b in chunks ==> b.offset < 0x1_0000_0000_0000_0000
  {
    if i <= |chunks| then DataFrame(chunks[i - 1]) else FILE_END
  }

  function Fail(code: u32): Frame {
    Frame(TF_MSG_FAIL, Be32(code))
  }

  /** One message reaches the device. A message other than a cancellation that arrives while a
      reply is still unread, or that the protocol does not allow, confuses it for good. */
  function Hear(d: Peer, f: Frame): (r: Peer)
    ensures d.Scripted? ==> r == d
    ensures d.Conforming? && |d.out| <= 1 ==> r.Conforming? && |r.out| <= 1
    ensures d.Conforming? ==> r.Conforming? && (f.cmd != TF_MSG_HDD_FILE_END ==> SameFiles(d, r))
  {
    if d.Scripted? then d
    else if f.cmd == TF_MSG_CANCEL then Say(d, Idle, [SUCCESS])
    else if f.cmd == TF_MSG_FAIL then Say(d, Idle, [])
    else if d.out != [] then Say(d, Confused, d.out)
    else
      match d.mode
      case Idle => HearIdle(d, f)
      case Serving(_, _, _, _) => HearServing(d, f)
      case Listing(_, _) => HearListing(d, f)
      case Storing(_, _, _) => HearStoring(d, f)
      case Confused => d
  }

  function HearServing(d: Peer, f: Frame): (r: Peer)
    requires d.Conforming? && d.mode.Serving?
    ensures SameFiles(d, r) && |r.out| <= 1
  {
    var Serving(content, offset, chunks, next) := d.mode;
    if f.cmd != TF_MSG_SUCCESS then Say(d, Confused, [])
    else if next == 0 || next > |chunks| + 1 then Say(d, Idle, [])
    else Say(d, Serving(content, offset, chunks, next + 1), [PlanFrame(chunks, next)])
  }

  function HearListing(d: Peer, f: Frame): (r: Peer)
    requires d.Conforming? && d.mode.Listing?
    ensures SameFiles(d, r) && |r.out| <= 1
  {
    var Listing(batches, said) := d.mode;
    if f.cmd != TF_MSG_SUCCESS then Say(d, Confused, [])
    else if said > |batches| then Say(d, Idle, [])
    else Say(d, Listing(batches, said + 1), [ListFrame(batches, said)])
  }

  function HearStoring(d: Peer, f: Frame): (r: Peer)
    requires d.Conforming? && d.mode.Storing?
    ensures r.Conforming? && |r.out| <= 1 && (f.cmd != TF_MSG_HDD_FILE_END ==> SameFiles(d, r))
  {
    var Storing(name, contents, about) := d.mode;
    if f.cmd == TF_MSG_HDD_FILE_START && about == Unknown && Description(f.data) then
      Say(d, Storing(name, contents, Known(f.data)), [SUCCESS])
    else if f.cmd == TF_MSG_HDD_FILE_DATA && about.Known? && |f.data| >= 8 && |contents| < 0x1_0000_0000_0000_0000 then
      HearData(d, Get64(f.data, 0), f.data[8..])
    else if f.cmd == TF_MSG_HDD_FILE_END && about.Known? && |contents| < 0x1_0000_0000_0000_0000 then
      Say(Kept(d, name, contents, about.description), Idle, [SUCCESS])
    else Say(d, Confused, [])
  }

  function HearData(d: Peer, offset: u64, data: seq<byte>): (r: Peer)
    requires d.Conforming? && d.mode.Storing?
    ensures SameFiles(d, r) && |r.out| <= 1
  {
    if offset + |data| < 0x1_0000_0000_0000_0000 then
      Say(d, d.mode.(contents := Overwrite(d.mode.contents, offset, data)), [SUCCESS])
    else Say(d, Confused, [])
  }

  /** The device with one file stored. */
  function Kept(d: Peer, name: CString, contents: seq<byte>, description: seq<byte>): (r: Peer)
    requires d.Conforming? && Description(description) && |contents| < 0x1_0000_0000_0000_0000
    ensures r.Conforming?
  {
    d.(disk := d.disk[name := contents], abouts := d.abouts[name := description])
  }

  function HearIdle(d: Peer, f: Frame): (r: Peer)
    requires d.Conforming?
    ensures SameFiles(d, r) && |r.out| <= 1
  {
    match Understand(f)
    case Clear(Send(direction, name, offset)) => HearOpen(d, direction, name, offset)
    case Clear(Dir(name)) => HearDir(d, name)
    case _ => Say(d, Confused, [])
  }

  function HearDir(d: Peer, name: CString): (r: Peer)
    requires d.Conforming?
    ensures SameFiles(d, r) && |r.out| <= 1
  {
    if name in d.dirs then Say(d, Listing(d.dirs[name], 1), [ListFrame(d.dirs[name], 0)])
    else Say(d, d.mode, [Fail(2)])
  }

  function HearOpen(d: Peer, direction: byte, name: CString, offset: u64): (r: Peer)
    requires d.Conforming?
    ensures SameFiles(d, r) && |r.out| <= 1
  {
    if direction == DIR_PUT then
      Say(d, Storing(name, if name in d.disk then d.disk[name] else [], Unknown), [SUCCESS])
    else if direction == DIR_GET && name in d.disk && offset <= |d.disk[name]| then
      var content := d.disk[name][offset..];
      var chunks := Chunks(offset, content, d.policy);
      ChunksFit(offset, content, d.policy);
      Say(d, Serving(content, offset, chunks, 1), [Frame(TF_MSG_HDD_FILE_START, AboutFile(d, name))])
    else Say(d, d.mode, [Fail(2)])
  }

  /** An idle device hears a request to open a transfer, with the name as the frame has it. */
  lemma HearsSend(d: Peer, direction: byte, path: CString, offset: u64)
    requires d.Conforming? && d.mode == Idle && d.out == [] && PathFits(path)
    ensures Hear(d, RequestFrame(Send(direction, path, offset))) == HearOpen(d, direction, Backslashed(path), offset)
  {
    SendUnderstood(direction, path, offset);
    HearsRequest(d, RequestFrame(Send(direction, path, offset)));
  }

  lemma HearsDir(d: Peer, path: CString)
    requires d.Conforming? && d.mode == Idle && d.out == [] && PathFits(path)
    ensures Hear(d, RequestFrame(Dir(path))) == HearDir(d, Backslashed(path))
  {
    NameAlone(path);
    HearsRequest(d, RequestFrame(Dir(path)));
  }

  lemma HearsRequest(d: Peer, f: Frame)
    requires d.Conforming? && d.mode == Idle && d.out == [] && f.cmd !in {TF_MSG_CANCEL, TF_MSG_FAIL}
    ensures Hear(d, f) == HearIdle(d, f)
  {
  }

  // ---- What the device has to say

  predicate Speaks(d: Device) {
    match d
    case Conforming(_, _, _, _, _, _, out) => out != []
    case Scripted(replies) => replies != []
  }

  /** The next transfer. */
  function Next(d: Peer): (w: seq<byte>)
    requires Speaks(d)
    ensures |w| <= STRUCT_SIZE && Framed(w)
  {
    match d
    case Conforming(_, _, _, _, _, _, out) =>
      RoundTrip(out[0], [], false);
      assert Wire(out[0]) + [] == Wire(out[0]);
      Wire(out[0])
    case Scripted(replies) => replies[0]
  }

  /** The device after its next transfer. */
  function Spoken(d: Peer): (r: Peer)
    requires Speaks(d)
  {
    match d
    case Conforming(_, _, _, _, _, mode, out) => Say(d, mode, out[1..])
    case Scripted(replies) => Scripted(replies[1..])
  }
}
