/** Whole file downloads: every run of tf_cmd_get and tf_cmd_get_next against a conforming device. */
module GetRuns {
  import opened Bytes
  import opened Folds
  import opened Frames
  import opened Packets
  import opened Requests
  import opened Devices
  import opened Protocol

  // ---- One transfer at a time

  /** A conforming device with one reply waiting. */
  predicate Waiting(d: Peer) {
    d.Conforming? && |d.out| == 1
  }

  /** A whole read of a conforming reply brings that reply; any other read is an I/O error. */
  lemma ListenConforming(d: Peer, went: ReadEnv, nocrc: bool)
    requires Waiting(d)
    ensures went == Heard ==> Listen(d, went, nocrc) == (Say(d, d.mode, []), Received(d.out[0]))
    ensures went == Silent ==> Listen(d, went, nocrc) == (d, ShortRead)
    ensures went == Broken ==> Listen(d, went, nocrc) == (Say(d, d.mode, []), ShortRead)
  {
    RoundTrip(d.out[0], [], nocrc);
    assert Wire(d.out[0]) + [] == Wire(d.out[0]);
    assert d.out[1..] == [];
  }

  predicate Acknowledges(e: Event) {
    e.Sent? && e.frame == SUCCESS && e.went != Lost
  }

  /** How many acknowledgements have reached the device. */
  function Acks(log: seq<Event>): nat {
    if log == [] then 0 else Acks(log[..|log| - 1]) + if Acknowledges(log[|log| - 1]) then 1 else 0
  }

  lemma AcksAppend(log: seq<Event>, e: Event)
    ensures Acks(log + [e]) == Acks(log) + if Acknowledges(e) then 1 else 0
  {
    assert (log + [e])[..|log|] == log;
  }

  // ---- The state between calls

  /** The chunks the device has been asked for and the host has read. */
  function Fetched(v: View): int
    requires v.device.Conforming? && v.device.mode.Serving?
  {
    if v.pending then v.device.mode.next - 2 else v.device.mode.next - 1
  }

  /** A download in progress. pending says exactly that the last frame read is already acknowledged
      and the reply is waiting. Since the download began, every frame read has been acknowledged
      once, except that the last one is not while pending is clear. */
  predicate Downloading(v: View, got: seq<Buffer>, acks: nat)
  {
    && v.connected && v.device.Conforming?
    && v.device.mode.Serving?
    && var m := v.device.mode;
    && m.chunks == Chunks(m.offset, m.content, v.device.policy)
    && 0 <= Fetched(v) <= |m.chunks|
    && got == m.chunks[..Fetched(v)]
    && v.device.out == (if v.pending then [PlanFrame(m.chunks, m.next - 1)] else [])
    && Acks(v.log) == acks + |got| + if v.pending then 1 else 0
  }

  /** What no call may do to the device: leave two replies waiting, or send it something it does
      not expect. */
  predicate Unharmed(d: Peer) {
    d.Conforming? && d.mode != Confused && |d.out| <= 1
  }

  /** The first half of tf_cmd_get_next: the acknowledgement, unless it went out early. */
  lemma AckStep(v: View, got: seq<Buffer>, acks: nat, went: SendEnv)
    requires Downloading(v, got, acks) && !v.pending && went != Late
    ensures var (v1, ret) := SendStep(v, SUCCESS, went);
      && (went == Delivered ==> ret == 0 && Downloading(v1.(pending := true), got, acks))
      && (went == Lost ==> ret == TF_ERR_IO && Downloading(v1, got, acks))
  {
    AcksAppend(v.log, Sent(SUCCESS, went));
  }

  /** The next frame after |got| chunks. */
  lemma WaitingFrame(v: View, got: seq<Buffer>, acks: nat)
    requires Downloading(v, got, acks) && v.pending
    ensures Waiting(v.device)
    ensures |got| < |v.device.mode.chunks| ==> v.device.out[0] == DataFrame(v.device.mode.chunks[|got|])
    ensures |got| == |v.device.mode.chunks| ==> v.device.out[0] == FILE_END
  {
  }

  lemma DataFrameParts(b: Buffer)
    requires b.offset < 0x1_0000_0000_0000_0000
    ensures var f := DataFrame(b);
      |f.data| == 8 + |b.data| && Buffer(Get64(Filled(f.data, 8), 0), f.data[8..]) == b
  {
    Get64Be64(b.offset);
    assert DataFrame(b).data[..8] == Be64(b.offset);
  }

  /** The reply to an acknowledgement: a chunk read leaves the download as it is before its own
      acknowledgement; anything but a whole read is an I/O error. */
  lemma ReadStep(v: View, got: seq<Buffer>, acks: nat, went: ReadEnv)
    requires Downloading(v, got, acks) && v.pending
    ensures var (v3, ret, g) := ReceiveStep(v.(pending := false), went);
      && Unharmed(v3.device) && !v3.pending && Acks(v3.log) == Acks(v.log)
      && (went != Heard ==> ret == TF_ERR_IO)
      && (went == Heard ==>
           && ret == 0 && g == v.device.out[0]
           && v3 == v.(pending := false, error := 0, device := Say(v.device, v.device.mode, []), log := v.log + [Read(v.timeout, Heard)]))
  {
    WaitingFrame(v, got, acks);
    ListenConforming(v.device, went, v.nocrc);
    AcksAppend(v.log, Read(v.timeout, went));
  }

  /** The state after a chunk has been read: as before its own acknowledgement. */
  lemma ChunkRead(v: View, got: seq<Buffer>, acks: nat)
    requires Downloading(v, got, acks) && v.pending && |got| < |v.device.mode.chunks|
    ensures Downloading(
      v.(pending := false, error := 0, device := Say(v.device, v.device.mode, []), log := v.log + [Read(v.timeout, Heard)]),
      got + [v.device.mode.chunks[|got|]], acks)
  {
    AcksAppend(v.log, Read(v.timeout, Heard));
  }

  /** The device after the end of the file has been read and its acknowledgement sent. */
  lemma EndAcked(d: Peer)
    requires d.Conforming? && d.mode.Serving? && d.out == [] && d.mode.next == |d.mode.chunks| + 2
    ensures Hear(d, SUCCESS) == Say(d, Idle, [])
  {
  }

  lemma ReplyFailed(v: View, got: seq<Buffer>, acks: nat, e: NextEnv)
    requires Downloading(v, got, acks) && v.pending && e.read != Heard
    ensures Next(v, got, acks, e)
  {
    ReadStep(v, got, acks, e.read);
  }

  /** The early acknowledgement of a chunk. */
  lemma EarlyAck(v: View, got: seq<Buffer>, acks: nat, early: SendEnv)
    requires Downloading(v, got, acks) && !v.pending && early != Late
    ensures var (v4, ret) := SendStep(v, SUCCESS, early);
      var v5 := v4.(pending := ret == 0, error := 0);
      Downloading(v5, got, acks) && Unharmed(v5.device) && v5.device.mode.chunks == v.device.mode.chunks
  {
    AckStep(v, got, acks, early);
  }

  lemma ReplyChunk(v: View, got: seq<Buffer>, acks: nat, e: NextEnv)
    requires Downloading(v, got, acks) && v.pending && e.read == Heard && e.early != Late
    requires |got| < |v.device.mode.chunks|
    ensures Next(v, got, acks, e)
  {
    var v3, b := ChunkTaken(v, got, acks);
    EarlyAck(v3, got + [b], acks, e.early);
    ChunkDelivered(v, e, v3, DataFrame(b), b);
    var (v4, ret4) := SendStep(v3, SUCCESS, e.early);
    ChunkOutcome(v.device.mode.chunks, got, acks, v4.(pending := ret4 == 0, error := 0), b);
  }

  lemma ChunkTaken(v: View, got: seq<Buffer>, acks: nat) returns (v3: View, b: Buffer)
    requires Downloading(v, got, acks) && v.pending && |got| < |v.device.mode.chunks|
    ensures b.offset < 0x1_0000_0000_0000_0000
    ensures ReceiveStep(v.(pending := false), Heard) == (v3, 0, DataFrame(b))
    ensures !v3.pending && Downloading(v3, got + [b], acks) && v3.device.mode.chunks == v.device.mode.chunks
  {
    v3 := ReceiveStep(v.(pending := false), Heard).0;
    b := v.device.mode.chunks[|got|];
    ReadStep(v, got, acks, Heard);
    WaitingFrame(v, got, acks);
    ChunkRead(v, got, acks);
  }

  lemma ChunkOutcome(chunks: seq<Buffer>, got: seq<Buffer>, acks: nat, v: View, b: Buffer)
    requires got <= chunks && Downloading(v, got + [b], acks) && v.device.mode.chunks == chunks && Unharmed(v.device)
    ensures Outcome(chunks, got, acks, v, TF_ERR_NONE, b)
  {
  }

  lemma ChunkDelivered(v: View, e: NextEnv, v3: View, g: Frame, b: Buffer)
    requires v.pending && b.offset < 0x1_0000_0000_0000_0000
    requires ReceiveStep(v.(pending := false), e.read) == (v3, 0, g) && g == DataFrame(b)
    ensures var (v4, ret4) := SendStep(v3, SUCCESS, e.early);
      GetNextStep(v, e) == (v4.(pending := ret4 == 0, error := 0), 0, b)
  {
    DataFrameParts(b);
  }

  lemma ReplyEnd(v: View, got: seq<Buffer>, acks: nat, e: NextEnv)
    requires Downloading(v, got, acks) && v.pending && e.read == Heard && |got| == |v.device.mode.chunks|
    ensures Next(v, got, acks, e)
  {
    var v3 := ReceiveStep(v.(pending := false), Heard).0;
    ReadStep(v, got, acks, Heard);
    WaitingFrame(v, got, acks);
    EndAcked(v3.device);
    AcksAppend(v3.log, Sent(SUCCESS, e.early));
  }

  /** The first half done, the second half goes as if the acknowledgement had been sent early. */
  lemma AckedEarlier(v: View, e: NextEnv)
    requires !v.pending && SendStep(v, SUCCESS, e.ack).1 == 0
    ensures GetNextStep(v, e) == GetNextStep(SendStep(v, SUCCESS, e.ack).0.(pending := true), e)
  {
  }

  /** What one call may do during a download: the device is unharmed; a result of 0 delivers the
      next chunk, DONE means that all chunks were delivered and the end was read, and the only
      other result is an I/O error. pending is clear unless the result is 0. However the call ends,
      no more frames have been acknowledged than were read, counting the description. */
  predicate Outcome(chunks: seq<Buffer>, got: seq<Buffer>, acks: nat, v: View, ret: int, b: Buffer) {
    && ret in {TF_ERR_NONE, TF_ERR_DONE, TF_ERR_IO}
    && Unharmed(v.device)
    && (ret == TF_ERR_NONE ==>
         && Downloading(v, got + [b], acks)
         && v.device.mode.chunks == chunks)
    && got <= chunks
    && (ret == TF_ERR_DONE ==>
         && got == chunks && v.device.out == [] && Acks(v.log) <= acks + |got| + 2)
    && (ret == TF_ERR_IO ==> Acks(v.log) <= acks + |got| + 1)
    && (ret != TF_ERR_NONE ==> !v.pending)
  }

  ghost predicate Next(v: View, got: seq<Buffer>, acks: nat, e: NextEnv)
    requires Downloading(v, got, acks)
  {
    var (v', ret, b) := GetNextStep(v, e);
    Outcome(v.device.mode.chunks, got, acks, v', ret, b)
  }

  lemma NotAcked(v: View, got: seq<Buffer>, acks: nat, e: NextEnv)
    requires Downloading(v, got, acks) && !v.pending && e.ack == Lost
    ensures Next(v, got, acks, e)
  {
    AcksAppend(v.log, Sent(SUCCESS, Lost));
  }

  lemma Acked(v: View, got: seq<Buffer>, acks: nat, ack: SendEnv)
    requires Downloading(v, got, acks) && !v.pending && ack == Delivered
    ensures var (v1, ret) := SendStep(v, SUCCESS, ack);
      var w := v1.(pending := true);
      ret == 0 && Downloading(w, got, acks) && w.device.mode.chunks == v.device.mode.chunks
  {
    AckStep(v, got, acks, ack);
  }

  /** For every call, with any sends lost and any read failing. */
  lemma NextKeeps(v: View, got: seq<Buffer>, acks: nat, e: NextEnv)
    requires Downloading(v, got, acks) && e.ack != Late && e.early != Late
    ensures Next(v, got, acks, e)
    decreases !v.pending
  {
    if !v.pending {
      if e.ack == Lost {
        NotAcked(v, got, acks, e);
      } else {
        var w := SendStep(v, SUCCESS, e.ack).0.(pending := true);
        Acked(v, got, acks, e.ack);
        AckedEarlier(v, e);
        NextKeeps(w, got, acks, e);
      }
    } else if e.read != Heard {
      ReplyFailed(v, got, acks, e);
    } else if |got| < |v.device.mode.chunks| {
      ReplyChunk(v, got, acks, e);
    } else {
      ReplyEnd(v, got, acks, e);
    }
  }

  // ---- Whole runs

  /** Calls of tf_cmd_get_next until one does not return 0: the handle, the last result, the buffers. */
  function Run(v: View, es: seq<NextEnv>): (View, int, seq<Buffer>) {
    RunUntil(GetNextStep, v, es)
  }

  /** An eight-byte acknowledgement is never late: without all its bytes it is no frame. */
  predicate NotLate(e: NextEnv) {
    e.ack != Late && e.early != Late
  }

  /** Every run: whatever is lost on the way, the buffers are the device's chunks in order with
      none missing or repeated, the device is never harmed, and DONE comes only after the last. */
  lemma RunKeeps(v: View, acks: nat, es: seq<NextEnv>)
    requires Downloading(v, [], acks) && forall e :: e in es ==> NotLate(e)
    ensures var (v', ret, bs) := Run(v, es);
      if ret == TF_ERR_NONE then Downloading(v', bs, acks) && v'.device.mode.chunks == v.device.mode.chunks
      else Outcome(v.device.mode.chunks, bs, acks, v', ret, NO_BUFFER)
  {
    RunUntilKeepsAll(v, v.device.mode.chunks, acks, es);
  }

  function During(chunks: seq<Buffer>, acks: nat): (View, seq<Buffer>) -> bool {
    (w, got) => Downloading(w, got, acks) && w.device.mode.chunks == chunks
  }

  function Stopped(chunks: seq<Buffer>, acks: nat): (View, seq<Buffer>, int) -> bool {
    (w, got, ret) => Outcome(chunks, got, acks, w, ret, NO_BUFFER)
  }

  lemma StepKept(chunks: seq<Buffer>, acks: nat, w: View, got: seq<Buffer>, e: NextEnv)
    requires During(chunks, acks)(w, got) && NotLate(e)
    ensures StepKeeps(GetNextStep, During(chunks, acks), Stopped(chunks, acks), w, got, e)
  {
    NextKeeps(w, got, acks, e);
  }

  lemma RunUntilKeepsAll(v: View, chunks: seq<Buffer>, acks: nat, es: seq<NextEnv>)
    requires During(chunks, acks)(v, []) && forall e :: e in es ==> NotLate(e)
    ensures var (v', ret, bs) := Run(v, es);
      if ret == TF_ERR_NONE then During(chunks, acks)(v', bs) else Stopped(chunks, acks)(v', bs, ret)
  {
    forall w, got, e | During(chunks, acks)(w, got) && NotLate(e)
      ensures StepKeeps(GetNextStep, During(chunks, acks), Stopped(chunks, acks), w, got, e)
    {
      StepKept(chunks, acks, w, got, e);
    }
    RunUntilKeeps(GetNextStep, NotLate, During(chunks, acks), Stopped(chunks, acks), v, [], es);
    assert [] + Run(v, es).2 == Run(v, es).2;
  }

  lemma {:induction false} JoinedAppend(x: seq<Buffer>, y: seq<Buffer>)
    ensures Joined(x + y) == Joined(x) + Joined(y)
    decreases |x|
  {
    if x == [] {
      assert x + y == y;
    } else {
      assert (x + y)[1..] == x[1..] + y;
      JoinedAppend(x[1..], y);
    }
  }

  lemma {:induction false} ConsecutivePrefix(offset: nat, x: seq<Buffer>, y: seq<Buffer>)
    requires Consecutive(offset, x + y)
    ensures Consecutive(offset, x)
    decreases |x|
  {
    if x != [] {
      assert (x + y)[1..] == x[1..] + y;
      ConsecutivePrefix(offset + |x[0].data|, x[1..], y);
    }
  }

  /** A device with nothing going on and a handle that has no reply outstanding. */
  predicate Fresh(v: View) {
    v.connected && v.device.Conforming? && v.device.mode == Idle && v.device.out == [] && !v.pending
  }

  lemma Opened(d: Peer, path: CString, offset: u64)
    requires d.Conforming? && d.mode == Idle && d.out == [] && PathFits(path)
    ensures var r, name := Hear(d, RequestFrame(Send(DIR_GET, path, offset))), Backslashed(path);
      if name in d.disk && offset <= |d.disk[name]| then
        var content := d.disk[name][offset..];
        var chunks := Chunks(offset, content, d.policy);
        (forall b :: b in chunks ==> b.offset < 0x1_0000_0000_0000_0000)
        && r == Say(d, Serving(content, offset, chunks, 1), [Frame(TF_MSG_HDD_FILE_START, AboutFile(d, name))])
      else r == Say(d, Idle, [Fail(2)])
  {
    HearsSend(d, DIR_GET, path, offset);
    OpenHeard(d, Backslashed(path), offset);
  }

  lemma OpenHeard(d: Peer, name: CString, offset: u64)
    requires d.Conforming? && d.mode == Idle && d.out == []
    ensures var r := HearOpen(d, DIR_GET, name, offset);
      if name in d.disk && offset <= |d.disk[name]| then
        var content := d.disk[name][offset..];
        var chunks := Chunks(offset, content, d.policy);
        (forall b :: b in chunks ==> b.offset < 0x1_0000_0000_0000_0000)
        && r == Say(d, Serving(content, offset, chunks, 1), [Frame(TF_MSG_HDD_FILE_START, AboutFile(d, name))])
      else r == Say(d, Idle, [Fail(2)])
  {
    if name in d.disk && offset <= |d.disk[name]| {
      ChunksFit(offset, d.disk[name][offset..], d.policy);
    }
  }

  /** The device after the request, whether or not the host knows that it arrived. */
  lemma OpenedUnharmed(d: Peer, path: CString, offset: u64)
    requires d.Conforming? && d.mode == Idle && d.out == [] && PathFits(path)
    ensures var r := Hear(d, RequestFrame(Send(DIR_GET, path, offset)));
      && Waiting(r) && Unharmed(r) && Unharmed(Say(r, r.mode, []))
      && (r.out[0].cmd == TF_MSG_HDD_FILE_START || (r.out[0].cmd == TF_MSG_FAIL && FailCode(r.out[0]) == -2))
  {
    Opened(d, path, offset);
    Get32Be32(2);
  }

  /** Opening a download from a fresh state: it either begins, or nothing is pending and the device
      is unharmed. */
  lemma OpenKeeps(v: View, path: CString, offset: u64, send: SendEnv, read: ReadEnv)
    requires Fresh(v) && PathFits(path)
    ensures var (v1, ret, g) := GetStep(v, path, offset, send, read);
      && Unharmed(v1.device) && !v1.pending
      && (ret == 0 ==> send == SendEnv.Delivered && read == Heard && g.cmd == TF_MSG_HDD_FILE_START)
  {
    OpenedUnharmed(v.device, path, offset);
    var v1 := SendStep(v, RequestFrame(Send(DIR_GET, path, offset)), send).0;
    if send == SendEnv.Delivered {
      ListenConforming(v1.device, read, v.nocrc);
    }
  }

  /** A download that begins is of the file asked for, from the offset asked for. */
  lemma OpenBegins(v: View, path: CString, offset: u64)
    requires Fresh(v) && PathFits(path)
    requires GetStep(v, path, offset, SendEnv.Delivered, Heard).1 == 0
    ensures var (v1, ret, g) := GetStep(v, path, offset, SendEnv.Delivered, Heard);
      && Downloading(v1, [], Acks(v.log)) && g == Frame(TF_MSG_HDD_FILE_START, AboutFile(v.device, Backslashed(path)))
      && Backslashed(path) in v.device.disk && offset <= |v.device.disk[Backslashed(path)]|
      && v1.device.mode.offset == offset && v1.device.mode.content == v.device.disk[Backslashed(path)][offset..]
  {
    Opened(v.device, path, offset);
    OpenedUnharmed(v.device, path, offset);
    var f := RequestFrame(Send(DIR_GET, path, offset));
    var v1 := SendStep(v, f, SendEnv.Delivered).0;
    AcksAppend(v.log, Sent(f, SendEnv.Delivered));
    AcksAppend(v1.log, Read(v1.timeout, Heard));
    ListenConforming(v1.device, Heard, v.nocrc);
  }

  /** tf_cmd_get from a fresh state returns 0 exactly when both transfers go well and the device has
      the file and the offset. */
  lemma OpenExactly(v: View, path: CString, offset: u64, send: SendEnv, read: ReadEnv)
    requires Fresh(v) && PathFits(path)
    ensures GetStep(v, path, offset, send, read).1 == 0 <==>
      && send == SendEnv.Delivered && read == Heard
      && Backslashed(path) in v.device.disk && offset <= |v.device.disk[Backslashed(path)]|
  {
    OpenKeeps(v, path, offset, send, read);
    if send == SendEnv.Delivered && read == Heard {
      Opened(v.device, path, offset);
      OpenedUnharmed(v.device, path, offset);
      ListenConforming(Hear(v.device, RequestFrame(Send(DIR_GET, path, offset))), read, v.nocrc);
    }
  }

  /** What a run may have delivered of a content that starts at an offset. */
  ghost predicate Delivers(content: seq<byte>, offset: nat, acks: nat, v: View, ret: int, bs: seq<Buffer>) {
    && Unharmed(v.device)
    && Consecutive(offset, bs) && Joined(bs) <= content
    && (ret == TF_ERR_DONE ==> Joined(bs) == content)
    && Acks(v.log) - acks <= 1 + |bs| + (if ret == TF_ERR_DONE then 1 else 0)
    && (v.pending ==> ret == TF_ERR_NONE && |v.device.out| == 1)
  }

  lemma RunDelivers(v: View, acks: nat, es: seq<NextEnv>)
    requires Downloading(v, [], acks) && forall e :: e in es ==> NotLate(e)
    ensures var (v', ret, bs) := Run(v, es);
      Delivers(v.device.mode.content, v.device.mode.offset, acks, v', ret, bs)
  {
    var m := v.device.mode;
    RunKeeps(v, acks, es);
    PrefixDelivers(m.offset, m.content, v.device.policy, Run(v, es).2);
  }

  lemma PrefixDelivers(offset: nat, content: seq<byte>, policy: seq<nat>, bs: seq<Buffer>)
    requires bs <= Chunks(offset, content, policy)
    ensures Consecutive(offset, bs) && Joined(bs) <= content
    ensures bs == Chunks(offset, content, policy) ==> Joined(bs) == content
  {
    var chunks := Chunks(offset, content, policy);
    ChunksAreContent(offset, content, policy);
    assert chunks == bs + chunks[|bs|..];
    JoinedAppend(bs, chunks[|bs|..]);
    ConsecutivePrefix(offset, bs, chunks[|bs|..]);
  }

  /** The whole download. Whatever sends are lost and reads fail, what was delivered is the file
      from the offset on, piece by piece; it is all of it when the last call returned DONE; the
      device never got a message it did not expect and never had two replies waiting; and no frame
      was acknowledged twice: the acknowledgements that reached the device are at most as many as
      the frames read, which are the description, the buffers and, after DONE, the end. */
  lemma Download(v: View, path: CString, offset: u64, send: SendEnv, read: ReadEnv, es: seq<NextEnv>)
    requires Fresh(v) && PathFits(path) && forall e :: e in es ==> NotLate(e)
    requires GetStep(v, path, offset, send, read).1 == 0
    ensures Backslashed(path) in v.device.disk && offset <= |v.device.disk[Backslashed(path)]|
    ensures var (v', ret, bs) := Run(GetStep(v, path, offset, send, read).0, es);
      Delivers(v.device.disk[Backslashed(path)][offset..], offset, Acks(v.log), v', ret, bs)
  {
    OpenKeeps(v, path, offset, send, read);
    OpenBegins(v, path, offset);
    RunDelivers(GetStep(v, path, offset, send, read).0, Acks(v.log), es);
  }

  // ---- The end of the file

  /** The handle and the device after a call that returned DONE: one more frame was acknowledged
      than before, and the device is ready for the next request, exactly if the acknowledgement of
      the end reached it. */
  predicate Ended(d: Peer, got: seq<Buffer>, acks: nat, early: SendEnv, v: View)
    requires d.Conforming? && d.mode.Serving?
  {
    && got == d.mode.chunks
    && Acks(v.log) == acks + |got| + (if early == SendEnv.Delivered then 2 else 1)
    && v.connected && !v.pending
    && SameFiles(d, v.device) && v.device.out == []
    && if early == SendEnv.Delivered then v.device.mode == Idle else v.device.mode.Serving?
  }

  lemma EndRead(v: View, got: seq<Buffer>, acks: nat, e: NextEnv)
    requires Downloading(v, got, acks) && v.pending && e.early != Late && |got| == |v.device.mode.chunks|
    requires e.read == Heard
    ensures GetNextStep(v, e).1 == TF_ERR_DONE && Ended(v.device, got, acks, e.early, GetNextStep(v, e).0)
  {
    var v3 := EndTaken(v, got, acks, e);
    EndSent(v3, e.early);
  }

  /** The end of the file is read, and everything but its acknowledgement done. */
  lemma EndTaken(v: View, got: seq<Buffer>, acks: nat, e: NextEnv) returns (v3: View)
    requires Downloading(v, got, acks) && v.pending && |got| == |v.device.mode.chunks| && e.read == Heard
    ensures v3.connected && !v3.pending && v3.device == Say(v.device, v.device.mode, []) && Acks(v3.log) == Acks(v.log)
    ensures GetNextStep(v, e) == (SendStep(v3, SUCCESS, e.early).0.(error := TF_ERR_DONE), TF_ERR_DONE, NO_BUFFER)
  {
    v3 := ReceiveStep(v.(pending := false), Heard).0;
    ReadStep(v, got, acks, Heard);
    WaitingFrame(v, got, acks);
  }

  lemma EndSent(v: View, early: SendEnv)
    requires v.connected && v.device.Conforming? && v.device.mode.Serving? && v.device.out == [] && early != Late
    requires v.device.mode.next == |v.device.mode.chunks| + 2
    ensures var w := SendStep(v, SUCCESS, early).0;
      && w.connected && w.pending == v.pending
      && w.device == (if early == SendEnv.Delivered then Say(v.device, Idle, []) else v.device)
      && Acks(w.log) == Acks(v.log) + if early == SendEnv.Delivered then 1 else 0
  {
    EndAcked(v.device);
    AcksAppend(v.log, Sent(SUCCESS, early));
  }

  /** A call that returns DONE has read the end of the file and sent its acknowledgement. */
  lemma NextEnds(v: View, got: seq<Buffer>, acks: nat, e: NextEnv)
    requires Downloading(v, got, acks) && NotLate(e)
    requires GetNextStep(v, e).1 == TF_ERR_DONE
    ensures Ended(v.device, got, acks, e.early, GetNextStep(v, e).0)
    decreases !v.pending
  {
    NextKeeps(v, got, acks, e);
    SendSame(v, SUCCESS, e.ack);
    if v.pending {
      EndRead(v, got, acks, e);
    } else {
      var w := SendStep(v, SUCCESS, e.ack).0.(pending := true);
      Acked(v, got, acks, e.ack);
      AckedEarlier(v, e);
      NextEnds(w, got, acks, e);
      EndedAlike(v.device, w.device, got, acks, e.early, GetNextStep(w, e).0);
    }
  }

  lemma EndedAlike(d: Peer, d1: Peer, got: seq<Buffer>, acks: nat, early: SendEnv, v: View)
    requires d.Conforming? && d.mode.Serving? && SameFiles(d, d1) && d1.mode.Serving? && d1.mode.chunks == d.mode.chunks
    requires Ended(d1, got, acks, early, v)
    ensures Ended(d, got, acks, early, v)
  {
  }

  lemma ListenSame(d: Peer, read: ReadEnv, nocrc: bool)
    requires d.Conforming?
    ensures SameFiles(d, Listen(d, read, nocrc).0)
  {
  }

  lemma SendSame(v: View, f: Frame, went: SendEnv)
    requires v.device.Conforming? && f.cmd != TF_MSG_HDD_FILE_END
    ensures SameFiles(v.device, SendStep(v, f, went).0.device)
  {
  }

  lemma ReplySame(v: View, read: ReadEnv, early: SendEnv)
    requires v.device.Conforming? && !v.pending
    ensures SameFiles(v.device, NextReplyStep(v, read, early).0.device)
  {
    var v1 := ReceiveStep(v, read).0;
    ListenSame(v.device, read, v.nocrc);
    SendSame(v1, SUCCESS, early);
    ReplyDevice(v, read, early, SUCCESS);
  }

  lemma ReplyDevice(v: View, read: ReadEnv, early: SendEnv, f: Frame)
    requires !v.pending && f == SUCCESS
    ensures var v1 := ReceiveStep(v, read).0;
      NextReplyStep(v, read, early).0.device in {v1.device, SendStep(v1, f, early).0.device}
  {
  }

  /** No tf_cmd_get_next changes what the device has. */
  lemma NextSame(v: View, e: NextEnv)
    requires v.device.Conforming?
    ensures SameFiles(v.device, GetNextStep(v, e).0.device)
  {
    var v1 := if v.pending then v else SendStep(v, SUCCESS, e.ack).0;
    SendSame(v, SUCCESS, e.ack);
    ReplySame(v1.(pending := false), e.read, e.early);
    assert GetNextStep(v, e).0.device in {v1.device, NextReplyStep(v1.(pending := false), e.read, e.early).0.device};
  }

  /** A download of some chunks from a device with these files. */
  function Of(d: Peer, chunks: seq<Buffer>, acks: nat): (View, seq<Buffer>) -> bool
    requires d.Conforming?
  {
    (w, got) => Downloading(w, got, acks) && w.device.mode.chunks == chunks && SameFiles(d, w.device)
  }

  function Anyway(): (View, seq<Buffer>, int) -> bool {
    (w, got, ret) => true
  }

  lemma OfKept(d: Peer, chunks: seq<Buffer>, acks: nat, w: View, got: seq<Buffer>, e: NextEnv)
    requires d.Conforming? && Of(d, chunks, acks)(w, got) && NotLate(e)
    ensures StepKeeps(GetNextStep, Of(d, chunks, acks), Anyway(), w, got, e)
  {
    NextKeeps(w, got, acks, e);
    if GetNextStep(w, e).1 == TF_ERR_NONE {
      NextSame(w, e);
    }
  }

  /** A run that ends in DONE: every buffer of the file, the end acknowledged by the last call. */
  lemma RunEnds(v: View, acks: nat, es: seq<NextEnv>)
    requires Downloading(v, [], acks) && forall e :: e in es ==> NotLate(e)
    requires Run(v, es).1 == TF_ERR_DONE
    ensures var (v', _, bs) := Run(v, es);
      |bs| < |es| && Ended(v.device, bs, acks, es[|bs|].early, v')
  {
    var d := v.device;
    var w := RunStops(d, d.mode.chunks, acks, v, es);
    var bs := Run(v, es).2;
    EndedOf(d, w, bs, acks, es[|bs|]);
  }

  lemma RunStops(d: Peer, chunks: seq<Buffer>, acks: nat, v: View, es: seq<NextEnv>) returns (w: View)
    requires d.Conforming? && Of(d, chunks, acks)(v, []) && forall e :: e in es ==> NotLate(e)
    requires Run(v, es).1 == TF_ERR_DONE
    ensures var (v', _, bs) := Run(v, es);
      |bs| < |es| && NotLate(es[|bs|]) && Of(d, chunks, acks)(w, bs)
      && v' == GetNextStep(w, es[|bs|]).0 && GetNextStep(w, es[|bs|]).1 == TF_ERR_DONE
  {
    forall w, got, e | Of(d, chunks, acks)(w, got) && NotLate(e)
      ensures StepKeeps(GetNextStep, Of(d, chunks, acks), Anyway(), w, got, e)
    {
      OfKept(d, chunks, acks, w, got, e);
    }
    w := RunUntilStops(GetNextStep, NotLate, Of(d, chunks, acks), Anyway(), v, [], es);
    var bs := Run(v, es).2;
    assert [] + bs == bs;
    assert es[|bs|] in es;
  }

  lemma EndedOf(d: Peer, w: View, got: seq<Buffer>, acks: nat, e: NextEnv)
    requires d.Conforming? && d.mode.Serving? && Of(d, d.mode.chunks, acks)(w, got) && NotLate(e)
    requires GetNextStep(w, e).1 == TF_ERR_DONE
    ensures Ended(d, got, acks, e.early, GetNextStep(w, e).0)
  {
    NextEnds(w, got, acks, e);
  }

  /** A download that ended in DONE. Every frame read has been acknowledged once, the description,
      the buffers and the end, and the device is as it was before the download, ready for the next
      request: all this exactly if the acknowledgement of the end, whose loss goes unreported,
      reached the device. */
  lemma DownloadEnds(v: View, path: CString, offset: u64, send: SendEnv, read: ReadEnv, es: seq<NextEnv>)
    requires Fresh(v) && PathFits(path) && forall e :: e in es ==> NotLate(e)
    requires GetStep(v, path, offset, send, read).1 == 0
    requires Run(GetStep(v, path, offset, send, read).0, es).1 == TF_ERR_DONE
    ensures var (v', _, bs) := Run(GetStep(v, path, offset, send, read).0, es);
      && |bs| < |es|
      && (es[|bs|].early == SendEnv.Delivered <==> Acks(v'.log) == Acks(v.log) + 1 + |bs| + 1)
      && (es[|bs|].early == SendEnv.Delivered <==> Fresh(v'))
      && (es[|bs|].early == SendEnv.Delivered <==> v'.device == v.device)
      && (es[|bs|].early == SendEnv.Lost <==> Abandoned(v.device, v'))
  {
    OpenKeeps(v, path, offset, send, read);
    OpenBegins(v, path, offset);
    var v1 := GetStep(v, path, offset, send, read).0;
    OpenSameFiles(v, path, offset);
    RunEnds(v1, Acks(v.log), es);
    var (v', _, bs) := Run(v1, es);
    assert es[|bs|] in es;
    EndedThen(v.device, v1.device, bs, Acks(v.log), es[|bs|].early, v');
  }

  lemma EndedThen(d: Peer, d1: Peer, got: seq<Buffer>, acks: nat, early: SendEnv, v: View)
    requires d.Conforming? && d.mode == Idle && d.out == [] && SameFiles(d, d1) && d1.mode.Serving?
    requires Ended(d1, got, acks, early, v) && early != Late
    ensures early == SendEnv.Delivered <==> Acks(v.log) == acks + 1 + |got| + 1
    ensures early == SendEnv.Delivered <==> Fresh(v)
    ensures early == SendEnv.Delivered <==> v.device == d
    ensures early == SendEnv.Lost <==> Abandoned(d, v)
  {
    assert Say(d, Idle, []) == d;
    if early == SendEnv.Delivered {
      assert Say(v.device, Idle, []) == v.device;
    }
  }

  /** The device still waits for the acknowledgement of the end. */
  predicate Abandoned(d: Peer, v: View)
    requires d.Conforming?
  {
    v.connected && !v.pending && SameFiles(d, v.device) && v.device.out == [] && v.device.mode.Serving?
  }

  lemma OpenSameFiles(v: View, path: CString, offset: u64)
    requires Fresh(v) && PathFits(path)
    requires GetStep(v, path, offset, SendEnv.Delivered, Heard).1 == 0
    ensures SameFiles(v.device, GetStep(v, path, offset, SendEnv.Delivered, Heard).0.device)
  {
    Opened(v.device, path, offset);
    OpenedUnharmed(v.device, path, offset);
    var v1 := SendStep(v, RequestFrame(Send(DIR_GET, path, offset)), SendEnv.Delivered).0;
    ListenConforming(v1.device, Heard, v.nocrc);
  }

  lemma AbandonedRefuses(d: Peer, v: View, path: CString, offset: u64, send: SendEnv, read: ReadEnv)
    requires d.Conforming? && Abandoned(d, v) && PathFits(path)
    ensures GetStep(v, path, offset, send, read).1 == TF_ERR_IO
  {
    OpenRefused(v, RequestFrame(Send(DIR_GET, path, offset)), send, read);
  }

  lemma OpenRefused(v: View, f: Frame, send: SendEnv, read: ReadEnv)
    requires v.connected && v.device.Conforming? && v.device.mode.Serving? && v.device.out == []
    requires f.cmd == TF_MSG_HDD_FILE_SEND
    ensures OpenStep(v, f, send, read).1 == TF_ERR_IO
  {
    assert Hear(v.device, f) == Say(v.device, Confused, []);
  }

  /** After a download that ended in DONE the next one opens, if its own transfers go well and the
      device has the file, exactly if the acknowledgement of the end reached the device. */
  lemma NextDownload(v: View, path: CString, offset: u64, send: SendEnv, read: ReadEnv, es: seq<NextEnv>,
                     path2: CString, offset2: u64, send2: SendEnv, read2: ReadEnv)
    requires Fresh(v) && PathFits(path) && PathFits(path2) && forall e :: e in es ==> NotLate(e)
    requires GetStep(v, path, offset, send, read).1 == 0
    requires Run(GetStep(v, path, offset, send, read).0, es).1 == TF_ERR_DONE
    ensures var (v', _, bs) := Run(GetStep(v, path, offset, send, read).0, es);
      && |bs| < |es|
      && (GetStep(v', path2, offset2, send2, read2).1 == 0 <==>
           && es[|bs|].early == SendEnv.Delivered && send2 == SendEnv.Delivered && read2 == Heard
           && Backslashed(path2) in v.device.disk && offset2 <= |v.device.disk[Backslashed(path2)]|)
  {
    DownloadEnds(v, path, offset, send, read, es);
    var (v', _, bs) := Run(GetStep(v, path, offset, send, read).0, es);
    assert es[|bs|] in es;
    if es[|bs|].early == SendEnv.Delivered {
      OpenExactly(v', path2, offset2, send2, read2);
    } else {
      AbandonedRefuses(v.device, v', path2, offset2, send2, read2);
    }
  }

  // ---- Progress, retries and stale handles

  /** A call whose own acknowledgement arrives and whose read is whole does not fail. */
  lemma NextSucceeds(v: View, got: seq<Buffer>, acks: nat, e: NextEnv)
    requires Downloading(v, got, acks) && NotLate(e) && e.ack == SendEnv.Delivered && e.read == Heard
    ensures GetNextStep(v, e).1 in {TF_ERR_NONE, TF_ERR_DONE}
    decreases !v.pending
  {
    if v.pending {
      ReadStep(v, got, acks, Heard);
      WaitingFrame(v, got, acks);
    } else {
      Acked(v, got, acks, e.ack);
      AckedEarlier(v, e);
      NextSucceeds(SendStep(v, SUCCESS, e.ack).0.(pending := true), got, acks, e);
    }
  }

  /** Lost early acknowledgements delay nothing: as many calls as there are chunks left, and one
      more, finish the download. */
  lemma {:induction false} RunFinishes(v: View, got: seq<Buffer>, acks: nat, es: seq<NextEnv>)
    requires Downloading(v, got, acks)
    requires forall e :: e in es ==> NotLate(e) && e.ack == SendEnv.Delivered && e.read == Heard
    requires |es| > |v.device.mode.chunks| - |got|
    ensures Run(v, es).1 == TF_ERR_DONE
    decreases |es|
  {
    assert es[0] in es && forall e :: e in es[1..] ==> e in es;
    NextKeeps(v, got, acks, es[0]);
    NextSucceeds(v, got, acks, es[0]);
    var (v1, ret, b) := GetNextStep(v, es[0]);
    if ret == TF_ERR_NONE {
      RunFinishes(v1, got + [b], acks, es[1..]);
    }
  }

  /** A call that failed because its acknowledgement was lost may simply be repeated. */
  lemma RetrySafe(v: View, got: seq<Buffer>, acks: nat, e: NextEnv)
    requires Downloading(v, got, acks) && !v.pending && e.ack == Lost
    ensures GetNextStep(v, e).1 == TF_ERR_IO && Downloading(GetNextStep(v, e).0, got, acks)
  {
    AckStep(v, got, acks, e.ack);
  }

  lemma SendIgnoresPending(v: View, f: Frame, went: SendEnv)
    ensures var (v1, ret) := SendStep(v.(pending := false), f, went);
      SendStep(v, f, went) == (v1.(pending := v.pending), ret)
  {
  }

  lemma ReceiveIgnoresPending(v: View, went: ReadEnv)
    ensures var (v1, ret, g) := ReceiveStep(v.(pending := false), went);
      ReceiveStep(v, went) == (v1.(pending := v.pending), ret, g)
  {
  }

  lemma OpenIgnoresPending(v: View, f: Frame, send: SendEnv, read: ReadEnv)
    ensures var (v1, ret, g) := OpenStep(v.(pending := false), f, send, read);
      OpenStep(v, f, send, read) == (v1.(pending := v.pending), ret, g)
  {
    SendIgnoresPending(v, f, send);
    if SendStep(v, f, send).1 == 0 {
      AnswerIgnoresPending(SendStep(v, f, send).0, read);
    }
  }

  lemma AnswerIgnoresPending(v: View, read: ReadEnv)
    ensures var (v1, ret, g) := AnswerStep(v.(pending := false), read);
      AnswerStep(v, read) == (v1.(pending := v.pending), ret, g)
  {
    ReceiveIgnoresPending(v, read);
  }

  lemma GetIgnoresPending(v: View, path: CString, offset: u64, send: SendEnv, read: ReadEnv)
    requires PathFits(path)
    ensures var (v1, ret, g) := GetStep(v.(pending := false), path, offset, send, read);
      GetStep(v, path, offset, send, read) == (v1.(pending := v.pending), ret, g)
  {
    OpenIgnoresPending(v, RequestFrame(Send(DIR_GET, path, offset)), send, read);
  }

  lemma CancelSent(v: View)
    requires v.connected && v.device.Conforming?
    ensures SendStep(v, CANCEL, SendEnv.Delivered) ==
      (v.(error := 0, device := Say(v.device, Idle, [SUCCESS]), log := v.log + [Sent(CANCEL, SendEnv.Delivered)]), 0)
  {
  }

  lemma ReplyTaken(v: View, g: Frame)
    requires v.connected && v.device.Conforming? && v.device.out == [g]
    ensures ReceiveStep(v, Heard) ==
      (v.(error := 0, device := Say(v.device, v.device.mode, []), log := v.log + [Read(v.timeout, Heard)]), 0, g)
  {
    ListenConforming(v.device, Heard, v.nocrc);
  }

  lemma CancelHeard(v: View)
    requires v.connected && v.device.Conforming?
    ensures CmdStep(v, CANCEL, SendEnv.Delivered, Heard) ==
      (v.(error := 0, device := Rested(v.device), log := v.log + [Sent(CANCEL, SendEnv.Delivered)] + [Read(v.timeout, Heard)]), 0)
  {
    CancelSent(v);
    ReplyTaken(SendStep(v, CANCEL, SendEnv.Delivered).0, SUCCESS);
  }

  /** pending is left over when a download is given up by tf_cmd_cancel instead of
      tf_cmd_get_cancel: the device is ready for the next request, and the flag is still set. */
  lemma AbandonedByCancel(v: View, got: seq<Buffer>, acks: nat)
    requires Downloading(v, got, acks) && v.pending
    ensures var (v1, ret) := CmdStep(v, CANCEL, SendEnv.Delivered, Heard);
      ret == 0 && v1.pending && Fresh(v1.(pending := false))
  {
    CancelHeard(v);
  }

  /** tf_cmd_get does not clear pending. With pending left over the next download opens, but its
      first tf_cmd_get_next waits for a reply nobody asked for and fails. */
  lemma StalePending(v: View, path: CString, offset: u64, e: NextEnv)
    requires v.pending && Fresh(v.(pending := false)) && PathFits(path)
    requires GetStep(v, path, offset, SendEnv.Delivered, Heard).1 == 0
    ensures var v1 := GetStep(v, path, offset, SendEnv.Delivered, Heard).0;
      v1.pending && GetNextStep(v1, e).1 == TF_ERR_IO
  {
    GetIgnoresPending(v, path, offset, SendEnv.Delivered, Heard);
    OpenBegins(v.(pending := false), path, offset);
  }

  /** After a download has opened, a first tf_cmd_get_next whose transfers go well fails exactly
      when pending was set before. */
  lemma FirstNextExactly(v: View, path: CString, offset: u64, e: NextEnv)
    requires Fresh(v.(pending := false)) && PathFits(path)
    requires GetStep(v, path, offset, SendEnv.Delivered, Heard).1 == 0
    requires NotLate(e) && e.ack == SendEnv.Delivered && e.read == Heard
    ensures GetNextStep(GetStep(v, path, offset, SendEnv.Delivered, Heard).0, e).1 == TF_ERR_IO <==> v.pending
  {
    if v.pending {
      StalePending(v, path, offset, e);
    } else {
      assert v.(pending := false) == v;
      OpenBegins(v, path, offset);
      NextSucceeds(GetStep(v, path, offset, SendEnv.Delivered, Heard).0, [], Acks(v.log), e);
    }
  }
}
