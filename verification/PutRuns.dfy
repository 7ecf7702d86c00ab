/** Whole file uploads: every run of tf_cmd_put, tf_cmd_put_data and tf_cmd_put_done against a
    conforming device. */
module PutRuns {
  import opened Bytes
  import opened Folds
  import opened Frames
  import opened Packets
  import opened Requests
  import opened Devices
  import opened Protocol
  import opened GetRuns

  /** The most one tf_cmd_put_data may carry. */
  const MAX_PUT_SIZE: nat := 0xFFFF - 8 - 9

  /** A buffer a caller may put, and how its two transfers go. */
  datatype Put = Put(buffer: Buffer, send: SendEnv, read: ReadEnv)

  type Piece = p: Put | p.buffer.offset < 0x1_0000_0000_0000_0000 && |p.buffer.data| <= MAX_PUT_SIZE
    witness Put(Buffer(0, []), Lost, Silent)

  /** The 16-bit packet length never wraps for a permitted piece, nor for one byte more. */
  lemma PieceFits(b: Buffer)
    requires b.offset < 0x1_0000_0000_0000_0000
    ensures Sendable(DataFrame(b)) <==> |b.data| <= MAX_PUT_SIZE + 1
  {
  }

  // ---- What a file becomes

  function WriteBuffer(file: seq<byte>, b: Buffer): seq<byte> {
    Overwrite(file, b.offset, b.data)
  }

  /** A file with buffers written over it in turn. */
  function Written(file: seq<byte>, bs: seq<Buffer>): seq<byte> {
    Fold(WriteBuffer, file, bs)
  }

  lemma WrittenOne(file: seq<byte>, bs: seq<Buffer>, b: Buffer)
    ensures Written(file, bs + [b]) == Overwrite(Written(file, bs), b.offset, b.data)
  {
    FoldAppend(WriteBuffer, file, bs, [b]);
    assert [b][1..] == [];
  }

  lemma WrittenFirst(file: seq<byte>, bs: seq<Buffer>)
    requires bs != []
    ensures Written(file, bs) == Written(Overwrite(file, bs[0].offset, bs[0].data), bs[1..])
  {
  }

  lemma OverwriteAtEnd(file: seq<byte>, head: seq<byte>, data: seq<byte>)
    requires head <= file
    ensures head + data <= Overwrite(file, |head|, data)
  {
  }

  lemma JoinedBehind(head: seq<byte>, bs: seq<Buffer>)
    requires bs != []
    ensures head + bs[0].data + Joined(bs[1..]) == head + Joined(bs)
  {
  }

  /** Consecutive buffers from the start replace the beginning of the file by their contents. */
  lemma {:induction false} WrittenConsecutive(file: seq<byte>, head: seq<byte>, bs: seq<Buffer>)
    requires head <= file && Consecutive(|head|, bs)
    ensures head + Joined(bs) <= Written(file, bs)
    ensures |Written(file, bs)| == if |head + Joined(bs)| > |file| then |head + Joined(bs)| else |file|
    decreases |bs|
  {
    if bs == [] {
      assert head + [] == head;
    } else {
      var b := bs[0];
      var next := Overwrite(file, b.offset, b.data);
      OverwriteAtEnd(file, head, b.data);
      WrittenFirst(file, bs);
      WrittenConsecutive(next, head + b.data, bs[1..]);
      JoinedBehind(head, bs);
    }
  }

  // ---- The state between calls

  /** What is being put: the device as it was before, the file's name there, and its description. */
  datatype Job = Job(device: Peer, name: CString, description: seq<byte>)

  /** What the file holds when the upload begins. */
  function OldContents(d: Peer, name: CString): seq<byte>
    requires d.Conforming?
  {
    if name in d.disk then d.disk[name] else []
  }

  function Base(job: Job): seq<byte> {
    if job.device.Conforming? then OldContents(job.device, job.name) else []
  }

  /** What the device holds of the file. */
  predicate Stores(job: Job, contents: seq<byte>, d: Peer) {
    && job.device.Conforming? && Description(job.description)
    && |contents| < 0x1_0000_0000_0000_0000
    && d == Say(job.device, Storing(job.name, contents, Known(job.description)), [])
  }

  /** An upload in progress: the device holds the description and the old contents with the pieces
      so far written over them, is otherwise as it was, and no reply is outstanding. */
  predicate Uploading(v: View, job: Job, done: seq<Buffer>) {
    v.connected && Stores(job, Written(Base(job), done), v.device)
  }

  lemma StoreOpened(d: Peer, path: CString, offset: u64)
    requires d.Conforming? && d.mode == Idle && d.out == [] && PathFits(path)
    ensures Hear(d, RequestFrame(Send(DIR_PUT, path, offset))) ==
            Say(d, Storing(Backslashed(path), OldContents(d, Backslashed(path)), Unknown), [SUCCESS])
  {
    HearsSend(d, DIR_PUT, path, offset);
  }

  /** The device takes a description, and nothing else, before the data. */
  lemma StoreStarted(d: Peer, typefile: seq<byte>)
    requires d.Conforming? && d.mode.Storing? && d.mode.about == Unknown && d.out == []
    ensures Hear(d, Frame(TF_MSG_HDD_FILE_START, typefile)) ==
            if Description(typefile) then Say(d, Storing(d.mode.name, d.mode.contents, Known(typefile)), [SUCCESS])
            else Say(d, Confused, [])
  {
  }

  /** A message the device answers with SUCCESS. When both transfers go well the device has taken
      it and nothing is outstanding; otherwise one of the two results is not 0. */
  lemma Exchange(v: View, f: Frame, send: SendEnv, read: ReadEnv)
    requires v.connected && v.device.Conforming?
    requires Waiting(Hear(v.device, f)) && Hear(v.device, f).out[0] == SUCCESS
    ensures var (v1, ret1) := SendStep(v, f, send);
      && (ret1 == 0 <==> send == SendEnv.Delivered)
      && var (v2, ret2, g) := ReceiveStep(v1, read);
      && (ret1 == 0 ==> (ret2 == 0 <==> read == Heard))
      && (ret1 == 0 && ret2 == 0 ==>
           && g == SUCCESS && v2.connected
           && v2.device == Say(Hear(v.device, f), Hear(v.device, f).mode, []))
  {
    if send == SendEnv.Delivered {
      ListenConforming(Hear(v.device, f), read, v.nocrc);
    }
  }

  lemma Exchanged(v: View, f: Frame, d: Peer, send: SendEnv, read: ReadEnv)
    requires v.connected && v.device.Conforming?
    requires Hear(v.device, f) == d && Waiting(d) && d.out[0] == SUCCESS
    requires SendStep(v, f, send).1 == 0 && ReceiveStep(SendStep(v, f, send).0, read).1 == 0
    ensures var (v2, ret2, g) := ReceiveStep(SendStep(v, f, send).0, read);
      g == SUCCESS && v2.connected && v2.device == Say(d, d.mode, [])
  {
    Exchange(v, f, send, read);
  }

  /** The state in which the device has been told what to store, but not yet described. */
  function Awaiting(v: View, name: CString): Peer
    requires v.device.Conforming?
  {
    Say(v.device, Storing(name, OldContents(v.device, name), Unknown), [])
  }

  /** The first half of tf_cmd_put. */
  lemma PutAsked(v: View, path: CString, offset: u64, e: PutEnv)
    requires Fresh(v) && PathFits(path)
    ensures var (v1, ret1) := SendStep(v, RequestFrame(Send(DIR_PUT, path, offset)), e.open);
      var (v2, ret2, g) := ReceiveStep(v1, e.answer);
      && (ret1 == 0 <==> e.open == SendEnv.Delivered)
      && (ret1 == 0 ==> (ret2 == 0 <==> e.answer == Heard))
      && (ret1 == 0 && ret2 == 0 ==> g == SUCCESS && v2.connected && v2.device == Awaiting(v, Backslashed(path)))
  {
    StoreOpened(v.device, path, offset);
    Exchange(v, RequestFrame(Send(DIR_PUT, path, offset)), e.open, e.answer);
  }

  /** The second half of tf_cmd_put. */
  lemma Started(v: View, job: Job, start: SendEnv, started: ReadEnv)
    requires v.connected && job.device.Conforming?
    requires v.device == Say(job.device, Storing(job.name, Base(job), Unknown), [])
    ensures StartStep(v, job.description, start, started).1 == 0 <==>
      start == SendEnv.Delivered && started == Heard && Description(job.description)
    ensures StartStep(v, job.description, start, started).1 == 0 ==>
      Uploading(StartStep(v, job.description, start, started).0, job, [])
  {
    var f := Frame(TF_MSG_HDD_FILE_START, job.description);
    StoreStarted(v.device, job.description);
    if Description(job.description) {
      Exchange(v, f, start, started);
    }
  }

  /** What tf_cmd_put is about to put. */
  function JobOf(v: View, path: CString, typefile: seq<byte>): Job {
    Job(v.device, Backslashed(path), typefile)
  }

  /** tf_cmd_put from a fresh state: when it returns 0 the upload has begun, and the device has the
      description. */
  lemma PutOpens(v: View, path: CString, typefile: seq<byte>, offset: u64, e: PutEnv)
    requires Fresh(v) && PathFits(path)
    requires PutStep(v, path, typefile, offset, e).1 == 0
    ensures Uploading(PutStep(v, path, typefile, offset, e).0, JobOf(v, path, typefile), [])
  {
    PutAsked(v, path, offset, e);
    var v2 := ReceiveStep(SendStep(v, RequestFrame(Send(DIR_PUT, path, offset)), e.open).0, e.answer).0;
    if v2.device == Awaiting(v, Backslashed(path)) && v2.connected {
      Started(v2, JobOf(v, path, typefile), e.start, e.started);
    }
  }

  /** tf_cmd_put from a fresh state returns 0 exactly when all four transfers go well and the
      description is one. */
  lemma PutExactly(v: View, path: CString, typefile: seq<byte>, offset: u64, e: PutEnv)
    requires Fresh(v) && PathFits(path)
    ensures PutStep(v, path, typefile, offset, e).1 == 0 <==>
      && e.open == SendEnv.Delivered && e.answer == Heard && e.start == SendEnv.Delivered && e.started == Heard
      && Description(typefile)
  {
    PutAsked(v, path, offset, e);
    if e.open == SendEnv.Delivered && e.answer == Heard {
      var v2 := ReceiveStep(SendStep(v, RequestFrame(Send(DIR_PUT, path, offset)), e.open).0, e.answer).0;
      Started(v2, JobOf(v, path, typefile), e.start, e.started);
    }
  }

  // ---- Data

  lemma DataFrameRead(b: Buffer)
    requires b.offset < 0x1_0000_0000_0000_0000
    ensures var data := DataFrame(b).data; |data| == 8 + |b.data| && Get64(data, 0) == b.offset && data[8..] == b.data
  {
    DataFrameParts(b);
    assert Filled(DataFrame(b).data, 8) == DataFrame(b).data[..8];
  }

  lemma StoringHears(d: Peer, f: Frame, offset: nat, data: seq<byte>)
    requires d.Conforming? && d.mode.Storing? && d.mode.about.Known? && d.out == []
    requires |d.mode.contents| < 0x1_0000_0000_0000_0000
    requires f.cmd == TF_MSG_HDD_FILE_DATA && |f.data| == 8 + |data| && Get64(f.data, 0) == offset && f.data[8..] == data
    ensures Hear(d, f) ==
            if offset + |data| < 0x1_0000_0000_0000_0000
            then Say(d, Storing(d.mode.name, Overwrite(d.mode.contents, offset, data), d.mode.about), [SUCCESS])
            else Say(d, Confused, [])
  {
  }

  lemma DataHeard(d: Peer, b: Buffer)
    requires d.Conforming? && d.mode.Storing? && d.mode.about.Known? && d.out == []
    requires |d.mode.contents| < 0x1_0000_0000_0000_0000 && b.offset < 0x1_0000_0000_0000_0000
    ensures Hear(d, DataFrame(b)) ==
            if b.offset + |b.data| < 0x1_0000_0000_0000_0000
            then Say(d, Storing(d.mode.name, Overwrite(d.mode.contents, b.offset, b.data), d.mode.about), [SUCCESS])
            else Say(d, Confused, [])
  {
    DataFrameRead(b);
    StoringHears(d, DataFrame(b), b.offset, b.data);
  }

  /** One piece: a result of 0 means that the device has written it. */
  lemma PutDataKeeps(v: View, job: Job, done: seq<Buffer>, p: Piece)
    requires Uploading(v, job, done)
    requires PutDataStep(v, p.buffer, p.send, p.read).1 == 0
    ensures Uploading(PutDataStep(v, p.buffer, p.send, p.read).0, job, done + [p.buffer])
  {
    var b := p.buffer;
    DataHeard(v.device, b);
    WrittenOne(Base(job), done, b);
    if b.offset + |b.data| < 0x1_0000_0000_0000_0000 {
      PatientExchange(v, DataFrame(b), p.send, p.read);
    }
  }

  /** The same exchange with twice the time for the reply. */
  lemma PatientExchange(v: View, f: Frame, send: SendEnv, read: ReadEnv)
    requires v.connected && v.device.Conforming?
    requires Waiting(Hear(v.device, f)) && Hear(v.device, f).out[0] == SUCCESS
    ensures var (v1, ret1) := SendStep(v, f, send);
      var (v2, ret2, g) := PatientStep(v1, read);
      && (ret1 == 0 <==> send == SendEnv.Delivered)
      && (ret1 == 0 ==> (ret2 == 0 <==> read == Heard))
      && (ret1 == 0 && ret2 == 0 ==>
           g == SUCCESS && v2.connected && v2.device == Say(Hear(v.device, f), Hear(v.device, f).mode, []))
  {
    if send == SendEnv.Delivered {
      ListenConforming(Hear(v.device, f), read, v.nocrc);
    }
  }

  lemma PutDataConfused(v: View, b: Buffer, send: SendEnv, read: ReadEnv)
    requires v.device.Conforming? && b.offset < 0x1_0000_0000_0000_0000
    requires Hear(v.device, DataFrame(b)) == Say(v.device, Confused, [])
    ensures PutDataStep(v, b, send, read).1 != 0
  {
  }

  /** A data call returns 0 exactly when both transfers go well and the piece ends within 64 bits. */
  lemma PutDataExactly(v: View, job: Job, done: seq<Buffer>, p: Piece)
    requires Uploading(v, job, done)
    ensures PutDataStep(v, p.buffer, p.send, p.read).1 == 0 <==>
      && p.send == SendEnv.Delivered && p.read == Heard
      && p.buffer.offset + |p.buffer.data| < 0x1_0000_0000_0000_0000
  {
    var b := p.buffer;
    DataHeard(v.device, b);
    if b.offset + |b.data| < 0x1_0000_0000_0000_0000 {
      PatientExchange(v, DataFrame(b), p.send, p.read);
    } else {
      PutDataConfused(v, b, p.send, p.read);
    }
  }

  // ---- Whole runs

  function PutPiece(v: View, p: Piece): (View, int, Buffer) {
    var (v1, ret) := PutDataStep(v, p.buffer, p.send, p.read);
    (v1, ret, p.buffer)
  }

  /** Calls of tf_cmd_put_data until one does not return 0. */
  function PutRun(v: View, ps: seq<Piece>): (View, int, seq<Buffer>) {
    RunUntil(PutPiece, v, ps)
  }

  function During(job: Job): (View, seq<Buffer>) -> bool {
    (w, done) => Uploading(w, job, done)
  }

  function Stopped(): (View, seq<Buffer>, int) -> bool {
    (w, done, ret) => ret != 0
  }

  lemma PieceKept(job: Job, w: View, done: seq<Buffer>, p: Piece)
    requires During(job)(w, done)
    ensures StepKeeps(PutPiece, During(job), Stopped(), w, done, p)
  {
    if PutDataStep(w, p.buffer, p.send, p.read).1 == 0 {
      PutDataKeeps(w, job, done, p);
    }
  }

  lemma RunKept(v: View, job: Job, ps: seq<Piece>)
    requires During(job)(v, [])
    ensures var (v1, ret, bs) := PutRun(v, ps); ret == 0 ==> During(job)(v1, bs)
  {
    forall w, done, p: Piece | During(job)(w, done)
      ensures StepKeeps(PutPiece, During(job), Stopped(), w, done, p)
    {
      PieceKept(job, w, done, p);
    }
    RunUntilKeeps(PutPiece, (p: Piece) => true, During(job), Stopped(), v, [], ps);
    assert [] + PutRun(v, ps).2 == PutRun(v, ps).2;
  }

  /** Every run of data calls that all return 0 has written all its pieces. */
  lemma PutRunKeeps(v: View, job: Job, ps: seq<Piece>)
    requires Uploading(v, job, [])
    ensures var (v1, ret, bs) := PutRun(v, ps); ret == 0 ==> Uploading(v1, job, bs)
  {
    RunKept(v, job, ps);
  }

  /** The buffers of some pieces. */
  function Buffers(ps: seq<Piece>): (r: seq<Buffer>)
    ensures |r| == |ps| && forall i :: 0 <= i < |ps| ==> r[i] == ps[i].buffer
  {
    if ps == [] then [] else [ps[0].buffer] + Buffers(ps[1..])
  }

  lemma {:induction false} PutRunPieces(v: View, ps: seq<Piece>)
    requires PutRun(v, ps).1 == 0
    ensures PutRun(v, ps).2 == Buffers(ps)
    decreases |ps|
  {
    if ps != [] {
      PutRunPieces(PutPiece(v, ps[0]).0, ps[1..]);
    }
  }

  lemma EndHeard(d: Peer)
    requires d.Conforming? && d.mode.Storing? && d.mode.about.Known? && d.out == []
    requires |d.mode.contents| < 0x1_0000_0000_0000_0000
    ensures Hear(d, FILE_END) == Say(Kept(d, d.mode.name, d.mode.contents, d.mode.about.description), Idle, [SUCCESS])
  {
  }

  /** The device when the file has been put: it has the contents and the description, and all else
      is as it was. */
  function Stored(job: Job, done: seq<Buffer>): Peer
    requires job.device.Conforming? && Description(job.description) && |Written(Base(job), done)| < 0x1_0000_0000_0000_0000
  {
    Say(Kept(job.device, job.name, Written(Base(job), done), job.description), Idle, [])
  }

  /** tf_cmd_put_done: a result of 0 means that the device has stored the file. */
  lemma DoneStores(v: View, job: Job, done: seq<Buffer>, e: DoneEnv)
    requires Uploading(v, job, done)
    requires PutDoneStep(v, e).1 == 0
    ensures PutDoneStep(v, e).0.device == Stored(job, done)
  {
    EndHeard(v.device);
    Exchange(v, FILE_END, e.send, e.read);
  }

  /** tf_cmd_put_done returns 0 exactly when the end of the file is sent and its answer read. */
  lemma DoneExactly(v: View, job: Job, done: seq<Buffer>, e: DoneEnv)
    requires Uploading(v, job, done)
    ensures PutDoneStep(v, e).1 == 0 <==> e.send == SendEnv.Delivered && e.read == Heard
  {
    EndHeard(v.device);
    Exchange(v, FILE_END, e.send, e.read);
  }

  /** The whole upload. When every call returned 0 the file on the device is what was there before
      with the pieces written over it in the order of the calls, its description is the one given
      to tf_cmd_put, and nothing else on the device has changed. */
  lemma Upload(v: View, path: CString, typefile: seq<byte>, offset: u64, e: PutEnv, ps: seq<Piece>, last: DoneEnv)
    requires Fresh(v) && PathFits(path)
    requires PutStep(v, path, typefile, offset, e).1 == 0
    requires PutRun(PutStep(v, path, typefile, offset, e).0, ps).1 == 0
    requires PutDoneStep(PutRun(PutStep(v, path, typefile, offset, e).0, ps).0, last).1 == 0
    ensures Description(typefile) && |Written(OldContents(v.device, Backslashed(path)), Buffers(ps))| < 0x1_0000_0000_0000_0000
    ensures PutDoneStep(PutRun(PutStep(v, path, typefile, offset, e).0, ps).0, last).0.device ==
            Kept(v.device, Backslashed(path), Written(OldContents(v.device, Backslashed(path)), Buffers(ps)), typefile)
  {
    var job := JobOf(v, path, typefile);
    var v1 := PutStep(v, path, typefile, offset, e).0;
    PutOpens(v, path, typefile, offset, e);
    PutRunKeeps(v1, job, ps);
    PutRunPieces(v1, ps);
    DoneStores(PutRun(v1, ps).0, job, Buffers(ps), last);
  }

  // ---- Whatever goes wrong

  lemma ListenKeepsDisk(d: Peer, went: ReadEnv, nocrc: bool)
    requires d.Conforming?
    ensures var r := Listen(d, went, nocrc).0; r.Conforming? && r.disk == d.disk
  {
  }

  /** No data call changes the handle's timeout or, however its transfers go, what is on the
      device's disk; only the end of the file does that. */
  lemma PutDataTouchesNothing(v: View, p: Piece)
    requires v.device.Conforming?
    ensures var v1 := PutDataStep(v, p.buffer, p.send, p.read).0;
      v1.timeout == v.timeout && v1.device.Conforming? && v1.device.disk == v.device.disk
  {
    var v1 := SendStep(v, DataFrame(p.buffer), p.send).0;
    assert PutDataStep(v, p.buffer, p.send, p.read).0 in {v1, PatientStep(v1, p.read).0};
    ListenKeepsDisk(v1.device, p.read, v.nocrc);
  }
}
