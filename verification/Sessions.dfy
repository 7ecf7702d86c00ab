/** Any number of downloads, one after the other, with calls in any order tf_io.h allows. */
module Sessions {
  import opened Bytes
  import opened Frames
  import opened Packets
  import opened Requests
  import opened Devices
  import opened Protocol
  import opened GetRuns
  import opened CancelRuns

  /** A call and how its transfers go. */
  datatype Call =
    | Open(path: CString, offset: u64, send: SendEnv, read: ReadEnv)
    | More(next: NextEnv)
    | GiveUp(drained: ReadEnv, attempts: seq<AttemptEnv>)

  /** No transaction; one that may go on, with what it has delivered; one that has to be cancelled. */
  datatype Phase = Closed | Active(got: seq<Buffer>, acks: nat) | Failed

  /** What the caller may call: tf_cmd_get when no transaction is open, tf_cmd_get_next until it
      returns something other than 0, tf_cmd_get_cancel at any point of a transaction. */
  predicate Legal(p: Phase, c: Call) {
    match c
    case Open(path, _, _, _) => p == Closed && PathFits(path)
    case More(e) => p.Active? && NotLate(e)
    case GiveUp(_, es) => p != Closed && es != []
  }

  function AfterMore(got: seq<Buffer>, acks: nat, ret: int, b: Buffer): Phase {
    if ret == 0 then Active(got + [b], acks) else if ret == TF_ERR_DONE then Closed else Failed
  }

  /** The handle and the phase after a call. */
  function Do(v: View, p: Phase, c: Call): (r: (View, Phase))
    requires Legal(p, c)
  {
    match c
    case Open(path, offset, send, read) =>
      var (v1, ret, g) := GetStep(v, path, offset, send, read);
      (v1, if ret == 0 then Active([], Acks(v.log)) else Closed)
    case More(e) =>
      var (v1, ret, b) := GetNextStep(v, e);
      (v1, AfterMore(p.got, p.acks, ret, b))
    case GiveUp(drained, es) => (CancelStep(v, drained, es).0, Closed)
  }

  /** Every call of the sequence is allowed when it is made. */
  predicate LegalRun(v: View, p: Phase, cs: seq<Call>)
    decreases |cs|
  {
    cs == [] || (Legal(p, cs[0]) && LegalRun(Do(v, p, cs[0]).0, Do(v, p, cs[0]).1, cs[1..]))
  }

  function Session(v: View, p: Phase, cs: seq<Call>): (View, Phase)
    requires LegalRun(v, p, cs)
    decreases |cs|
  {
    if cs == [] then (v, p) else Session(Do(v, p, cs[0]).0, Do(v, p, cs[0]).1, cs[1..])
  }

  /** The device has gone astray and has nothing to say. */
  predicate Astray(v: View) {
    v.device.Conforming? && v.device.mode == Confused && v.device.out == [] && !v.pending
  }

  /** A conforming device with at most one reply waiting. */
  predicate AtMostOne(v: View) {
    v.connected && v.device.Conforming? && |v.device.out| <= 1
  }

  /** What every call keeps. Only during a transaction can pending be set, and then the download is
      in progress; a device confused by a request it could not expect never gets that far. */
  predicate Sound(v: View, p: Phase) {
    && AtMostOne(v)
    && match p
       case Active(got, acks) => Downloading(v, got, acks) || Astray(v)
       case _ => !v.pending
  }

  // ---- One call

  lemma ListenPops(d: Peer, went: ReadEnv, nocrc: bool)
    requires d.Conforming? && |d.out| <= 1
    ensures var r := Listen(d, went, nocrc).0; r.Conforming? && r.mode == d.mode && (r.out == d.out || r.out == [])
    ensures Listen(d, went, nocrc).1.Received? ==> d.out != [] && Listen(d, went, nocrc).0.out == []
  {
  }

  /** A request to open a transfer confuses a device that is not idle or has a reply unread. */
  lemma HearUntimely(d: Peer, f: Frame)
    requires d.Conforming? && f.cmd == TF_MSG_HDD_FILE_SEND && (d.mode != Idle || d.out != [])
    ensures Hear(d, f) == Say(d, Confused, d.out)
  {
  }

  lemma SendOne(v: View, f: Frame, went: SendEnv)
    requires AtMostOne(v)
    ensures var v1 := SendStep(v, f, went).0; AtMostOne(v1) && v1.pending == v.pending
  {
  }

  lemma ReceiveOne(v: View, went: ReadEnv)
    requires AtMostOne(v)
    ensures var (v1, ret, g) := ReceiveStep(v, went);
      && AtMostOne(v1) && v1.pending == v.pending
      && v1.device.mode == v.device.mode && (ret == 0 ==> v.device.out != [] && v1.device.out == [])
  {
    ListenPops(v.device, went, v.nocrc);
  }

  lemma SendUntimely(v: View, f: Frame, send: SendEnv)
    requires AtMostOne(v) && f.cmd == TF_MSG_HDD_FILE_SEND
    requires v.device.mode != Idle || v.device.out != []
    requires SendStep(v, f, send).1 == 0
    ensures SendStep(v, f, send).0.device.mode == Confused
  {
    HearUntimely(v.device, f);
  }

  lemma OpenUntimely(v: View, f: Frame, send: SendEnv, read: ReadEnv)
    requires AtMostOne(v) && !v.pending && f.cmd == TF_MSG_HDD_FILE_SEND
    requires v.device.mode != Idle || v.device.out != []
    requires OpenStep(v, f, send, read).1 == 0
    ensures var v1 := OpenStep(v, f, send, read).0; AtMostOne(v1) && Astray(v1)
  {
    var v1 := SendStep(v, f, send).0;
    assert SendStep(v, f, send).1 == 0 && ReceiveStep(v1, read).1 == 0;
    assert OpenStep(v, f, send, read).0 == ReceiveStep(v1, read).0;
    SendOne(v, f, send);
    SendUntimely(v, f, send);
    ReceiveOne(v1, read);
  }

  lemma OpenOne(v: View, f: Frame, send: SendEnv, read: ReadEnv)
    requires AtMostOne(v)
    ensures var v1 := OpenStep(v, f, send, read).0; AtMostOne(v1) && v1.pending == v.pending
  {
    var v1 := SendStep(v, f, send).0;
    assert OpenStep(v, f, send, read).0 in {v1, ReceiveStep(v1, read).0};
    SendOne(v, f, send);
    ReceiveOne(v1, read);
  }

  lemma OpenSound(v: View, path: CString, offset: u64, send: SendEnv, read: ReadEnv)
    requires Sound(v, Closed) && PathFits(path)
    ensures var (v1, ret, g) := GetStep(v, path, offset, send, read);
      Sound(v1, if ret == 0 then Active([], Acks(v.log)) else Closed)
  {
    var f := RequestFrame(Send(DIR_GET, path, offset));
    OpenOne(v, f, send, read);
    if (v.device.mode != Idle || v.device.out != []) && GetStep(v, path, offset, send, read).1 == 0 {
      OpenUntimely(v, f, send, read);
    }
    if GetStep(v, path, offset, send, read).1 == 0 && v.device.mode == Idle && v.device.out == [] {
      OpenExactly(v, path, offset, send, read);
      OpenBegins(v, path, offset);
    }
  }

  lemma AstrayHears(v: View, went: SendEnv)
    requires v.connected && Astray(v)
    ensures var v1 := SendStep(v, SUCCESS, went).0; v1.connected && Astray(v1)
  {
  }

  lemma AstrayReads(v: View, went: ReadEnv)
    requires v.connected && Astray(v)
    ensures var (v1, ret, g) := ReceiveStep(v, went); ret == TF_ERR_IO && v1.connected && Astray(v1)
  {
  }

  lemma AstrayNext(v: View, e: NextEnv)
    requires v.connected && Astray(v)
    ensures var (v1, ret, b) := GetNextStep(v, e); ret == TF_ERR_IO && v1.connected && Astray(v1)
  {
    AstrayHears(v, e.ack);
    AstrayReads(SendStep(v, SUCCESS, e.ack).0.(pending := false), e.read);
  }

  lemma OutcomeSound(w: View, chunks: seq<Buffer>, got: seq<Buffer>, acks: nat, ret: int, b: Buffer)
    requires w.connected && Outcome(chunks, got, acks, w, ret, b)
    ensures Sound(w, AfterMore(got, acks, ret, b))
  {
  }

  lemma MoreSound(v: View, got: seq<Buffer>, acks: nat, e: NextEnv)
    requires Sound(v, Active(got, acks)) && NotLate(e)
    ensures var (v1, ret, b) := GetNextStep(v, e); Sound(v1, AfterMore(got, acks, ret, b))
  {
    var w, ret, b := GetNextStep(v, e).0, GetNextStep(v, e).1, GetNextStep(v, e).2;
    if Downloading(v, got, acks) {
      NextKeeps(v, got, acks, e);
      OutcomeSound(w, v.device.mode.chunks, got, acks, ret, b);
    } else {
      AstrayNext(v, e);
    }
  }

  lemma CmdOne(v: View, f: Frame, send: SendEnv, read: ReadEnv)
    requires AtMostOne(v)
    ensures var v1 := CmdStep(v, f, send, read).0; AtMostOne(v1)
  {
    SendOne(v, f, send);
    ReceiveOne(SendStep(v, f, send).0, read);
  }

  lemma AttemptOne(v: View, e: AttemptEnv)
    requires AtMostOne(v)
    ensures var v1 := AttemptStep(v, e).0; AtMostOne(v1)
  {
    var v1 := SendStep(v, FAIL_CRC, e.fail).0;
    SendOne(v, FAIL_CRC, e.fail);
    CmdOne(v1, CANCEL, e.send, e.read);
    ReceiveOne(CmdStep(v1, CANCEL, e.send, e.read).0, e.again);
  }

  lemma {:induction false} AttemptsOne(v: View, es: seq<AttemptEnv>)
    requires AtMostOne(v)
    ensures var v1 := Attempts(v, es).0; AtMostOne(v1)
    decreases |es|
  {
    if es != [] {
      AttemptOne(v, es[0]);
      AttemptsOne(AttemptStep(v, es[0]).0, es[1..]);
    }
  }

  lemma GiveUpSound(v: View, drained: ReadEnv, es: seq<AttemptEnv>)
    requires AtMostOne(v)
    ensures Sound(CancelStep(v, drained, es).0, Closed)
  {
    ReceiveOne(v.(pending := false), drained);
    AttemptsOne(DrainStep(v, drained), es);
  }

  lemma DoSound(v: View, p: Phase, c: Call)
    requires Sound(v, p) && Legal(p, c)
    ensures Sound(Do(v, p, c).0, Do(v, p, c).1)
  {
    match c
    case Open(path, offset, send, read) => OpenSound(v, path, offset, send, read);
    case More(e) => MoreSound(v, p.got, p.acks, e);
    case GiveUp(drained, es) => GiveUpSound(v, drained, es);
  }

  // ---- Every sequence

  lemma {:induction false} SessionSound(v: View, p: Phase, cs: seq<Call>)
    requires Sound(v, p) && LegalRun(v, p, cs)
    ensures Sound(Session(v, p, cs).0, Session(v, p, cs).1)
    decreases |cs|
  {
    if cs != [] {
      DoSound(v, p, cs[0]);
      SessionSound(Do(v, p, cs[0]).0, Do(v, p, cs[0]).1, cs[1..]);
    }
  }

  /** After every allowed sequence of calls, whatever was lost: pending is set exactly when a
      transaction is active and the device's one reply is waiting to be read, and then the download
      is in progress. So it is clear after DONE, after any error, and after tf_cmd_get_cancel. */
  lemma PendingExactly(v: View, cs: seq<Call>)
    requires AtMostOne(v) && !v.pending
    requires LegalRun(v, Closed, cs)
    ensures var (w, p) := Session(v, Closed, cs);
      && w.device.Conforming? && |w.device.out| <= 1
      && (w.pending <==> p.Active? && Waiting(w.device))
      && (w.pending ==> Downloading(w, p.got, p.acks))
  {
    SessionSound(v, Closed, cs);
  }
}
