/** What each call makes of each reply, and what it says on the bus meanwhile: for any reply of a
    device that says whatever it likes, and for a bus that brings nothing at all. */
module Answers {
  import opened Bytes
  import opened Frames
  import opened Packets
  import opened Requests
  import opened Devices
  import opened Protocol
  import opened Dirents
  import opened StoredErrors
  import opened Integrity
  import L = Listing

  /** A connected handle, and a device that will say g and then the rest. */
  predicate Ready(v: View, g: Frame, rest: seq<seq<byte>>) {
    v.connected && Sendable(g) && v.device == Scripted([Wire(g)] + rest)
  }

  /** A message sent and a reply read, which took the given time at most. */
  function Exchange(f: Frame, timeout: int): (r: seq<Event>)
    ensures |r| == 2
  {
    [Sent(f, SendEnv.Delivered), Read(timeout, Heard)]
  }

  lemma Exchanged(v: View, f: Frame, g: Frame, rest: seq<seq<byte>>)
    requires Ready(v, g, rest)
    ensures var (v1, ret1) := SendStep(v, f, SendEnv.Delivered);
      var (v2, ret2, h) := ReceiveStep(v1, Heard);
      && ret1 == 0 && ret2 == 0 && h == g && v2.connected
      && v2.device == Scripted(rest) && v2.log == v.log + Exchange(f, v.timeout)
  {
    ScriptSent(v, f);
    ScriptHeard(SendStep(v, f, SendEnv.Delivered).0, g, rest);
    assert v.log + [Sent(f, SendEnv.Delivered)] + [Read(v.timeout, Heard)] == v.log + Exchange(f, v.timeout);
  }

  // ---- The code of a failure

  /** A failure is reported as the 32-bit number that is its code negated, whatever follows the code. */
  lemma FailureReported(code: u32, more: seq<byte>)
    ensures var n := FailCode(Frame(0x0001, Be32(code) + more));
      (n + code) % 0x1_0000_0000 == 0 && -0x8000_0000 <= n < 0x8000_0000
  {
    var data := Be32(code) + more;
    assert data[..4] == Be32(code);
    Get32Be32(code);
    NegatedWraps(code);
  }

  // ---- Calls with one exchange

  /** tf_cmd: 0 for SUCCESS, the code of a failure, -100 for anything else. */
  lemma CmdAnswers(v: View, f: Frame, g: Frame, rest: seq<seq<byte>>)
    requires Ready(v, g, rest)
    ensures var (v1, ret) := CmdStep(v, f, SendEnv.Delivered, Heard);
      && v1.device == Scripted(rest) && v1.log == v.log + Exchange(f, v.timeout)
      && ret == if g.cmd == 0x0002 then 0 else if g.cmd == 0x0001 then FailCode(g) else -100
  {
    Exchanged(v, f, g, rest);
    assert CmdStep(v, f, SendEnv.Delivered, Heard) ==
      Settle(ReceiveStep(SendStep(v, f, SendEnv.Delivered).0, Heard).0, 0, g);
  }

  /** tf_cmd_get: 0 for a description, the code of a failure, -100 for anything else. */
  lemma GetAnswers(v: View, path: CString, offset: u64, g: Frame, rest: seq<seq<byte>>)
    requires Ready(v, g, rest) && PathFits(path)
    ensures var (v1, ret, h) := GetStep(v, path, offset, SendEnv.Delivered, Heard);
      && v1.device == Scripted(rest) && v1.log == v.log + Exchange(RequestFrame(Send(1, path, offset)), v.timeout)
      && h == g && ret == if g.cmd == 0x1009 then 0 else if g.cmd == 0x0001 then FailCode(g) else -100
  {
    Exchanged(v, RequestFrame(Send(1, path, offset)), g, rest);
  }

  /** The listing calls: the entries of a batch; 1 for the end, which is acknowledged; -100 for
      anything else. */
  lemma AskAnswers(v: View, f: Frame, end: SendEnv, g: Frame, rest: seq<seq<byte>>)
    requires Ready(v, g, rest)
    ensures var (v1, ret, ds) := L.AskStep(v, f, L.BatchEnv(SendEnv.Delivered, Heard, end));
      && v1.device == Scripted(rest)
      && v1.log == v.log + Exchange(f, v.timeout) + (if g.cmd == 0x1004 then [Sent(Frame(0x0002, []), end)] else [])
      && ret == (if g.cmd == 0x1003 then 0 else if g.cmd == 0x1004 then 1 else -100)
      && ds == if g.cmd == 0x1003 then Entries(g.data) else []
  {
    Exchanged(v, f, g, rest);
    DirentsAnswers(SendStep(v, f, SendEnv.Delivered).0, end, g, rest);
  }

  lemma DirentsAnswers(v: View, end: SendEnv, g: Frame, rest: seq<seq<byte>>)
    requires Ready(v, g, rest)
    ensures var (v1, ret, ds) := L.DirentsStep(v, L.BatchEnv(SendEnv.Delivered, Heard, end));
      var w := ReceiveStep(v, Heard).0;
      && v1.device == Scripted(rest)
      && v1.log == w.log + (if g.cmd == 0x1004 then [Sent(Frame(0x0002, []), end)] else [])
      && ret == (if g.cmd == 0x1003 then 0 else if g.cmd == 0x1004 then 1 else -100)
      && ds == if g.cmd == 0x1003 then Entries(g.data) else []
  {
    ScriptHeard(v, g, rest);
  }

  // ---- Putting

  /** tf_cmd_put: only SUCCESS makes it go on and send the description. */
  lemma PutAnswers(v: View, path: CString, typefile: seq<byte>, offset: u64, start: SendEnv, started: ReadEnv,
                   g: Frame, rest: seq<seq<byte>>)
    requires Ready(v, g, rest) && PathFits(path) && g.cmd != 0x0002
    ensures var (v1, ret) := PutStep(v, path, typefile, offset, PutEnv(SendEnv.Delivered, Heard, start, started));
      && v1.device == Scripted(rest) && v1.log == v.log + Exchange(RequestFrame(Send(0, path, offset)), v.timeout)
      && ret == if g.cmd == 0x0001 then FailCode(g) else -100
  {
    Exchanged(v, RequestFrame(Send(0, path, offset)), g, rest);
  }

  lemma StartAnswers(v: View, typefile: seq<byte>, g: Frame, rest: seq<seq<byte>>)
    requires Ready(v, g, rest)
    ensures var (v1, ret) := StartStep(v, typefile, SendEnv.Delivered, Heard);
      && v1.device == Scripted(rest) && v1.log == v.log + Exchange(Frame(0x1009, typefile), v.timeout)
      && ret == if g.cmd == 0x0002 then 0 else -100
  {
    Exchanged(v, Frame(0x1009, typefile), g, rest);
  }

  /** tf_cmd_put_data: the reply has twice the usual time. */
  lemma PutDataAnswers(v: View, b: Buffer, g: Frame, rest: seq<seq<byte>>)
    requires Ready(v, g, rest) && b.offset < 0x1_0000_0000_0000_0000
    ensures var (v1, ret) := PutDataStep(v, b, SendEnv.Delivered, Heard);
      && v1.device == Scripted(rest) && v1.log == v.log + Exchange(Frame(0x100A, Be64(b.offset) + b.data), v.timeout * 2)
      && ret == if g.cmd == 0x0002 then 0 else -100
  {
    ScriptTold(v, DataFrame(b), SendEnv.Delivered);
    ScriptSent(v, DataFrame(b));
    PatientAnswers(SendStep(v, DataFrame(b), SendEnv.Delivered).0, g, rest);
  }

  lemma PatientAnswers(v: View, g: Frame, rest: seq<seq<byte>>)
    requires Ready(v, g, rest)
    ensures var (v1, ret, h) := PatientStep(v, Heard);
      ret == 0 && h == g && v1.device == Scripted(rest) && v1.log == v.log + [Read(v.timeout * 2, Heard)]
  {
    ScriptHeard(v.(timeout := v.timeout * 2), g, rest);
  }

  /** tf_cmd_put_done: any answer but SUCCESS is cancelled. */
  lemma PutDoneAnswers(v: View, cancel: SendEnv, cancelled: ReadEnv, g: Frame, rest: seq<seq<byte>>)
    requires Ready(v, g, rest)
    ensures var (v1, ret) := PutDoneStep(v, DoneEnv(SendEnv.Delivered, Heard, cancel, cancelled));
      var w := ReceiveStep(SendStep(v, Frame(0x100B, []), SendEnv.Delivered).0, Heard).0;
      && w.device == Scripted(rest) && w.log == v.log + Exchange(Frame(0x100B, []), v.timeout)
      && ret == (if g.cmd == 0x0002 then 0 else -100)
      && v1 == if g.cmd == 0x0002 then w else CmdStep(w, Frame(0x0003, []), cancel, cancelled).0
  {
    Exchanged(v, Frame(0x100B, []), g, rest);
  }

  /** Without an answer it cancels too; if the end could not be sent, it does not. */
  lemma PutDoneUnanswered(v: View, e: DoneEnv)
    requires v.connected && (e.send != SendEnv.Delivered || e.read != Heard)
    ensures var (v1, ret) := PutDoneStep(v, e);
      var w1 := SendStep(v, Frame(0x100B, []), e.send).0;
      var w2 := ReceiveStep(w1, e.read).0;
      && ret == -101
      && v1 == if e.send == SendEnv.Delivered then CmdStep(w2, Frame(0x0003, []), e.cancel, e.cancelled).0 else w1
  {
  }

  // ---- Getting the next buffer

  /** The second half of tf_cmd_get_next: data and the end are acknowledged; the acknowledgement of
      data, if it could be sent, is remembered. */
  lemma NextReplyAnswers(v: View, early: SendEnv, g: Frame, rest: seq<seq<byte>>)
    requires Ready(v, g, rest) && !v.pending
    ensures var (v1, ret, b) := NextReplyStep(v, Heard, early);
      && v1.device == Scripted(rest)
      && v1.log == v.log + [Read(v.timeout, Heard)] + (if g.cmd in {0x100A, 0x100B} then [Sent(Frame(0x0002, []), early)] else [])
      && (v1.pending <==> g.cmd == 0x100A && early == SendEnv.Delivered)
      && ret == if g.cmd == 0x100A then 0 else if g.cmd == 0x100B then 1 else if g.cmd == 0x0001 then -101 else -100
  {
    ScriptHeard(v, g, rest);
  }

  /** What the caller gets of a data message. */
  lemma NextReplyBrings(v: View, early: SendEnv, offset: u64, data: seq<byte>, rest: seq<seq<byte>>)
    requires Ready(v, Frame(0x100A, Be64(offset) + data), rest) && !v.pending
    ensures NextReplyStep(v, Heard, early).2 == Buffer(offset, data)
  {
    var g := Frame(0x100A, Be64(offset) + data);
    ScriptHeard(v, g, rest);
    assert g.data[..8] == Be64(offset) && g.data[8..] == data;
    Get64Be64(offset);
  }

  /** All of it: unless the last data message has been acknowledged already, that comes first. */
  lemma NextAnswers(v: View, early: SendEnv, g: Frame, rest: seq<seq<byte>>)
    requires Ready(v, g, rest)
    ensures var ack := if v.pending then [] else [Sent(Frame(0x0002, []), SendEnv.Delivered)];
      var (v1, ret, b) := GetNextStep(v, NextEnv(SendEnv.Delivered, Heard, early));
      && v1.device == Scripted(rest)
      && v1.log == v.log + ack + [Read(v.timeout, Heard)]
                   + (if g.cmd in {0x100A, 0x100B} then [Sent(Frame(0x0002, []), early)] else [])
      && (v1.pending <==> g.cmd == 0x100A && early == SendEnv.Delivered)
      && ret == if g.cmd == 0x100A then 0 else if g.cmd == 0x100B then 1 else if g.cmd == 0x0001 then -101 else -100
  {
    ScriptSent(v, SUCCESS);
    var v2 := (if v.pending then v else SendStep(v, SUCCESS, SendEnv.Delivered).0).(pending := false);
    NextReplyAnswers(v2, early, g, rest);
    assert v.log + [] == v.log;
  }

  // ---- Giving up

  /** A reply that was asked for already is read and dropped. */
  lemma DrainAnswers(v: View, g: Frame, rest: seq<seq<byte>>)
    requires Ready(v, g, rest) && v.pending
    ensures var v1 := DrainStep(v, Heard);
      !v1.pending && v1.device == Scripted(rest) && v1.log == v.log + [Read(v.timeout, Heard)]
  {
    ScriptHeard(v.(pending := false), g, rest);
  }

  /** An attempt to cancel that is confirmed: the failure with the code of TF_ERR_CRC, not negated,
      then the cancellation. */
  lemma AttemptAnswers(v: View, fail: SendEnv, again: ReadEnv, g: Frame, rest: seq<seq<byte>>)
    requires Ready(v, g, rest) && g.cmd == 0x0002
    ensures var (v1, ret) := AttemptStep(v, AttemptEnv(fail, SendEnv.Delivered, Heard, again));
      && ret == 0 && v1.device == Scripted(rest)
      && v1.log == v.log + [Sent(Frame(0x0001, [0xFF, 0xFF, 0xFF, 0xFF]), fail)] + Exchange(Frame(0x0003, []), v.timeout)
  {
    var e := AttemptEnv(fail, SendEnv.Delivered, Heard, again);
    assert Be32(0xFFFF_FFFF) == [0xFF, 0xFF, 0xFF, 0xFF];
    ScriptTold(v, FAIL_CRC, fail);
    CmdAnswers(SendStep(v, FAIL_CRC, fail).0, CANCEL, g, rest);
    AttemptOnce(v, e);
  }

  lemma ScriptTold(v: View, f: Frame, went: SendEnv)
    requires v.connected && v.device.Scripted?
    ensures var w := SendStep(v, f, went).0;
      w.connected && w.device == v.device && w.timeout == v.timeout && w.log == v.log + [Sent(f, went)]
  {
  }

  lemma AttemptOnce(v: View, e: AttemptEnv)
    requires CmdStep(SendStep(v, FAIL_CRC, e.fail).0, CANCEL, e.send, e.read).1 == 0
    ensures AttemptStep(v, e) == (CmdStep(SendStep(v, FAIL_CRC, e.fail).0, CANCEL, e.send, e.read).0, 0)
  {
  }

  // ---- A bus that fails

  /** Whatever a call sends first: if that fails the call returns -101, and so it does if no whole
      reply comes. */
  lemma BusFails(v: View, f: Frame, send: SendEnv, read: ReadEnv)
    requires v.connected && (send != SendEnv.Delivered || read != Heard)
    ensures CmdStep(v, f, send, read).1 == -101
    ensures OpenStep(v, f, send, read).1 == -101
    ensures StartStep(v, f.data, send, read).1 == -101
  {
    var v1 := SendStep(v, f, send).0;
    if send == SendEnv.Delivered {
      NoReply(v1, read);
    }
  }

  lemma AskBusFails(v: View, f: Frame, e: L.BatchEnv)
    requires v.connected && (e.send != SendEnv.Delivered || e.read != Heard)
    ensures L.AskStep(v, f, e).1 == -101
  {
    if e.send == SendEnv.Delivered {
      NoReply(SendStep(v, f, e.send).0, e.read);
    }
  }

  lemma NextBusFails(v: View, e: NextEnv)
    requires v.connected && (e.read != Heard || (!v.pending && e.ack != SendEnv.Delivered))
    ensures GetNextStep(v, e).1 == -101
  {
    var v1 := (if v.pending then v else SendStep(v, SUCCESS, e.ack).0).(pending := false);
    if e.read != Heard {
      NoReply(v1, e.read);
    }
  }

  lemma PutDataBusFails(v: View, b: Buffer, send: SendEnv, read: ReadEnv)
    requires v.connected && b.offset < 0x1_0000_0000_0000_0000 && (send != SendEnv.Delivered || read != Heard)
    ensures PutDataStep(v, b, send, read).1 == -101
  {
    var v1 := SendStep(v, DataFrame(b), send).0;
    if send == SendEnv.Delivered {
      NoReply(v1.(timeout := v1.timeout * 2), read);
    }
  }

  lemma NoReply(v: View, read: ReadEnv)
    requires v.connected && read != Heard
    ensures ReceiveStep(v, read).1 == -101
  {
  }

  /** Without a device every call returns -102 and nothing is sent or read. */
  predicate Idles(v: View, v1: View, ret: int) {
    ret == -102 && v1.error == -102 && v1.log == v.log && v1.device == v.device
  }

  lemma NoDevice(v: View, path: CString, offset: u64, f: Frame, b: Buffer, put: PutEnv, next: NextEnv, batch: L.BatchEnv, d: DoneEnv)
    requires !v.connected && PathFits(path) && b.offset < 0x1_0000_0000_0000_0000
    ensures Idles(v, CmdStep(v, f, next.ack, next.read).0, CmdStep(v, f, next.ack, next.read).1)
    ensures var (v1, ret, _) := GetStep(v, path, offset, next.ack, next.read); Idles(v, v1, ret)
    ensures var (v1, ret, _) := GetNextStep(v, next); Idles(v, v1, ret)
    ensures var (v1, ret) := PutStep(v, path, f.data, offset, put); Idles(v, v1, ret)
    ensures var (v1, ret) := PutDataStep(v, b, next.ack, next.read); Idles(v, v1, ret)
    ensures var (v1, ret) := PutDoneStep(v, d); Idles(v, v1, ret)
    ensures var (v1, ret, _) := L.DirFirstStep(v, path, batch); Idles(v, v1, ret)
    ensures var (v1, ret, _) := L.DirNextStep(v, batch); Idles(v, v1, ret)
  {
  }

  /** All attempts to cancel come to the same. */
  lemma {:induction false} NoDeviceToCancel(v: View, es: seq<AttemptEnv>)
    requires !v.connected && es != []
    ensures var (v1, ret) := Attempts(v, es); Idles(v, v1, ret)
    decreases |es|
  {
    var v1 := AttemptStep(v, es[0]).0;
    if |es| > 1 {
      NoDeviceToCancel(v1, es[1..]);
    }
  }

  // ---- Damage on the way

  /** A reply in which one aligned word has been damaged behind the length is reported as -1, or is
      the reply that was sent if the damage was not in the packet; without the CRC it is taken as
      it comes. */
  lemma DamageReported(v: View, g: Frame, tail: seq<byte>, i: nat, p: seq<byte>, rest: seq<seq<byte>>)
    requires Sendable(g) && |p| == 2 && 2 <= i && i % 2 == 0 && i + 2 <= |Wire(g) + tail|
    requires v.connected && v.device == Scripted([Splice(Wire(g) + tail, i, p)] + rest)
    ensures var (v1, ret, h) := ReceiveStep(v, Heard);
      && v1.device == Scripted(rest)
      && ret == (if v.nocrc || Harmless(g, tail, i, p) then 0 else -1)
      && (Harmless(g, tail, i, p) ==> h == g)
  {
    var r := Splice(Wire(g) + tail, i, p);
    DamagedWordRejected(g, tail, i, p);
    assert ([r] + rest)[1..] == rest;
    TakenWithoutCrc(r);
  }

  lemma TakenWithoutCrc(r: seq<byte>)
    requires Framed(r) && Complete(r)
    ensures Decode(r, true).Received? && (Decode(r, false).Received? ==> Decode(r, true) == Decode(r, false))
  {
  }
}
