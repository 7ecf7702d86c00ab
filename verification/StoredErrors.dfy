/** The result of a call and the error that the handle keeps: tf_io.h says that they agree, and that
    0 means success. Here is when. */
module StoredErrors {
  import opened Bytes
  import opened Frames
  import opened Packets
  import opened Requests
  import opened Devices
  import opened Protocol
  import L = Listing

  /** The handle keeps the result that the caller gets. */
  predicate Kept(v: View, ret: int) {
    v.error == ret
  }

  /** A failure message with code 0. */
  predicate EmptyFailure(g: Frame) {
    g.cmd == TF_MSG_FAIL && Get32(Filled(g.data, 4), 0) == 0
  }

  lemma FailCodeZero(g: Frame)
    ensures FailCode(g) == 0 <==> Get32(Filled(g.data, 4), 0) == 0
  {
  }

  /** tf_io.h promises a negative number for a failure. It is one exactly for the codes up to 2^31. */
  lemma FailCodeNegative(g: Frame)
    ensures FailCode(g) < 0 <==> 0 < Get32(Filled(g.data, 4), 0) <= 0x8000_0000
  {
  }

  /** The code that tf_cmd_get_cancel sends would come back as 1, which is TF_ERR_DONE. */
  lemma FailCodeDone()
    ensures FailCode(FAIL_CRC) == TF_ERR_DONE
  {
    Get32Be32(0xFFFF_FFFF);
  }

  /** A message is sent and a reply read: both without error. */
  predicate Answered(v: View, f: Frame, send: SendEnv, read: ReadEnv) {
    SendStep(v, f, send).1 == 0 && ReceiveStep(SendStep(v, f, send).0, read).1 == 0
  }

  function Answer(v: View, f: Frame, send: SendEnv, read: ReadEnv): Frame {
    ReceiveStep(SendStep(v, f, send).0, read).2
  }

  // ---- Exactly when

  lemma OpenKept(v: View, f: Frame, send: SendEnv, read: ReadEnv)
    ensures var (v1, ret, _) := OpenStep(v, f, send, read);
      var good, g := Answered(v, f, send, read), Answer(v, f, send, read);
      && (Kept(v1, ret) <==> !good || g.cmd == TF_MSG_HDD_FILE_START || EmptyFailure(g))
      && (ret == 0 <==> good && (g.cmd == TF_MSG_HDD_FILE_START || EmptyFailure(g)))
  {
    FailCodeZero(Answer(v, f, send, read));
  }

  /** tf_cmd_get keeps its result unless a reply was read that is neither a description nor a failure
      with code 0; and it returns 0 exactly when one of these two was read. */
  lemma GetKept(v: View, path: CString, offset: u64, send: SendEnv, read: ReadEnv)
    requires PathFits(path)
    ensures var (v1, ret, _) := GetStep(v, path, offset, send, read);
      var f := RequestFrame(Send(DIR_GET, path, offset));
      var good, g := Answered(v, f, send, read), Answer(v, f, send, read);
      && (Kept(v1, ret) <==> !good || g.cmd == TF_MSG_HDD_FILE_START || EmptyFailure(g))
      && (ret == 0 <==> good && (g.cmd == TF_MSG_HDD_FILE_START || EmptyFailure(g)))
  {
    OpenKept(v, RequestFrame(Send(DIR_GET, path, offset)), send, read);
  }

  /** An exchange that expects SUCCESS: its result is kept unless another reply was read. */
  lemma StartKept(v: View, typefile: seq<byte>, send: SendEnv, read: ReadEnv)
    ensures var (v1, ret) := StartStep(v, typefile, send, read);
      var f := Frame(TF_MSG_HDD_FILE_START, typefile);
      var good, g := Answered(v, f, send, read), Answer(v, f, send, read);
      && (Kept(v1, ret) <==> !good || g.cmd == TF_MSG_SUCCESS)
      && (ret == 0 <==> good && g.cmd == TF_MSG_SUCCESS)
  {
  }

  /** tf_cmd_put likewise, with two exchanges. */
  lemma PutKept(v: View, path: CString, typefile: seq<byte>, offset: u64, e: PutEnv)
    requires PathFits(path)
    ensures var (v1, ret) := PutStep(v, path, typefile, offset, e);
      var f, h := RequestFrame(Send(DIR_PUT, path, offset)), Frame(TF_MSG_HDD_FILE_START, typefile);
      var v2 := ReceiveStep(SendStep(v, f, e.open).0, e.answer).0;
      var good, g := Answered(v, f, e.open, e.answer), Answer(v, f, e.open, e.answer);
      var good2, g2 := Answered(v2, h, e.start, e.started), Answer(v2, h, e.start, e.started);
      && (Kept(v1, ret) <==> !good || EmptyFailure(g) || (g.cmd == TF_MSG_SUCCESS && (!good2 || g2.cmd == TF_MSG_SUCCESS)))
      && (ret == 0 <==> good && (EmptyFailure(g) || (g.cmd == TF_MSG_SUCCESS && good2 && g2.cmd == TF_MSG_SUCCESS)))
  {
    var f := RequestFrame(Send(DIR_PUT, path, offset));
    var v2 := ReceiveStep(SendStep(v, f, e.open).0, e.answer).0;
    FailCodeZero(Answer(v, f, e.open, e.answer));
    StartKept(v2, typefile, e.start, e.started);
    PutParts(v, path, typefile, offset, e);
  }

  lemma PutParts(v: View, path: CString, typefile: seq<byte>, offset: u64, e: PutEnv)
    requires PathFits(path)
    ensures var f := RequestFrame(Send(DIR_PUT, path, offset));
      var v1, v2 := SendStep(v, f, e.open).0, ReceiveStep(SendStep(v, f, e.open).0, e.answer).0;
      var g := Answer(v, f, e.open, e.answer);
      PutStep(v, path, typefile, offset, e) ==
        if !Answered(v, f, e.open, e.answer) then
          (if v1.error != 0 then (v1, v1.error) else (v2, v2.error))
        else if g.cmd == TF_MSG_SUCCESS then StartStep(v2, typefile, e.start, e.started)
        else (v2, if g.cmd == TF_MSG_FAIL then FailCode(g) else TF_ERR_UNEXPECTED)
  {
  }

  lemma PatientKeeps(v: View, read: ReadEnv)
    ensures var (v1, ret, g) := PatientStep(v, read); v1.error == ret
  {
  }

  /** tf_cmd_put_data keeps its result unless a reply other than SUCCESS was read. */
  lemma PutDataKept(v: View, b: Buffer, send: SendEnv, read: ReadEnv)
    requires b.offset < 0x1_0000_0000_0000_0000
    ensures var (v1, ret) := PutDataStep(v, b, send, read);
      var (w, ret1) := SendStep(v, DataFrame(b), send);
      var (_, ret2, g) := PatientStep(w, read);
      && (Kept(v1, ret) <==> ret1 != 0 || ret2 != 0 || g.cmd == TF_MSG_SUCCESS)
      && (ret == 0 <==> ret1 == 0 && ret2 == 0 && g.cmd == TF_MSG_SUCCESS)
  {
    var w := SendStep(v, DataFrame(b), send).0;
    PatientKeeps(w, read);
    assert PutDataStep(v, b, send, read).0 in {w, PatientStep(w, read).0};
  }

  /** tf_cmd_put_done keeps its result unless it had to cancel and the cancellation came to something
      else. */
  lemma PutDoneKept(v: View, e: DoneEnv)
    ensures var (v1, ret) := PutDoneStep(v, e);
      var (w1, ret1) := SendStep(v, FILE_END, e.send);
      var (w2, ret2, g) := ReceiveStep(w1, e.read);
      && (Kept(v1, ret) <==>
          || ret1 != 0 || (ret2 == 0 && g.cmd == TF_MSG_SUCCESS)
          || CmdStep(w2, CANCEL, e.cancel, e.cancelled).1 == if ret2 != 0 then ret2 else TF_ERR_UNEXPECTED)
      && (ret == 0 <==> ret1 == 0 && ret2 == 0 && g.cmd == TF_MSG_SUCCESS)
  {
    var w1 := SendStep(v, FILE_END, e.send).0;
    var w2 := ReceiveStep(w1, e.read).0;
    assert PutDoneStep(v, e).0 in {w1, w2, CmdStep(w2, CANCEL, e.cancel, e.cancelled).0};
  }

  /** The listing calls keep their result unless a reply was read that is no batch; the end of a
      listing, which is no failure, is such a reply. */
  lemma AskKept(v: View, f: Frame, e: L.BatchEnv)
    ensures var (v1, ret, _) := L.AskStep(v, f, e);
      var good, g := Answered(v, f, e.send, e.read), Answer(v, f, e.send, e.read);
      && (Kept(v1, ret) <==> !good || g.cmd == TF_MSG_HDD_DIRENT)
      && (ret == 0 <==> good && g.cmd == TF_MSG_HDD_DIRENT)
      && (ret == TF_ERR_DONE <==> good && g.cmd == TF_MSG_HDD_DIREND)
  {
    var w := SendStep(v, f, e.send).0;
    DirentsKept(w, e);
  }

  lemma DirentsKept(v: View, e: L.BatchEnv)
    ensures var (v1, ret, _) := L.DirentsStep(v, e);
      var (w, ret1, g) := ReceiveStep(v, e.read);
      && (Kept(v1, ret) <==> ret1 != 0 || g.cmd == TF_MSG_HDD_DIRENT)
      && (ret == 0 <==> ret1 == 0 && g.cmd == TF_MSG_HDD_DIRENT)
      && (ret == TF_ERR_DONE <==> ret1 == 0 && g.cmd == TF_MSG_HDD_DIREND)
  {
    var w := ReceiveStep(v, e.read).0;
    assert L.DirentsStep(v, e).0 in {w, SendStep(w, SUCCESS, e.end).0};
  }

  /** tf_cmd always keeps its result, and returns 0 exactly for SUCCESS and for a failure with code 0. */
  lemma CmdKept(v: View, f: Frame, send: SendEnv, read: ReadEnv)
    ensures var (v1, ret) := CmdStep(v, f, send, read);
      var good, g := Answered(v, f, send, read), Answer(v, f, send, read);
      Kept(v1, ret) && (ret == 0 <==> good && (g.cmd == TF_MSG_SUCCESS || EmptyFailure(g)))
  {
    FailCodeZero(Answer(v, f, send, read));
  }

  // ---- Cases in which it fails

  /** A reply that a scripted device may give. */
  predicate Sayable(g: Frame) {
    Sendable(g) && Meaningful(Received(g))
  }

  lemma WireSane(g: Frame)
    requires Sayable(g)
    ensures |Wire(g)| <= STRUCT_SIZE && Framed(Wire(g)) && Meaningful(Decode(Wire(g), true))
  {
    RoundTrip(g, [], true);
    assert Wire(g) + [] == Wire(g);
  }

  /** A connected handle and a device that will say two things. */
  function Before(g: Frame, h: Frame): View
    requires Sayable(g) && Sayable(h)
  {
    WireSane(g);
    WireSane(h);
    View(true, false, false, 0, 1000, Scripted([Wire(g)] + [Wire(h)]), [])
  }

  /** A scripted reply is read as the frame that was scripted. */
  lemma ScriptHeard(v: View, g: Frame, rest: seq<seq<byte>>)
    requires v.connected && Sendable(g) && v.device == Scripted([Wire(g)] + rest)
    ensures ReceiveStep(v, Heard) == (v.(error := 0, device := Scripted(rest), log := v.log + [Read(v.timeout, Heard)]), 0, g)
  {
    RoundTrip(g, [], v.nocrc);
    assert Wire(g) + [] == Wire(g);
    assert ([Wire(g)] + rest)[1..] == rest;
  }

  lemma ScriptSent(v: View, f: Frame)
    requires v.connected && v.device.Scripted?
    ensures var (w, ret) := SendStep(v, f, SendEnv.Delivered);
      ret == 0 && w.connected && w.device == v.device
  {
  }

  /** Whatever is asked, the answer is g, and h is said next. */
  lemma Says(v: View, g: Frame, h: Frame, f: Frame)
    requires Sayable(g) && Sayable(h) && v == Before(g, h)
    ensures Answered(v, f, SendEnv.Delivered, Heard) && Answer(v, f, SendEnv.Delivered, Heard) == g
    ensures var w := ReceiveStep(SendStep(v, f, SendEnv.Delivered).0, Heard).0;
      w.connected && w.device == Scripted([Wire(h)])
  {
    ScriptSent(v, f);
    ScriptHeard(SendStep(v, f, SendEnv.Delivered).0, g, [Wire(h)]);
  }

  lemma SaysPatiently(v: View, g: Frame, h: Frame, f: Frame)
    requires Sayable(g) && Sayable(h) && v == Before(g, h)
    ensures var (w, ret1) := SendStep(v, f, SendEnv.Delivered);
      ret1 == 0 && PatientStep(w, Heard).1 == 0 && PatientStep(w, Heard).2 == g
  {
    ScriptSent(v, f);
    var w := SendStep(v, f, SendEnv.Delivered).0;
    ScriptHeard(w.(timeout := w.timeout * 2), g, [Wire(h)]);
  }

  /** tf_cmd_get gets SUCCESS for an answer: the call fails, and the handle keeps 0. */
  lemma GetNotKept(path: CString)
    requires PathFits(path)
    ensures var (v1, ret, g) := GetStep(Before(SUCCESS, SUCCESS), path, 0, SendEnv.Delivered, Heard); !Kept(v1, ret)
  {
    Says(Before(SUCCESS, SUCCESS), SUCCESS, SUCCESS, RequestFrame(Send(DIR_GET, path, 0)));
    GetKept(Before(SUCCESS, SUCCESS), path, 0, SendEnv.Delivered, Heard);
  }

  lemma EmptyFailureIs()
    ensures EmptyFailure(Fail(0))
  {
    Get32Be32(0);
  }

  /** tf_cmd_get gets a failure with code 0: it returns 0, and there is no file. */
  lemma GetZeroForFailure(path: CString)
    requires PathFits(path)
    ensures var (v1, ret, g) := GetStep(Before(Fail(0), SUCCESS), path, 0, SendEnv.Delivered, Heard); ret == 0 && g == Fail(0)
  {
    EmptyFailureIs();
    Says(Before(Fail(0), SUCCESS), Fail(0), SUCCESS, RequestFrame(Send(DIR_GET, path, 0)));
    GetKept(Before(Fail(0), SUCCESS), path, 0, SendEnv.Delivered, Heard);
  }

  /** tf_cmd gets it: the same. */
  lemma CmdZeroForFailure(f: Frame)
    ensures CmdStep(Before(Fail(0), SUCCESS), f, SendEnv.Delivered, Heard).1 == 0
  {
    EmptyFailureIs();
    Says(Before(Fail(0), SUCCESS), Fail(0), SUCCESS, f);
    CmdKept(Before(Fail(0), SUCCESS), f, SendEnv.Delivered, Heard);
  }

  /** tf_cmd_put gets CANCEL for an answer. */
  lemma PutNotKept(path: CString, typefile: seq<byte>, e: PutEnv)
    requires PathFits(path) && e.open == SendEnv.Delivered && e.answer == Heard
    ensures var (v1, ret) := PutStep(Before(CANCEL, SUCCESS), path, typefile, 0, e); !Kept(v1, ret)
  {
    Says(Before(CANCEL, SUCCESS), CANCEL, SUCCESS, RequestFrame(Send(DIR_PUT, path, 0)));
    PutKept(Before(CANCEL, SUCCESS), path, typefile, 0, e);
  }

  /** tf_cmd_put_data gets CANCEL for an answer. */
  lemma PutDataNotKept(b: Buffer)
    requires b.offset < 0x1_0000_0000_0000_0000
    ensures var (v1, ret) := PutDataStep(Before(CANCEL, SUCCESS), b, SendEnv.Delivered, Heard); !Kept(v1, ret)
  {
    SaysPatiently(Before(CANCEL, SUCCESS), CANCEL, SUCCESS, DataFrame(b));
    PutDataKept(Before(CANCEL, SUCCESS), b, SendEnv.Delivered, Heard);
  }

  lemma SuccessSettles(v: View, f: Frame, g: Frame)
    requires v.connected && Sayable(g) && g.cmd == TF_MSG_SUCCESS && v.device == Scripted([Wire(g)])
    ensures CmdStep(v, f, SendEnv.Delivered, Heard).1 == 0
  {
    assert [Wire(g)] == [Wire(g)] + [];
    ScriptSent(v, f);
    ScriptHeard(SendStep(v, f, SendEnv.Delivered).0, g, []);
    CmdKept(v, f, SendEnv.Delivered, Heard);
  }

  /** tf_cmd_put_done gets CANCEL for an answer, cancels, and that goes well. */
  lemma PutDoneNotKept(e: DoneEnv)
    requires e == DoneEnv(SendEnv.Delivered, Heard, SendEnv.Delivered, Heard)
    ensures var (v1, ret) := PutDoneStep(Before(CANCEL, SUCCESS), e); !Kept(v1, ret)
  {
    var v := Before(CANCEL, SUCCESS);
    Says(Before(CANCEL, SUCCESS), CANCEL, SUCCESS, FILE_END);
    SuccessSettles(ReceiveStep(SendStep(v, FILE_END, e.send).0, e.read).0, CANCEL, SUCCESS);
    PutDoneKept(v, e);
  }

  /** tf_cmd_dir_next reads the end of the listing: it returns DONE, and the handle keeps 0. */
  lemma DirNotKept()
    ensures var (v1, ret, _) := L.DirNextStep(Before(DIREND, SUCCESS), L.BatchEnv(SendEnv.Delivered, Heard, SendEnv.Delivered));
      ret == TF_ERR_DONE && !Kept(v1, ret)
  {
    Says(Before(DIREND, SUCCESS), DIREND, SUCCESS, SUCCESS);
    AskKept(Before(DIREND, SUCCESS), SUCCESS, L.BatchEnv(SendEnv.Delivered, Heard, SendEnv.Delivered));
  }
}
