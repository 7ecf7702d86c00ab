/** What the calls of tf_io.c do to the handle and, through the bus, to the device, as functions of
    how each transfer went. */
module Protocol {
  import opened Bytes
  import opened Frames
  import opened Packets
  import opened Requests
  import opened Devices

  const TF_ERR_NONE: int := 0
  const TF_ERR_DONE: int := 1
  const TF_ERR_CRC: int := -1
  const TF_ERR_UNEXPECTED: int := -100
  const TF_ERR_IO: int := -101
  const TF_ERR_NOCONN: int := -102

  /** A send that failed may still have reached the device whole: the padding was lost. */
  datatype SendEnv = Delivered | Lost | Late

  /** A read that came up short either left the transfer waiting or used it up. */
  datatype ReadEnv = Heard | Silent | Broken

  /** What went over the bus: frames sent, and reads with the time they were given. */
  datatype Event = Sent(frame: Frame, went: SendEnv) | Read(timeout: int, read: ReadEnv)

  /** The handle, the device behind it, and what has happened so far. */
  datatype View = View(connected: bool, nocrc: bool, pending: bool, error: int, timeout: int,
                       device: Peer, log: seq<Event>)

  // ---- tf_send and tf_get_response

  function SendStep(v: View, f: Frame, went: SendEnv): (r: (View, int))
    ensures r.1 == r.0.error
    ensures r.1 == 0 <==> v.connected && went == Delivered
    ensures r.0.pending == v.pending && r.0.connected == v.connected
  {
    if !v.connected then (v.(error := TF_ERR_NOCONN), TF_ERR_NOCONN)
    else
      var error := if went == Delivered then TF_ERR_NONE else TF_ERR_IO;
      (v.(device := if went == Lost then v.device else Hear(v.device, f), error := error, log := v.log + [Sent(f, went)]), error)
  }

  /** What one read brings. */
  function Listen(d: Peer, went: ReadEnv, nocrc: bool): (r: (Peer, Reception))
  {
    if !Speaks(d) || went == Silent then (d, ShortRead)
    else (Spoken(d), if went == Broken then ShortRead else Decode(Next(d), nocrc))
  }

  function ErrorOf(r: Reception): int {
    match r
    case Received(_) => TF_ERR_NONE
    case ShortRead => TF_ERR_IO
    case BadCrc(_) => TF_ERR_CRC
  }

  function ReceiveStep(v: View, went: ReadEnv): (r: (View, int, Frame))
    ensures r.1 == r.0.error
    ensures r.0.pending == v.pending && r.0.connected == v.connected
  {
    if !v.connected then (v.(error := TF_ERR_NOCONN), TF_ERR_NOCONN, SUCCESS)
    else
      var (d, r) := Listen(v.device, went, v.nocrc);
      (v.(device := d, error := ErrorOf(r), log := v.log + [Read(v.timeout, went)]), ErrorOf(r), if r.Received? then r.frame else SUCCESS)
  }

  // ---- tf_cmd

  /** An unsigned word negated and taken as an int. */
  function Negated(x: u32): int {
    var n: int := x;
    if n <= 0x8000_0000 then -n else 0x1_0000_0000 - n
  }

  /** The result is the 32-bit int that gives 0 when the word is added to it and the sum wraps. */
  lemma NegatedWraps(x: u32)
    ensures (Negated(x) + x) % 0x1_0000_0000 == 0
    ensures -0x8000_0000 <= Negated(x) < 0x8000_0000
  {
  }

  /** The code of a failure message. */
  function FailCode(f: Frame): int {
    Negated(Get32(Filled(f.data, 4), 0))
  }

  const CANCEL := Frame(TF_MSG_CANCEL, [])

  function CmdStep(v: View, f: Frame, send: SendEnv, read: ReadEnv): (r: (View, int))
    ensures r.1 == r.0.error
    ensures r.0.pending == v.pending && r.0.connected == v.connected
  {
    var (v1, ret1) := SendStep(v, f, send);
    if ret1 != 0 then (v1, ret1)
    else
      var (v2, ret2, g) := ReceiveStep(v1, read);
      Settle(v2, ret2, g)
  }

  /** What tf_cmd makes of a reply. */
  function Settle(v: View, ret: int, g: Frame): (r: (View, int))
    requires ret == v.error
    ensures r.1 == r.0.error
    ensures r.0.pending == v.pending && r.0.connected == v.connected
  {
    if ret != 0 then (v, ret)
    else if g.cmd == TF_MSG_FAIL then (v.(error := FailCode(g)), FailCode(g))
    else if g.cmd != TF_MSG_SUCCESS then (v.(error := TF_ERR_UNEXPECTED), TF_ERR_UNEXPECTED)
    else (v, ret)
  }

  // ---- Getting a file

  function GetStep(v: View, path: CString, offset: u64, send: SendEnv, read: ReadEnv): (r: (View, int, Frame))
    requires PathFits(path)
    ensures r.0.pending == v.pending
  {
    OpenStep(v, RequestFrame(Send(DIR_GET, path, offset)), send, read)
  }

  /** A request that is answered by a file description. */
  function OpenStep(v: View, f: Frame, send: SendEnv, read: ReadEnv): (r: (View, int, Frame))
    ensures r.0.pending == v.pending
  {
    var (v1, ret1) := SendStep(v, f, send);
    if ret1 != 0 then (v1, ret1, SUCCESS) else AnswerStep(v1, read)
  }

  function AnswerStep(v: View, read: ReadEnv): (r: (View, int, Frame))
    ensures r.0.pending == v.pending
  {
    var (v1, ret, g) := ReceiveStep(v, read);
    (v1, OpenResult(ret, g), g)
  }

  function OpenResult(ret: int, g: Frame): int {
    if ret != 0 then ret
    else if g.cmd == TF_MSG_HDD_FILE_START then 0
    else if g.cmd == TF_MSG_FAIL then FailCode(g)
    else TF_ERR_UNEXPECTED
  }

  datatype NextEnv = NextEnv(ack: SendEnv, read: ReadEnv, early: SendEnv)

  const NO_BUFFER := Buffer(0, [])

  function GetNextStep(v: View, e: NextEnv): (r: (View, int, Buffer))
    ensures r.1 == r.0.error && r.0.connected == v.connected
    ensures r.1 != TF_ERR_NONE ==> !r.0.pending
  {
    var (v1, ret1) := if v.pending then (v, 0) else SendStep(v, SUCCESS, e.ack);
    var v2 := v1.(pending := false);
    if ret1 != 0 then (v2.(error := ret1), ret1, NO_BUFFER) else NextReplyStep(v2, e.read, e.early)
  }

  /** The second half of tf_cmd_get_next: a reply is read and, if it brings data or the end,
      acknowledged right away. */
  function NextReplyStep(v: View, read: ReadEnv, early: SendEnv): (r: (View, int, Buffer))
    requires !v.pending
    ensures r.1 == r.0.error && r.0.connected == v.connected
    ensures r.1 != TF_ERR_NONE ==> !r.0.pending
  {
    var (v3, ret3, g) := ReceiveStep(v, read);
    if ret3 != 0 then (v3, ret3, NO_BUFFER)
    else if g.cmd == TF_MSG_HDD_FILE_END then
      (SendStep(v3, SUCCESS, early).0.(error := TF_ERR_DONE), TF_ERR_DONE, NO_BUFFER)
    else if g.cmd == TF_MSG_HDD_FILE_DATA then TakeStep(v3, g, early)
    else
      var ret := if g.cmd == TF_MSG_FAIL then TF_ERR_IO else TF_ERR_UNEXPECTED;
      (v3.(error := ret), ret, NO_BUFFER)
  }

  /** A data frame is acknowledged before it is handed out. */
  function TakeStep(v: View, g: Frame, early: SendEnv): (r: (View, int, Buffer))
    ensures r.1 == r.0.error == 0 && r.0.connected == v.connected
  {
    var (v1, ret) := SendStep(v, SUCCESS, early);
    (v1.(pending := ret == 0, error := 0), 0,
     Buffer(Get64(Filled(g.data, 8), 0), if |g.data| < 8 then [] else g.data[8..]))
  }

  // ---- Giving up

  /** One attempt at cancelling a transfer. */
  datatype AttemptEnv = AttemptEnv(fail: SendEnv, send: SendEnv, read: ReadEnv, again: ReadEnv)

  /** tf_send_fail(tf, TF_ERR_CRC): the reason is passed without being negated. */
  const FAIL_CRC := Frame(TF_MSG_FAIL, Be32(0xFFFF_FFFF))

  function AttemptStep(v: View, e: AttemptEnv): (r: (View, int))
    ensures r.0.pending == v.pending && r.0.connected == v.connected
  {
    var v1 := SendStep(v, FAIL_CRC, e.fail).0;
    var (v2, ret2) := CmdStep(v1, CANCEL, e.send, e.read);
    if ret2 == 0 then (v2, 0)
    else
      var (v3, ret3, _) := ReceiveStep(v2, e.again);
      (v3, ret3)
  }

  /** A pending reply is read and dropped. */
  function DrainStep(v: View, read: ReadEnv): (r: View)
    ensures !r.pending
  {
    if v.pending then ReceiveStep(v.(pending := false), read).0 else v
  }

  /** Attempts until one succeeds or there are no more. */
  function Attempts(v: View, es: seq<AttemptEnv>): (r: (View, int))
    ensures r.0.pending == v.pending && r.0.connected == v.connected
    decreases |es|
  {
    if es == [] then (v, 0)
    else
      var (v1, ret) := AttemptStep(v, es[0]);
      if ret == 0 || |es| == 1 then (v1, ret) else Attempts(v1, es[1..])
  }

  lemma {:induction false} AttemptsAppend(v: View, es: seq<AttemptEnv>, e: AttemptEnv)
    requires es == [] || Attempts(v, es).1 != 0
    ensures Attempts(v, es + [e]) == AttemptStep(if es == [] then v else Attempts(v, es).0, e)
    decreases |es|
  {
    if es == [] {
      assert [] + [e] == [e];
    } else {
      assert (es + [e])[1..] == es[1..] + [e];
      AttemptsAppend(AttemptStep(v, es[0]).0, es[1..], e);
    }
  }

  // ---- Putting a file

  datatype PutEnv = PutEnv(open: SendEnv, answer: ReadEnv, start: SendEnv, started: ReadEnv)

  function PutStep(v: View, path: CString, typefile: seq<byte>, offset: u64, e: PutEnv): (r: (View, int))
    requires PathFits(path)
    ensures r.0.pending == v.pending
  {
    var (v1, ret1) := SendStep(v, RequestFrame(Send(DIR_PUT, path, offset)), e.open);
    if ret1 != 0 then (v1, ret1)
    else
      var (v2, ret2, g) := ReceiveStep(v1, e.answer);
      if ret2 != 0 then (v2, ret2)
      else if g.cmd == TF_MSG_SUCCESS then StartStep(v2, typefile, e.start, e.started)
      else if g.cmd == TF_MSG_FAIL then (v2, FailCode(g))
      else (v2, TF_ERR_UNEXPECTED)
  }

  /** The description of a file is sent and expects SUCCESS. */
  function StartStep(v: View, typefile: seq<byte>, start: SendEnv, started: ReadEnv): (r: (View, int))
    ensures r.0.pending == v.pending
  {
    var (v1, ret1) := SendStep(v, Frame(TF_MSG_HDD_FILE_START, typefile), start);
    if ret1 != 0 then (v1, ret1)
    else
      var (v2, ret2, h) := ReceiveStep(v1, started);
      if ret2 == 0 && h.cmd != TF_MSG_SUCCESS then (v2, TF_ERR_UNEXPECTED) else (v2, ret2)
  }

  /** A read that is given twice the time. */
  function PatientStep(v: View, read: ReadEnv): (r: (View, int, Frame))
    ensures r.0.timeout == v.timeout && r.0.pending == v.pending
  {
    var (v1, ret, g) := ReceiveStep(v.(timeout := v.timeout * 2), read);
    (v1.(timeout := v.timeout), ret, g)
  }

  /** The reply to a data frame may take longer. */
  function PutDataStep(v: View, b: Buffer, send: SendEnv, read: ReadEnv): (r: (View, int))
    requires b.offset < 0x1_0000_0000_0000_0000
    ensures r.0.timeout == v.timeout && r.0.pending == v.pending
  {
    var (v1, ret1) := SendStep(v, DataFrame(b), send);
    if ret1 != 0 then (v1, ret1)
    else
      var (v2, ret2, g) := PatientStep(v1, read);
      if ret2 == 0 && g.cmd != TF_MSG_SUCCESS then (v2, TF_ERR_UNEXPECTED) else (v2, ret2)
  }

  datatype DoneEnv = DoneEnv(send: SendEnv, read: ReadEnv, cancel: SendEnv, cancelled: ReadEnv)

  function PutDoneStep(v: View, e: DoneEnv): (r: (View, int))
    ensures r.0.pending == v.pending && r.0.connected == v.connected
  {
    var (v1, ret1) := SendStep(v, FILE_END, e.send);
    if ret1 != 0 then (v1, ret1)
    else
      var (v2, ret2, g) := ReceiveStep(v1, e.read);
      var ret := if ret2 == 0 && g.cmd != TF_MSG_SUCCESS then TF_ERR_UNEXPECTED else ret2;
      if ret != 0 then (CmdStep(v2, CANCEL, e.cancel, e.cancelled).0, ret) else (v2, 0)
  }
}
