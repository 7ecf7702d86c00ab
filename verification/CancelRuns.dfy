/** Giving up a download: what tf_cmd_get_cancel sends and what its result says. */
module CancelRuns {
  import opened Frames
  import opened Devices
  import opened Protocol
  import opened GetRuns

  predicate IsCancel(e: Event) {
    e.Sent? && e.frame == CANCEL
  }

  /** How many cancellations have been sent, whether they arrived or not. */
  function Cancels(log: seq<Event>): nat {
    if log == [] then 0 else Cancels(log[..|log| - 1]) + if IsCancel(log[|log| - 1]) then 1 else 0
  }

  lemma CancelsAppend(log: seq<Event>, e: Event)
    ensures Cancels(log + [e]) == Cancels(log) + if IsCancel(e) then 1 else 0
  {
    assert (log + [e])[..|log|] == log;
  }

  lemma SendCancels(v: View, f: Frame, went: SendEnv)
    ensures var v1 := SendStep(v, f, went).0;
      v1.connected == v.connected && Cancels(v1.log) == Cancels(v.log) + if v.connected && f == CANCEL then 1 else 0
  {
    CancelsAppend(v.log, Sent(f, went));
  }

  lemma ReceiveCancels(v: View, went: ReadEnv)
    ensures var v1 := ReceiveStep(v, went).0; v1.connected == v.connected && Cancels(v1.log) == Cancels(v.log)
  {
    CancelsAppend(v.log, Read(v.timeout, went));
  }

  lemma CmdCounts(v: View, f: Frame, send: SendEnv, read: ReadEnv)
    ensures var v1 := CmdStep(v, f, send, read).0;
      v1.connected == v.connected && Cancels(v1.log) == Cancels(v.log) + if v.connected && f == CANCEL then 1 else 0
  {
    SendCancels(v, f, send);
    ReceiveCancels(SendStep(v, f, send).0, read);
  }

  lemma CmdCancels(v: View, send: SendEnv, read: ReadEnv)
    ensures var v1 := CmdStep(v, CANCEL, send, read).0;
      v1.connected == v.connected && Cancels(v1.log) == Cancels(v.log) + if v.connected then 1 else 0
  {
    CmdCounts(v, CANCEL, send, read);
  }

  /** Each attempt sends exactly one cancellation. */
  lemma AttemptCancels(v: View, e: AttemptEnv)
    ensures var v1 := AttemptStep(v, e).0;
      v1.connected == v.connected && Cancels(v1.log) == Cancels(v.log) + if v.connected then 1 else 0
  {
    var v1 := SendStep(v, FAIL_CRC, e.fail).0;
    SendCancels(v, FAIL_CRC, e.fail);
    CmdCancels(v1, e.send, e.read);
    ReceiveCancels(CmdStep(v1, CANCEL, e.send, e.read).0, e.again);
  }

  /** Whatever the device does, n attempts send at most n cancellations, and exactly n when none
      of them succeeds. */
  lemma {:induction false} AttemptsCancels(v: View, es: seq<AttemptEnv>)
    requires v.connected
    ensures var (v1, ret) := Attempts(v, es);
      && v1.connected
      && Cancels(v1.log) <= Cancels(v.log) + |es|
      && (ret != 0 ==> Cancels(v1.log) == Cancels(v.log) + |es|)
    decreases |es|
  {
    if es != [] {
      AttemptCancels(v, es[0]);
      var (v1, ret) := AttemptStep(v, es[0]);
      if ret != 0 && |es| > 1 {
        AttemptsCancels(v1, es[1..]);
      }
    }
  }

  // ---- What a result of 0 says

  lemma HearCancel(d: Peer)
    requires d.Conforming?
    ensures Hear(d, CANCEL) == Say(d, Idle, [SUCCESS])
  {
  }

  lemma HearFail(d: Peer)
    requires d.Conforming?
    ensures Hear(d, FAIL_CRC) == Say(d, Idle, [])
  {
  }

  lemma ListenKeepsMode(d: Peer, went: ReadEnv, nocrc: bool)
    requires d.Conforming?
    ensures var r := Listen(d, went, nocrc).0; r.Conforming? && r.mode == d.mode
  {
  }

  lemma CancelArrives(v: View, send: SendEnv)
    requires v.connected && v.device.Conforming?
    ensures var (v1, ret) := SendStep(v, CANCEL, send);
      v1.device.Conforming? && v1.device.mode == (if send == Lost then v.device.mode else Idle)
  {
    HearCancel(v.device);
  }

  lemma ReceiveKeepsMode(v: View, went: ReadEnv)
    requires v.device.Conforming?
    ensures var d := ReceiveStep(v, went).0.device; d.Conforming? && d.mode == v.device.mode
  {
    ListenKeepsMode(v.device, went, v.nocrc);
  }

  lemma CmdKeepsMode(v: View, send: SendEnv, read: ReadEnv)
    requires v.connected && v.device.Conforming?
    ensures var d := CmdStep(v, CANCEL, send, read).0.device;
      d.Conforming? && d.mode == if send == Lost then v.device.mode else Idle
  {
    var v1 := SendStep(v, CANCEL, send).0;
    assert CmdStep(v, CANCEL, send, read).0.device in {v1.device, ReceiveStep(v1, read).0.device};
    CancelArrives(v, send);
    ReceiveKeepsMode(v1, read);
  }

  /** Neither message of the attempt reached the device. */
  predicate Missed(e: AttemptEnv) {
    e.fail == Lost && e.send == Lost
  }

  /** An attempt leaves the device idle if one of its two messages reached it, and as it was if not. */
  lemma AttemptMode(v: View, e: AttemptEnv)
    requires v.connected && v.device.Conforming?
    ensures var d := AttemptStep(v, e).0.device;
      d.Conforming? && d.mode == if Missed(e) then v.device.mode else Idle
  {
    HearFail(v.device);
    var v1 := SendStep(v, FAIL_CRC, e.fail).0;
    CmdKeepsMode(v1, e.send, e.read);
    ReceiveKeepsMode(CmdStep(v1, CANCEL, e.send, e.read).0, e.again);
  }

  /** When the cancellation arrives and its answer is read, one attempt is enough, in whatever
      state the device was, and nothing is left to read. */
  lemma AttemptSucceeds(v: View, e: AttemptEnv)
    requires v.connected && v.device.Conforming? && e.send == SendEnv.Delivered && e.read == Heard
    ensures var (v1, ret) := AttemptStep(v, e);
      ret == 0 && v1.device.Conforming? && v1.device.mode == Idle && v1.device.out == []
  {
    var v1 := SendStep(v, FAIL_CRC, e.fail).0;
    HearFail(v.device);
    CancelHeard(v1);
  }

  // ---- The whole call

  /** How many of the attempts are made. */
  function Made(v: View, es: seq<AttemptEnv>): (n: nat)
    ensures n <= |es| && (es != [] ==> n > 0)
    decreases |es|
  {
    if es == [] then 0
    else
      var (v1, ret) := AttemptStep(v, es[0]);
      if ret == 0 then 1 else 1 + Made(v1, es[1..])
  }

  /** tf_cmd_get_cancel, on the attempts and the read of a pending reply. */
  function CancelStep(v: View, drained: ReadEnv, es: seq<AttemptEnv>): (r: (View, int))
    ensures !r.0.pending
  {
    Attempts(DrainStep(v, drained), es)
  }

  lemma MissedLater(es: seq<AttemptEnv>, n: nat)
    requires es != [] && n < |es|
    ensures (forall i :: 0 <= i < 1 + n ==> Missed(es[i])) <==> Missed(es[0]) && forall i :: 0 <= i < n ==> Missed(es[1..][i])
  {
    assert forall i :: 0 < i < 1 + n ==> es[i] == es[1..][i - 1];
    assert forall i :: 0 <= i < n ==> es[1..][i] == es[i + 1];
  }

  lemma {:induction false} AttemptsMode(v: View, es: seq<AttemptEnv>)
    requires v.connected && v.device.Conforming?
    ensures var d := Attempts(v, es).0.device;
      d.Conforming? && d.mode == if (forall i :: 0 <= i < Made(v, es) ==> Missed(es[i])) then v.device.mode else Idle
    decreases |es|
  {
    if es != [] {
      AttemptMode(v, es[0]);
      AttemptStays(v, es[0]);
      AttemptsFirst(v, es);
      var (v1, ret) := AttemptStep(v, es[0]);
      if ret != 0 {
        AttemptsMode(v1, es[1..]);
        MissedLater(es, Made(v1, es[1..]));
      }
    }
  }

  lemma AttemptsFirst(v: View, es: seq<AttemptEnv>)
    requires es != []
    ensures var (v1, ret) := AttemptStep(v, es[0]);
      && Made(v, es) == (if ret == 0 then 1 else 1 + Made(v1, es[1..]))
      && Attempts(v, es).0 == if ret == 0 then v1 else Attempts(v1, es[1..]).0
  {
  }

  lemma DrainKeepsMode(v: View, drained: ReadEnv)
    requires v.connected && v.device.Conforming?
    ensures var w := DrainStep(v, drained); w.connected && w.device.Conforming? && w.device.mode == v.device.mode
  {
    ReceiveKeepsMode(v.(pending := false), drained);
  }

  /** After the whole call the device has left the transfer exactly when it had before, or a message
      of some attempt that was made reached it. */
  lemma CancelIdles(v: View, drained: ReadEnv, es: seq<AttemptEnv>)
    requires v.connected && v.device.Conforming?
    ensures var d := CancelStep(v, drained, es).0.device;
      && d.Conforming?
      && (d.mode == Idle <==> v.device.mode == Idle || exists i :: 0 <= i < Made(DrainStep(v, drained), es) && !Missed(es[i]))
  {
    DrainKeepsMode(v, drained);
    AttemptsMode(DrainStep(v, drained), es);
  }

  lemma AttemptsAtOnce(v: View, es: seq<AttemptEnv>)
    requires es != [] && AttemptStep(v, es[0]).1 == 0
    ensures Attempts(v, es).1 == 0
  {
  }

  lemma AttemptsLater(v: View, es: seq<AttemptEnv>)
    requires |es| > 1
    ensures Attempts(v, es).1 == 0 || Attempts(v, es) == Attempts(AttemptStep(v, es[0]).0, es[1..])
  {
  }

  lemma AttemptStays(v: View, e: AttemptEnv)
    requires v.connected && v.device.Conforming?
    ensures AttemptStep(v, e).0.connected && AttemptStep(v, e).0.device.Conforming?
  {
    AttemptMode(v, e);
  }

  /** As soon as one cancellation arrives and its answer is read, the call returns 0. */
  lemma {:induction false} CancelSucceeds(v: View, es: seq<AttemptEnv>, k: nat)
    requires v.connected && v.device.Conforming?
    requires k < |es| && es[k].send == SendEnv.Delivered && es[k].read == Heard
    ensures Attempts(v, es).1 == 0
    decreases |es|
  {
    if k == 0 {
      AttemptSucceeds(v, es[0]);
      AttemptsAtOnce(v, es);
    } else {
      AttemptStays(v, es[0]);
      AttemptsLater(v, es);
      assert es[1..][k - 1] == es[k];
      CancelSucceeds(AttemptStep(v, es[0]).0, es[1..], k - 1);
    }
  }

  // ---- When a result of 0 is wrong

  /** An attempt of which nothing reached the device: it returns 0 exactly when it reads a reply
      that was left over. */
  lemma MissedAttempt(v: View, e: AttemptEnv)
    requires v.connected && v.device.Conforming? && |v.device.out| <= 1 && Missed(e)
    ensures var (v1, ret) := AttemptStep(v, e);
      && (ret == 0 <==> Waiting(v.device) && e.again == Heard)
      && v1.device == if Waiting(v.device) && e.again != Silent then Say(v.device, v.device.mode, []) else v.device
  {
    if Waiting(v.device) {
      ListenConforming(v.device, e.again, v.nocrc);
    }
  }

  /** Attempts of which nothing arrives and that read nothing, until one reads a reply. */
  predicate Misleads(es: seq<AttemptEnv>)
    decreases |es|
  {
    es != [] && Missed(es[0]) && (es[0].again == Heard || (es[0].again == Silent && Misleads(es[1..])))
  }

  lemma {:induction false} AttemptsMisled(v: View, es: seq<AttemptEnv>)
    requires v.connected && v.device.Conforming? && v.device.mode.Serving? && |v.device.out| <= 1 && es != []
    ensures var (v1, ret) := Attempts(v, es);
      && v1.device.Conforming?
      && (ret == 0 && v1.device.mode.Serving? <==> Waiting(v.device) && Misleads(es))
    decreases |es|
  {
    AttemptMode(v, es[0]);
    AttemptsMode(v, es);
    if Missed(es[0]) {
      MissedAttempt(v, es[0]);
      var (v1, ret) := AttemptStep(v, es[0]);
      if ret != 0 && |es| > 1 {
        AttemptsMisled(v1, es[1..]);
      }
    } else {
      assert 0 < Made(v, es) && !Missed(es[0]);
    }
  }

  lemma DrainWaits(v: View, drained: ReadEnv)
    requires v.connected && v.device.Conforming? && |v.device.out| <= 1
    ensures var w := DrainStep(v, drained);
      && w.device.Conforming? && |w.device.out| <= 1
      && (Waiting(w.device) <==> Waiting(v.device) && (v.pending ==> drained == Silent))
  {
    if v.pending && Waiting(v.device) {
      ListenConforming(v.device, drained, v.nocrc);
    }
  }

  /** The call returns 0 while the device goes on sending exactly when a reply was waiting that the
      call did not drop, no message of any attempt arrived, and one of the attempts read that reply. */
  lemma CancelMisled(v: View, drained: ReadEnv, es: seq<AttemptEnv>)
    requires v.connected && v.device.Conforming? && v.device.mode.Serving? && |v.device.out| <= 1 && es != []
    ensures var (v1, ret) := CancelStep(v, drained, es);
      && v1.device.Conforming?
      && (ret == 0 && v1.device.mode.Serving? <==>
          Waiting(v.device) && (v.pending ==> drained == Silent) && Misleads(es))
  {
    DrainKeepsMode(v, drained);
    DrainWaits(v, drained);
    AttemptsMisled(DrainStep(v, drained), es);
  }

  /** A case of it: a data frame was still on its way while both messages of the attempt were lost. */
  lemma AttemptMisled(v: View)
    requires v.connected && Waiting(v.device) && v.device.mode.Serving?
    ensures var (v1, ret) := AttemptStep(v, AttemptEnv(Lost, Lost, Silent, Heard));
      ret == 0 && v1.device.Conforming? && v1.device.mode == v.device.mode
  {
    ListenConforming(v.device, Heard, v.nocrc);
  }
}
