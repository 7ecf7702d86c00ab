/** Listings of a conforming device: what tf_stat sees of a directory, whatever is lost. */
module ListRuns {
  import opened Bytes
  import opened Frames
  import opened Packets
  import opened Requests
  import opened Dirents
  import opened Devices
  import opened Protocol
  import opened GetRuns
  import L = Listing

  /** The entries of a directory, batch by batch. */
  function Contents(batches: seq<seq<byte>>): (r: seq<seq<Dirent>>)
    ensures |r| == |batches|
  {
    seq(|batches|, i requires 0 <= i < |batches| => Entries(batches[i]))
  }

  /** A listing of which k batches have been read, the last of them not acknowledged yet. */
  predicate Reading(v: View, batches: seq<seq<byte>>, k: nat) {
    && v.connected && v.device.Conforming? && v.device.out == []
    && v.device.mode == Mode.Listing(batches, k) && 0 < k <= |batches|
  }

  predicate Smooth(e: L.BatchEnv) {
    e.send == SendEnv.Delivered && e.read == Heard && e.end == SendEnv.Delivered
  }

  // ---- One reply

  /** A device that has just said the frame after the first k batches. */
  predicate Said(v: View, batches: seq<seq<byte>>, k: nat) {
    && v.connected && v.device.Conforming? && k <= |batches|
    && v.device.mode == Mode.Listing(batches, k + 1) && v.device.out == [ListFrame(batches, k)]
  }

  /** What may come of a call that reads the frame after k batches. */
  predicate Heeded(batches: seq<seq<byte>>, k: nat, v: View, ret: int, ds: seq<Dirent>) {
    && Unharmed(v.device) && v.connected && ret in {TF_ERR_NONE, TF_ERR_DONE, TF_ERR_IO}
    && (ret == TF_ERR_NONE ==> k < |batches| && Reading(v, batches, k + 1) && ds == Entries(batches[k]))
    && (ret == TF_ERR_DONE ==> k == |batches|)
  }

  lemma EndHeard(d: Peer, batches: seq<seq<byte>>)
    requires d.Conforming? && d.mode == Mode.Listing(batches, |batches| + 1) && d.out == []
    ensures Hear(d, SUCCESS) == Say(d, Idle, [])
  {
  }

  /** A reply read whole. */
  lemma FrameRead(v: View, g: Frame, e: L.BatchEnv)
    requires v.connected && v.device.Conforming? && v.device.out == [g] && e.read == Heard
    ensures var w := v.(error := 0, device := Say(v.device, v.device.mode, []), log := v.log + [Read(v.timeout, Heard)]);
      && ReceiveStep(v, Heard) == (w, 0, g)
      && L.DirentsStep(v, e) ==
           if g.cmd == TF_MSG_HDD_DIRENT then (w, 0, Entries(g.data))
           else if g.cmd == TF_MSG_HDD_DIREND then (SendStep(w, SUCCESS, e.end).0, TF_ERR_DONE, [])
           else (w, TF_ERR_UNEXPECTED, [])
  {
    ListenConforming(v.device, Heard, v.nocrc);
  }

  lemma BatchHeard(v: View, batches: seq<seq<byte>>, k: nat, e: L.BatchEnv)
    requires Said(v, batches, k) && e.read == Heard && k < |batches|
    ensures var (v1, ret, ds) := L.DirentsStep(v, e); Heeded(batches, k, v1, ret, ds) && ret == TF_ERR_NONE
  {
    FrameRead(v, BatchFrame(batches[k]), e);
  }

  lemma EndOfList(v: View, batches: seq<seq<byte>>, e: L.BatchEnv)
    requires Said(v, batches, |batches|) && e.read == Heard
    ensures var (v1, ret, ds) := L.DirentsStep(v, e);
      && Heeded(batches, |batches|, v1, ret, ds) && ret == TF_ERR_DONE
      && (e.end == SendEnv.Delivered ==> v1.device == Say(v.device, Idle, []))
  {
    FrameRead(v, DIREND, e);
    EndSaid(ReceiveStep(v, Heard).0, batches, e.end);
  }

  lemma EndSaid(v: View, batches: seq<seq<byte>>, end: SendEnv)
    requires v.connected && v.device.Conforming? && v.device.mode == Mode.Listing(batches, |batches| + 1) && v.device.out == []
    ensures var v1 := SendStep(v, SUCCESS, end).0;
      v1.connected && Unharmed(v1.device) && (end == SendEnv.Delivered ==> v1.device == Say(v.device, Idle, []))
  {
    EndHeard(v.device, batches);
  }

  lemma ReplyHeard(v: View, batches: seq<seq<byte>>, k: nat, e: L.BatchEnv)
    requires Said(v, batches, k) && e.read == Heard
    ensures var (v1, ret, ds) := L.DirentsStep(v, e);
      && Heeded(batches, k, v1, ret, ds) && ret != TF_ERR_IO
      && (ret == TF_ERR_DONE && e.end == SendEnv.Delivered ==> v1.device == Say(v.device, Idle, []))
  {
    if k == |batches| {
      EndOfList(v, batches, e);
    } else {
      BatchHeard(v, batches, k, e);
    }
  }

  lemma ReplyLost(v: View, batches: seq<seq<byte>>, k: nat, e: L.BatchEnv)
    requires Said(v, batches, k) && e.read != Heard
    ensures var (v1, ret, ds) := L.DirentsStep(v, e); Heeded(batches, k, v1, ret, ds)
  {
    ListenConforming(v.device, e.read, v.nocrc);
  }

  lemma ReplyRead(v: View, batches: seq<seq<byte>>, k: nat, e: L.BatchEnv)
    requires Said(v, batches, k)
    ensures var (v1, ret, ds) := L.DirentsStep(v, e);
      && Heeded(batches, k, v1, ret, ds) && (e.read == Heard ==> ret != TF_ERR_IO)
      && (ret == TF_ERR_DONE && e.end == SendEnv.Delivered ==> v1.device == Say(v.device, Idle, []))
  {
    if e.read == Heard {
      ReplyHeard(v, batches, k, e);
    } else {
      ReplyLost(v, batches, k, e);
    }
  }

  // ---- One call

  /** No listing call changes what the device has. */
  lemma AskSame(v: View, f: Frame, e: L.BatchEnv)
    requires v.device.Conforming? && f.cmd != TF_MSG_HDD_FILE_END
    ensures var v1 := L.AskStep(v, f, e).0; v1.pending == v.pending && SameFiles(v.device, v1.device)
  {
    var v1 := SendStep(v, f, e.send).0;
    ListenSame(v1.device, e.read, v.nocrc);
    DirentsSame(v1, e);
  }

  lemma DirentsSame(v: View, e: L.BatchEnv)
    requires v.device.Conforming?
    ensures var v1 := L.DirentsStep(v, e).0; v1.pending == v.pending && SameFiles(v.device, v1.device)
  {
    var v1 := ReceiveStep(v, e.read).0;
    ListenSame(v.device, e.read, v.nocrc);
    SendSame(v1, SUCCESS, e.end);
    L.DirentsView(v, e, SUCCESS);
  }

  lemma AckHeard(d: Peer, batches: seq<seq<byte>>, k: nat)
    requires d.Conforming? && d.mode == Mode.Listing(batches, k) && d.out == [] && k <= |batches|
    ensures Hear(d, SUCCESS) == Say(d, Mode.Listing(batches, k + 1), [ListFrame(batches, k)])
  {
  }

  /** An acknowledgement reaches the device, and all of it was sent, or it does not matter. */
  lemma AckSaid(v: View, batches: seq<seq<byte>>, k: nat, went: SendEnv)
    requires Reading(v, batches, k)
    ensures var (v1, ret) := SendStep(v, SUCCESS, went);
      && v1.connected && Unharmed(v1.device) && ret in {TF_ERR_NONE, TF_ERR_IO}
      && (ret == 0 ==> Said(v1, batches, k)) && (went == SendEnv.Delivered ==> ret == 0)
  {
    AckHeard(v.device, batches, k);
  }

  /** One tf_cmd_dir_next, whatever is lost: the device is never harmed, and a result of 0 brings
      exactly the next batch, DONE comes only behind the last. */
  lemma NextBatch(v: View, batches: seq<seq<byte>>, k: nat, e: L.BatchEnv)
    requires Reading(v, batches, k)
    ensures var (v1, ret, ds) := L.DirNextStep(v, e);
      && Heeded(batches, k, v1, ret, ds) && (Smooth(e) ==> ret != TF_ERR_IO)
      && v1.pending == v.pending && SameFiles(v.device, v1.device)
      && (ret == TF_ERR_DONE && Smooth(e) ==> v1.device == Say(v.device, Idle, []))
  {
    AskSame(v, SUCCESS, e);
    AckSaid(v, batches, k, e.send);
    var (v1, ret) := SendStep(v, SUCCESS, e.send);
    if ret == 0 {
      ReplyRead(v1, batches, k, e);
    }
  }

  lemma DirHeard(d: Peer, path: CString)
    requires d.Conforming? && d.mode == Idle && d.out == [] && PathFits(path)
    ensures Hear(d, RequestFrame(Dir(path))) ==
      if Backslashed(path) in d.dirs
      then Say(d, Mode.Listing(d.dirs[Backslashed(path)], 1), [ListFrame(d.dirs[Backslashed(path)], 0)])
      else Say(d, Idle, [Fail(2)])
  {
    HearsDir(d, path);
  }

  lemma RefusalRead(v: View, g: Frame, e: L.BatchEnv)
    requires v.connected && v.device.Conforming? && v.device.mode == Idle && v.device.out == [g]
    requires g.cmd == TF_MSG_FAIL
    ensures var (v1, ret, ds) := L.DirentsStep(v, e); Unharmed(v1.device) && ret in {TF_ERR_UNEXPECTED, TF_ERR_IO}
  {
    if e.read == Heard {
      FrameRead(v, g, e);
    } else {
      ListenConforming(v.device, e.read, v.nocrc);
    }
  }

  lemma DirSent(v: View, path: CString, went: SendEnv)
    requires Fresh(v) && PathFits(path)
    ensures var (v1, ret) := SendStep(v, RequestFrame(Dir(path)), went);
      && Unharmed(v1.device) && v1.connected && (ret == 0 <==> went == SendEnv.Delivered) && ret in {TF_ERR_NONE, TF_ERR_IO}
      && (ret == 0 ==>
           if Backslashed(path) in v.device.dirs then Said(v1, v.device.dirs[Backslashed(path)], 0)
           else v1.device.Conforming? && v1.device.mode == Idle && v1.device.out == [Fail(2)])
  {
    DirHeard(v.device, path);
  }

  /** tf_cmd_dir_first from a fresh state. */
  lemma FirstBatch(v: View, path: CString, e: L.BatchEnv)
    requires Fresh(v) && PathFits(path)
    ensures var (v1, ret, ds) := L.DirFirstStep(v, path, e);
      if Backslashed(path) in v.device.dirs
      then
        && Heeded(v.device.dirs[Backslashed(path)], 0, v1, ret, ds) && (Smooth(e) ==> ret != TF_ERR_IO)
        && v1.pending == v.pending && SameFiles(v.device, v1.device)
        && (ret == TF_ERR_DONE && Smooth(e) ==> v1.device == Say(v.device, Idle, []))
      else Unharmed(v1.device) && ret in {TF_ERR_UNEXPECTED, TF_ERR_IO}
  {
    AskSame(v, RequestFrame(Dir(path)), e);
    DirSent(v, path, e.send);
    var (v1, ret) := SendStep(v, RequestFrame(Dir(path)), e.send);
    if ret == 0 {
      if Backslashed(path) in v.device.dirs {
        ReplyRead(v1, v.device.dirs[Backslashed(path)], 0, e);
      } else {
        RefusalRead(v1, Fail(2), e);
      }
    }
  }

  // ---- Whole searches

  lemma HitUnharmed(v: View, send: SendEnv, read: ReadEnv)
    requires v.connected && Unharmed(v.device)
    ensures Unharmed(CmdStep(v, CANCEL, send, read).0.device)
  {
    var v1 := SendStep(v, CANCEL, send).0;
    assert CmdStep(v, CANCEL, send, read).0.device in {v1.device, ReceiveStep(v1, read).0.device};
    ReadUnharmed(v1, read);
  }

  lemma ReadUnharmed(v: View, read: ReadEnv)
    requires Unharmed(v.device)
    ensures Unharmed(ReceiveStep(v, read).0.device)
  {
  }

  /** The batches a search has seen are the directory's, each once and in order, from the k-th on. */
  predicate Sees(batches: seq<seq<byte>>, k: nat, r: L.Looked) {
    && k <= |batches| && r.batches <= Contents(batches)[k..]
    && (r.last == TF_ERR_DONE ==> r.batches == Contents(batches)[k..])
    && r.last in {TF_ERR_NONE, TF_ERR_DONE, TF_ERR_IO}
    && Unharmed(r.view.device)
  }

  lemma SeesMore(batches: seq<seq<byte>>, k: nat, batch: seq<Dirent>, later: L.Looked)
    requires k < |batches| && batch == Entries(batches[k]) && Sees(batches, k + 1, later)
    ensures Sees(batches, k, L.Counted([batch], later))
  {
    assert Contents(batches)[k..] == [batch] + Contents(batches)[k + 1..];
  }

  lemma SeesOne(batches: seq<seq<byte>>, k: nat, batch: seq<Dirent>, r: L.Looked)
    requires k < |batches| && batch == Entries(batches[k]) && r.batches == [batch] && Unharmed(r.view.device)
    requires r.last in {TF_ERR_NONE, TF_ERR_IO} || (r.last == TF_ERR_DONE && k + 1 == |batches|)
    ensures Sees(batches, k, r)
  {
    assert Contents(batches)[k..] == [batch] + Contents(batches)[k + 1..];
  }

  lemma {:induction false} SearchSees(v: View, batch: seq<Dirent>, name: CString, e: L.SearchEnv, batches: seq<seq<byte>>, k: nat)
    requires k < |batches| && Reading(v, batches, k + 1) && batch == Entries(batches[k])
    ensures Sees(batches, k, L.Search(v, batch, name, e))
    decreases |e.batches|
  {
    var r := L.Search(v, batch, name, e);
    if L.Find(batch, name).Here? {
      HitUnharmed(v, e.cancel, e.cancelled);
      SeesOne(batches, k, batch, r);
    } else if e.batches == [] {
      SeesOne(batches, k, batch, r);
    } else {
      NextBatch(v, batches, k + 1, e.batches[0]);
      var v1, ret, next := L.DirNextStep(v, e.batches[0]).0, L.DirNextStep(v, e.batches[0]).1, L.DirNextStep(v, e.batches[0]).2;
      if ret == 0 {
        SearchSees(v1, next, name, L.Later(e), batches, k + 1);
        SeesMore(batches, k, batch, L.Search(v1, next, name, L.Later(e)));
      } else {
        SeesOne(batches, k, batch, r);
      }
    }
  }

  lemma PrefixDecides(seen: seq<seq<Dirent>>, all: seq<seq<Dirent>>, name: CString)
    requires seen <= all && L.Find(L.All(seen), name).Here?
    ensures L.Find(L.All(all), name) == L.Find(L.All(seen), name)
  {
    assert all == seen + all[|seen|..];
    L.AllAppend(seen, all[|seen|..]);
    L.FindAppend(L.All(seen), L.All(all[|seen|..]), name);
  }

  lemma LookInSees(v: View, dir: CString, name: CString, first: L.BatchEnv, e: L.SearchEnv, batches: seq<seq<byte>>)
    requires Fresh(v) && PathFits(dir) && Backslashed(dir) in v.device.dirs && batches == v.device.dirs[Backslashed(dir)]
    ensures var r := L.LookIn(v, dir, name, first, e); Sees(batches, 0, r) && r.found == L.Find(L.All(r.batches), name)
  {
    FirstBatch(v, dir, first);
    var v1, ret, batch := L.DirFirstStep(v, dir, first).0, L.DirFirstStep(v, dir, first).1, L.DirFirstStep(v, dir, first).2;
    assert Contents(batches)[0..] == Contents(batches);
    if ret == 0 {
      SearchSees(v1, batch, name, e, batches, 0);
      L.SearchFinds(v1, batch, name, e);
    }
  }

  /** What was seen of a directory decides for all of it, if the name was found or all was seen. */
  lemma SeenDecides(batches: seq<seq<byte>>, r: L.Looked, name: CString)
    requires Sees(batches, 0, r) && r.found == L.Find(L.All(r.batches), name)
    ensures r.found.Here? || r.last == TF_ERR_DONE ==> r.found == L.Find(L.All(Contents(batches)), name)
  {
    assert Contents(batches)[0..] == Contents(batches);
    if r.found.Here? {
      PrefixDecides(r.batches, Contents(batches), name);
    }
  }

  /** tf_stat from a fresh state, whatever is lost: the device is never harmed and never has two
      replies waiting; the batches received are the directory's, each once and in order, and all of
      them at DONE; so when an entry is found, or the listing was read to its end, the answer is
      right for the directory as a whole. */
  lemma StatDirectory(v: View, dir: CString, name: CString, first: L.BatchEnv, e: L.SearchEnv)
    requires Fresh(v) && Named(dir, name)
    requires Backslashed(L.Searched(dir)) in v.device.dirs
    ensures var r, batches := L.StatStep(v, L.PathOf(dir, name), first, e), v.device.dirs[Backslashed(L.Searched(dir))];
      && Sees(batches, 0, r)
      && (r.found.Here? || r.last == TF_ERR_DONE ==> r.found == L.Find(L.All(Contents(batches)), name))
  {
    var batches := v.device.dirs[Backslashed(L.Searched(dir))];
    L.StatLooksIn(v, dir, name, first, e);
    LookInSees(v, L.Searched(dir), name, first, e, batches);
    SeenDecides(batches, L.LookIn(v, L.Searched(dir), name, first, e), name);
  }

  /** A name in a directory, but for the root itself, whose path fits a request. */
  predicate Named(dir: CString, name: CString) {
    SLASH !in name && PathFits(L.PathOf(dir, name)) && L.PathOf(dir, name) != [SLASH]
  }

  /** A directory the device does not have is never found, and that does no harm. */
  lemma StatNoDirectory(v: View, dir: CString, name: CString, first: L.BatchEnv, e: L.SearchEnv)
    requires Fresh(v) && Named(dir, name)
    requires Backslashed(L.Searched(dir)) !in v.device.dirs
    ensures var r := L.StatStep(v, L.PathOf(dir, name), first, e);
      r.found == L.Nowhere && r.batches == [] && r.last in {TF_ERR_UNEXPECTED, TF_ERR_IO} && Unharmed(r.view.device)
  {
    L.StatLooksIn(v, dir, name, first, e);
    FirstBatch(v, L.Searched(dir), first);
  }

  // ---- Progress

  predicate SmoothAll(e: L.SearchEnv) {
    (forall b :: b in e.batches ==> Smooth(b)) && e.cancel == SendEnv.Delivered && e.cancelled == Heard
  }

  /** A search that is over, and has left the device as it was before the listing. */
  predicate Answered(d: Peer, pending: bool, r: L.Looked)
    requires d.Conforming?
  {
    && (r.found.Here? || r.last == TF_ERR_DONE)
    && r.view.connected && r.view.pending == pending && r.view.device == Say(d, Idle, [])
  }

  lemma AnsweredAlike(d: Peer, d1: Peer, pending: bool, r: L.Looked)
    requires d.Conforming? && SameFiles(d, d1) && Answered(d1, pending, r)
    ensures Answered(d, pending, r)
  {
  }

  lemma SearchHit(v: View, batch: seq<Dirent>, name: CString, e: L.SearchEnv)
    requires v.connected && v.device.Conforming? && SmoothAll(e) && L.Find(batch, name).Here?
    ensures Answered(v.device, v.pending, L.Search(v, batch, name, e))
  {
    CancelHeard(v);
  }

  lemma SearchOn(v: View, batch: seq<Dirent>, name: CString, e: L.SearchEnv)
    requires L.Find(batch, name) == L.Nowhere && e.batches != []
    ensures var (v1, ret, next) := L.DirNextStep(v, e.batches[0]);
      L.Search(v, batch, name, e) ==
        if ret != 0 then L.Looked(v1, L.Nowhere, [batch], ret) else L.Counted([batch], L.Search(v1, next, name, L.Later(e)))
  {
  }

  lemma {:induction false} SearchEnds(v: View, batch: seq<Dirent>, name: CString, e: L.SearchEnv, batches: seq<seq<byte>>, k: nat)
    requires k < |batches| && Reading(v, batches, k + 1) && batch == Entries(batches[k])
    requires |e.batches| >= |batches| - k && SmoothAll(e)
    ensures Answered(v.device, v.pending, L.Search(v, batch, name, e))
    decreases |e.batches|
  {
    if L.Find(batch, name).Here? {
      SearchHit(v, batch, name, e);
    } else {
      SearchOn(v, batch, name, e);
      assert Smooth(e.batches[0]) && forall b :: b in e.batches[1..] ==> b in e.batches;
      NextBatch(v, batches, k + 1, e.batches[0]);
      var v1, ret, next := L.DirNextStep(v, e.batches[0]).0, L.DirNextStep(v, e.batches[0]).1, L.DirNextStep(v, e.batches[0]).2;
      if ret == 0 {
        SearchEnds(v1, next, name, L.Later(e), batches, k + 1);
        AnsweredAlike(v.device, v1.device, v.pending, L.Search(v1, next, name, L.Later(e)));
      }
    }
  }

  lemma LookInEnds(v: View, dir: CString, name: CString, first: L.BatchEnv, e: L.SearchEnv, batches: seq<seq<byte>>)
    requires Fresh(v) && PathFits(dir) && Backslashed(dir) in v.device.dirs && batches == v.device.dirs[Backslashed(dir)]
    requires Smooth(first) && |e.batches| >= |batches| && SmoothAll(e)
    ensures Answered(v.device, v.pending, L.LookIn(v, dir, name, first, e))
  {
    FirstBatch(v, dir, first);
    var v1, ret, batch := L.DirFirstStep(v, dir, first).0, L.DirFirstStep(v, dir, first).1, L.DirFirstStep(v, dir, first).2;
    if ret == 0 {
      SearchEnds(v1, batch, name, e, batches, 0);
      AnsweredAlike(v.device, v1.device, v.pending, L.Search(v1, batch, name, e));
    }
  }

  /** When nothing is lost, one call per batch decides for the whole directory, and the device is
      then as it was, ready for the next request. */
  lemma StatListing(v: View, dir: CString, name: CString, first: L.BatchEnv, e: L.SearchEnv)
    requires Fresh(v) && Named(dir, name)
    requires Backslashed(L.Searched(dir)) in v.device.dirs
    requires Smooth(first) && |e.batches| >= |v.device.dirs[Backslashed(L.Searched(dir))]| && SmoothAll(e)
    ensures var r := L.StatStep(v, L.PathOf(dir, name), first, e);
      && (r.found == L.Nowhere ==> r.last == TF_ERR_DONE)
      && r.found == L.Find(L.All(Contents(v.device.dirs[Backslashed(L.Searched(dir))])), name)
      && Fresh(r.view) && r.view.device == v.device
  {
    L.StatLooksIn(v, dir, name, first, e);
    assert Say(v.device, Idle, []) == v.device;
    LookInEnds(v, L.Searched(dir), name, first, e, v.device.dirs[Backslashed(L.Searched(dir))]);
    StatDirectory(v, dir, name, first, e);
  }
}
