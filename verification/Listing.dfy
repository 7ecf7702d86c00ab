/** Directory listings of tf_io.c and the search of tf_util.c, as functions of how each transfer went. */
module Listing {
  import opened Frames
  import opened Packets
  import opened Requests
  import opened Dirents
  import opened Devices
  import opened Protocol
  import opened CancelRuns
  import Mjd

  const MAX_DIR_ENTRIES: nat := 595

  /** No reply overruns the caller's array. */
  lemma EntriesFit(f: Frame)
    requires Sendable(f)
    ensures |Entries(f.data)| <= 574 < MAX_DIR_ENTRIES
  {
  }

  // ---- tf_cmd_dir_first and tf_cmd_dir_next

  datatype BatchEnv = BatchEnv(send: SendEnv, read: ReadEnv, end: SendEnv)

  function DirentsStep(v: View, e: BatchEnv): (r: (View, int, seq<Dirent>)) {
    var (v1, ret, g) := ReceiveStep(v, e.read);
    if ret != 0 then (v1, ret, [])
    else if g.cmd == TF_MSG_HDD_DIRENT then (v1, 0, Entries(g.data))
    else if g.cmd == TF_MSG_HDD_DIREND then (SendStep(v1, SUCCESS, e.end).0, TF_ERR_DONE, [])
    else (v1, TF_ERR_UNEXPECTED, [])
  }

  function DirFirstStep(v: View, path: CString, e: BatchEnv): (r: (View, int, seq<Dirent>))
    requires PathFits(path)
  {
    AskStep(v, RequestFrame(Dir(path)), e)
  }

  function DirNextStep(v: View, e: BatchEnv): (r: (View, int, seq<Dirent>)) {
    AskStep(v, SUCCESS, e)
  }

  /** A message that is answered by a batch or the end. */
  function AskStep(v: View, f: Frame, e: BatchEnv): (r: (View, int, seq<Dirent>)) {
    var (v1, ret) := SendStep(v, f, e.send);
    if ret != 0 then (v1, ret, []) else DirentsStep(v1, e)
  }

  // ---- The first entry with a name

  datatype Found = Nowhere | Here(dirent: Dirent)

  function Find(ds: seq<Dirent>, name: CString): Found {
    if ds == [] then Nowhere else if ds[0].name == name then Here(ds[0]) else Find(ds[1..], name)
  }

  /** Find is what it says. */
  lemma {:induction false} FindIsFirst(ds: seq<Dirent>, name: CString)
    ensures Find(ds, name) == Nowhere <==> forall d :: d in ds ==> d.name != name
    ensures Find(ds, name).Here? ==>
      exists i :: 0 <= i < |ds| && ds[i] == Find(ds, name).dirent && ds[i].name == name && forall j :: 0 <= j < i ==> ds[j].name != name
    decreases |ds|
  {
    if ds != [] && ds[0].name != name {
      FindIsFirst(ds[1..], name);
      if Find(ds[1..], name).Here? {
        var i :| 0 <= i < |ds[1..]| && ds[1..][i] == Find(ds[1..], name).dirent && ds[1..][i].name == name && forall j :: 0 <= j < i ==> ds[1..][j].name != name;
        assert ds[i + 1] == ds[1..][i];
        assert forall j :: 0 < j < i + 1 ==> ds[j] == ds[1..][j - 1];
      }
    }
  }

  lemma {:induction false} FindAppend(x: seq<Dirent>, y: seq<Dirent>, name: CString)
    ensures Find(x + y, name) == if Find(x, name).Here? then Find(x, name) else Find(y, name)
    decreases |x|
  {
    if x == [] {
      assert x + y == y;
    } else {
      assert (x + y)[1..] == x[1..] + y;
      FindAppend(x[1..], y, name);
    }
  }

  /** Batches one behind the other. */
  function All(batches: seq<seq<Dirent>>): seq<Dirent> {
    if batches == [] then [] else batches[0] + All(batches[1..])
  }

  lemma {:induction false} AllAppend(x: seq<seq<Dirent>>, y: seq<seq<Dirent>>)
    ensures All(x + y) == All(x) + All(y)
    decreases |x|
  {
    if x == [] {
      assert x + y == y;
    } else {
      assert (x + y)[1..] == x[1..] + y;
      AllAppend(x[1..], y);
    }
  }

  // ---- tf_stat

  datatype SearchEnv = SearchEnv(batches: seq<BatchEnv>, cancel: SendEnv, cancelled: ReadEnv)

  /** What a search came to: the handle, what was found, the batches received, and the result of the
      last listing call. While that is 0 and nothing is found the search is not over. */
  datatype Looked = Looked(view: View, found: Found, batches: seq<seq<Dirent>>, last: int)

  predicate Over(r: Looked) {
    r.found.Here? || r.last != 0
  }

  /** How many of the batches were gone through to their end. */
  function Exhausted(r: Looked): int {
    if r.last == 0 then |r.batches| - 1 else |r.batches|
  }

  /** The search loop with a batch in hand, for as many further calls as there are in e. */
  function Search(v: View, batch: seq<Dirent>, name: CString, e: SearchEnv): (r: Looked)
    decreases |e.batches|
  {
    if Find(batch, name).Here? then Looked(CmdStep(v, CANCEL, e.cancel, e.cancelled).0, Find(batch, name), [batch], 0)
    else if e.batches == [] then Looked(v, Nowhere, [batch], 0)
    else
      var (v1, ret, next) := DirNextStep(v, e.batches[0]);
      if ret != 0 then Looked(v1, Nowhere, [batch], ret)
      else Counted([batch], Search(v1, next, name, Later(e)))
  }

  function Later(e: SearchEnv): SearchEnv
    requires e.batches != []
  {
    e.(batches := e.batches[1..])
  }

  function Counted(seen: seq<seq<Dirent>>, r: Looked): Looked {
    r.(batches := seen + r.batches)
  }

  /** The directory and the last component of a path with a slash in it. */
  function Parent(path: CString): CString
    requires SLASH in path
  {
    var k := LastSlash(path);
    if k == 0 then [SLASH] else path[..k]
  }

  function LastName(path: CString): CString
    requires SLASH in path
  {
    path[LastSlash(path) + 1..]
  }

  /** The path of a name in a directory. The root is the directory without a name. */
  function PathOf(dir: CString, name: CString): CString {
    dir + [SLASH] + name
  }

  /** The directory tf_stat searches for a name in a directory, and the name it searches for. */
  lemma PathDivides(dir: CString, name: CString)
    requires SLASH !in name
    ensures Parent(PathOf(dir, name)) == if dir == [] then [SLASH] else dir
    ensures LastName(PathOf(dir, name)) == name
  {
    var path := PathOf(dir, name);
    assert path[|dir|] == SLASH && path[|dir| + 1..] == name;
    LastSlashIs(path, |dir|);
  }

  /** Every path with a slash is the path of a name in a directory. */
  lemma PathsAreJoined(path: CString) returns (dir: CString, name: CString)
    requires SLASH in path
    ensures path == PathOf(dir, name) && SLASH !in name
  {
    dir, name := path[..LastSlash(path)], LastName(path);
  }

  /** The directory without its name is listed as the root. */
  function Searched(dir: CString): CString {
    if dir == [] then [SLASH] else dir
  }

  const ROOT := Dirent(Mjd.NoDate, true, 0, [SLASH], 0)

  /** The search of a directory for a name. */
  function LookIn(v: View, parent: CString, name: CString, first: BatchEnv, e: SearchEnv): (r: Looked)
    requires PathFits(parent)
  {
    var (v1, ret, batch) := DirFirstStep(v, parent, first);
    if ret != 0 then Looked(v1, Nowhere, [], ret) else Search(v1, batch, name, e)
  }

  /** A path that needs a search. */
  predicate BelowRoot(path: CString) {
    SLASH in path && path != [SLASH]
  }

  /** tf_stat. */
  function StatStep(v: View, path: CString, first: BatchEnv, e: SearchEnv): (r: Looked)
    requires PathFits(path)
  {
    if path == [SLASH] then Looked(v, Here(ROOT), [], 0)
    else if SLASH !in path then Looked(v, Nowhere, [], 0)
    else LookIn(v, Parent(path), LastName(path), first, e)
  }

  // ---- What is found

  /** Whatever is lost on the way, the search finds exactly the first entry with the name among
      those received so far. */
  lemma {:induction false} SearchFinds(v: View, batch: seq<Dirent>, name: CString, e: SearchEnv)
    ensures var r := Search(v, batch, name, e); r.found == Find(All(r.batches), name)
    decreases |e.batches|
  {
    var r := Search(v, batch, name, e);
    AllOne(batch);
    if Find(batch, name) == Nowhere && e.batches != [] {
      var (v1, ret, next) := DirNextStep(v, e.batches[0]);
      if ret == 0 {
        var later := Search(v1, next, name, Later(e));
        SearchFinds(v1, next, name, Later(e));
        AllAppend([batch], later.batches);
        FindAppend(batch, All(later.batches), name);
      }
    }
  }

  lemma AllOne(batch: seq<Dirent>)
    ensures All([batch]) == batch
  {
    assert [batch][1..] == [] && batch + [] == batch;
  }

  /** A listing that is carried to its end, whatever is in it. */
  function Listed(v: View, batch: seq<Dirent>, bs: seq<BatchEnv>): (r: Looked)
    decreases |bs|
  {
    if bs == [] then Looked(v, Nowhere, [batch], 0)
    else
      var (v1, ret, next) := DirNextStep(v, bs[0]);
      if ret != 0 then Looked(v1, Nowhere, [batch], ret) else Counted([batch], Listed(v1, next, bs[1..]))
  }

  /** The search stops early, but finds what a search of the whole listing would find: when the
      listing, carried on, ends with a result other than 0, the search is over, and it has found
      exactly the first entry with the name in all that the listing brings before that result. */
  lemma {:induction false} SearchIsListing(v: View, batch: seq<Dirent>, name: CString, e: SearchEnv)
    requires Listed(v, batch, e.batches).last != 0
    ensures var r := Search(v, batch, name, e);
      Over(r) && r.found == Find(All(Listed(v, batch, e.batches).batches), name)
    decreases |e.batches|
  {
    var (v1, ret, next) := DirNextStep(v, e.batches[0]);
    AllOne(batch);
    if ret == 0 {
      var later := Listed(v1, next, e.batches[1..]);
      AllAppend([batch], later.batches);
      FindAppend(batch, All(later.batches), name);
      SearchIsListing(v1, next, name, Later(e));
    }
  }

  /** When tf_stat is over it has found a name in a directory exactly when it is the name of an entry
      received before the first result other than 0, and what it returns is the first such entry; if
      it has found nothing there was such a result. */
  lemma StatFinds(v: View, dir: CString, name: CString, first: BatchEnv, e: SearchEnv)
    requires SLASH !in name && PathFits(PathOf(dir, name)) && PathOf(dir, name) != [SLASH]
    requires Over(StatStep(v, PathOf(dir, name), first, e))
    ensures var r := StatStep(v, PathOf(dir, name), first, e);
      && r.found == Find(All(r.batches), name)
      && (r.found == Nowhere ==> r.last != 0)
  {
    StatLooksIn(v, dir, name, first, e);
    var (v1, ret, batch) := DirFirstStep(v, Searched(dir), first);
    if ret == 0 {
      SearchFinds(v1, batch, name, e);
    }
  }

  lemma StatLooksIn(v: View, dir: CString, name: CString, first: BatchEnv, e: SearchEnv)
    requires SLASH !in name && PathFits(PathOf(dir, name)) && PathOf(dir, name) != [SLASH]
    ensures PathFits(Searched(dir))
    ensures StatStep(v, PathOf(dir, name), first, e) == LookIn(v, Searched(dir), name, first, e)
  {
    PathDivides(dir, name);
    assert PathOf(dir, name)[|dir|] == SLASH;
  }

  function ListedIn(v: View, parent: CString, first: BatchEnv, bs: seq<BatchEnv>): (r: Looked)
    requires PathFits(parent)
  {
    var (v1, ret, batch) := DirFirstStep(v, parent, first);
    if ret != 0 then Looked(v1, Nowhere, [], ret) else Listed(v1, batch, bs)
  }

  /** tf_stat decides as a search of the whole listing of the directory would. */
  lemma StatIsListing(v: View, dir: CString, name: CString, first: BatchEnv, e: SearchEnv)
    requires SLASH !in name && PathFits(PathOf(dir, name)) && PathOf(dir, name) != [SLASH]
    requires ListedIn(v, Searched(dir), first, e.batches).last != 0
    ensures var r := StatStep(v, PathOf(dir, name), first, e);
      Over(r) && r.found == Find(All(ListedIn(v, Searched(dir), first, e.batches).batches), name)
  {
    StatLooksIn(v, dir, name, first, e);
    var (v1, ret, batch) := DirFirstStep(v, Searched(dir), first);
    if ret == 0 {
      SearchIsListing(v1, batch, name, e);
    }
  }

  // ---- What is sent

  predicate IsSuccess(e: Event) {
    e.Sent? && e.frame == SUCCESS
  }

  /** How many SUCCESS frames have been sent, whether they arrived or not. */
  function Successes(log: seq<Event>): nat {
    if log == [] then 0 else Successes(log[..|log| - 1]) + if IsSuccess(log[|log| - 1]) then 1 else 0
  }

  lemma SuccessesAppend(log: seq<Event>, e: Event)
    ensures Successes(log + [e]) == Successes(log) + if IsSuccess(e) then 1 else 0
  {
    assert (log + [e])[..|log|] == log;
  }

  lemma SendCounts(v: View, f: Frame, went: SendEnv)
    ensures var v1 := SendStep(v, f, went).0;
      && v1.connected == v.connected
      && Successes(v1.log) == Successes(v.log) + (if v.connected && f == SUCCESS then 1 else 0)
      && Cancels(v1.log) == Cancels(v.log) + (if v.connected && f == CANCEL then 1 else 0)
  {
    SuccessesAppend(v.log, Sent(f, went));
    SendCancels(v, f, went);
  }

  lemma ReceiveCounts(v: View, went: ReadEnv)
    ensures var v1 := ReceiveStep(v, went).0;
      v1.connected == v.connected && Successes(v1.log) == Successes(v.log) && Cancels(v1.log) == Cancels(v.log)
  {
    SuccessesAppend(v.log, Read(v.timeout, went));
    ReceiveCancels(v, went);
  }

  lemma DirentsCounts(v: View, e: BatchEnv)
    requires v.connected
    ensures var (v1, ret, ds) := DirentsStep(v, e);
      && v1.connected && Cancels(v1.log) == Cancels(v.log)
      && Successes(v1.log) == Successes(v.log) + if ret == TF_ERR_DONE then 1 else 0
  {
    var v1 := ReceiveStep(v, e.read).0;
    ReceiveCounts(v, e.read);
    SendCounts(v1, SUCCESS, e.end);
    DirentsView(v, e, SUCCESS);
  }

  lemma DirentsView(v: View, e: BatchEnv, f: Frame)
    requires f == SUCCESS
    ensures var v1 := ReceiveStep(v, e.read).0;
      DirentsStep(v, e).0 == if DirentsStep(v, e).1 == TF_ERR_DONE then SendStep(v1, f, e.end).0 else v1
  {
  }

  lemma AskView(v: View, f: Frame, e: BatchEnv)
    ensures var (v1, ret) := SendStep(v, f, e.send);
      AskStep(v, f, e) == if ret == 0 then DirentsStep(v1, e) else (v1, ret, [])
  {
  }

  lemma AskCounts(v: View, f: Frame, e: BatchEnv)
    requires v.connected && f != CANCEL
    ensures var (v1, ret, ds) := AskStep(v, f, e);
      && v1.connected && Cancels(v1.log) == Cancels(v.log)
      && Successes(v1.log) == Successes(v.log) + (if f == SUCCESS then 1 else 0) + (if ret == TF_ERR_DONE then 1 else 0)
  {
    AskView(v, f, e);
    SendCounts(v, f, e.send);
    DirentsCounts(SendStep(v, f, e.send).0, e);
  }

  lemma CancelCounts(v: View, send: SendEnv, read: ReadEnv)
    requires v.connected
    ensures var v1 := CmdStep(v, CANCEL, send, read).0;
      Successes(v1.log) == Successes(v.log) && Cancels(v1.log) == Cancels(v.log) + 1
  {
    var v1 := SendStep(v, CANCEL, send).0;
    assert CmdStep(v, CANCEL, send, read).0.log in {v1.log, ReceiveStep(v1, read).0.log};
    SendCounts(v, CANCEL, send);
    ReceiveCounts(v1, read);
    CmdCancels(v, send, read);
  }

  /** Whatever is lost: each batch that was gone through without a hit is acknowledged once, so is
      the end, and nothing else is; a hit is cancelled once. */
  lemma {:induction false} SearchSends(v: View, batch: seq<Dirent>, name: CString, e: SearchEnv)
    requires v.connected
    ensures var r := Search(v, batch, name, e);
      && Successes(r.view.log) == Successes(v.log) + Exhausted(r) + (if r.last == TF_ERR_DONE then 1 else 0)
      && Cancels(r.view.log) == Cancels(v.log) + (if r.found.Here? then 1 else 0)
      && r.batches != []
    decreases |e.batches|
  {
    if Find(batch, name).Here? {
      CancelCounts(v, e.cancel, e.cancelled);
    } else if e.batches != [] {
      AskCounts(v, SUCCESS, e.batches[0]);
      var (v1, ret, next) := DirNextStep(v, e.batches[0]);
      if ret == 0 {
        SearchSends(v1, next, name, Later(e));
      }
    }
  }

  /** The same for all of tf_stat, on a path below the root. */
  lemma StatSends(v: View, path: CString, first: BatchEnv, e: SearchEnv)
    requires PathFits(path) && BelowRoot(path) && v.connected
    ensures var r := StatStep(v, path, first, e);
      && Successes(r.view.log) == Successes(v.log) + Exhausted(r) + (if r.last == TF_ERR_DONE then 1 else 0)
      && Cancels(r.view.log) == Cancels(v.log) + (if r.found.Here? then 1 else 0)
  {
    var f := RequestFrame(Dir(Parent(path)));
    AskCounts(v, f, first);
    var (v1, ret, batch) := DirFirstStep(v, Parent(path), first);
    if ret == 0 {
      SearchSends(v1, batch, LastName(path), e);
    }
  }

  /** On any other path nothing at all is sent. The root is a directory of size 0 without a date, and
      nothing else is found without a slash. */
  lemma StatSilent(v: View, path: CString, first: BatchEnv, e: SearchEnv)
    requires PathFits(path) && !BelowRoot(path)
    ensures var r := StatStep(v, path, first, e);
      r.view == v && r.found == if path == [0x2F] then Here(Dirent(Mjd.NoDate, true, 0, [0x2F], 0)) else Nowhere
  {
  }
}
