/** Directory listings and tf_stat as the program runs them, proved to do what the functions of
    Listing say, whatever the device and the bus do. */
module Stat {
  import opened Bytes
  import opened Frames
  import opened Packets
  import opened Requests
  import opened Dirents
  import opened Devices
  import opened Protocol
  import opened Handles
  import opened Listing

  // ---- Requests that carry paths

  method BuildDir(path: CString) returns (req: Packet)
    requires PathFits(path) && Sendable(RequestFrame(Dir(path)))
    ensures fresh(req) && fresh(req.buf) && req.Sealed(RequestFrame(Dir(path)))
  {
    req := new Packet();
    req.Init(TF_MSG_HDD_DIR);
    req.PutFilename(path, false);
    assert [] + NameField(8, path, false) == NameField(8, path, false);
    req.Done();
  }

  /** A packet with two names, each with its length in front. */
  method BuildNames(cmd: u32, src: CString, dest: CString, ghost one: seq<byte>, ghost two: seq<byte>) returns (req: Packet)
    requires PathFits(src) && PathFits(dest)
    requires one == NameField(8, src, true) && two == NameField(8 + |one|, dest, true)
    requires 8 + |one| + |two| <= MAXIMUM_PACKET_SIZE
    ensures fresh(req) && fresh(req.buf) && req.Sealed(Frame(cmd, one + two))
  {
    req := new Packet();
    req.Init(cmd);
    req.PutFilename(src, true);
    assert [] + one == one;
    req.PutFilename(dest, true);
    req.Done();
  }

  method BuildRename(src: CString, dest: CString) returns (req: Packet)
    requires PathFits(src) && PathFits(dest) && Sendable(RequestFrame(Rename(src, dest)))
    ensures fresh(req) && fresh(req.buf) && req.Sealed(RequestFrame(Rename(src, dest)))
  {
    ghost var one := NameField(8, src, true);
    req := BuildNames(TF_MSG_HDD_RENAME, src, dest, one, NameField(8 + |one|, dest, true));
  }

  /** tf_cmd_rename. */
  method CmdRename(tf: Handle, src: CString, dest: CString) returns (ret: int, ghost send: SendEnv, ghost read: ReadEnv)
    requires PathFits(src) && PathFits(dest) && Sendable(RequestFrame(Rename(src, dest)))
    requires tf.Valid()
    modifies tf`error, tf`peer, tf`log, tf.dev
    ensures tf.Valid() && (tf.State(), ret) == CmdStep(old(tf.State()), RequestFrame(Rename(src, dest)), send, read)
  {
    var req := BuildRename(src, dest);
    ret, send, read := tf.Cmd(req, RequestFrame(Rename(src, dest)));
  }

  // ---- One batch

  /** The array a listing call fills. */
  class DirEntries {
    const entry: array<Dirent>
    var count: nat

    constructor ()
      ensures fresh(entry) && entry.Length == MAX_DIR_ENTRIES
    {
      entry := new Dirent[MAX_DIR_ENTRIES](_ => ROOT);
      count := 0;
    }

    ghost predicate Holds(ds: seq<Dirent>)
      reads this, entry
    {
      count == |ds| <= entry.Length && entry[..count] == ds
    }
  }

  /** get_dirents. */
  method GetDirents(tf: Handle, result: DirEntries) returns (ret: int, ghost ds: seq<Dirent>, ghost e: BatchEnv)
    requires result.entry.Length == MAX_DIR_ENTRIES
    requires tf.Valid()
    modifies tf`error, tf`peer, tf`log, tf.dev, result, result.entry
    ensures tf.Valid() && (tf.State(), ret, ds) == DirentsStep(old(tf.State()), e)
    ensures ret == 0 ==> result.Holds(ds)
  {
    ds, e := [], BatchEnv(Lost, Silent, Lost);
    var reply := new Reply();
    ghost var read, g, end;
    ret, read, g := tf.GetResponse(reply);
    e := e.(read := read);
    if ret == 0 {
      if reply.cmd == TF_MSG_HDD_DIRENT {
        UnpackAll(reply, result, g);
        ds := Entries(g.data);
      } else if reply.cmd == TF_MSG_HDD_DIREND {
        var sent;
        sent, end := tf.SendSuccess();
        e := e.(end := end);
        ret := TF_ERR_DONE;
      } else {
        ret := TF_ERR_UNEXPECTED;
      }
    }
  }

  /** A batch frame of a buffer has its descriptions one behind the other. */
  lemma EntryInBuffer(b: seq<byte>, f: Frame, i: nat)
    requires f.cmd == TF_MSG_HDD_DIRENT && Meaningful(Received(f)) && i < EntryCount(f.data)
    requires Length(f) <= |b| && b[HEAD_SIZE..Length(f)] == f.data
    ensures var e := b[HEAD_SIZE + i * TYPEFILE_SIZE..HEAD_SIZE + i * TYPEFILE_SIZE + TYPEFILE_SIZE];
      Describes(e) && Unpack(e) == Entries(f.data)[i]
  {
    SliceOfSlice(b, HEAD_SIZE, Length(f), i * TYPEFILE_SIZE, i * TYPEFILE_SIZE + TYPEFILE_SIZE);
    assert Describes(Entry(f.data, i));
    EntriesFromAt(f.data, 0, i);
  }

  /** The reply is a batch of descriptions. */
  ghost predicate Batchful(reply: Reply, g: Frame)
    reads reply, reply.buf
  {
    reply.Holds(g) && g.cmd == TF_MSG_HDD_DIRENT && Meaningful(Received(g))
  }

  /** The i-th description in a reply. */
  method EntryOf(reply: Reply, i: nat, ghost g: Frame) returns (d: Dirent)
    requires Batchful(reply, g) && i < EntryCount(g.data)
    ensures d == Entries(g.data)[i]
  {
    var at := HEAD_SIZE + i * TYPEFILE_SIZE;
    assert reply.buf[..][HEAD_SIZE..Length(g)] == reply.buf[HEAD_SIZE..Length(g)];
    assert reply.buf[at..at + TYPEFILE_SIZE] == reply.buf[..][at..at + TYPEFILE_SIZE];
    EntryInBuffer(reply.buf[..], g, i);
    d := UnpackDirent(reply.buf, at);
  }

  /** Unpacks every description of a reply into the caller's array. */
  method UnpackAll(reply: Reply, result: DirEntries, ghost g: Frame)
    requires Batchful(reply, g)
    requires result.entry.Length == MAX_DIR_ENTRIES
    requires result.entry as object != reply.buf
    modifies result, result.entry
    ensures result.Holds(Entries(g.data))
  {
    EntriesFit(g);
    var count := (reply.length - HEAD_SIZE) / TYPEFILE_SIZE;
    result.count := count;
    ghost var ds := Entries(g.data);
    var i := 0;
    while i < count
      invariant 0 <= i <= count == result.count == |ds|
      invariant Batchful(reply, g)
      invariant forall k :: 0 <= k < i ==> result.entry[k] == ds[k]
    {
      var d := EntryOf(reply, i, g);
      result.entry[i] := d;
      i := i + 1;
    }
  }

  method SendDir(tf: Handle, path: CString) returns (ret: int, ghost send: SendEnv)
    requires PathFits(path) && Sendable(RequestFrame(Dir(path)))
    requires tf.Valid()
    modifies tf`error, tf`peer, tf`log, tf.dev
    ensures tf.Valid() && (tf.State(), ret) == SendStep(old(tf.State()), RequestFrame(Dir(path)), send)
  {
    var req := BuildDir(path);
    ret, send := tf.SendPacket(req, RequestFrame(Dir(path)));
  }

  /** tf_cmd_dir_first. */
  method CmdDirFirst(tf: Handle, path: CString, result: DirEntries) returns (ret: int, ghost ds: seq<Dirent>, ghost e: BatchEnv)
    requires PathFits(path) && Sendable(RequestFrame(Dir(path))) && result.entry.Length == MAX_DIR_ENTRIES
    requires tf.Valid()
    modifies tf`error, tf`peer, tf`log, tf.dev, result, result.entry
    ensures tf.Valid() && (tf.State(), ret, ds) == DirFirstStep(old(tf.State()), path, e)
    ensures ret == 0 ==> result.Holds(ds)
  {
    ds, e := [], BatchEnv(Lost, Silent, Lost);
    ghost var send;
    ret, send := SendDir(tf, path);
    if ret == 0 {
      ret, ds, e := GetDirents(tf, result);
    }
    e := e.(send := send);
  }

  /** tf_cmd_dir_next. */
  method CmdDirNext(tf: Handle, result: DirEntries) returns (ret: int, ghost ds: seq<Dirent>, ghost e: BatchEnv)
    requires result.entry.Length == MAX_DIR_ENTRIES
    requires tf.Valid()
    modifies tf`error, tf`peer, tf`log, tf.dev, result, result.entry
    ensures tf.Valid() && (tf.State(), ret, ds) == DirNextStep(old(tf.State()), e)
    ensures ret == 0 ==> result.Holds(ds)
  {
    ds, e := [], BatchEnv(Lost, Silent, Lost);
    ghost var send;
    ret, send := tf.SendSuccess();
    if ret == 0 {
      ret, ds, e := GetDirents(tf, result);
    }
    e := e.(send := send);
  }

  // ---- The search

  /** The inner loop of tf_stat. */
  method FindIn(entries: DirEntries, name: CString, ghost ds: seq<Dirent>) returns (found: Found)
    requires entries.Holds(ds)
    ensures found == Find(ds, name)
  {
    var i := 0;
    while i < entries.count
      invariant 0 <= i <= entries.count
      invariant Find(ds, name) == Find(ds[i..], name)
    {
      assert entries.entry[i] == entries.entry[..entries.count][i] == ds[i];
      if entries.entry[i].name == name {
        return Here(entries.entry[i]);
      }
      i := i + 1;
    }
    found := Nowhere;
  }

  /** After the batches of bs the search goes on with a batch from a later state. */
  ghost predicate Reaches(v: View, first: seq<Dirent>, name: CString, bs: seq<BatchEnv>, w: View, batch: seq<Dirent>, seen: seq<seq<Dirent>>) {
    forall e: SearchEnv :: Search(v, first, name, Prefixed(bs, e)) == Counted(seen, Search(w, batch, name, e))
  }

  ghost function Prefixed(bs: seq<BatchEnv>, e: SearchEnv): SearchEnv {
    e.(batches := bs + e.batches)
  }

  lemma ReachesStart(v: View, first: seq<Dirent>, name: CString)
    ensures Reaches(v, first, name, [], v, first, [])
  {
    forall e: SearchEnv ensures Search(v, first, name, Prefixed([], e)) == Counted([], Search(v, first, name, e)) {
      assert [] + e.batches == e.batches;
      assert Prefixed([], e) == e;
      CountedNone(Search(v, first, name, e));
    }
  }

  lemma CountedNone(r: Looked)
    ensures Counted([], r) == r
  {
    assert [] + r.batches == r.batches;
  }

  lemma SearchMisses(w: View, batch: seq<Dirent>, name: CString, b: BatchEnv, e: SearchEnv)
    requires Find(batch, name) == Nowhere && DirNextStep(w, b).1 == 0
    ensures Search(w, batch, name, Prefixed([b], e)) == Counted([batch], Search(DirNextStep(w, b).0, DirNextStep(w, b).2, name, e))
  {
    assert ([b] + e.batches)[1..] == e.batches;
  }

  lemma CountedTwice(seen: seq<seq<Dirent>>, batch: seq<Dirent>, r: Looked)
    ensures Counted(seen, Counted([batch], r)) == Counted(seen + [batch], r)
  {
    assert seen + ([batch] + r.batches) == seen + [batch] + r.batches;
  }

  lemma PrefixedTwice(bs: seq<BatchEnv>, b: BatchEnv, e: SearchEnv)
    ensures Prefixed(bs, Prefixed([b], e)) == Prefixed(bs + [b], e)
  {
    assert bs + ([b] + e.batches) == (bs + [b]) + e.batches;
  }

  /** One more batch without the name. */
  lemma ReachesNext(v: View, first: seq<Dirent>, name: CString, bs: seq<BatchEnv>, w: View, batch: seq<Dirent>, seen: seq<seq<Dirent>>, b: BatchEnv)
    requires Reaches(v, first, name, bs, w, batch, seen)
    requires Find(batch, name) == Nowhere && DirNextStep(w, b).1 == 0
    ensures Reaches(v, first, name, bs + [b], DirNextStep(w, b).0, DirNextStep(w, b).2, seen + [batch])
  {
    var w1, next := DirNextStep(w, b).0, DirNextStep(w, b).2;
    forall e: SearchEnv
      ensures Search(v, first, name, Prefixed(bs + [b], e)) == Counted(seen + [batch], Search(w1, next, name, e))
    {
      PrefixedTwice(bs, b, e);
      SearchMisses(w, batch, name, b, e);
      CountedTwice(seen, batch, Search(w1, next, name, e));
    }
  }

  lemma ReachesHit(v: View, first: seq<Dirent>, name: CString, bs: seq<BatchEnv>, w: View, batch: seq<Dirent>, seen: seq<seq<Dirent>>, cancel: SendEnv, cancelled: ReadEnv)
    requires Reaches(v, first, name, bs, w, batch, seen) && Find(batch, name).Here?
    ensures Search(v, first, name, Prefixed(bs, SearchEnv([], cancel, cancelled))) ==
            Looked(CmdStep(w, CANCEL, cancel, cancelled).0, Find(batch, name), seen + [batch], 0)
  {
  }

  lemma ReachesEnd(v: View, first: seq<Dirent>, name: CString, bs: seq<BatchEnv>, w: View, batch: seq<Dirent>, seen: seq<seq<Dirent>>, b: BatchEnv)
    requires Reaches(v, first, name, bs, w, batch, seen) && Find(batch, name) == Nowhere && DirNextStep(w, b).1 != 0
    ensures Search(v, first, name, Prefixed(bs, SearchEnv([b], Lost, Silent))) ==
            Looked(DirNextStep(w, b).0, Nowhere, seen + [batch], DirNextStep(w, b).1)
  {
  }

  /** How many batches a device can still send without being asked for anything else. */
  ghost function BatchesLeft(d: Peer): nat {
    match d
    case Conforming(_, _, _, _, _, mode, out) => BatchesIn(out) + BatchesToCome(mode)
    case Scripted(replies) => |replies|
  }

  ghost function BatchesIn(out: seq<Frame>): nat {
    if out == [] then 0 else BatchesIn(out[1..]) + if out[0].cmd == TF_MSG_HDD_DIRENT then 1 else 0
  }

  ghost function BatchesToCome(mode: Mode): nat {
    if mode.Listing? && mode.said < |mode.batches| then |mode.batches| - mode.said else 0
  }

  lemma SingleBatch(f: Frame)
    ensures BatchesIn([f]) == if f.cmd == TF_MSG_HDD_DIRENT then 1 else 0
  {
    assert [f][1..] == [];
  }

  lemma HearNoBatch(d: Peer)
    ensures BatchesLeft(Hear(d, SUCCESS)) <= BatchesLeft(d)
  {
    if d.Conforming? && d.mode.Serving? && 0 < d.mode.next <= |d.mode.chunks| + 1 {
      SingleBatch(PlanFrame(d.mode.chunks, d.mode.next));
    } else if d.Conforming? && d.mode.Listing? && d.mode.said <= |d.mode.batches| {
      SingleBatch(ListFrame(d.mode.batches, d.mode.said));
    }
  }

  lemma ListenNoBatch(d: Peer, went: ReadEnv, nocrc: bool)
    ensures var (d1, r) := Listen(d, went, nocrc);
      BatchesLeft(d1) + (if r.Received? && r.frame.cmd == TF_MSG_HDD_DIRENT then 1 else 0) <= BatchesLeft(d)
  {
    if d.Conforming? && d.out != [] {
      RoundTrip(d.out[0], [], nocrc);
      assert Wire(d.out[0]) + [] == Wire(d.out[0]);
    }
  }

  /** No device lists for ever: each batch received is one fewer to come. */
  lemma DirNextLess(v: View, e: BatchEnv)
    ensures var (v1, ret, ds) := DirNextStep(v, e); ret == 0 ==> BatchesLeft(v1.device) < BatchesLeft(v.device)
  {
    HearNoBatch(v.device);
    var v1 := SendStep(v, SUCCESS, e.send).0;
    ListenNoBatch(v1.device, e.read, v.nocrc);
  }

  /** The outer loop of tf_stat, from the first batch on. It is left with a hit, or with a result
      other than 0. */
  method SearchBatches(tf: Handle, name: CString, entries: DirEntries, ghost ds: seq<Dirent>)
    returns (found: Found, last: int, ghost seen: seq<seq<Dirent>>, ghost e: SearchEnv)
    requires entries.Holds(ds) && entries.entry.Length == MAX_DIR_ENTRIES
    requires tf.Valid()
    modifies tf`error, tf`peer, tf`log, tf.dev, entries, entries.entry
    ensures tf.Valid() && Looked(tf.State(), found, seen, last) == Search(old(tf.State()), ds, name, e)
    ensures found.Here? || last != 0
  {
    found, last, seen, e := Nowhere, 0, [], SearchEnv([], Lost, Silent);
    ghost var batch, start := ds, tf.State();
    ghost var bs: seq<BatchEnv> := [];
    ReachesStart(start, ds, name);
    while last == 0
      invariant tf.Valid()
      invariant last == 0 ==> entries.Holds(batch) && Reaches(start, ds, name, bs, tf.State(), batch, seen)
      invariant last != 0 ==> Looked(tf.State(), Nowhere, seen, last) == Search(start, ds, name, e) && found == Nowhere
      decreases last == 0, BatchesLeft(tf.peer)
    {
      found := FindIn(entries, name, batch);
      ghost var now := tf.State();
      if found.Here? {
        var unused;
        ghost var cancel, cancelled;
        unused, cancel, cancelled := tf.CmdCancel();
        ReachesHit(start, ds, name, bs, now, batch, seen, cancel, cancelled);
        e := Prefixed(bs, SearchEnv([], cancel, cancelled));
        seen := seen + [batch];
        return;
      }
      ghost var next, b;
      last, next, b := CmdDirNext(tf, entries);
      if last == 0 {
        DirNextLess(now, b);
        ReachesNext(start, ds, name, bs, now, batch, seen, b);
        bs := bs + [b];
      } else {
        ReachesEnd(start, ds, name, bs, now, batch, seen, b);
        e := Prefixed(bs, SearchEnv([b], Lost, Silent));
      }
      seen, batch := seen + [batch], next;
    }
  }

  /** strrchr for a slash. */
  method LastSlashIn(path: CString) returns (k: int)
    ensures k == if SLASH in path then LastSlash(path) else -1
  {
    k := |path| - 1;
    while k >= 0 && path[k] != SLASH
      invariant -1 <= k < |path|
      invariant SLASH !in path[k + 1..]
    {
      assert path[k..] == [path[k]] + path[k + 1..];
      k := k - 1;
    }
    assert path[0..] == path;
    if k >= 0 {
      LastSlashIs(path, k);
    }
  }

  /** Looks a name up in a directory. */
  method StatIn(tf: Handle, parent: CString, name: CString)
    returns (found: Found, last: int, ghost seen: seq<seq<Dirent>>, ghost first: BatchEnv, ghost e: SearchEnv)
    requires PathFits(parent) && Sendable(RequestFrame(Dir(parent)))
    requires tf.Valid()
    modifies tf`error, tf`peer, tf`log, tf.dev
    ensures tf.Valid() && Looked(tf.State(), found, seen, last) == LookIn(old(tf.State()), parent, name, first, e)
    ensures found.Here? || last != 0
  {
    found, seen, e := Nowhere, [], SearchEnv([], Lost, Silent);
    var entries := new DirEntries();
    ghost var ds;
    last, ds, first := CmdDirFirst(tf, parent, entries);
    if last == 0 {
      found, last, seen, e := SearchBatches(tf, name, entries, ds);
    }
  }

  lemma ParentFits(path: CString)
    requires PathFits(path) && Sendable(RequestFrame(Dir(path))) && SLASH in path
    ensures PathFits(Parent(path)) && Sendable(RequestFrame(Dir(Parent(path))))
  {
  }

  /** The directory and the last component of a path. */
  method Divide(path: CString) returns (ok: bool, parent: CString, name: CString)
    ensures ok <==> SLASH in path
    ensures ok ==> parent == Parent(path) && name == LastName(path)
  {
    var k := LastSlashIn(path);
    ok, parent, name := k >= 0, [], [];
    if k == 0 {
      parent, name := [SLASH], path[1..];
    } else if k > 0 {
      parent, name := path[..k], path[k + 1..];
    }
  }

  /** tf_stat: 0 and an entry, or 1. On a path below the root 1 means that the listing came to an end. */
  method TfStat(tf: Handle, path: CString)
    returns (rc: int, dirent: Dirent, ghost seen: seq<seq<Dirent>>, ghost last: int, ghost first: BatchEnv, ghost e: SearchEnv)
    requires PathFits(path) && Sendable(RequestFrame(Dir(path)))
    requires tf.Valid()
    modifies tf`error, tf`peer, tf`log, tf.dev
    ensures rc == 0 || rc == 1
    ensures tf.Valid() && Looked(tf.State(), if rc == 0 then Here(dirent) else Nowhere, seen, last) == StatStep(old(tf.State()), path, first, e)
    ensures BelowRoot(path) && rc == 1 ==> last != 0
  {
    rc, dirent, seen, last := 1, ROOT, [], 0;
    first, e := BatchEnv(Lost, Silent, Lost), SearchEnv([], Lost, Silent);
    if path == [SLASH] {
      rc := 0;
    } else {
      var ok, parent, name := Divide(path);
      if ok {
        ParentFits(path);
        var found, result;
        found, result, seen, first, e := StatIn(tf, parent, name);
        last := result;
        if found.Here? {
          rc, dirent := 0, found.dirent;
        }
      }
    }
  }
}
