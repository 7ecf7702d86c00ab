/** What was put on a device can be got back: tf_cmd_put, tf_cmd_put_data and tf_cmd_put_done, and
    then tf_cmd_get and tf_cmd_get_next. */
module RoundTrips {
  import opened Bytes
  import opened Frames
  import opened Packets
  import opened Requests
  import opened Dirents
  import opened Devices
  import opened Protocol
  import opened GetRuns
  import opened PutRuns
  import Mjd

  /** One whole upload. */
  datatype Transfer = Transfer(path: CString, typefile: seq<byte>, offset: u64, open: PutEnv, pieces: seq<Piece>, last: DoneEnv)

  /** tf_cmd_put, tf_cmd_put_data for each piece and tf_cmd_put_done, all of which return 0. */
  predicate Succeeds(v: View, t: Transfer) {
    && Fresh(v) && PathFits(t.path)
    && PutStep(v, t.path, t.typefile, t.offset, t.open).1 == 0
    && PutRun(PutStep(v, t.path, t.typefile, t.offset, t.open).0, t.pieces).1 == 0
    && PutDoneStep(PutRun(PutStep(v, t.path, t.typefile, t.offset, t.open).0, t.pieces).0, t.last).1 == 0
  }

  /** The handle after a whole upload. */
  function After(v: View, t: Transfer): View
    requires Succeeds(v, t)
  {
    PutDoneStep(PutRun(PutStep(v, t.path, t.typefile, t.offset, t.open).0, t.pieces).0, t.last).0
  }

  /** What the file then holds. */
  function Contents(v: View, t: Transfer): seq<byte>
    requires Fresh(v)
  {
    Written(OldContents(v.device, Backslashed(t.path)), Buffers(t.pieces))
  }

  lemma {:induction false} RunKeepsHandle(v: View, ps: seq<Piece>)
    ensures PutRun(v, ps).0.pending == v.pending
    decreases |ps|
  {
    if ps != [] && PutPiece(v, ps[0]).1 == 0 {
      RunKeepsHandle(PutPiece(v, ps[0]).0, ps[1..]);
    }
  }

  /** After a whole upload the device is ready for the next request. */
  lemma AfterFresh(v: View, t: Transfer)
    requires Succeeds(v, t)
    ensures Fresh(After(v, t)) && Description(t.typefile) && |Contents(v, t)| < 0x1_0000_0000_0000_0000
    ensures After(v, t).device == Kept(v.device, Backslashed(t.path), Contents(v, t), t.typefile)
  {
    var v1 := PutStep(v, t.path, t.typefile, t.offset, t.open).0;
    var job := JobOf(v, t.path, t.typefile);
    Upload(v, t.path, t.typefile, t.offset, t.open, t.pieces, t.last);
    RunKeepsHandle(v1, t.pieces);
    PutOpens(v, t.path, t.typefile, t.offset, t.open);
    PutRunKeeps(v1, job, t.pieces);
  }

  /** A file that was put opens from every offset it has, and the description that comes is the one
      it was put with. */
  lemma PutThenGet(v: View, t: Transfer, from: u64)
    requires Succeeds(v, t)
    ensures var (v1, ret, g) := GetStep(After(v, t), t.path, from, SendEnv.Delivered, Heard);
      && (ret == 0 <==> from <= |Contents(v, t)|)
      && (ret == 0 ==> g == Frame(TF_MSG_HDD_FILE_START, t.typefile))
  {
    var w := After(v, t);
    AfterFresh(v, t);
    OpenExactly(w, t.path, from, SendEnv.Delivered, Heard);
    if from <= |Contents(v, t)| {
      OpenBegins(w, t.path, from);
    }
  }

  /** What is then read is what was written, whatever is lost on the way, and all of it once the
      last call returned DONE. */
  lemma PutThenDownload(v: View, t: Transfer, from: u64, es: seq<NextEnv>)
    requires Succeeds(v, t) && from <= |Contents(v, t)| && forall e :: e in es ==> NotLate(e)
    ensures var v1 := GetStep(After(v, t), t.path, from, SendEnv.Delivered, Heard).0;
      var (_, ret, bs) := Run(v1, es);
      && Joined(bs) <= Contents(v, t)[from..]
      && (ret == TF_ERR_DONE ==> Joined(bs) == Contents(v, t)[from..])
  {
    PutThenGet(v, t, from);
    AfterFresh(v, t);
    Download(After(v, t), t.path, from, SendEnv.Delivered, Heard, es);
  }

  /** A new file, put piece by piece from the start, comes back byte for byte. */
  lemma NewFileReturns(v: View, t: Transfer, es: seq<NextEnv>)
    requires Succeeds(v, t) && Backslashed(t.path) !in v.device.disk && Consecutive(0, Buffers(t.pieces))
    requires forall e :: e in es ==> NotLate(e)
    ensures var v1 := GetStep(After(v, t), t.path, 0, SendEnv.Delivered, Heard).0;
      Run(v1, es).1 == TF_ERR_DONE ==> Joined(Run(v1, es).2) == Joined(Buffers(t.pieces))
  {
    WrittenConsecutive([], [], Buffers(t.pieces));
    assert [] + Joined(Buffers(t.pieces)) == Joined(Buffers(t.pieces));
    PutThenDownload(v, t, 0, es);
  }

  /** The directory entry a caller of tf_cmd_get sees for a file that was put with a path, a size and
      a time: a file under the first 94 characters of the path; the size exactly from big-endian
      hosts, or when its bytes read the same both ways; the time exactly up to 22 April 2038. */
  lemma PutThenEntry(v: View, t: Transfer, size: u64, tm: Mjd.Tm, littleEndian: bool, garbage: seq<byte>, from: u64)
    requires TimeFits(tm) && |garbage| == NAME_SIZE && t.typefile == TypeFile(t.path, size, tm, littleEndian, garbage)
    requires Mjd.Valid(false, Mjd.Date(tm.year, tm.mon + 1, tm.mday)) && Mjd.FromMarch1900(Mjd.Date(tm.year, tm.mon + 1, tm.mday))
    requires Succeeds(v, t) && from <= |Contents(v, t)|
    ensures var g := GetStep(After(v, t), t.path, from, SendEnv.Delivered, Heard).2;
      && |g.data| == TYPEFILE_SIZE
      && var d := Unpack(g.data);
      && !d.isDir && d.name == Clipped(t.path) && d.attrib == 0
      && (d.size == size <==> !littleEndian || Reversed(Be64(size)) == Be64(size))
      && (d.stamp == Mjd.At(tm) <==> !Mjd.Before(Mjd.LAST_DATE, Mjd.Date(tm.year, tm.mon + 1, tm.mday)))
  {
    PutThenGet(v, t, from);
    TypeFileRead(t.path, size, tm, littleEndian, garbage);
    SizeRead(size, littleEndian);
    StampSurvives(tm);
  }
}
