/** File descriptions: the packed form on the bus and the directory entries callers see. */
module Dirents {
  import opened Bytes
  import opened Packets
  import opened Requests
  import Mjd

  const TYPE_DIR: byte := 1
  const TYPE_FILE: byte := 2

  /** sizeof(tf_typefile_t). */
  const TYPEFILE_SIZE: nat := 114

  /** The size of the name field, with its terminator. */
  const NAME_SIZE: nat := 95

  datatype Dirent = Dirent(stamp: Mjd.Moment, isDir: bool, size: u64, name: CString, attrib: u16)

  /** A packed file description whose name is terminated. */
  predicate Describes(b: seq<byte>) {
    |b| >= TYPEFILE_SIZE && 0 in b[14..109]
  }

  // ---- Unpacking

  /** The date and time at the start of a description, in local time. */
  function StampOf(b: seq<byte>): Mjd.Moment
    requires |b| >= 5
  {
    Mjd.Stamp(Get16(b, 0), b[2], b[3], b[4])
  }

  /** unpack_dirent. */
  function Unpack(b: seq<byte>): Dirent
    requires |b| >= TYPEFILE_SIZE
  {
    Dirent(StampOf(b), b[5] == TYPE_DIR, Get64(b, 6), UpToZero(b[14..109]), Get16(b, 110))
  }

  lemma {:induction false} UpToZeroIs(s: seq<byte>, i: nat)
    requires i < |s| && s[i] == 0 && 0 !in s[..i]
    ensures UpToZero(s) == s[..i]
  {
    if i > 0 {
      assert s[..i] == [s[0]] + s[1..][..i - 1];
      UpToZeroIs(s[1..], i - 1);
    }
  }

  /** strcpy: copies up to the terminator, which has to come within n bytes. */
  method CopyString(buf: array<byte>, at: nat, n: nat) returns (s: seq<byte>)
    requires at + n <= buf.Length && 0 in buf[at..at + n]
    ensures s == UpToZero(buf[at..at + n])
  {
    s := [];
    var i := 0;
    ghost var field := buf[at..at + n];
    ghost var end :| 0 <= end < n && field[end] == 0;
    while buf[at + i] != 0
      invariant i <= end && s == field[..i] && 0 !in s
      decreases n - i
    {
      assert field[i] == buf[at + i];
      s := s + [buf[at + i]];
      i := i + 1;
    }
    assert field[i] == buf[at + i];
    UpToZeroIs(field, i);
  }

  lemma SliceOfSlice(s: seq<byte>, a: nat, b: nat, c: nat, d: nat)
    requires c <= d && a + d <= b <= |s|
    ensures s[a..b][c..d] == s[a + c..a + d]
  {
    forall k | 0 <= k < d - c ensures s[a..b][c..d][k] == s[a + c..a + d][k] {
    }
  }

  /** Only the description itself counts, not what follows it. */
  lemma UnpackPrefix(b: seq<byte>)
    requires |b| >= TYPEFILE_SIZE
    ensures Unpack(b[..TYPEFILE_SIZE]) == Unpack(b)
    ensures Describes(b[..TYPEFILE_SIZE]) <==> Describes(b)
  {
    var c := b[..TYPEFILE_SIZE];
    StampSlice(b);
    StampSlice(c);
    Get64Slice(b, 6);
    Get64Slice(c, 6);
    assert c[..5] == b[..5] && c[6..14] == b[6..14] && c[14..109] == b[14..109];
  }

  method UnpackDirent(buf: array<byte>, at: nat) returns (d: Dirent)
    requires at + TYPEFILE_SIZE <= buf.Length && Describes(buf[at..at + TYPEFILE_SIZE])
    ensures d == Unpack(buf[at..at + TYPEFILE_SIZE])
  {
    var b := buf[at..at + TYPEFILE_SIZE];
    SliceOfSlice(buf[..], at, at + TYPEFILE_SIZE, 14, 109);
    assert buf[at..at + TYPEFILE_SIZE] == buf[..][at..at + TYPEFILE_SIZE] && buf[at + 14..at + 109] == buf[..][at + 14..at + 109];
    var name := CopyString(buf, at + 14, NAME_SIZE);
    d := Dirent(StampOf(b), b[5] == TYPE_DIR, Get64(b, 6), name, Get16(b, 110));
  }

  /** A description laid out field by field; field is the name field and the unused byte behind it. */
  function Packed(stamp: seq<byte>, kind: byte, size: u64, field: seq<byte>, attrib: u16, unused: seq<byte>): (r: seq<byte>)
    requires |stamp| == 5 && |field| == 96 && |unused| == 2
    ensures |r| == TYPEFILE_SIZE
    ensures r[..5] == stamp && r[5] == kind && r[6..14] == Be64(size) && r[14..110] == field && r[110..112] == Be16(attrib)
  {
    stamp + [kind] + Be64(size) + field + Be16(attrib) + unused
  }

  /** What is read from a description: only type 1 is a directory, the name ends at its first zero,
      and what is behind that, or behind the attributes, does not count. */
  lemma DescriptionRead(day: u16, time: seq<byte>, kind: byte, size: u64, name: CString, rest: seq<byte>, attrib: u16, unused: seq<byte>)
    requires |time| == 3 && |name| < NAME_SIZE && |name| + |rest| == NAME_SIZE && |unused| == 2
    ensures var b := Packed(Be16(day) + time, kind, size, name + [0] + rest, attrib, unused);
      && Describes(b)
      && Unpack(b) == Dirent(Mjd.Stamp(day, time[0], time[1], time[2]), kind == 1, size, name, attrib)
  {
    var b := Packed(Be16(day) + time, kind, size, name + [0] + rest, attrib, unused);
    FieldRead(b[14..109], name);
    StampHead(day, time);
    StampSlice(b);
    Get64Slice(b, 6);
    Get64Be64(size);
    Get16Be16(attrib);
    assert b[110] == b[110..112][0] && b[111] == b[110..112][1];
  }

  lemma FieldRead(field: seq<byte>, name: CString)
    requires |name| < |field| && field[..|name|] == name && field[|name|] == 0
    ensures 0 in field && UpToZero(field) == name
  {
    UpToZeroIs(field, |name|);
  }

  // ---- Descriptions in a row

  function EntryCount(data: seq<byte>): nat {
    |data| / TYPEFILE_SIZE
  }

  /** The i-th of the file descriptions packed one behind the other. */
  function Entry(data: seq<byte>, i: nat): seq<byte>
    requires i < EntryCount(data)
  {
    data[i * TYPEFILE_SIZE..(i + 1) * TYPEFILE_SIZE]
  }

  function EntriesFrom(data: seq<byte>, i: nat): (r: seq<Dirent>)
    requires i <= EntryCount(data)
    ensures |r| == EntryCount(data) - i
    decreases EntryCount(data) - i
  {
    if i == EntryCount(data) then [] else [Unpack(Entry(data, i))] + EntriesFrom(data, i + 1)
  }

  function Entries(data: seq<byte>): seq<Dirent> {
    EntriesFrom(data, 0)
  }

  lemma {:induction false} EntriesFromAt(data: seq<byte>, i: nat, k: nat)
    requires i <= k < EntryCount(data)
    ensures EntriesFrom(data, i)[k - i] == Unpack(Entry(data, k))
    decreases k - i
  {
    if i < k {
      EntriesFromAt(data, i + 1, k);
    }
  }

  /** Descriptions laid one behind the other. */
  function Row(ds: seq<seq<byte>>): seq<byte> {
    if ds == [] then [] else ds[0] + Row(ds[1..])
  }

  lemma {:induction false} RowLength(ds: seq<seq<byte>>)
    requires forall d :: d in ds ==> |d| == TYPEFILE_SIZE
    ensures |Row(ds)| == |ds| * TYPEFILE_SIZE
    decreases |ds|
  {
    if ds != [] {
      assert ds[0] in ds && forall d :: d in ds[1..] ==> d in ds;
      RowLength(ds[1..]);
    }
  }

  lemma {:induction false} RowAt(ds: seq<seq<byte>>, rest: seq<byte>, i: nat)
    requires i < |ds| && forall d :: d in ds ==> |d| == TYPEFILE_SIZE
    ensures |Row(ds)| == |ds| * TYPEFILE_SIZE
    ensures (Row(ds) + rest)[i * TYPEFILE_SIZE..(i + 1) * TYPEFILE_SIZE] == ds[i]
    decreases |ds|
  {
    RowLength(ds);
    assert ds[0] in ds && forall d :: d in ds[1..] ==> d in ds;
    var row, later := Row(ds) + rest, Row(ds[1..]) + rest;
    assert row == ds[0] + later;
    if i > 0 {
      RowAt(ds[1..], rest, i - 1);
      assert row[TYPEFILE_SIZE..] == later;
      SliceBehind(row, TYPEFILE_SIZE, (i - 1) * TYPEFILE_SIZE, i * TYPEFILE_SIZE);
    }
  }

  lemma SliceBehind(s: seq<byte>, n: nat, a: nat, b: nat)
    requires a <= b && n + b <= |s|
    ensures s[n + a..n + b] == s[n..][a..b]
  {
  }

  /** A reply of descriptions in a row is read as all of them, in order; a part of one at the end
      does not count. */
  lemma RowRead(ds: seq<seq<byte>>, rest: seq<byte>)
    requires |rest| < TYPEFILE_SIZE && forall d :: d in ds ==> |d| == TYPEFILE_SIZE
    ensures |Entries(Row(ds) + rest)| == |ds|
    ensures forall i :: 0 <= i < |ds| ==> Entries(Row(ds) + rest)[i] == Unpack(ds[i])
  {
    var row := Row(ds) + rest;
    if ds != [] {
      RowAt(ds, rest, 0);
    }
    assert EntryCount(row) == |ds|;
    forall i | 0 <= i < |ds| ensures Entries(row)[i] == Unpack(ds[i]) {
      RowAt(ds, rest, i);
      EntriesFromAt(row, 0, i);
    }
  }

  // ---- Packing

  /** A byte string back to front. */
  function Reversed(s: seq<byte>): (r: seq<byte>)
    ensures |r| == |s|
    ensures forall i :: 0 <= i < |s| ==> r[i] == s[|s| - 1 - i]
  {
    seq(|s|, i requires 0 <= i < |s| => s[|s| - 1 - i])
  }

  /** A 64-bit word as it lies in the host's memory. */
  function HostOrder(v: u64, littleEndian: bool): (r: seq<byte>)
    ensures |r| == 8
  {
    if littleEndian then Reversed(Be64(v)) else Be64(v)
  }

  /** As much of a path as the name field holds. */
  function Clipped(path: CString): (r: CString)
    ensures r <= path && |r| == if |path| < 94 then |path| else 94
  {
    if |path| < NAME_SIZE then path else path[..NAME_SIZE - 1]
  }

  /** The hour, minute and second of a broken-down time fit a byte. */
  predicate TimeFits(tm: Mjd.Tm) {
    0 <= tm.hour < 24 && 0 <= tm.min < 60 && 0 <= tm.sec <= 60
  }

  /** The stamp of a description. */
  function StampBytes(tm: Mjd.Tm): (r: seq<byte>)
    requires TimeFits(tm)
    ensures |r| == 5
  {
    Be16(Mjd.Encode(tm.year, tm.mon + 1, tm.mday) % 0x1_0000) + [tm.hour as byte, tm.min as byte, tm.sec as byte]
  }

  /** The name field: what is behind the terminator was in memory before. */
  function NameBytes(path: CString, garbage: seq<byte>): (r: seq<byte>)
    requires |garbage| == NAME_SIZE
    ensures |r| == NAME_SIZE
  {
    Clipped(path) + [0] + garbage[|Clipped(path)| + 1..]
  }

  /** The description tf_cmd_put sends. The size is in the host's byte order. */
  function TypeFile(path: CString, size: u64, tm: Mjd.Tm, littleEndian: bool, garbage: seq<byte>): (r: seq<byte>)
    requires TimeFits(tm) && |garbage| == NAME_SIZE
    ensures |r| == TYPEFILE_SIZE
  {
    StampBytes(tm) + [TYPE_FILE] + HostOrder(size, littleEndian) + NameBytes(path, garbage) + [0, 0, 0, 0, 0]
  }

  lemma TypeFileParts(path: CString, size: u64, tm: Mjd.Tm, littleEndian: bool, garbage: seq<byte>)
    requires TimeFits(tm) && |garbage| == NAME_SIZE
    ensures var b := TypeFile(path, size, tm, littleEndian, garbage);
      b[..5] == StampBytes(tm) && b[5] == TYPE_FILE && b[6..14] == HostOrder(size, littleEndian)
      && b[14..109] == NameBytes(path, garbage) && b[110..] == [0, 0, 0, 0]
  {
  }

  lemma NameBytesRead(path: CString, garbage: seq<byte>)
    requires |garbage| == NAME_SIZE
    ensures 0 in NameBytes(path, garbage) && UpToZero(NameBytes(path, garbage)) == Clipped(path)
  {
    var s, n := NameBytes(path, garbage), |Clipped(path)|;
    assert s[n] == 0 && s[..n] == Clipped(path);
    UpToZeroIs(s, n);
  }

  lemma StampRead(tm: Mjd.Tm)
    requires TimeFits(tm)
    ensures StampOf(StampBytes(tm)) ==
            Mjd.Stamp(Mjd.Encode(tm.year, tm.mon + 1, tm.mday) % 0x1_0000, tm.hour as byte, tm.min as byte, tm.sec as byte)
  {
    StampHead(Mjd.Encode(tm.year, tm.mon + 1, tm.mday) % 0x1_0000, [tm.hour as byte, tm.min as byte, tm.sec as byte]);
  }

  lemma StampHead(n: u16, t: seq<byte>)
    requires |t| == 3
    ensures StampOf(Be16(n) + t) == Mjd.Stamp(n, t[0], t[1], t[2])
  {
    Get16Be16(n);
    assert (Be16(n) + t)[0] == Be16(n)[0] && (Be16(n) + t)[1] == Be16(n)[1];
  }

  /** A local time from 1 March 1900 on is read back exactly up to 22 April 2038. */
  lemma StampSurvives(tm: Mjd.Tm)
    requires TimeFits(tm)
    requires Mjd.Valid(false, Mjd.Date(tm.year, tm.mon + 1, tm.mday)) && Mjd.FromMarch1900(Mjd.Date(tm.year, tm.mon + 1, tm.mday))
    ensures StampOf(StampBytes(tm)) == Mjd.At(tm) <==> !Mjd.Before(Mjd.LAST_DATE, Mjd.Date(tm.year, tm.mon + 1, tm.mday))
  {
    StampRead(tm);
    Mjd.StoredDate(Mjd.Date(tm.year, tm.mon + 1, tm.mday));
  }

  /** What is read back from a description that was put: a file with the name cut to 94 characters,
      the date as far as 16 bits hold it, no attributes, and the size as the host's order has it. */
  lemma TypeFileRead(path: CString, size: u64, tm: Mjd.Tm, littleEndian: bool, garbage: seq<byte>)
    requires TimeFits(tm) && |garbage| == NAME_SIZE
    ensures var b := TypeFile(path, size, tm, littleEndian, garbage);
      && Describes(b)
      && Unpack(b) == Dirent(StampOf(StampBytes(tm)), false, Get64(HostOrder(size, littleEndian), 0), Clipped(path), 0)
  {
    var b := TypeFile(path, size, tm, littleEndian, garbage);
    TypeFileParts(path, size, tm, littleEndian, garbage);
    NameBytesRead(path, garbage);
    StampSlice(b);
    Get64Slice(b, 6);
    assert b[110] == b[110..][0] && b[111] == b[110..][1];
  }

  lemma StampSlice(b: seq<byte>)
    requires |b| >= 5
    ensures StampOf(b) == StampOf(b[..5])
  {
    assert b[..5][0] == b[0] && b[..5][1] == b[1];
    assert b[..5][2] == b[2] && b[..5][3] == b[3] && b[..5][4] == b[4];
  }

  lemma Get64Slice(b: seq<byte>, i: nat)
    requires i + 8 <= |b|
    ensures Get64(b, i) == Get64(b[i..i + 8], 0)
  {
    var s := b[i..i + 8];
    assert s[0] == b[i] && s[1] == b[i + 1] && s[2] == b[i + 2] && s[3] == b[i + 3];
    assert s[4] == b[i + 4] && s[5] == b[i + 5] && s[6] == b[i + 6] && s[7] == b[i + 7];
  }

  /** The size comes back exactly when the host is big-endian or the eight bytes read the same both ways. */
  lemma SizeRead(size: u64, littleEndian: bool)
    ensures Get64(HostOrder(size, littleEndian), 0) == size <==> !littleEndian || Reversed(Be64(size)) == Be64(size)
  {
    Get64Be64(size);
    if littleEndian && Get64(Reversed(Be64(size)), 0) == size {
      Be64Get64(Reversed(Be64(size)));
    }
  }

  /** From a little-endian host a file of one byte is announced as 2^56 bytes. */
  lemma OneByteAnnounced()
    ensures Get64(HostOrder(1, true), 0) == 0x100_0000_0000_0000
  {
    assert Be64(1) == [0, 0, 0, 0, 0, 0, 0, 1];
    assert Reversed(Be64(1)) == [1, 0, 0, 0, 0, 0, 0, 0];
  }

  // ---- Packing in place

  method FillStamp(typefile: array<byte>, tm: Mjd.Tm)
    requires typefile.Length == TYPEFILE_SIZE && TimeFits(tm)
    modifies typefile
    ensures typefile[..5] == StampBytes(tm) && typefile[5..] == old(typefile[5..])
  {
    var stamp := new Mjd.TfDatetime();
    stamp.FromTm(tm);
    Put16(typefile, 0, stamp.mjd);
    typefile[2], typefile[3], typefile[4] := stamp.hour, stamp.minute, stamp.second;
  }

  method FillSize(typefile: array<byte>, size: u64, littleEndian: bool)
    requires typefile.Length == TYPEFILE_SIZE
    modifies typefile
    ensures typefile[..14] == old(typefile[..5]) + [TYPE_FILE] + HostOrder(size, littleEndian)
    ensures typefile[14..] == old(typefile[14..])
  {
    typefile[5] := TYPE_FILE;
    var word := HostOrder(size, littleEndian);
    forall i | 0 <= i < 8 {
      typefile[6 + i] := word[i];
    }
    assert typefile[6..14] == word;
  }

  /** snprintf: copies what fits and ends it. */
  method FillName(typefile: array<byte>, path: CString, ghost garbage: seq<byte>)
    requires typefile.Length == TYPEFILE_SIZE && garbage == typefile[14..109]
    modifies typefile
    ensures typefile[14..109] == NameBytes(path, garbage) && typefile[..14] == old(typefile[..14])
  {
    var name := Clipped(path);
    forall i | 0 <= i < |name| {
      typefile[14 + i] := name[i];
    }
    typefile[14 + |name|] := 0;
  }

  method FillTail(typefile: array<byte>)
    requires typefile.Length == TYPEFILE_SIZE
    modifies typefile
    ensures typefile[..109] == old(typefile[..109]) && typefile[109..] == [0, 0, 0, 0, 0]
  {
    typefile[109] := 0;
    typefile[110], typefile[111], typefile[112], typefile[113] := 0, 0, 0, 0;
  }

  lemma Assembled(b: seq<byte>)
    requires |b| == TYPEFILE_SIZE
    ensures b == b[..14] + b[14..109] + b[109..]
    ensures b[..14] == b[..109][..14] && b[14..109] == b[..109][14..]
  {
  }

  /** Fills in the description, in memory that held anything. */
  method FillTypeFile(typefile: array<byte>, path: CString, size: u64, tm: Mjd.Tm, littleEndian: bool)
    returns (ghost garbage: seq<byte>)
    requires typefile.Length == TYPEFILE_SIZE && TimeFits(tm)
    modifies typefile
    ensures |garbage| == NAME_SIZE && typefile[..] == TypeFile(path, size, tm, littleEndian, garbage)
  {
    FillStamp(typefile, tm);
    FillSize(typefile, size, littleEndian);
    garbage := typefile[14..109];
    FillName(typefile, path, garbage);
    FillTail(typefile);
    Assembled(typefile[..]);
    assert typefile[..109] == typefile[..][..109] && typefile[109..] == typefile[..][109..];
  }
}
