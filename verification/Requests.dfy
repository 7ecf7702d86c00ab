/** The requests of tf_io.c that carry paths, and the size at which a packet is transmitted. */
module Requests {
  import opened Bytes
  import opened Frames
  import opened Packets

  const TF_MSG_FAIL: u32 := 0x0001
  const TF_MSG_SUCCESS: u32 := 0x0002
  const TF_MSG_CANCEL: u32 := 0x0003
  const TF_MSG_HDD_DIR: u32 := 0x1002
  const TF_MSG_HDD_DIRENT: u32 := 0x1003
  const TF_MSG_HDD_DIREND: u32 := 0x1004
  const TF_MSG_HDD_DELETE: u32 := 0x1005
  const TF_MSG_HDD_RENAME: u32 := 0x1006
  const TF_MSG_HDD_MKDIR: u32 := 0x1007
  const TF_MSG_HDD_FILE_SEND: u32 := 0x1008
  const TF_MSG_HDD_FILE_START: u32 := 0x1009
  const TF_MSG_HDD_FILE_DATA: u32 := 0x100A
  const TF_MSG_HDD_FILE_END: u32 := 0x100B

  const DIR_PUT: byte := 0
  const DIR_GET: byte := 1

  /** A path that any request can carry, whatever else it holds. */
  predicate PathFits(s: CString) {
    |s| + 4 < 0x1_0000
  }

  /** The requests that carry paths; Send opens a transfer in the given direction. */
  datatype Request =
    | Delete(path: CString)
    | Mkdir(path: CString)
    | Dir(path: CString)
    | Rename(src: CString, dest: CString)
    | Send(direction: byte, path: CString, offset: u64)

  predicate Fits(r: Request) {
    match r
    case Rename(src, dest) => PathFits(src) && PathFits(dest)
    case _ => PathFits(r.path)
  }

  function RequestFrame(r: Request): Frame
    requires Fits(r)
  {
    match r
    case Delete(path) => Frame(TF_MSG_HDD_DELETE, NameField(8, path, false))
    case Mkdir(path) => Frame(TF_MSG_HDD_MKDIR, NameField(8, path, true))
    case Dir(path) => Frame(TF_MSG_HDD_DIR, NameField(8, path, false))
    case Rename(src, dest) =>
      var first := NameField(8, src, true);
      Frame(TF_MSG_HDD_RENAME, first + NameField(8 + |first|, dest, true))
    case Send(direction, path, offset) =>
      Frame(TF_MSG_HDD_FILE_SEND, [direction] + NameField(9, path, true) + Be64(offset))
  }

  // ---- Sizes

  /** How many bytes tf_send hands to the bus for a packet of the given length. */
  function TransferSize(len: nat): (n: nat)
    ensures len <= n <= len + 2
  {
    if len % 64 == 0 then len + 2 else if len % 2 == 1 then len + 1 else len
  }

  /** Every transfer is even. It is a multiple of 64, which upsets the device, for exactly the odd
      lengths one short of one. */
  lemma TransferShape(len: nat)
    ensures TransferSize(len) % 2 == 0
    ensures TransferSize(len) % 64 == 0 <==> len % 64 == 63
    ensures len % 2 == 0 ==> TransferSize(len) % 64 != 0
    ensures len <= MAXIMUM_PACKET_SIZE ==> TransferSize(len) <= STRUCT_SIZE
  {
  }

  lemma NameFieldEnd(at: nat, s: CString, addlength: bool)
    requires PathFits(s)
    ensures (at + |NameField(at, s, addlength)|) % 2 == 0
  {
  }

  lemma RenameLength(src: CString, dest: CString)
    requires PathFits(src) && PathFits(dest)
    ensures Length(RequestFrame(Rename(src, dest))) % 2 == 0
  {
    var first := NameField(8, src, true);
    NameFieldEnd(8 + |first|, dest, true);
    assert Length(RequestFrame(Rename(src, dest))) == 8 + |first| + |NameField(8 + |first|, dest, true)|;
  }

  lemma SendLength(direction: byte, path: CString, offset: u64)
    requires PathFits(path)
    ensures Length(RequestFrame(Send(direction, path, offset))) % 2 == 0
  {
    NameFieldEnd(9, path, true);
    assert Length(RequestFrame(Send(direction, path, offset))) == 9 + |NameField(9, path, true)| + 8;
  }

  lemma PathRequestLength(r: Request)
    requires Fits(r)
    ensures Length(RequestFrame(r)) % 2 == 0
  {
    match r
    case Rename(src, dest) => RenameLength(src, dest);
    case Delete(path) => NameFieldEnd(8, path, false);
    case Dir(path) => NameFieldEnd(8, path, false);
    case Mkdir(path) => NameFieldEnd(8, path, true);
    case Send(direction, path, offset) => SendLength(direction, path, offset);
  }

  /** Every request that carries a path has an even length and is never sent at a multiple of 64. */
  lemma PathRequestsEven(r: Request)
    requires Fits(r)
    ensures Length(RequestFrame(r)) % 2 == 0 && TransferSize(Length(RequestFrame(r))) % 64 != 0
  {
    var n := Length(RequestFrame(r));
    PathRequestLength(r);
    TransferShape(n);
  }

  // ---- Reading a name field

  /** Everything before the first zero. */
  function UpToZero(s: seq<byte>): (r: CString)
    ensures r <= s
  {
    if s == [] || s[0] == 0 then [] else [s[0]] + UpToZero(s[1..])
  }

  lemma UpToZeroEnds(s: CString, rest: seq<byte>)
    ensures UpToZero(s + [0] + rest) == s
  {
    if s != [] {
      assert s[0] in s;
      assert (s + [0] + rest)[1..] == s[1..] + [0] + rest;
      UpToZeroEnds(s[1..], rest);
    }
  }

  datatype Taken = Short | Name(name: CString, rest: seq<byte>)

  /** Takes one length-prefixed name off a payload. */
  function TakeName(p: seq<byte>): Taken {
    if |p| < 2 || |p| < 2 + Get16(p, 0) then Short
    else Name(UpToZero(p[2..2 + Get16(p, 0)]), p[2 + Get16(p, 0)..])
  }

  /** The length prefix delimits the field, whatever position it starts at and whatever follows. */
  lemma TakeNameField(at: nat, s: CString, rest: seq<byte>)
    requires PathFits(s)
    ensures TakeName(NameField(at, s, true) + rest) == Name(Backslashed(s), rest)
  {
    var n, p := NameSize(at, s), NameField(at, s, true) + rest;
    Get16Be16(n);
    assert p[0] == Be16(n)[0] && p[1] == Be16(n)[1];
    assert p[2..2 + n] == Backslashed(s) + [0] + Pad(|s| + 1 + at);
    UpToZeroEnds(Backslashed(s), Pad(|s| + 1 + at));
    assert p[2 + n..] == rest;
  }

  /** A rename request decodes to its two paths. */
  lemma RenameDecodes(src: CString, dest: CString)
    requires PathFits(src) && PathFits(dest)
    ensures var t := TakeName(RequestFrame(Rename(src, dest)).data);
      t.Name? && t.name == Backslashed(src) && TakeName(t.rest) == Name(Backslashed(dest), [])
  {
    var first := NameField(8, src, true);
    var second := NameField(8 + |first|, dest, true);
    TakeNameField(8, src, second);
    TakeNameField(8 + |first|, dest, []);
    assert second + [] == second;
  }

  // ---- What a request says

  datatype Understood = Nonsense | Clear(request: Request)

  /** A request as the device reads it from a frame. */
  function Understand(f: Frame): Understood {
    if f.cmd == 0x1005 then Clear(Delete(UpToZero(f.data)))
    else if f.cmd == 0x1002 then Clear(Dir(UpToZero(f.data)))
    else if f.cmd == 0x1007 then UnderstandMkdir(TakeName(f.data))
    else if f.cmd == 0x1006 then UnderstandRename(TakeName(f.data))
    else if f.cmd == 0x1008 && f.data != [] then UnderstandSend(f.data[0], TakeName(f.data[1..]))
    else Nonsense
  }

  function UnderstandMkdir(t: Taken): Understood {
    if t.Name? && t.rest == [] then Clear(Mkdir(t.name)) else Nonsense
  }

  function UnderstandRename(t: Taken): Understood {
    if t.Name? && TakeName(t.rest).Name? && TakeName(t.rest).rest == []
    then Clear(Rename(t.name, TakeName(t.rest).name)) else Nonsense
  }

  function UnderstandSend(direction: byte, t: Taken): Understood {
    if t.Name? && |t.rest| == 8 then Clear(Send(direction, t.name, Get64(t.rest, 0))) else Nonsense
  }

  /** The request, with backslashes for slashes in its paths. */
  predicate Means(r: Request, q: Request) {
    match r
    case Delete(path) => q.Delete? && Translates(path, q.path)
    case Mkdir(path) => q.Mkdir? && Translates(path, q.path)
    case Dir(path) => q.Dir? && Translates(path, q.path)
    case Rename(src, dest) => q.Rename? && Translates(src, q.src) && Translates(dest, q.dest)
    case Send(direction, path, offset) =>
      q.Send? && q.direction == direction && q.offset == offset && Translates(path, q.path)
  }

  /** The device reads every request as it was meant. */
  lemma RequestUnderstood(r: Request)
    requires Fits(r)
    ensures Understand(RequestFrame(r)).Clear? && Means(r, Understand(RequestFrame(r)).request)
  {
    match r
    case Delete(path) =>
      BackslashedTranslates(path);
      NameAlone(path);
    case Dir(path) =>
      BackslashedTranslates(path);
      NameAlone(path);
    case Mkdir(path) =>
      BackslashedTranslates(path);
      TakeNameField(8, path, []);
      assert NameField(8, path, true) + [] == NameField(8, path, true);
    case Rename(src, dest) =>
      BackslashedTranslates(src);
      BackslashedTranslates(dest);
      RenameDecodes(src, dest);
    case Send(direction, path, offset) =>
      BackslashedTranslates(path);
      SendUnderstood(direction, path, offset);
  }

  lemma NameAlone(path: CString)
    requires PathFits(path)
    ensures UpToZero(NameField(8, path, false)) == Backslashed(path)
    ensures var field := NameField(8, path, false);
      |field| - |path| in {1, 2} && forall i :: |path| <= i < |field| ==> field[i] == 0
  {
    UpToZeroEnds(Backslashed(path), Pad(|path| + 1 + 8));
    assert [] + Backslashed(path) == Backslashed(path);
  }

  lemma SendUnderstood(direction: byte, path: CString, offset: u64)
    requires PathFits(path)
    ensures Understand(RequestFrame(Send(direction, path, offset))) == Clear(Send(direction, Backslashed(path), offset))
  {
    TakeNameField(9, path, Be64(offset));
    Get64Be64(offset);
    SendParts(direction, NameField(9, path, true), Be64(offset));
  }

  lemma SendParts(direction: byte, field: seq<byte>, last: seq<byte>)
    ensures ([direction] + field + last)[0] == direction && ([direction] + field + last)[1..] == field + last
  {
  }

  lemma TranslatesInjective(s: seq<byte>, t: seq<byte>, name: seq<byte>)
    requires 0x5C !in s && 0x5C !in t && Translates(s, name) && Translates(t, name)
    ensures s == t
  {
    forall i | 0 <= i < |s| ensures s[i] == t[i] {
      assert s[i] in s && t[i] in t && name[i] in name;
    }
  }

  /** No path of the request has a backslash in it. */
  predicate Plain(r: Request) {
    match r
    case Rename(src, dest) => 0x5C !in src && 0x5C !in dest
    case _ => 0x5C !in r.path
  }

  /** Different requests whose paths have no backslashes make different frames. */
  lemma RequestsDiffer(r: Request, q: Request)
    requires Fits(r) && Fits(q) && Plain(r) && Plain(q)
    requires RequestFrame(r) == RequestFrame(q)
    ensures r == q
  {
    RequestUnderstood(r);
    RequestUnderstood(q);
    var m := Understand(RequestFrame(r)).request;
    match r
    case Rename(src, dest) =>
      TranslatesInjective(src, q.src, m.src);
      TranslatesInjective(dest, q.dest, m.dest);
    case _ => TranslatesInjective(r.path, q.path, m.path);
  }
}
