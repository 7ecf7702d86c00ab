/** tf_makename of tf_util.c: joins a directory and a file name into a canonical path, in place. */
module MakeName {
  import opened Bytes
  import opened Folds
  import opened Packets

  const DOT: byte := 0x2E
  const DOTDOT: CString := [DOT, DOT]

  datatype Option<T> = None | Some(value: T)

  // ---- The resolver: a stack of components

  /** A path component: a string without slashes. The empty one is a component like any other. */
  type Component = c: CString | SLASH !in c

  type Path = seq<Component>

  /** Entering one component: ".." leaves the innermost one, or stays at the root. */
  function Enter(st: Path, c: Component): Path {
    if c != DOTDOT then st + [c] else if st == [] then [] else st[..|st| - 1]
  }

  /** The position of the first slash, or the length. */
  function FirstSlash(s: CString): (k: nat)
    ensures k <= |s|
    ensures k < |s| ==> s[k] == SLASH
    ensures SLASH !in s[..k]
  {
    if s == [] || s[0] == SLASH then 0
    else
      var k := 1 + FirstSlash(s[1..]);
      assert s[..k] == [s[0]] + s[1..][..k - 1];
      k
  }

  /** The components between slashes. */
  function Split(s: CString): (cs: Path)
    ensures |cs| > 0
    decreases |s|
  {
    var k := FirstSlash(s);
    if k == |s| then [s] else [s[..k]] + Split(s[k + 1..])
  }

  /** Entering all components from st. A path that ends in ".." ends at a directory boundary, which
      is where one more, empty, component would start. */
  function Walk(st: Path, cs: Path): (r: Path)
    requires |cs| > 0
    ensures |r| > 0
  {
    var end := Fold(Enter, st, cs);
    if cs[|cs| - 1] == DOTDOT then end + [[]] else
      EndEntered(st, cs);
      end
  }

  lemma {:induction false} EndEntered(st: Path, cs: Path)
    requires |cs| > 0 && cs[|cs| - 1] != DOTDOT
    ensures Fold(Enter, st, cs) != [] && Fold(Enter, st, cs)[|Fold(Enter, st, cs)| - 1] == cs[|cs| - 1]
    decreases |cs|
  {
    if |cs| == 1 {
      assert cs[1..] == [];
    } else {
      EndEntered(Enter(st, cs[0]), cs[1..]);
    }
  }

  /** The text up to and including the slash after the last component of st. */
  function Prefix(st: Path): (s: CString)
    ensures |s| > 0 && s[0] == SLASH && s[|s| - 1] == SLASH
  {
    if st == [] then [SLASH] else Prefix(st[..|st| - 1]) + st[|st| - 1] + [SLASH]
  }

  /** The text of a path. */
  function Render(p: Path): (s: CString)
    requires |p| > 0
    ensures |s| > 0 && s[0] == SLASH
  {
    Prefix(p[..|p| - 1]) + p[|p| - 1]
  }

  function Relative(s: CString): CString {
    if s != [] && s[0] == SLASH then s[1..] else s
  }

  /** A path that ends at a boundary, without the empty component that starts there. */
  function Base(p: Path): Path
    requires |p| > 0
  {
    if p[|p| - 1] == [] then p[..|p| - 1] else p
  }

  /** Without one trailing slash, unless it is the root. */
  function Trim(p: Path): (r: Path)
    requires |p| > 0
    ensures |r| > 0
  {
    if |p| > 1 && p[|p| - 1] == [] then p[..|p| - 1] else p
  }

  predicate Absolute(s: CString) {
    s != [] && s[0] == SLASH
  }

  /** The path a directory and a file name stand for. */
  function Resolve(dir: CString, filename: Option<CString>): (p: Path)
    ensures |p| > 0
  {
    match filename
    case None => Walk([], Split(Relative(dir)))
    case Some(f) =>
      if Absolute(f) then Walk([], Split(Relative(f)))
      else Walk(Base(Walk([], Split(Relative(dir)))), Split(f))
  }

  function CanonicalName(dir: CString, filename: Option<CString>): CString {
    Render(Trim(Resolve(dir, filename)))
  }

  // ---- The scanner: what the copying loops do to the text written so far

  /** The next characters are a whole ".." component. */
  predicate UpNext(s: CString) {
    |s| >= 2 && s[0] == DOT && s[1] == DOT && (|s| == 2 || s[2] == SLASH)
  }

  function AfterUp(s: CString): CString
    requires UpNext(s)
  {
    if |s| == 2 then [] else s[3..]
  }

  /** out, which ends in a slash, backed up to the slash before that; the root stays. */
  function Back(out: CString): (r: CString)
    requires Absolute(out) && out[|out| - 1] == SLASH
    ensures Absolute(r) && r[|r| - 1] == SLASH && r <= out
  {
    if |out| > 1 then
      assert out[..|out| - 1][0] == SLASH;
      out[..LastSlash(out[..|out| - 1]) + 1]
    else out
  }

  /** The text after copying all of s behind out. */
  function Scan(out: CString, s: CString): (r: CString)
    requires Absolute(out)
    ensures Absolute(r)
    decreases |s|
  {
    if s == [] then out
    else if out[|out| - 1] == SLASH && UpNext(s) then Scan(Back(out), AfterUp(s))
    else Scan(out + [s[0]], s[1..])
  }

  // ---- The scanner refines the resolver

  /** The backwards search always lands on the previous component boundary. */
  lemma BackPrefix(st: Path)
    ensures Back(Prefix(st)) == Prefix(Enter(st, DOTDOT))
  {
    if st != [] {
      var p, c := Prefix(st[..|st| - 1]), st[|st| - 1];
      assert Prefix(st)[..|Prefix(st)| - 1] == p + c;
      assert (p + c)[|p| - 1] == SLASH && (p + c)[|p|..] == c;
      LastSlashIs(p + c, |p| - 1);
      assert Prefix(st)[..|p|] == p;
    }
  }

  lemma {:induction false} CopyComponent(out: CString, s: CString, k: nat)
    requires Absolute(out) && k <= |s| && SLASH !in s[..k]
    requires out[|out| - 1] != SLASH || !UpNext(s)
    ensures Scan(out, s) == Scan(out + s[..k], s[k..])
    decreases k
  {
    if k == 0 {
      assert out + s[..k] == out && s[k..] == s;
    } else {
      assert s[0] in s[..k];
      assert forall c :: c in s[1..][..k - 1] ==> c in s[..k];
      CopyComponent(out + [s[0]], s[1..], k - 1);
      assert out + [s[0]] + s[1..][..k - 1] == out + s[..k];
      assert s[1..][k - 1..] == s[k..];
    }
  }

  lemma PrefixPush(st: Path, c: Component)
    ensures Prefix(st + [c]) == Prefix(st) + c + [SLASH]
    ensures Render(st + [c]) == Prefix(st) + c
  {
    assert (st + [c])[..|st|] == st;
  }

  /** The test of the loop recognises exactly the component "..". */
  lemma UpNextIsDotDot(s: CString)
    ensures UpNext(s) <==> s[..FirstSlash(s)] == DOTDOT
  {
    if UpNext(s) {
      assert s[1..][1..] == s[2..];
      assert FirstSlash(s) == 2 + FirstSlash(s[2..]) == 2;
    } else if |s| >= 2 && FirstSlash(s) == 2 {
      assert s[..2] == [s[0], s[1]];
    }
  }

  lemma CopyToSlash(out: CString, s: CString, k: nat)
    requires Absolute(out) && !UpNext(s) && k < |s| && SLASH !in s[..k] && s[k] == SLASH
    ensures Scan(out, s) == Scan(out + s[..k] + [SLASH], s[k + 1..])
  {
    CopyComponent(out, s, k);
    ScanSlash(out + s[..k], s[k..]);
    assert s[k..][1..] == s[k + 1..];
  }

  lemma CopyToEnd(out: CString, s: Component)
    requires Absolute(out) && !UpNext(s)
    ensures Scan(out, s) == out + s
  {
    assert s[..|s|] == s;
    CopyComponent(out, s, |s|);
  }

  /** Copying a whole component that is not "..". */
  lemma ScanComponent(st: Path, s: CString)
    requires var k := FirstSlash(s); s[..k] != DOTDOT
    ensures var k := FirstSlash(s);
      Scan(Prefix(st), s) == if k == |s| then Prefix(st) + s else Scan(Prefix(st + [s[..k]]), s[k + 1..])
  {
    var k := FirstSlash(s);
    UpNextIsDotDot(s);
    if k < |s| {
      CopyToSlash(Prefix(st), s, k);
      PrefixPush(st, s[..k]);
    } else {
      assert s[..k] == s;
      CopyToEnd(Prefix(st), s);
    }
  }

  lemma ScanSlash(out: CString, s: CString)
    requires Absolute(out) && s != [] && s[0] == SLASH
    ensures Scan(out, s) == Scan(out + [SLASH], s[1..])
  {
  }

  lemma ScanLast(st: Path, s: Component)
    ensures Scan(Prefix(st), s) == Render(Walk(st, [s]))
  {
    assert FirstSlash(s) == |s|;
    assert [s][1..] == [] && Fold(Enter, st, [s]) == Enter(st, s);
    if s == DOTDOT {
      BackPrefix(st);
      PrefixPush(Enter(st, DOTDOT), []);
    } else {
      ScanComponent(st, s);
      PrefixPush(st, s);
    }
  }

  lemma ScanInner(st: Path, s: CString)
    requires FirstSlash(s) < |s|
    ensures Scan(Prefix(st), s) == Scan(Prefix(Enter(st, s[..FirstSlash(s)])), s[FirstSlash(s) + 1..])
  {
    UpNextIsDotDot(s);
    if UpNext(s) {
      BackPrefix(st);
    } else {
      ScanComponent(st, s);
    }
  }

  lemma WalkInner(st: Path, c: Component, cs: Path)
    requires |cs| > 0
    ensures Walk(st, [c] + cs) == Walk(Enter(st, c), cs)
  {
    assert ([c] + cs)[1..] == cs;
  }

  /** For every text and every stack, scanning is walking. */
  lemma {:induction false} ScanWalks(st: Path, s: CString)
    ensures Scan(Prefix(st), s) == Render(Walk(st, Split(s)))
    decreases |s|
  {
    var k := FirstSlash(s);
    if k == |s| {
      assert s[..k] == s;
      ScanLast(st, s);
    } else {
      ScanInner(st, s);
      WalkInner(st, s[..k], Split(s[k + 1..]));
      ScanWalks(Enter(st, s[..k]), s[k + 1..]);
    }
  }

  // ---- The text tf_makename builds is the resolved path

  function WithSlash(out: CString): (r: CString)
    requires Absolute(out)
    ensures Absolute(r) && r[|r| - 1] == SLASH
  {
    if out[|out| - 1] == SLASH then out else out + [SLASH]
  }

  function WithoutSlash(out: CString): (r: CString)
    requires Absolute(out)
    ensures Absolute(r)
  {
    if |out| > 1 && out[|out| - 1] == SLASH then out[..|out| - 1] else out
  }

  /** What the two copying loops leave, before the trailing slash is removed. */
  function Copied(dir: CString, filename: Option<CString>): (r: CString)
    ensures Absolute(r)
  {
    match filename
    case None => Scan([SLASH], Relative(dir))
    case Some(f) =>
      if Absolute(f) then Scan([SLASH], Relative(f))
      else Scan(WithSlash(Scan([SLASH], Relative(dir))), f)
  }

  lemma RenderEnd(p: Path)
    requires |p| > 0
    ensures Render(p)[|Render(p)| - 1] == SLASH <==> p[|p| - 1] == []
    ensures p[|p| - 1] == [] ==> Render(p) == Prefix(p[..|p| - 1])
  {
    var c := p[|p| - 1];
    if c != [] {
      assert c[|c| - 1] in c;
    }
  }

  lemma BoundaryText(p: Path)
    requires |p| > 0
    ensures WithSlash(Render(p)) == Prefix(Base(p))
  {
    RenderEnd(p);
  }

  lemma TrimmedText(p: Path)
    requires |p| > 0
    ensures WithoutSlash(Render(p)) == Render(Trim(p))
  {
    RenderEnd(p);
    if |p| == 1 {
      assert p[..0] == [];
    }
  }

  lemma CopiedIsResolved(dir: CString, filename: Option<CString>)
    ensures Copied(dir, filename) == Render(Resolve(dir, filename))
  {
    ScanWalks([], Relative(dir));
    match filename
    case None =>
    case Some(f) =>
      if Absolute(f) {
        ScanWalks([], Relative(f));
      } else {
        BoundaryText(Walk([], Split(Relative(dir))));
        ScanWalks(Base(Walk([], Split(Relative(dir)))), f);
      }
  }

  // ---- In place

  /** The last slash of the string in the buffer, which ends at its first zero. */
  method StrRChr(buf: array<byte>, ghost end: nat) returns (k: nat)
    requires end < buf.Length && buf[end] == 0 && 0 !in buf[..end]
    requires SLASH in buf[..end]
    ensures k == LastSlash(buf[..end])
  {
    k := 0;
    var i := 0;
    ghost var found := false;
    assert forall j :: 0 <= j < end ==> buf[j] in buf[..end];
    while buf[i] != 0
      invariant i <= end
      invariant found <==> SLASH in buf[..i]
      invariant found ==> k == LastSlash(buf[..i])
      decreases end - i
    {
      assert buf[..i + 1] == buf[..i] + [buf[i]] && buf[..i + 1][..i] == buf[..i];
      if buf[i] == SLASH {
        k, found := i, true;
      }
      i := i + 1;
    }
  }

  /** Backs up to the previous component boundary. */
  method BackUp(buf: array<byte>, pt0: nat) returns (pt: nat)
    requires 1 <= pt0 <= buf.Length && 0 !in buf[..pt0] && buf[0] == SLASH && buf[pt0 - 1] == SLASH
    modifies buf
    ensures 1 <= pt <= pt0 && buf[..pt] == Back(old(buf[..pt0]))
  {
    ghost var out := buf[..pt0];
    if pt0 > 1 {
      buf[pt0 - 1] := 0;
      assert buf[..pt0 - 1] == out[..pt0 - 1];
      assert buf[..pt0 - 1][0] == SLASH;
      var k := StrRChr(buf, pt0 - 1);
      assert buf[..k + 1] == out[..k + 1];
      pt := k + 1;
    } else {
      pt := 1;
    }
  }

  /** The test of the loop, character by character. */
  predicate UpAt(s: CString, d: nat)
    requires d < |s|
  {
    s[d] == DOT && d + 1 < |s| && s[d + 1] == DOT && (d + 2 == |s| || s[d + 2] == SLASH)
  }

  lemma UpAtIsUpNext(s: CString, d: nat)
    requires d < |s|
    ensures UpAt(s, d) <==> UpNext(s[d..])
    ensures UpAt(s, d) ==> AfterUp(s[d..]) == if d + 2 == |s| then s[d + 2..] else s[d + 3..]
  {
  }

  /** One turn of the loop: a ".." component is consumed, or one character copied. */
  method CopyStep(buf: array<byte>, pt0: nat, s: CString, d0: nat) returns (pt: nat, d: nat)
    requires 1 <= pt0 < buf.Length && d0 < |s|
    requires 0 !in buf[..pt0] && buf[0] == SLASH
    modifies buf
    ensures d0 < d <= |s| && 1 <= pt <= pt0 + (d - d0) && pt <= buf.Length
    ensures 0 !in buf[..pt] && buf[0] == SLASH
    ensures Scan(buf[..pt], s[d..]) == Scan(old(buf[..pt0]), s[d0..])
  {
    ghost var out := buf[..pt0];
    UpAtIsUpNext(s, d0);
    if buf[pt0 - 1] == SLASH && UpAt(s, d0) {
      pt := BackUp(buf, pt0);
      assert buf[..pt][0] == SLASH;
      d := d0 + 2;
      if d < |s| {
        d := d + 1;
      }
    } else {
      assert s[d0..][1..] == s[d0 + 1..];
      buf[pt0] := s[d0];
      pt, d := pt0 + 1, d0 + 1;
      assert buf[..pt] == out + [s[d0]];
    }
  }

  /** Copies s behind the characters already in the buffer, backing up at every "..". Bounds
      checks on every access show that the cursor stays inside the buffer. */
  method CopyPath(buf: array<byte>, start: nat, s: CString) returns (pt: nat)
    requires 1 <= start && start + |s| < buf.Length
    requires 0 !in buf[..start] && buf[0] == SLASH
    modifies buf
    ensures 1 <= pt <= start + |s| && buf[..pt] == Scan(old(buf[..start]), s)
  {
    pt := start;
    var d := 0;
    assert s[d..] == s;
    while d < |s|
      invariant d <= |s| && 1 <= pt <= start + d
      invariant 0 !in buf[..pt] && buf[0] == SLASH
      invariant Scan(buf[..pt], s[d..]) == Scan(old(buf[..start]), s)
      decreases |s| - d
    {
      pt, d := CopyStep(buf, pt, s, d);
    }
    assert s[d..] == [];
  }

  /** The buffer starts with the string s and its terminator. */
  ghost predicate Holds(buf: array<byte>, s: CString)
    reads buf
  {
    |s| < buf.Length && buf[..|s|] == s && buf[|s|] == 0
  }

  /** A leading slash, the directory and, behind a separator, the file name. */
  method CopyBoth(buf: array<byte>, dir: CString, filename: Option<CString>) returns (pt: nat)
    requires buf.Length >= 1 + |dir| + 1 + (if filename.Some? then |filename.value| else 0) + 1
    requires filename.Some? ==> !Absolute(filename.value)
    modifies buf
    ensures 1 <= pt < buf.Length && buf[..pt] == Copied(dir, filename)
  {
    buf[0] := SLASH;
    assert buf[..1] == [SLASH];
    pt := CopyPath(buf, 1, Relative(dir));
    if filename.Some? {
      ghost var out := buf[..pt];
      assert out[0] == SLASH;
      if buf[pt - 1] != SLASH {
        buf[pt] := SLASH;
        pt := pt + 1;
        assert buf[..pt] == out + [SLASH];
      }
      assert buf[..pt][0] == SLASH;
      pt := CopyPath(buf, pt, filename.value);
    }
  }

  /** Removes a trailing slash and ends the string. */
  method Finish(buf: array<byte>, end: nat, ghost out: CString)
    requires 1 <= end < buf.Length && buf[..end] == out && Absolute(out)
    modifies buf
    ensures Holds(buf, WithoutSlash(out))
  {
    var pt := end;
    if pt > 1 && buf[pt - 1] == SLASH {
      pt := pt - 1;
      assert buf[..pt] == buf[..pt + 1][..pt];
    }
    buf[pt] := 0;
    assert buf[..pt] == out[..pt];
  }

  /** The path is the resolved one, in a buffer that is just large enough for the worst case. */
  method TfMakeName(dir: CString, filename: Option<CString>) returns (buf: array<byte>)
    ensures fresh(buf) && Holds(buf, CanonicalName(dir, filename))
  {
    CopiedIsResolved(dir, filename);
    TrimmedText(Resolve(dir, filename));
    buf := new byte[1 + |dir| + 1 + (if filename.Some? then |filename.value| else 0) + 1];
    var d, f := dir, filename;
    if f.Some? && f.value != [] && f.value[0] == SLASH {
      d, f := f.value, None;
    }
    var pt := CopyBoth(buf, d, f);
    assert Copied(d, f) == Copied(dir, filename);
    Finish(buf, pt, Copied(d, f));
  }
}
