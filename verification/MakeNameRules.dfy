/** tf_makename as its callers see it: rules on the texts themselves. */
module MakeNameRules {
  import opened Bytes
  import opened Folds
  import opened Packets
  import opened MakeName
  import opened MakeNameLaws

  // ---- Without ".."

  /** A text without one trailing slash, unless it is the root. */
  function Chopped(t: seq<byte>): seq<byte> {
    if |t| > 1 && t[|t| - 1] == 0x2F then t[..|t| - 1] else t
  }

  /** A name behind a directory, with a slash between them if there is none. */
  function Behind(t: seq<byte>, f: seq<byte>): seq<byte>
    requires t != []
  {
    if t[|t| - 1] == 0x2F then t + f else t + [0x2F] + f
  }

  lemma Grouped(x: seq<byte>, u: seq<byte>, y: seq<byte>, v: seq<byte>)
    ensures x + (u + y + v) == x + u + y + v
  {
  }

  /** Splitting and rendering only add the leading slash. */
  lemma {:induction false} RenderSplit(s: CString)
    ensures Render(Split(s)) == [SLASH] + s
    decreases |s|
  {
    if SLASH in s {
      var k := LastSlash(s);
      Rejoined(s, k);
      RenderSplit(s[..k]);
      RenderLast(s[..k], s[k + 1..]);
    } else {
      SplitNone(s);
    }
  }

  lemma RenderLast(u: CString, c: Component)
    requires Render(Split(u)) == [SLASH] + u
    ensures Render(Split(u + [SLASH] + c)) == [SLASH] + (u + [SLASH] + c)
  {
    SplitJoin(u, c);
    SplitNone(c);
    RenderMore(Split(u), c);
    Grouped([SLASH], u, [SLASH], c);
  }

  lemma RenderMore(p: Path, c: Component)
    requires |p| > 0
    ensures Render(p + [c]) == Render(p) + [SLASH] + c
  {
    assert (p + [c])[..|p|] == p;
  }

  /** A directory without "..": a leading slash, and no trailing one. */
  lemma DirectoryAlone(dir: CString)
    requires NoUps(Relative(dir))
    ensures CanonicalName(dir, None) == Chopped([0x2F] + Relative(dir))
  {
    var s := Relative(dir);
    WalkPlain([], s);
    assert [] + Split(s) == Split(s);
    RenderSplit(s);
    TrimmedText(Split(s));
  }

  /** A file name behind a directory, both without "..". */
  lemma NameInDirectory(dir: CString, f: CString)
    requires !Absolute(f) && NoUps(Relative(dir)) && NoUps(f)
    ensures CanonicalName(dir, Some(f)) == Chopped(Behind([0x2F] + Relative(dir), f))
  {
    var s := Relative(dir);
    WalkPlain([], s);
    assert [] + Split(s) == Split(s);
    WalkPlain(Base(Split(s)), f);
    RenderBehind(s, f);
    TrimmedText(Base(Split(s)) + Split(f));
  }

  lemma RenderBehind(s: CString, f: CString)
    ensures Render(Base(Split(s)) + Split(f)) == Behind([SLASH] + s, f)
  {
    if s == [] {
      assert [SLASH] + s == [SLASH];
      BehindNothing(f);
    } else if s[|s| - 1] == SLASH {
      EndOf(s);
      BehindSlash(s[..|s| - 1], f);
    } else {
      BehindName(s, f);
    }
  }

  lemma BehindNothing(f: CString)
    ensures Render(Base(Split([])) + Split(f)) == Behind([SLASH], f)
  {
    SplitNone([]);
    assert Base(Split([])) + Split(f) == Split(f);
    RenderSplit(f);
  }

  lemma EndOf(s: CString)
    requires s != [] && s[|s| - 1] == SLASH
    ensures s == s[..|s| - 1] + [SLASH]
  {
  }

  lemma SplitEnd(u: CString)
    ensures Split(u + [SLASH]) == Split(u) + [[]]
  {
    var s: CString := u + [SLASH];
    assert s == u + [SLASH] + [];
    SplitJoin(u, []);
    SplitNone([]);
  }

  lemma BehindSlash(u: CString, f: CString)
    ensures Render(Base(Split(u + [SLASH])) + Split(f)) == Behind([SLASH] + (u + [SLASH]), f)
  {
    SplitEnd(u);
    assert Base(Split(u) + [[]]) == Split(u);
    RenderJoined(u, f);
    assert [SLASH] + u + [SLASH] == [SLASH] + (u + [SLASH]);
  }

  lemma BehindName(s: CString, f: CString)
    requires s != [] && s[|s| - 1] != SLASH
    ensures Render(Base(Split(s)) + Split(f)) == Behind([SLASH] + s, f)
  {
    SplitLast(s);
    RenderJoined(s, f);
    BehindText([SLASH], s, f);
  }

  lemma RenderJoined(s: CString, f: CString)
    ensures Render(Split(s) + Split(f)) == [SLASH] + s + [SLASH] + f
  {
    SplitJoin(s, f);
    RenderSplit(s + [SLASH] + f);
    Grouped([SLASH], s, [SLASH], f);
  }

  lemma BehindText(x: seq<byte>, s: seq<byte>, f: seq<byte>)
    requires s != [] && s[|s| - 1] != 0x2F
    ensures Behind(x + s, f) == x + s + [0x2F] + f
  {
    assert (x + s)[|x + s| - 1] == s[|s| - 1];
  }

  // ---- What does not matter

  /** A file name with a leading slash ignores the directory. */
  lemma AbsoluteIgnoresDirectory(dir: CString, f: CString)
    requires Absolute(f)
    ensures CanonicalName(dir, Some(f)) == CanonicalName(f, None)
  {
  }

  /** A directory may be given with or without its leading slash. */
  lemma LeadingSlash(dir: CString, filename: Option<CString>)
    requires !Absolute(dir)
    ensures CanonicalName([0x2F] + dir, filename) == CanonicalName(dir, filename)
  {
    assert Relative([0x2F] + dir) == dir == Relative(dir);
  }

  // ---- Going up

  /** The beginning of a path, up to a slash. */
  predicate AtBoundary(a: CString) {
    a == [] || a[|a| - 1] == SLASH
  }

  /** The components before a boundary. */
  function Heads(a: CString): Path
    requires AtBoundary(a)
  {
    if a == [] then [] else Split(a[..|a| - 1])
  }

  lemma SplitBehind(a: CString, s: CString)
    requires AtBoundary(a)
    ensures Split(a + s) == Heads(a) + Split(s)
  {
    if a == [] {
      assert a + s == s;
    } else {
      EndOf(a);
      SplitJoin(a[..|a| - 1], s);
    }
  }

  lemma SplitAlone(a: CString)
    requires AtBoundary(a)
    ensures Split(a) == Heads(a) + [[]]
  {
    SplitBehind(a, []);
    SplitNone([]);
    assert a + [] == a;
  }

  const UP: Component := [0x2E, 0x2E]

  /** The text ../b. */
  function Above(b: CString): (m: CString)
    ensures !Absolute(m)
    ensures Split(m) == [UP] + Split(b)
  {
    SplitFirst(UP, b);
    UP + [0x2F] + b
  }

  /** The text c/../b. */
  function Around(c: Component, b: CString): (m: CString)
    ensures c != [] ==> !Absolute(m)
    ensures Split(m) == [c] + ([UP] + Split(b))
  {
    SplitFirst(c, Above(b));
    c + [0x2F] + Above(b)
  }

  /** The text c/.. without anything behind it. */
  function AroundLast(c: Component): (m: CString)
    ensures c != [] ==> !Absolute(m)
    ensures Split(m) == [c] + [UP]
  {
    SplitFirst(c, UP);
    SplitNone(UP);
    c + [0x2F] + UP
  }

  lemma EnterAndLeave(st: Path, x: Path, c: Component, y: Path)
    requires c != UP
    ensures Fold(Enter, st, x + ([c] + ([UP] + y))) == Fold(Enter, st, x + y)
  {
    var tail: Path := [UP] + y;
    var all: Path := [c] + tail;
    var at := Fold(Enter, st, x);
    FoldAppend(Enter, st, x, all);
    FoldAppend(Enter, st, x, y);
    assert all[1..] == tail && tail[1..] == y;
    assert Enter(Enter(at, c), UP) == at;
    assert Fold(Enter, at, all) == Fold(Enter, Enter(at, c), tail) == Fold(Enter, at, y);
  }

  lemma WalkSame(st: Path, x: Path, y: Path)
    requires x != [] && y != [] && x[|x| - 1] == y[|y| - 1] && Fold(Enter, st, x) == Fold(Enter, st, y)
    ensures Walk(st, x) == Walk(st, y)
  {
  }

  /** A way that goes down one component and up again, and then goes on as b does. */
  predicate Detour(m: CString, c: Component, b: CString) {
    c != UP && Split(m) == [c] + ([UP] + Split(b))
  }

  lemma WalkDetour(st: Path, a: CString, m: CString, c: Component, b: CString)
    requires AtBoundary(a) && Detour(m, c, b)
    ensures Walk(st, Split(a + m)) == Walk(st, Split(a + b))
  {
    SplitBehind(a, m);
    SplitBehind(a, b);
    EnterAndLeave(st, Heads(a), c, Split(b));
    WalkSame(st, Heads(a) + ([c] + ([UP] + Split(b))), Heads(a) + Split(b));
  }

  /** The same at the end of a path. */
  predicate DetourLast(m: CString, c: Component) {
    c != UP && Split(m) == [c] + [UP]
  }

  lemma WalkDetourLast(st: Path, a: CString, m: CString, c: Component)
    requires AtBoundary(a) && DetourLast(m, c)
    ensures Walk(st, Split(a + m)) == Walk(st, Split(a))
  {
    SplitBehind(a, m);
    SplitAlone(a);
    WalkUpLast(st, Heads(a), c);
  }

  lemma WalkUpLast(st: Path, x: Path, c: Component)
    requires c != UP
    ensures Walk(st, x + ([c] + [UP])) == Walk(st, x + [[]])
  {
    EnterAndLeave(st, x, c, []);
    assert [c] + ([UP] + []) == [c] + [UP] && x + [] == x;
    EnterLast(st, x, []);
  }

  lemma EnterLast(st: Path, x: Path, c: Component)
    ensures Fold(Enter, st, x + [c]) == Enter(Fold(Enter, st, x), c)
  {
    FoldAppend(Enter, st, x, [c]);
    assert [c][1..] == [];
  }

  /** Only where a directory leads matters. */
  lemma DirectoriesAlike(d: CString, e: CString, filename: Option<CString>)
    requires Walk([], Split(Relative(d))) == Walk([], Split(Relative(e)))
    ensures CanonicalName(d, filename) == CanonicalName(e, filename)
  {
  }

  lemma RelativeBehind(a: CString, s: CString)
    ensures a != [] ==> Relative(a + s) == Relative(a) + s
    ensures a == [] ==> Relative(a + s) == Relative(s)
    ensures AtBoundary(a) ==> AtBoundary(Relative(a))
  {
    if a == [] {
      assert a + s == s;
    }
  }

  lemma DirectoryDetour(a: CString, m: CString, c: Component, b: CString, filename: Option<CString>)
    requires AtBoundary(a) && Detour(m, c, b)
    requires a == [] ==> !Absolute(m) && !Absolute(b)
    ensures CanonicalName(a + m, filename) == CanonicalName(a + b, filename)
  {
    RelativeBehind(a, m);
    RelativeBehind(a, b);
    WalkDetour([], Relative(a), m, c, b);
    assert a == [] ==> Relative(a) + m == m && Relative(a) + b == b;
    DirectoriesAlike(a + m, a + b, filename);
  }

  lemma DirectoryDetourLast(a: CString, m: CString, c: Component, filename: Option<CString>)
    requires AtBoundary(a) && DetourLast(m, c)
    requires a == [] ==> !Absolute(m)
    ensures CanonicalName(a + m, filename) == CanonicalName(a, filename)
  {
    RelativeBehind(a, m);
    WalkDetourLast([], Relative(a), m, c);
    assert a == [] ==> Relative(a) + m == m;
    DirectoriesAlike(a + m, a, filename);
  }

  lemma NameDetour(dir: CString, a: CString, m: CString, c: Component, b: CString)
    requires AtBoundary(a) && !Absolute(a) && Detour(m, c, b)
    requires a == [] ==> !Absolute(m) && !Absolute(b)
    ensures CanonicalName(dir, Some(a + m)) == CanonicalName(dir, Some(a + b))
  {
    assert !Absolute(a + m) && !Absolute(a + b);
    WalkDetour(Base(Walk([], Split(Relative(dir)))), a, m, c, b);
  }

  lemma NameDetourLast(dir: CString, a: CString, m: CString, c: Component)
    requires AtBoundary(a) && !Absolute(a) && DetourLast(m, c)
    requires a == [] ==> !Absolute(m)
    ensures CanonicalName(dir, Some(a + m)) == CanonicalName(dir, Some(a))
  {
    assert !Absolute(a + m);
    WalkDetourLast(Base(Walk([], Split(Relative(dir)))), a, m, c);
  }

  /** One text behind another. */
  function Then(a: CString, b: CString): CString {
    a + b
  }

  /** Where a component may stand: anything but "..", and at the very beginning not nothing. */
  predicate MayStand(a: CString, c: Component) {
    AtBoundary(a) && c != UP && (a == [] ==> c != [])
  }

  /** A component and the ".." behind it may be left out, anywhere in a directory. */
  lemma DirectoryDownAndUp(a: CString, c: Component, b: CString, filename: Option<CString>)
    requires MayStand(a, c) && (a == [] ==> !Absolute(b))
    ensures CanonicalName(Then(a, Around(c, b)), filename) == CanonicalName(Then(a, b), filename)
    ensures CanonicalName(Then(a, AroundLast(c)), filename) == CanonicalName(a, filename)
  {
    DirectoryDetour(a, Around(c, b), c, b, filename);
    DirectoryDetourLast(a, AroundLast(c), c, filename);
  }

  /** And anywhere in a relative file name. */
  lemma NameDownAndUp(dir: CString, a: CString, c: Component, b: CString)
    requires MayStand(a, c) && !Absolute(a) && (a == [] ==> !Absolute(b))
    ensures CanonicalName(dir, Some(Then(a, Around(c, b)))) == CanonicalName(dir, Some(Then(a, b)))
    ensures CanonicalName(dir, Some(Then(a, AroundLast(c)))) == CanonicalName(dir, Some(a))
  {
    NameDetour(dir, a, Around(c, b), c, b);
    NameDetourLast(dir, a, AroundLast(c), c);
  }

  lemma UpFrom(st: Path, m: CString, b: CString)
    requires Split(m) == [UP] + Split(b)
    ensures Walk(st, Split(m)) == Walk(Enter(st, UP), Split(b))
  {
    assert ([UP] + Split(b))[1..] == Split(b);
  }

  lemma UpFromLast(st: Path, m: CString)
    requires Split(m) == [UP]
    ensures Walk(st, Split(m)) == Walk(Enter(st, UP), Split([]))
  {
    SplitNone([]);
    EnterLast(st, [], UP);
    EnterLast(Enter(st, UP), [], []);
    assert [] + [UP] == [UP];
  }

  /** Above the root there is only the root. */
  lemma RootStays(b: CString, filename: Option<CString>)
    requires !Absolute(b)
    ensures CanonicalName(Above(b), filename) == CanonicalName(b, filename)
    ensures CanonicalName(UP, filename) == CanonicalName([], filename)
  {
    SplitNone(UP);
    UpFrom([], Above(b), b);
    UpFromLast([], UP);
    DirectoriesAlike(Above(b), b, filename);
    DirectoriesAlike(UP, [], filename);
  }

  lemma WalkLast(a: CString, c: Component)
    requires AtBoundary(a) && c != UP
    ensures Walk([], Split(a + c)) == Fold(Enter, [], Heads(a)) + [c]
    ensures Walk([], Split(a)) == Fold(Enter, [], Heads(a)) + [[]]
  {
    SplitNone(c);
    SplitBehind(a, c);
    EnterLast([], Heads(a), c);
    SplitAlone(a);
    EnterLast([], Heads(a), []);
  }

  /** A file name that begins with ".." leaves the last component of the directory. */
  lemma NameClimbs(a: CString, c: Component, g: CString)
    requires AtBoundary(a) && c != UP && c != [] && !Absolute(g)
    ensures CanonicalName(a + c, Some(Above(g))) == CanonicalName(a, Some(g))
    ensures CanonicalName(a + c, Some(UP)) == CanonicalName(a, None)
  {
    var st := LastIn(a, c);
    ClimbsFrom(a + c, a, st, c, Above(g), g);
    ClimbsLast(a + c, a, st, c);
  }

  lemma LastIn(a: CString, c: Component) returns (st: Path)
    requires AtBoundary(a) && c != UP && c != []
    ensures Walk([], Split(Relative(a + c))) == st + [c] && Walk([], Split(Relative(a))) == st + [[]]
  {
    RelativeBehind(a, c);
    assert a == [] ==> Relative(a) + c == c;
    WalkLast(Relative(a), c);
    st := Fold(Enter, [], Heads(Relative(a)));
  }

  lemma ClimbsLast(d: CString, a: CString, st: Path, c: Component)
    requires Walk([], Split(Relative(d))) == st + [c] && Walk([], Split(Relative(a))) == st + [[]] && c != []
    ensures CanonicalName(d, Some(UP)) == CanonicalName(a, None)
  {
    SplitNone(UP);
    UpFromLast(st + [c], UP);
    SplitNone([]);
    assert Enter(st + [c], UP) == st;
    EnterLast(st, [], []);
  }

  lemma ClimbsFrom(d: CString, a: CString, st: Path, c: Component, m: CString, g: CString)
    requires Walk([], Split(Relative(d))) == st + [c] && Walk([], Split(Relative(a))) == st + [[]]
    requires c != [] && !Absolute(m) && !Absolute(g) && Split(m) == [UP] + Split(g)
    ensures CanonicalName(d, Some(m)) == CanonicalName(a, Some(g))
  {
    UpFrom(st + [c], m, g);
    assert Base(st + [c]) == st + [c] && Base(st + [[]]) == st;
    assert Enter(st + [c], UP) == st;
  }

  // ---- The cases of test_makename.c, for all names

  /** A name: a component that is neither empty nor "..". */
  predicate Plain(c: Component) {
    c != [] && c != UP
  }

  lemma NoUpsIn(c: Component, d: Component)
    requires c != UP && d != UP
    ensures NoUps(c) && NoUps(c + [SLASH]) && NoUps(c + [SLASH] + d) && !Absolute(c)
  {
    SplitNone(c);
    SplitNone(d);
    SplitEnd(c);
    SplitFirst(c, d);
  }

  lemma FileIn(dir: CString, f: Component)
    requires Plain(f) && NoUps(Relative(dir))
    ensures CanonicalName(dir, Some(f)) == Behind([0x2F] + Relative(dir), f)
  {
    NoUpsIn(f, f);
    NameInDirectory(dir, f);
    BehindLast([0x2F] + Relative(dir), f);
  }

  lemma BehindLast(t: seq<byte>, f: seq<byte>)
    requires t != [] && f != [] && 0x2F !in f
    ensures Behind(t, f)[|Behind(t, f)| - 1] != 0x2F
  {
    assert Behind(t, f)[|Behind(t, f)| - 1] == f[|f| - 1];
  }

  /** The root, however it is given. */
  lemma CaseRoot(dir: CString, filename: Option<CString>)
    requires dir in {[], [0x2F]} && (filename.Some? ==> filename.value == [])
    ensures CanonicalName(dir, filename) == [0x2F]
  {
    NoUpsIn([], []);
    assert Relative(dir) == [];
    match filename
    case None => DirectoryAlone(dir);
    case Some(f) => NameInDirectory(dir, f);
  }

  /** The text d/f, with or without a slash in front or behind. */
  function Slashed(before: bool, c: CString, after: bool): (s: CString) {
    (if before then [0x2F] else []) + c + if after then [0x2F] else []
  }

  lemma SlashedRelative(before: bool, c: Component, after: bool)
    requires Plain(c)
    ensures Relative(Slashed(before, c, after)) == Slashed(false, c, after) && NoUps(Slashed(false, c, after))
    ensures Absolute(Slashed(before, c, after)) <==> before
  {
    NoUpsIn(c, c);
    assert Slashed(false, c, after) == if after then c + [SLASH] else c;
    assert Slashed(true, c, after) == [SLASH] + Slashed(false, c, after);
  }

  /** A file in the root. */
  lemma CaseInRoot(dir: CString, f: Component)
    requires dir in {[], [0x2F]} && Plain(f)
    ensures CanonicalName(dir, Some(f)) == [0x2F] + f
  {
    NoUpsIn([], []);
    assert Relative(dir) == [];
    FileIn(dir, f);
    assert [0x2F] + [] == [0x2F];
  }

  /** A file in a directory, with any slashes around the directory. */
  lemma CaseInDirectory(before: bool, d: Component, after: bool, f: Component)
    requires Plain(d) && Plain(f)
    ensures CanonicalName(Slashed(before, d, after), Some(f)) == [0x2F] + d + [0x2F] + f
  {
    SlashedRelative(before, d, after);
    FileIn(Slashed(before, d, after), f);
    BehindSlashed(d, after, f);
  }

  lemma BehindSlashed(d: Component, after: bool, f: CString)
    requires d != []
    ensures Behind([0x2F] + Slashed(false, d, after), f) == [0x2F] + d + [0x2F] + f
  {
    var t := [0x2F] + Slashed(false, d, after);
    if after {
      assert t == [0x2F] + d + [0x2F];
    } else {
      assert t == [0x2F] + d && t[|t| - 1] == d[|d| - 1] && d[|d| - 1] in d;
    }
  }

  /** An absolute file, with or without a slash behind it, from any directory. */
  lemma CaseAbsolute(dir: CString, f: Component, after: bool)
    requires Plain(f)
    ensures CanonicalName(dir, Some(Slashed(true, f, after))) == [0x2F] + f
  {
    SlashedRelative(true, f, after);
    DirectoryAlone(Slashed(true, f, after));
    assert f[|f| - 1] in f;
    var t := [0x2F] + Slashed(false, f, after);
    assert t == [0x2F] + f + (if after then [0x2F] else []);
    assert if after then t[..|t| - 1] == [0x2F] + f else t[|t| - 1] == f[|f| - 1];
  }

  lemma CasePlain(n: Component, f: Component)
    requires Plain(n) && Plain(f)
    ensures CanonicalName(n, Some(f)) == [0x2F] + n + [0x2F] + f
    ensures CanonicalName(Then([0x2F], n), Some(f)) == [0x2F] + n + [0x2F] + f
  {
    CaseInDirectory(false, n, false, f);
    CaseInDirectory(true, n, false, f);
    SlashedIs(n);
  }

  lemma SlashedIs(c: CString)
    ensures Slashed(false, c, false) == c && Slashed(true, c, false) == Then([0x2F], c)
  {
  }

  /** Up again in the directory. */
  lemma CaseUpInDirectory(d: Component, n: Component, f: Component)
    requires Plain(d) && Plain(n) && Plain(f)
    ensures CanonicalName(Then([0x2F], Around(d, n)), Some(f)) == [0x2F] + n + [0x2F] + f
  {
    DirectoryDownAndUp([0x2F], d, n, Some(f));
    CasePlain(n, f);
  }

  /** Up from the root in the directory. */
  lemma CaseUpFromRoot(n: Component, f: Component)
    requires Plain(n) && Plain(f)
    ensures CanonicalName(Then([0x2F], Above(n)), Some(f)) == [0x2F] + n + [0x2F] + f
  {
    NoUpsIn(n, n);
    LeadingSlash(Above(n), Some(f));
    RootStays(n, Some(f));
    CasePlain(n, f);
  }

  /** Up in the file name. */
  lemma CaseUpInName(d: Component, o: Component, n: Component)
    requires Plain(d) && Plain(o) && Plain(n)
    ensures CanonicalName(Then(Slashed(true, d, true), o), Some(UP)) == [0x2F] + d
    ensures CanonicalName(Then(Slashed(true, d, true), o), Some(Above(n))) == [0x2F] + d + [0x2F] + n
  {
    var a := Slashed(true, d, true);
    NoUpsIn(n, n);
    assert AtBoundary(a);
    NameClimbs(a, o, n);
    CaseInDirectory(true, d, true, n);
    CaseAlone(d);
  }

  lemma CaseAlone(d: Component)
    requires Plain(d)
    ensures CanonicalName(Slashed(true, d, true), None) == [0x2F] + d
  {
    SlashedRelative(true, d, true);
    DirectoryAlone(Slashed(true, d, true));
    assert [0x2F] + Slashed(false, d, true) == [0x2F] + d + [0x2F];
  }
}
