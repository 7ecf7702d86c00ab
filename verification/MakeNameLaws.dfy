/** tf_makename as a change of directory: what repeating and nesting it does. */
module MakeNameLaws {
  import opened Bytes
  import opened Folds
  import opened Packets
  import opened MakeName

  // ---- Canonical paths

  predicate NoDotDot(p: Path) {
    DOTDOT !in p
  }

  lemma {:induction false} EnteredNoDotDot(st: Path, cs: Path)
    requires NoDotDot(st)
    ensures NoDotDot(Fold(Enter, st, cs))
    decreases |cs|
  {
    if cs != [] {
      EnteredNoDotDot(Enter(st, cs[0]), cs[1..]);
    }
  }

  /** The result never goes upwards: no component of a canonical name is "..". */
  lemma ResolvedNoDotDot(dir: CString, filename: Option<CString>)
    ensures NoDotDot(Resolve(dir, filename)) && NoDotDot(Trim(Resolve(dir, filename)))
  {
    EnteredNoDotDot([], Split(Relative(dir)));
    match filename
    case None =>
    case Some(f) =>
      EnteredNoDotDot([], Split(Relative(f)));
      EnteredNoDotDot(Base(Walk([], Split(Relative(dir)))), Split(f));
  }

  // ---- Reading a rendered path back

  lemma {:induction false} FirstSlashAt(c: Component, s: CString)
    ensures FirstSlash(c + [SLASH] + s) == |c|
    decreases |c|
  {
    if c != [] {
      assert c[0] in c;
      assert (c + [SLASH] + s)[1..] == c[1..] + [SLASH] + s;
      FirstSlashAt(c[1..], s);
    }
  }

  lemma SplitFirst(c: Component, s: CString)
    ensures Split(c + [SLASH] + s) == [c] + Split(s)
  {
    FirstSlashAt(c, s);
    var t := c + [SLASH] + s;
    assert t[..|c|] == c && t[|c| + 1..] == s;
  }

  lemma {:induction false} SplitPrefix(st: Path, s: CString)
    ensures Split((Prefix(st) + s)[1..]) == st + Split(s)
    decreases |st|
  {
    if st == [] {
      assert (Prefix(st) + s)[1..] == s;
    } else {
      var rest, c := st[..|st| - 1], st[|st| - 1];
      var t := c + [SLASH] + s;
      assert Prefix(st) + s == Prefix(rest) + t;
      SplitPrefix(rest, t);
      SplitFirst(c, s);
      assert rest + ([c] + Split(s)) == st + Split(s);
    }
  }

  lemma {:induction false} FirstSlashNone(c: Component)
    ensures FirstSlash(c) == |c|
    decreases |c|
  {
    if c != [] {
      assert c[0] in c;
      FirstSlashNone(c[1..]);
    }
  }

  /** Rendering loses nothing. */
  lemma SplitRender(p: Path)
    requires |p| > 0
    ensures Split(Relative(Render(p))) == p
  {
    var c := p[|p| - 1];
    SplitPrefix(p[..|p| - 1], c);
    FirstSlashNone(c);
    assert p[..|p| - 1] + [c] == p;
  }

  lemma {:induction false} EnterPlain(st: Path, p: Path)
    requires NoDotDot(p)
    ensures Fold(Enter, st, p) == st + p
    decreases |p|
  {
    if p == [] {
      assert st + p == st;
    } else {
      EnterPlain(st + [p[0]], p[1..]);
      assert st + [p[0]] + p[1..] == st + p;
    }
  }

  /** Walking a canonical path from the root rebuilds it. */
  lemma WalkRendered(p: Path)
    requires |p| > 0 && NoDotDot(p)
    ensures Walk([], Split(Relative(Render(p)))) == p
  {
    SplitRender(p);
    EnterPlain([], p);
  }

  // ---- Canonicalising twice

  predicate EndsInSlash(s: CString) {
    |s| > 1 && s[|s| - 1] == SLASH
  }

  /** Canonicalising a result again changes nothing exactly when it has no trailing slash left
      over, which only an empty component can cause. */
  lemma CanonicalTwice(dir: CString, filename: Option<CString>)
    ensures var x := CanonicalName(dir, filename);
      CanonicalName(x, None) == x <==> !EndsInSlash(x)
  {
    var p := Trim(Resolve(dir, filename));
    ResolvedNoDotDot(dir, filename);
    WalkRendered(p);
    TrimmedText(p);
  }

  // ---- Nesting

  /** Where a relative file name leads from a directory: the components entered. */
  function Entered(dir: CString, f: CString): Path {
    Fold(Enter, Base(Walk([], Split(Relative(dir)))), Split(f))
  }

  predicate EndsEmpty(p: Path) {
    p != [] && p[|p| - 1] == []
  }

  lemma SplitStep(s: CString)
    requires FirstSlash(s) < |s|
    ensures Split(s) == [s[..FirstSlash(s)]] + Split(s[FirstSlash(s) + 1..])
  {
  }

  lemma Rejoined(s: seq<byte>, k: nat)
    requires k < |s| && s[k] == SLASH
    ensures s == s[..k] + [SLASH] + s[k + 1..]
  {
  }

  lemma Regrouped(c: seq<byte>, rest: seq<byte>, g: seq<byte>)
    ensures c + [SLASH] + rest + [SLASH] + g == c + [SLASH] + (rest + [SLASH] + g)
  {
  }

  lemma PathsRegrouped(c: Component, x: Path, y: Path)
    ensures [c] + (x + y) == [c] + x + y
  {
  }

  lemma SplitNone(f: Component)
    ensures Split(f) == [f]
  {
    FirstSlashNone(f);
  }

  lemma {:induction false} SplitJoin(f: CString, g: CString)
    ensures Split(f + [SLASH] + g) == Split(f) + Split(g)
    decreases |f|
  {
    var k := FirstSlash(f);
    if k == |f| {
      assert f[..k] == f;
      SplitNone(f);
      SplitFirst(f, g);
    } else {
      var c, rest := f[..k], f[k + 1..];
      var joined: CString := rest + [SLASH] + g;
      Rejoined(f, k);
      Regrouped(c, rest, g);
      SplitStep(f);
      SplitJoin(rest, g);
      SplitFirst(c, joined);
      PathsRegrouped(c, Split(rest), Split(g));
    }
  }

  lemma TrimmedBase(e: Path, p: Path)
    requires |p| > 0 && (p == e || p == e + [[]])
    ensures if EndsEmpty(e) then |Base(Trim(p))| < |e| else Base(Trim(p)) == e
  {
  }

  /** The directory that a canonical result stands for, when it is used as one. */
  lemma BaseOfResult(dir: CString, f: CString)
    requires !Absolute(f)
    ensures var b := Base(Walk([], Split(Relative(CanonicalName(dir, Some(f))))));
      if EndsEmpty(Entered(dir, f)) then |b| < |Entered(dir, f)| else b == Entered(dir, f)
  {
    var e, p := Entered(dir, f), Resolve(dir, Some(f));
    ResolvedNoDotDot(dir, Some(f));
    WalkRendered(Trim(p));
    assert p == e || p == e + [[]];
    TrimmedBase(e, p);
  }

  /** The nested call and the joined one enter the same components from their starting points. */
  lemma NestedAndJoined(dir: CString, f: CString, g: CString)
    requires f != [] && !Absolute(f) && !Absolute(g)
    ensures Resolve(CanonicalName(dir, Some(f)), Some(g)) ==
            Walk(Base(Walk([], Split(Relative(CanonicalName(dir, Some(f)))))), Split(g))
    ensures Resolve(dir, Some(f + [SLASH] + g)) == Walk(Entered(dir, f), Split(g))
  {
    SplitJoin(f, g);
    FoldAppend(Enter, Base(Walk([], Split(Relative(dir)))), Split(f), Split(g));
    assert (Split(f) + Split(g))[|Split(f) + Split(g)| - 1] == Split(g)[|Split(g)| - 1];
  }

  /** Changing to f and then to g is changing to f/g. */
  ghost predicate Nests(dir: CString, f: CString, g: CString) {
    CanonicalName(CanonicalName(dir, Some(f)), Some(g)) == CanonicalName(dir, Some(f + [SLASH] + g))
  }

  /** From every directory, unless f leaves an empty component innermost. */
  lemma ChangeDirectory(dir: CString, f: CString, g: CString)
    requires f != [] && !Absolute(f) && !Absolute(g)
    requires !EndsEmpty(Entered(dir, f))
    ensures Nests(dir, f, g)
  {
    NestedAndJoined(dir, f, g);
    BaseOfResult(dir, f);
  }

  const X: Component := [0x78]

  lemma WalkX(st: Path)
    ensures Walk(st, Split(X)) == st + [X]
    ensures Trim(st + [X]) == st + [X] && Split(Relative(Render(st + [X]))) == st + [X]
  {
    FirstSlashNone(X);
    assert X[..1] == X && Split(X) == [X] && [X][1..] == [];
    var cs: Path := [X];
    assert |X| != |DOTDOT| && Enter(st, X) == st + [X];
    assert Fold(Enter, st, cs) == Fold(Enter, Enter(st, cs[0]), cs[1..]);
    SplitRender(st + [X]);
  }

  /** When it does, already g = "x" shows the difference. */
  lemma ChangeDirectoryFails(dir: CString, f: CString)
    requires f != [] && !Absolute(f) && EndsEmpty(Entered(dir, f))
    ensures !Nests(dir, f, X)
  {
    var b := Base(Walk([], Split(Relative(CanonicalName(dir, Some(f))))));
    BaseOfResult(dir, f);
    NestedAndJoined(dir, f, X);
    WalkX(b);
    WalkX(Entered(dir, f));
    assert |b + [X]| != |Entered(dir, f) + [X]|;
  }

  /** So the law holds for every g exactly under that condition. */
  lemma ChangeDirectoryExactly(dir: CString, f: CString)
    requires f != [] && !Absolute(f)
    ensures (forall g: CString :: !Absolute(g) ==> Nests(dir, f, g)) <==> !EndsEmpty(Entered(dir, f))
  {
    if EndsEmpty(Entered(dir, f)) {
      ChangeDirectoryFails(dir, f);
      assert !Absolute(X);
    } else {
      forall g: CString | !Absolute(g) ensures Nests(dir, f, g) {
        ChangeDirectory(dir, f, g);
      }
    }
  }

  // ---- Inputs without empty components

  /** No two slashes in a row. */
  predicate NoDoubleSlash(s: CString) {
    forall i :: 0 < i < |s| && s[i] == SLASH ==> s[i - 1] != SLASH
  }

  /** Every component but perhaps the last is non-empty. */
  predicate FullButLast(p: Path)
    requires |p| > 0
  {
    [] !in p[..|p| - 1]
  }

  lemma RestFull(s: CString, k: nat)
    requires NoDoubleSlash(s) && k < |s| && s[k] == SLASH
    ensures NoDoubleSlash(s[k + 1..]) && !Absolute(s[k + 1..])
  {
    var r := s[k + 1..];
    assert forall i :: 0 <= i < |r| ==> r[i] == s[k + 1 + i];
  }

  lemma FullMore(c: Component, p: Path)
    requires c != [] && |p| > 0 && FullButLast(p)
    ensures FullButLast([c] + p)
  {
    assert ([c] + p)[..|p|] == [c] + p[..|p| - 1];
  }

  lemma {:induction false} SplitFull(s: CString)
    requires NoDoubleSlash(s) && !Absolute(s)
    ensures FullButLast(Split(s))
    decreases |s|
  {
    var k := FirstSlash(s);
    if k < |s| {
      SplitStep(s);
      RestFull(s, k);
      SplitFull(s[k + 1..]);
      FullMore(s[..k], Split(s[k + 1..]));
    }
  }

  lemma {:induction false} SplitLast(s: CString)
    ensures Split(s)[|Split(s)| - 1] == [] <==> s == [] || s[|s| - 1] == SLASH
    decreases |s|
  {
    var k := FirstSlash(s);
    if k < |s| {
      SplitStep(s);
      SplitLast(s[k + 1..]);
    } else if s != [] {
      assert s[|s| - 1] in s[..k];
    }
  }

  lemma {:induction false} EnteredFull(st: Path, cs: Path)
    requires [] !in st && [] !in cs
    ensures [] !in Fold(Enter, st, cs)
    decreases |cs|
  {
    if cs != [] {
      assert forall c :: c in cs[1..] ==> c in cs;
      assert cs[0] in cs;
      EnteredFull(Enter(st, cs[0]), cs[1..]);
    }
  }

  lemma WalkFull(st: Path, cs: Path)
    requires [] !in st && |cs| > 0 && FullButLast(cs)
    ensures FullButLast(Walk(st, cs)) && [] !in Base(Walk(st, cs))
    ensures cs[|cs| - 1] != [] ==> [] !in Fold(Enter, st, cs)
  {
    var n := |cs| - 1;
    var mid := Fold(Enter, st, cs[..n]);
    EnteredFull(st, cs[..n]);
    assert cs == cs[..n] + [cs[n]] && [cs[n]][1..] == [];
    FoldAppend(Enter, st, cs[..n], [cs[n]]);
    assert Fold(Enter, st, cs) == Enter(mid, cs[n]);
    if cs[n] == DOTDOT {
      assert (Enter(mid, cs[n]) + [[]])[..|Enter(mid, cs[n])|] == Enter(mid, cs[n]);
    } else {
      assert (mid + [cs[n]])[..|mid|] == mid;
    }
  }

  lemma RelativeFull(s: CString)
    requires NoDoubleSlash(s)
    ensures NoDoubleSlash(Relative(s)) && !Absolute(Relative(s))
  {
    if Absolute(s) {
      assert forall i :: 0 <= i < |s[1..]| ==> s[1..][i] == s[i + 1];
    }
  }

  lemma StartFull(dir: CString)
    requires NoDoubleSlash(dir)
    ensures [] !in Base(Walk([], Split(Relative(dir))))
  {
    RelativeFull(dir);
    SplitFull(Relative(dir));
    WalkFull([], Split(Relative(dir)));
  }

  /** chdir for ordinary paths: directory and file name without double slashes, the file name
      relative, not empty and without a trailing slash. */
  lemma ChangeDirectoryOrdinary(dir: CString, f: CString, g: CString)
    requires NoDoubleSlash(dir) && NoDoubleSlash(f)
    requires f != [] && !Absolute(f) && f[|f| - 1] != SLASH && !Absolute(g)
    ensures Nests(dir, f, g)
  {
    StartFull(dir);
    SplitFull(f);
    SplitLast(f);
    WalkFull(Base(Walk([], Split(Relative(dir)))), Split(f));
    var e := Entered(dir, f);
    assert e != [] ==> e[|e| - 1] in e;
    ChangeDirectory(dir, f, g);
  }

  /** For inputs without double slashes canonicalising is idempotent. */
  lemma CanonicalOrdinary(dir: CString, filename: Option<CString>)
    requires NoDoubleSlash(dir) && (filename.Some? ==> NoDoubleSlash(filename.value))
    ensures var x := CanonicalName(dir, filename); CanonicalName(x, None) == x
  {
    var p := Resolve(dir, filename);
    StartFull(dir);
    RelativeFull(dir);
    SplitFull(Relative(dir));
    WalkFull([], Split(Relative(dir)));
    if filename.Some? {
      var f := filename.value;
      RelativeFull(f);
      SplitFull(Relative(f));
      WalkFull([], Split(Relative(f)));
      if !Absolute(f) {
        SplitFull(f);
        WalkFull(Base(Walk([], Split(Relative(dir)))), Split(f));
      }
    }
    assert FullButLast(p);
    var t := Trim(p);
    RenderEnd(t);
    assert t != p ==> t[|t| - 1] in p[..|p| - 1];
    assert t[..0] == [];
    CanonicalTwice(dir, filename);
  }

  // ---- The conditions, read off the inputs

  /** Canonicalising a result again changes something exactly when the inputs lead to a path, longer
      than one component, whose last component is empty. */
  lemma CanonicalTwiceExactly(dir: CString, filename: Option<CString>)
    ensures var x, b := CanonicalName(dir, filename), Base(Resolve(dir, filename));
      CanonicalName(x, None) == x <==> !(|b| > 1 && EndsEmpty(b))
  {
    var p := Resolve(dir, filename);
    CanonicalTwice(dir, filename);
    RenderEnd(Trim(p));
    RenderLength(Trim(p));
    TrimAndBase(p);
  }

  lemma TrimAndBase(p: Path)
    requires |p| > 0
    ensures Trim(p) != [[]] && EndsEmpty(Trim(p)) <==> |Base(p)| > 1 && EndsEmpty(Base(p))
  {
  }

  lemma RenderLength(p: Path)
    requires |p| > 0
    ensures |Render(p)| == 1 <==> p == [[]]
  {
    if |p| > 1 {
      assert |Prefix(p[..|p| - 1])| > 1;
    }
  }

  predicate EndsInTwo(s: CString) {
    |s| >= 2 && s[|s| - 1] == SLASH && s[|s| - 2] == SLASH
  }

  predicate LastTwoEmpty(p: Path) {
    |p| >= 3 && p[|p| - 1] == [] && p[|p| - 2] == []
  }

  /** Two slashes at the end are two empty components at the end. */
  lemma SplitLastTwo(s: CString)
    ensures LastTwoEmpty(Split(s)) <==> EndsInTwo(s)
  {
    SplitLast(s);
    if s != [] && s[|s| - 1] == SLASH {
      var u: CString := s[..|s| - 1];
      assert s == u + [SLASH] + [];
      SplitJoin(u, []);
      assert Split([]) == [[]];
      SplitLast(u);
      if u == [] {
        assert |Split(s)| == 2;
      } else if u[|u| - 1] == SLASH {
        SplitMany(u);
      }
    }
  }

  lemma SplitMany(u: CString)
    requires u != [] && u[|u| - 1] == SLASH
    ensures |Split(u)| >= 2
  {
    var w: CString := u[..|u| - 1];
    assert u == w + [SLASH] + [];
    SplitJoin(w, []);
  }

  /** No component is "..". */
  predicate NoUps(s: CString) {
    DOTDOT !in Split(s)
  }

  lemma WalkPlain(st: Path, s: CString)
    requires NoUps(s)
    ensures Walk(st, Split(s)) == st + Split(s)
  {
    EnterPlain(st, Split(s));
    assert Split(s)[|Split(s)| - 1] in Split(s);
  }

  /** The text that decides: the file name, or the directory if there is none. */
  function Deciding(dir: CString, filename: Option<CString>): CString {
    match filename
    case None => Relative(dir)
    case Some(f) => if f == [] then Relative(dir) else Relative(f)
  }

  lemma BaseLastTwo(p: Path)
    requires |p| > 0
    ensures |Base(p)| > 1 && EndsEmpty(Base(p)) <==> LastTwoEmpty(p)
  {
  }

  /** For inputs without "..": canonicalising is idempotent exactly if the file name, or the
      directory if there is no file name, does not end in two slashes behind a leading one. */
  lemma CanonicalTwiceTextually(dir: CString, filename: Option<CString>)
    requires NoUps(Relative(dir)) && (filename.Some? ==> NoUps(Relative(filename.value)))
    ensures var x := CanonicalName(dir, filename); CanonicalName(x, None) == x <==> !EndsInTwo(Deciding(dir, filename))
  {
    var p := Resolve(dir, filename);
    CanonicalTwiceExactly(dir, filename);
    BaseLastTwo(p);
    WalkPlain([], Relative(dir));
    assert [] + Split(Relative(dir)) == Split(Relative(dir));
    SplitLastTwo(Relative(dir));
    match filename
    case None =>
    case Some(f) =>
      SplitLastTwo(Relative(f));
      if Absolute(f) {
        WalkPlain([], Relative(f));
        assert [] + Split(Relative(f)) == Split(Relative(f));
      } else if f == [] {
        BaseAgain(Split(Relative(dir)));
        WalkPlain(Base(Split(Relative(dir))), f);
      } else {
        WalkPlain(Base(Split(Relative(dir))), f);
        SplitStarts(f);
        LastTwoBehind(Base(Split(Relative(dir))), Split(f));
      }
  }

  lemma BaseAgain(p: Path)
    requires |p| > 0
    ensures Split([]) == [[]] && (LastTwoEmpty(Base(p) + [[]]) <==> LastTwoEmpty(p))
  {
    assert Base(p) + [[]] == if p[|p| - 1] == [] then p else p + [[]];
  }

  lemma SplitStarts(f: CString)
    requires f != [] && !Absolute(f)
    ensures Split(f)[0] != []
  {
    assert FirstSlash(f) > 0;
  }

  lemma LastTwoBehind(st: Path, cs: Path)
    requires |cs| > 0 && cs[0] != []
    ensures LastTwoEmpty(st + cs) <==> LastTwoEmpty(cs)
  {
  }

  /** When the last component of f is not "..", changing to f and then to g is changing to f/g for
      every g exactly if f does not end in a slash. */
  lemma ChangeDirectoryTextually(dir: CString, f: CString)
    requires f != [] && !Absolute(f) && Split(f)[|Split(f)| - 1] != DOTDOT
    ensures (forall g: CString :: !Absolute(g) ==> Nests(dir, f, g)) <==> f[|f| - 1] != SLASH
  {
    EndEntered(Base(Walk([], Split(Relative(dir)))), Split(f));
    SplitLast(f);
    ChangeDirectoryExactly(dir, f);
  }

  // ---- Inputs for which the promises fail

  const A: byte := 0x61

  lemma SplitA()
    ensures Split([A]) == [[A]] && Split([A, SLASH]) == [[A], []] && Split([A, SLASH, SLASH]) == [[A], [], []]
  {
    FirstSlashNone([A]);
    SplitFirst([A], []);
    SplitFirst([A], [SLASH]);
    SplitFirst([], []);
    assert [A] + [SLASH] + [] == [A, SLASH] && [A] + [SLASH] + [SLASH] == [A, SLASH, SLASH];
    assert [] + [SLASH] + [] == [SLASH];
    assert Split([]) == [[]];
  }

  /** "a//" becomes "/a/", and that becomes "/a". */
  lemma TwiceFailsAt()
    ensures var x := CanonicalName([A, SLASH, SLASH], None); CanonicalName(x, None) != x
  {
    SplitA();
    CanonicalTwiceTextually([A, SLASH, SLASH], None);
  }

  /** Changing from the root to "a/" and then to "x" is not changing to "a//x". */
  lemma ChangeFailsAt()
    ensures EndsEmpty(Entered([], [A, SLASH])) && !Nests([], [A, SLASH], X)
  {
    SplitA();
    var f: CString := [A, SLASH];
    EndEntered(Base(Walk([], Split(Relative([])))), Split(f));
    ChangeDirectoryFails([], f);
  }
}
