/** Left folds over sequences: the shape of a register that consumes a message piece by piece. */
module Folds {

  function Fold<R, X>(f: (R, X) -> R, r: R, xs: seq<X>): R
    decreases |xs|
  {
    if xs == [] then r else Fold(f, f(r, xs[0]), xs[1..])
  }

  lemma {:induction false} FoldAppend<R, X>(f: (R, X) -> R, r: R, xs: seq<X>, ys: seq<X>)
    ensures Fold(f, r, xs + ys) == Fold(f, Fold(f, r, xs), ys)
    decreases |xs|
  {
    if xs == [] {
      assert xs + ys == ys;
    } else {
      assert (xs + ys)[1..] == xs[1..] + ys;
      FoldAppend(f, f(r, xs[0]), xs[1..], ys);
    }
  }

  lemma FoldSplit<R, X>(f: (R, X) -> R, r: R, xs: seq<X>, i: nat, k: nat)
    requires i <= k <= |xs|
    ensures Fold(f, r, xs) == Fold(f, Fold(f, Fold(f, r, xs[..i]), xs[i..k]), xs[k..])
  {
    assert xs == (xs[..i] + xs[i..k]) + xs[k..];
    FoldAppend(f, r, xs[..i] + xs[i..k], xs[k..]);
    FoldAppend(f, r, xs[..i], xs[i..k]);
  }

  /** Consuming the same pieces is injective in the register when each piece is. */
  lemma {:induction false} FoldInjective<R(!new), X(!new)>(f: (R, X) -> R, r: R, s: R, xs: seq<X>)
    requires forall a, b, x :: f(a, x) == f(b, x) ==> a == b
    requires Fold(f, r, xs) == Fold(f, s, xs)
    ensures r == s
    decreases |xs|
  {
    if xs != [] {
      FoldInjective(f, f(r, xs[0]), f(s, xs[0]), xs[1..]);
    }
  }

  function Flatten<X, Y>(enc: X -> seq<Y>, xs: seq<X>): seq<Y>
    decreases |xs|
  {
    if xs == [] then [] else enc(xs[0]) + Flatten(enc, xs[1..])
  }

  /** A coarse step that equals several fine steps gives the same result over whole messages. */
  lemma {:induction false} FoldRefines<R(!new), X(!new), Y>(
      f: (R, Y) -> R, g: (R, X) -> R, enc: X -> seq<Y>, r: R, xs: seq<X>)
    requires forall a, x :: Fold(f, a, enc(x)) == g(a, x)
    ensures Fold(g, r, xs) == Fold(f, r, Flatten(enc, xs))
    decreases |xs|
  {
    if xs != [] {
      FoldAppend(f, r, enc(xs[0]), Flatten(enc, xs[1..]));
      FoldRefines(f, g, enc, g(r, xs[0]), xs[1..]);
    }
  }

  function XorBits(x: seq<bool>, y: seq<bool>): (r: seq<bool>)
    requires |x| == |y|
    ensures |r| == |x|
  {
    if x == [] then [] else [x[0] != y[0]] + XorBits(x[1..], y[1..])
  }

  lemma {:induction false} FoldLinear<R(!new)>(f: (R, bool) -> R, xor: (R, R) -> R,
      r: R, s: R, x: seq<bool>, y: seq<bool>)
    requires |x| == |y|
    requires forall a, b, p, q :: f(xor(a, b), p != q) == xor(f(a, p), f(b, q))
    ensures Fold(f, xor(r, s), XorBits(x, y)) == xor(Fold(f, r, x), Fold(f, s, y))
    decreases |x|
  {
    if x != [] {
      FoldLinear(f, xor, f(r, x[0]), f(s, y[0]), x[1..], y[1..]);
      assert XorBits(x, y)[1..] == XorBits(x[1..], y[1..]);
      assert f(xor(r, s), x[0] != y[0]) == xor(f(r, x[0]), f(s, y[0]));
    }
  }

  /** Two registers that agree after n messages bits were near(n) before them; if the registers
      were equal, so were the bits. near is the caller's measure of what n bits can still mend. */
  lemma {:induction false} FoldMeet<R(!new)>(f: (R, bool) -> R, near: (nat, R, R) -> bool, limit: nat,
      r: R, s: R, x: seq<bool>, y: seq<bool>)
    requires |x| == |y| <= limit
    requires forall a :: near(0, a, a)
    requires forall n: nat, a, b, p, q :: n < limit && near(n, f(a, p), f(b, q)) ==> near(n + 1, a, b) && (a == b ==> p == q)
    requires Fold(f, r, x) == Fold(f, s, y)
    ensures near(|x|, r, s)
    ensures r == s ==> x == y
    decreases |x|
  {
    if x != [] {
      FoldMeet(f, near, limit, f(r, x[0]), f(s, y[0]), x[1..], y[1..]);
      assert near(|x| - 1, f(r, x[0]), f(s, y[0]));
      assert x == [x[0]] + x[1..] && y == [y[0]] + y[1..];
    }
  }

  /** Parity of a bit string: true when odd. */
  function Parity(bits: seq<bool>): bool {
    if bits == [] then false else bits[0] != Parity(bits[1..])
  }

  lemma {:induction false} ParityAppend(x: seq<bool>, y: seq<bool>)
    ensures Parity(x + y) == (Parity(x) != Parity(y))
  {
    if x == [] {
      assert x + y == y;
    } else {
      assert (x + y)[1..] == x[1..] + y;
      ParityAppend(x[1..], y);
    }
  }

  lemma {:induction false} FoldParity<R(!new)>(f: (R, bool) -> R, parity: R -> bool, r: R, x: seq<bool>)
    requires forall a, p :: parity(f(a, p)) == (parity(a) != p)
    ensures parity(Fold(f, r, x)) == (parity(r) != Parity(x))
    decreases |x|
  {
    if x != [] {
      FoldParity(f, parity, f(r, x[0]), x[1..]);
    }
  }

  /** Parity of the n low bits of a word, read by shifting. */
  function LowParity<R>(shr: R -> R, low: R -> bool, r: R, n: nat): bool
    decreases n
  {
    if n == 0 then false else low(r) != LowParity(shr, low, shr(r), n - 1)
  }

  lemma {:induction false} LowParityXor<R(!new)>(shr: R -> R, low: R -> bool, xor: (R, R) -> R, r: R, s: R, n: nat)
    requires forall a, b :: shr(xor(a, b)) == xor(shr(a), shr(b))
    requires forall a, b :: low(xor(a, b)) == (low(a) != low(b))
    ensures LowParity(shr, low, xor(r, s), n) == (LowParity(shr, low, r, n) != LowParity(shr, low, s, n))
    decreases n
  {
    if n > 0 {
      LowParityXor(shr, low, xor, shr(r), shr(s), n - 1);
    }
  }

  /** Bits above the n low ones do not count when they are clear. */
  lemma {:induction false} LowParityFits<R(!new)>(shr: R -> R, low: R -> bool, fits: (R, nat) -> bool, r: R, n: nat)
    requires forall a :: fits(a, 0) ==> !low(a)
    requires forall a, k: nat :: fits(a, k + 1) ==> fits(shr(a), k)
    requires fits(r, n)
    ensures LowParity(shr, low, r, n + 1) == LowParity(shr, low, r, n)
    decreases n
  {
    if n > 0 {
      assert fits(r, (n - 1) + 1);
      LowParityFits(shr, low, fits, shr(r), n - 1);
    }
  }

  /** Shifting out a bit and then adding a word of odd parity when that bit was set keeps the parity. */
  lemma DivisionStepParity<R(!new)>(shr: R -> R, low: R -> bool, xor: (R, R) -> R, fits: (R, nat) -> bool,
      r: R, poly: R, n: nat)
    requires forall a, b :: shr(xor(a, b)) == xor(shr(a), shr(b))
    requires forall a, b :: low(xor(a, b)) == (low(a) != low(b))
    requires forall a :: fits(a, 0) ==> !low(a)
    requires forall a, k: nat :: fits(a, k + 1) ==> fits(shr(a), k)
    requires fits(shr(r), n) && LowParity(shr, low, poly, n + 1)
    ensures LowParity(shr, low, if low(r) then xor(shr(r), poly) else shr(r), n + 1) == LowParity(shr, low, r, n + 1)
  {
    LowParityFits(shr, low, fits, shr(r), n);
    LowParityXor(shr, low, xor, shr(r), poly, n + 1);
  }

  /** The number of positions where two bit strings differ. */
  function Flips(x: seq<bool>, y: seq<bool>): nat {
    if x == [] || y == [] then 0 else (if x[0] != y[0] then 1 else 0) + Flips(x[1..], y[1..])
  }

  lemma {:induction false} FlipsParity(x: seq<bool>, y: seq<bool>)
    requires |x| == |y|
    ensures (Flips(x, y) % 2 == 1) == (Parity(x) != Parity(y))
  {
    if x != [] {
      FlipsParity(x[1..], y[1..]);
    }
  }

  // ---- Runs of a machine that stops by itself

  /** Steps until one does not return 0: the state, the last result and what the steps delivered. */
  function RunUntil<S, E, B>(step: (S, E) -> (S, int, B), s: S, es: seq<E>): (S, int, seq<B>)
    decreases |es|
  {
    if es == [] then (s, 0, [])
    else
      var (s1, ret, b) := step(s, es[0]);
      if ret != 0 then (s1, ret, [])
      else
        var (s2, last, bs) := RunUntil(step, s1, es[1..]);
        (s2, last, [b] + bs)
  }

  /** One step either keeps inv with its delivery added, or stops in a state that satisfies end. */
  predicate StepKeeps<S, E, B>(step: (S, E) -> (S, int, B), inv: (S, seq<B>) -> bool, end: (S, seq<B>, int) -> bool,
      s: S, got: seq<B>, e: E)
  {
    var (s1, ret, b) := step(s, e);
    if ret == 0 then inv(s1, got + [b]) else end(s1, got, ret)
  }

  /** What every step keeps, every run keeps. */
  lemma {:induction false} RunUntilKeeps<S(!new), E(!new), B(!new)>(step: (S, E) -> (S, int, B), ok: E -> bool,
      inv: (S, seq<B>) -> bool, end: (S, seq<B>, int) -> bool, s: S, got: seq<B>, es: seq<E>)
    requires forall t, g, e :: inv(t, g) && ok(e) ==> StepKeeps(step, inv, end, t, g, e)
    requires inv(s, got) && forall e :: e in es ==> ok(e)
    ensures var (t, ret, bs) := RunUntil(step, s, es);
      if ret == 0 then inv(t, got + bs) else end(t, got + bs, ret)
    decreases |es|
  {
    if es == [] {
      assert got + [] == got;
    } else {
      assert es[0] in es && forall e :: e in es[1..] ==> e in es;
      var (s1, ret, b) := step(s, es[0]);
      assert StepKeeps(step, inv, end, s, got, es[0]);
      if ret == 0 {
        RunUntilKeeps(step, ok, inv, end, s1, got + [b], es[1..]);
        var bs := RunUntil(step, s1, es[1..]).2;
        assert got + [b] + bs == got + ([b] + bs);
      } else {
        assert got + [] == got;
      }
    }
  }

  /** The state before the last step of a run that stopped early, and the step itself. */
  lemma {:induction false} RunUntilStops<S(!new), E(!new), B(!new)>(step: (S, E) -> (S, int, B), ok: E -> bool,
      inv: (S, seq<B>) -> bool, end: (S, seq<B>, int) -> bool, s: S, got: seq<B>, es: seq<E>) returns (w: S)
    requires forall t, g, e :: inv(t, g) && ok(e) ==> StepKeeps(step, inv, end, t, g, e)
    requires inv(s, got) && forall e :: e in es ==> ok(e)
    requires RunUntil(step, s, es).1 != 0
    ensures var (t, ret, bs) := RunUntil(step, s, es);
      |bs| < |es| && inv(w, got + bs) && (t, ret) == (step(w, es[|bs|]).0, step(w, es[|bs|]).1)
    decreases |es|
  {
    assert es[0] in es && forall e :: e in es[1..] ==> e in es;
    var (s1, ret, b) := step(s, es[0]);
    assert StepKeeps(step, inv, end, s, got, es[0]);
    if ret == 0 {
      w := RunUntilStops(step, ok, inv, end, s1, got + [b], es[1..]);
      var bs := RunUntil(step, s1, es[1..]).2;
      assert got + [b] + bs == got + ([b] + bs);
    } else {
      w := s;
      assert got + [] == got;
    }
  }
}
