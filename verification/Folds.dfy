// Loops over a register, seen as functions: iterating one step, folding a
// sequence into a state, and what both keep of an additive or injective step.

module Folds {
  // f applied n times.
  function Iterate<T>(f: T -> T, x: T, n: nat): T
    decreases n
  {
    if n == 0 then x else Iterate(f, f(x), n - 1)
  }

  lemma EightTimes<T>(f: T -> T, x: T)
    ensures Iterate(f, x, 8) == f(f(f(f(f(f(f(f(x))))))))
  {
    var y := f(f(f(f(x))));
    assert Iterate(f, x, 8) == Iterate(f, y, 4);
  }

  // The state after stepping through xs from s.
  function Fold<S, X>(step: (S, X) -> S, s: S, xs: seq<X>): S
    decreases |xs|
  {
    if xs == [] then s else Fold(step, step(s, xs[0]), xs[1..])
  }

  function ZipWith<X>(add: (X, X) -> X, xs: seq<X>, ys: seq<X>): (r: seq<X>)
    requires |xs| == |ys|
    ensures |r| == |xs|
    ensures forall i :: 0 <= i < |r| ==> r[i] == add(xs[i], ys[i])
  {
    seq(|xs|, i requires 0 <= i < |xs| => add(xs[i], ys[i]))
  }

  lemma {:induction false} IterateIsAdditive<T(!new)>(f: T -> T, add: (T, T) -> T, a: T, b: T, n: nat)
    requires forall x, y :: f(add(x, y)) == add(f(x), f(y))
    ensures Iterate(f, add(a, b), n) == add(Iterate(f, a, n), Iterate(f, b, n))
    decreases n
  {
    if n > 0 {
      IterateIsAdditive(f, add, f(a), f(b), n - 1);
    }
  }

  lemma {:induction false} IterateKeeps<T(!new), V>(f: T -> T, measure: T -> V, x: T, n: nat)
    requires forall x :: measure(f(x)) == measure(x)
    ensures measure(Iterate(f, x, n)) == measure(x)
    decreases n
  {
    if n > 0 {
      IterateKeeps(f, measure, f(x), n - 1);
    }
  }

  lemma {:induction false} FoldConcat<S, X>(step: (S, X) -> S, s: S, xs: seq<X>, ys: seq<X>)
    ensures Fold(step, s, xs + ys) == Fold(step, Fold(step, s, xs), ys)
    decreases |xs|
  {
    if xs == [] {
      assert xs + ys == ys;
    } else {
      assert (xs + ys)[1..] == xs[1..] + ys;
      FoldConcat(step, step(s, xs[0]), xs[1..], ys);
    }
  }

  lemma {:induction false} FoldIsAdditive<S(!new), X(!new)>(
      step: (S, X) -> S, addS: (S, S) -> S, addX: (X, X) -> X, s: S, t: S, xs: seq<X>, ys: seq<X>)
    requires |xs| == |ys|
    requires forall s, t, x, y :: step(addS(s, t), addX(x, y)) == addS(step(s, x), step(t, y))
    ensures Fold(step, addS(s, t), ZipWith(addX, xs, ys)) == addS(Fold(step, s, xs), Fold(step, t, ys))
    decreases |xs|
  {
    if xs != [] {
      assert ZipWith(addX, xs, ys)[1..] == ZipWith(addX, xs[1..], ys[1..]);
      FoldIsAdditive(step, addS, addX, step(s, xs[0]), step(t, ys[0]), xs[1..], ys[1..]);
    }
  }

  lemma {:induction false} FoldIsInjective<S(!new), X(!new)>(step: (S, X) -> S, s: S, t: S, xs: seq<X>)
    requires forall s, t, x :: step(s, x) == step(t, x) ==> s == t
    requires Fold(step, s, xs) == Fold(step, t, xs)
    ensures s == t
    decreases |xs|
  {
    if xs != [] {
      FoldIsInjective(step, step(s, xs[0]), step(t, xs[0]), xs[1..]);
    }
  }
}
