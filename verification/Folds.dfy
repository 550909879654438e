/**
 Left folds and iteration over an arbitrary step, with the few laws every checksum in this project
 is an instance of.
 */
module Folds {

  function Fold<S, E>(f: (S, E) -> S, s: S, es: seq<E>): S
    decreases |es|
  {
    if es == [] then s else Fold(f, f(s, es[0]), es[1..])
  }

  function Iterate<S>(step: S -> S, n: nat, s: S): S {
    if n == 0 then s else Iterate(step, n - 1, step(s))
  }

  lemma {:induction false} FoldConcat<S, E>(f: (S, E) -> S, s: S, es: seq<E>, fs: seq<E>)
    ensures Fold(f, s, es + fs) == Fold(f, Fold(f, s, es), fs)
    decreases |es|
  {
    if es == [] {
      assert es + fs == fs;
    } else {
      assert (es + fs)[1..] == es[1..] + fs;
      FoldConcat(f, f(s, es[0]), es[1..], fs);
    }
  }

  lemma FoldSnoc<S, E>(f: (S, E) -> S, s: S, es: seq<E>, e: E)
    ensures Fold(f, s, es + [e]) == f(Fold(f, s, es), e)
  {
    FoldConcat(f, s, es, [e]);
  }

  ghost predicate InjectiveSteps<S(!new), E(!new)>(f: (S, E) -> S) {
    forall x, y, e :: f(x, e) == f(y, e) ==> x == y
  }

  /** If every step is injective in the state, states that differ still differ after any suffix. */
  lemma {:induction false} FoldInjective<S(!new), E(!new)>(f: (S, E) -> S, x: S, y: S, es: seq<E>)
    requires InjectiveSteps(f)
    requires Fold(f, x, es) == Fold(f, y, es)
    ensures x == y
    decreases |es|
  {
    if es != [] {
      FoldInjective(f, f(x, es[0]), f(y, es[0]), es[1..]);
    }
  }

  lemma {:induction false} IterateInjective<S(!new)>(step: S -> S, n: nat, x: S, y: S)
    requires forall u, v :: step(u) == step(v) ==> u == v
    requires Iterate(step, n, x) == Iterate(step, n, y)
    ensures x == y
  {
    if n > 0 {
      IterateInjective(step, n - 1, step(x), step(y));
    }
  }

  lemma {:induction false} IterateAdd<S>(step: S -> S, m: nat, n: nat, s: S)
    ensures Iterate(step, m + n, s) == Iterate(step, n, Iterate(step, m, s))
  {
    if m > 0 {
      IterateAdd(step, m - 1, n, step(s));
    }
  }

  /**
   `load` puts a whole window of up to `width` elements into the state ahead of time: stepping a
   loaded state consumes one element.  Then folding a window is loading it and iterating.
   */
  ghost predicate LoadsAhead<S(!new), E(!new)>(step: S -> S, f: (S, E) -> S, load: (S, seq<E>) -> S, width: nat) {
    && (forall s :: load(s, []) == s)
    && (forall s, es :: 0 < |es| <= width ==> step(load(s, es)) == load(f(s, es[0]), es[1..]))
  }

  lemma {:induction false} FoldIsLoadThenIterate<S(!new), E(!new)>(
      step: S -> S, f: (S, E) -> S, load: (S, seq<E>) -> S, width: nat, s: S, es: seq<E>)
    requires LoadsAhead(step, f, load, width)
    requires |es| <= width
    ensures Fold(f, s, es) == Iterate(step, |es|, load(s, es))
    decreases |es|
  {
    if es != [] {
      FoldIsLoadThenIterate(step, f, load, width, f(s, es[0]), es[1..]);
    }
  }

  /** A step that respects an operation respects it however often it is taken. */
  lemma {:induction false} IterateHomomorphic<S(!new)>(step: S -> S, op: (S, S) -> S, n: nat, x: S, y: S)
    requires forall a, b :: step(op(a, b)) == op(step(a), step(b))
    ensures Iterate(step, n, op(x, y)) == op(Iterate(step, n, x), Iterate(step, n, y))
  {
    if n > 0 {
      IterateHomomorphic(step, op, n - 1, step(x), step(y));
    }
  }

  lemma IterateFour<S>(step: S -> S, s: S)
    ensures Iterate(step, 4, s) == step(step(step(step(s))))
  {
    assert Iterate(step, 3, step(s)) == Iterate(step, 2, step(step(s)));
    assert Iterate(step, 1, step(step(step(s)))) == step(step(step(step(s))));
  }

  /** A fold over three parts of a sequence, one after another. */
  lemma FoldThreeParts<S, E>(f: (S, E) -> S, s: S, es: seq<E>, lo: nat, hi: nat)
    requires lo <= hi <= |es|
    ensures Fold(f, s, es) == Fold(f, Fold(f, Fold(f, s, es[..lo]), es[lo..hi]), es[hi..])
  {
    assert es[..lo] + es[lo..hi] == es[..hi] && es[..hi] + es[hi..] == es;
    FoldConcat(f, s, es[..hi], es[hi..]);
    FoldConcat(f, s, es[..lo], es[lo..hi]);
  }
}
