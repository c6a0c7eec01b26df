/** Histories of any kind of step: the state after one, and what holds before each of its steps. */
module Histories {

  function Fold<S, A>(step: (S, A) -> S, s: S, xs: seq<A>): S {
    if xs == [] then s else step(Fold(step, s, xs[..|xs| - 1]), xs[|xs| - 1])
  }

  /** Before each step, the step fits the state. */
  ghost predicate Along<S, A>(step: (S, A) -> S, fits: (S, A) -> bool, s: S, xs: seq<A>) {
    xs == [] || (Along(step, fits, s, xs[..|xs| - 1]) && fits(Fold(step, s, xs[..|xs| - 1]), xs[|xs| - 1]))
  }

  lemma FoldOne<S, A>(step: (S, A) -> S, fits: (S, A) -> bool, s: S, xs: seq<A>, x: A)
    ensures Fold(step, s, xs + [x]) == step(Fold(step, s, xs), x)
    ensures Along(step, fits, s, xs + [x]) <==> Along(step, fits, s, xs) && fits(Fold(step, s, xs), x)
  {
    assert (xs + [x])[..|xs|] == xs;
  }

  /** A history may be cut in two. */
  lemma {:induction false} FoldJoin<S, A>(step: (S, A) -> S, fits: (S, A) -> bool, s: S, xs: seq<A>, ys: seq<A>)
    ensures Fold(step, s, xs + ys) == Fold(step, Fold(step, s, xs), ys)
    ensures Along(step, fits, s, xs + ys)
       <==> Along(step, fits, s, xs) && Along(step, fits, Fold(step, s, xs), ys)
    decreases |ys|
  {
    if ys == [] {
      assert xs + ys == xs;
    } else {
      var before, y := ys[..|ys| - 1], ys[|ys| - 1];
      assert xs + ys == (xs + before) + [y];
      FoldJoin(step, fits, s, xs, before);
      FoldOne(step, fits, s, xs + before, y);
    }
  }

  /** What every step keeps holds after every history. */
  lemma {:induction false} FoldKeeps<S(!new), A(!new)>(step: (S, A) -> S, good: S -> bool, s: S, xs: seq<A>)
    requires good(s) && forall t: S, x: A :: good(t) ==> good(step(t, x))
    ensures good(Fold(step, s, xs))
  {
    if xs != [] { FoldKeeps(step, good, s, xs[..|xs| - 1]); }
  }

  /** Steps that match while they fit give histories that match. */
  lemma {:induction false} FoldMatches<S(!new), T(!new), A(!new), B>(
      step: (S, A) -> S, fits: (S, A) -> bool, meant: (T, B) -> T, meaning: A -> B, matched: (S, T) -> bool,
      s: S, t: T, xs: seq<A>, ys: seq<B>)
    requires matched(s, t) && Along(step, fits, s, xs)
    requires |ys| == |xs| && forall i :: 0 <= i < |xs| ==> ys[i] == meaning(xs[i])
    requires forall u: S, v: T, x: A :: matched(u, v) && fits(u, x) ==> matched(step(u, x), meant(v, meaning(x)))
    ensures matched(Fold(step, s, xs), Fold(meant, t, ys))
    decreases |xs|
  {
    if xs != [] {
      FoldMatches(step, fits, meant, meaning, matched, s, t, xs[..|xs| - 1], ys[..|ys| - 1]);
    }
  }

  /** What one more step keeps is kept by any number of steps. */
  lemma {:induction false} Extended<A(!new)>(good: seq<A> -> bool, spares: (seq<A>, A) -> bool, xs: seq<A>, ys: seq<A>)
    requires good(xs) && forall i :: 0 <= i < |ys| ==> spares(xs + ys[..i], ys[i])
    requires forall zs: seq<A>, y: A :: good(zs) && spares(zs, y) ==> good(zs + [y])
    ensures good(xs + ys)
    decreases |ys|
  {
    if ys == [] {
      assert xs + ys == xs;
    } else {
      var before, y := ys[..|ys| - 1], ys[|ys| - 1];
      forall i | 0 <= i < |before| ensures spares(xs + before[..i], before[i]) {
        assert before[..i] == ys[..i] && before[i] == ys[i];
      }
      Extended(good, spares, xs, before);
      assert xs + ys == (xs + before) + [y];
      assert spares(xs + before, y);
    }
  }
}
