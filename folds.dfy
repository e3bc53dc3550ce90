/** Left folds over sequences, taken one element at a time from the end. */
module Folds {
  /** step applied to s and each element of xs in order. */
  function FoldLeft<S, X>(step: (S, X) -> S, s: S, xs: seq<X>): S
    decreases |xs|
  {
    if xs == [] then s else step(FoldLeft(step, s, xs[..|xs| - 1]), xs[|xs| - 1])
  }

  /** Folding two blocks is folding the first, then the second. */
  lemma {:induction false} FoldAppend<S, X>(step: (S, X) -> S, s: S, a: seq<X>, b: seq<X>)
    ensures FoldLeft(step, s, a + b) == FoldLeft(step, FoldLeft(step, s, a), b)
    decreases |b|
  {
    if b == [] {
      assert a + b == a;
    } else {
      var ab := a + b;
      assert ab[..|ab| - 1] == a + b[..|b| - 1];
      assert ab[|ab| - 1] == b[|b| - 1];
      FoldAppend(step, s, a, b[..|b| - 1]);
    }
  }
}
