/** A register stepped once for each item of a sequence, left to right. */
module Folding {

  /** A register `c` after a sequence of steps. */
  function Fold<S, B>(f: (S, B) -> S, c: S, s: seq<B>): S {
    if s == [] then c else f(Fold(f, c, s[..|s| - 1]), s[|s| - 1])
  }

  lemma {:induction false} FoldStep<S, B>(f: (S, B) -> S, c: S, s: seq<B>, i: nat)
    requires i < |s|
    ensures Fold(f, c, s[..i + 1]) == f(Fold(f, c, s[..i]), s[i])
  {
    assert s[..i + 1][..i] == s[..i];
  }

  lemma {:induction false} FoldAppend<S, B>(f: (S, B) -> S, c: S, a: seq<B>, b: seq<B>)
    ensures Fold(f, c, a + b) == Fold(f, Fold(f, c, a), b)
  {
    if b == [] {
      assert a + b == a;
    } else {
      assert (a + b)[..|a + b| - 1] == a + b[..|b| - 1];
      FoldAppend(f, c, a, b[..|b| - 1]);
    }
  }
}
