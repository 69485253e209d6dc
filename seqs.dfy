/** A sequence fact shared by both scans. */
module Seqs {
  /** Some element of `xs` satisfies `f`. */
  predicate AnyOf<T>(xs: seq<T>, f: T -> bool) {
    exists j :: 0 <= j < |xs| && f(xs[j])
  }

  /** An element satisfying `f` is in the front or is the last one. */
  lemma AnyOfSnoc<T>(xs: seq<T>, f: T -> bool)
    requires xs != []
    ensures AnyOf(xs, f) <==> AnyOf(xs[..|xs| - 1], f) || f(xs[|xs| - 1])
  {
    var front := xs[..|xs| - 1];
    if AnyOf(front, f) {
      var j :| 0 <= j < |front| && f(front[j]);
      assert front[j] == xs[j];
    }
    if AnyOf(xs, f) {
      var j :| 0 <= j < |xs| && f(xs[j]);
      if j < |front| {
        assert front[j] == xs[j];
      }
    }
  }
}
