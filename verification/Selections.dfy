/** Some entries of a list, told by their places. */
module Selections {
  /** `picked` is what `xs` holds at the places `at`, which come in order. */
  ghost predicate Picks<T>(xs: seq<T>, at: seq<nat>, picked: seq<T>) {
    && |at| == |picked|
    && (forall k | 0 <= k < |at| :: at[k] < |xs| && picked[k] == xs[at[k]])
    && (forall j, k | 0 <= j < k < |at| :: at[j] < at[k])
  }

  /** What is picked of all but the first entry, with or without the first. */
  lemma PicksShifted<T>(xs: seq<T>, at: seq<nat>, picked: seq<T>) returns (shifted: seq<nat>)
    requires xs != [] && Picks(xs[1..], at, picked)
    ensures Picks(xs, shifted, picked) && Picks(xs, [0] + shifted, [xs[0]] + picked)
    ensures 0 !in shifted && forall c: nat | c > 0 :: c in shifted <==> c - 1 in at
  {
    shifted := seq(|at|, k requires 0 <= k < |at| => at[k] + 1);
    forall c: nat | c > 0 ensures c in shifted <==> c - 1 in at {
      if c in shifted { var k :| 0 <= k < |shifted| && shifted[k] == c; assert at[k] == c - 1; }
      if c - 1 in at { var k :| 0 <= k < |at| && at[k] == c - 1; assert shifted[k] == c; }
    }
  }
}
