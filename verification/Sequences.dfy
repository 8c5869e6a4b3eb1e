/** Sequences without repetition. */
module Sequences {

  ghost predicate Distinct<T>(s: seq<T>) {
    forall i, j :: 0 <= i < j < |s| ==> s[i] != s[j]
  }

  /** Distinct numbers below `n` are at most `n` many. */
  lemma {:induction false} DistinctBound(list: seq<nat>, n: nat)
    requires Distinct(list) && forall k :: 0 <= k < |list| ==> list[k] < n
    ensures |list| <= n
    decreases |list|
  {
    if |list| > 0 {
      var last := |list| - 1;
      var x, m := list[last], n - 1;
      var rest := seq(last, k requires 0 <= k < last => if list[k] == m then x else list[k]);
      assert x != m ==> forall k :: 0 <= k < last ==> list[k] != x;
      DistinctBound(rest, m);
    }
  }

  /** A full list of distinct block numbers contains every block. */
  lemma {:induction false} DistinctFull(list: seq<nat>, n: nat, b: nat)
    requires Distinct(list) && (forall k :: 0 <= k < |list| ==> list[k] < n) && |list| >= n && b < n
    ensures b in list
  {
    if b !in list {
      var more := list + [b];
      DistinctBound(more, n);
    }
  }
}
