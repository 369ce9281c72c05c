/**
 Sequences of numbers without repetition.
 */
module Sequences {

  ghost predicate Distinct(l: seq<nat>) {
    forall i, j :: 0 <= i < j < |l| ==> l[i] != l[j]
  }

  /** There are not more different numbers below `n` than `n`. */
  lemma {:induction false} FewNumbers(l: seq<nat>, n: nat)
    requires Distinct(l) && forall m :: 0 <= m < |l| ==> l[m] < n
    ensures |l| <= n
  {
    if l != [] {
      assert l[0] < n;
      if m :| 0 <= m < |l| && l[m] == n - 1 {
        FewNumbers(l[..m] + l[m + 1..], n - 1);
      } else {
        FewNumbers(l, n - 1);
      }
    }
  }
}
