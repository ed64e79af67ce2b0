/** Counting distinct numbers. */
module Counting {

  /** Distinct numbers below n are at most n. */
  lemma {:induction false} Pigeonhole(q: seq<nat>, n: nat)
    requires forall k :: 0 <= k < |q| ==> q[k] < n
    requires forall j, k :: 0 <= j < k < |q| ==> q[j] != q[k]
    ensures |q| <= n
    decreases n
  {
    if q != [] {
      assert q[0] < n;
      if n - 1 in q {
        var i :| 0 <= i < |q| && q[i] == n - 1;
        var r := q[.. i] + q[i + 1 ..];
        forall k | 0 <= k < |r| ensures r[k] == q[if k < i then k else k + 1] {}
        Pigeonhole(r, n - 1);
      } else {
        forall k | 0 <= k < |q| ensures q[k] < n - 1 { assert q[k] in q; }
        Pigeonhole(q, n - 1);
      }
    }
  }
}
