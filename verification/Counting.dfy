/** How many different numbers fit into a range. */
module Counting {

  lemma {:induction false} DistinctInRange(q: seq<nat>, lo: int, hi: int)
    requires lo <= hi && forall i :: 0 <= i < |q| ==> lo <= q[i] < hi
    requires forall i, j :: 0 <= i < j < |q| ==> q[i] != q[j]
    ensures |q| <= hi - lo
    decreases hi - lo
  {
    if k :| 0 <= k < |q| && q[k] == hi - 1 {
      var rest := q[..k] + q[k + 1..];
      forall i | 0 <= i < |rest| ensures lo <= rest[i] < hi - 1 {
        assert rest[i] == q[if i < k then i else i + 1];
      }
      DistinctInRange(rest, lo, hi - 1);
    } else if q != [] {
      assert q[0] < hi - 1;
      DistinctInRange(q, lo, hi - 1);
    }
  }
}
