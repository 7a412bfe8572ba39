/** Facts about sequences without repeated elements, shared by the broadcast queue and the retention list. */
module Seqs {

  /** No element occurs twice. */
  predicate Distinct<T(==)>(q: seq<T>) {
    forall i, j :: 0 <= i < j < |q| ==> q[i] != q[j]
  }

  /** In a sequence without repeats every element is counted once and every other value not at all. */
  lemma {:induction false} DistinctCountsOnce<T>(q: seq<T>, x: T)
    requires Distinct(q)
    ensures multiset(q)[x] == if x in q then 1 else 0
  {
    if |q| > 0 {
      assert q == [q[0]] + q[1..];
      assert Distinct(q[1..]) by {
        forall i, j | 0 <= i < j < |q[1..]| ensures q[1..][i] != q[1..][j] {
          assert q[1..][i] == q[i + 1] && q[1..][j] == q[j + 1];
        }
      }
      DistinctCountsOnce(q[1..], x);
    }
  }
}
