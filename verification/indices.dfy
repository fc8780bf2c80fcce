/** Index sets shared by the grid, the union-find and the searches. */
module Indices {

  /** The indices 0 .. n-1 as a set. */
  function AllIndices(n: nat): (s: set<nat>)
    ensures |s| == n
    ensures forall i :: i in s <==> 0 <= i < n
  {
    if n == 0 then {} else
      var s := AllIndices(n - 1);
      assert n - 1 !in s;
      var t := s + {n - 1};
      assert forall i :: i in t <==> 0 <= i < n;
      t
  }

  /** A subset of the indices below n has at most n elements. */
  lemma SubsetOfIndices(s: set<nat>, n: nat)
    requires forall i :: i in s ==> i < n
    ensures s <= AllIndices(n) && |s| <= n
  {
    assert s <= AllIndices(n);
    SubsetCard(s, AllIndices(n));
  }

  lemma SubsetCard<T>(a: set<T>, b: set<T>)
    requires a <= b
    ensures |a| <= |b|
  {
    assert b == a + (b - a);
  }
}
