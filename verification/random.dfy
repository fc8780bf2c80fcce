/**
 * The engine's randomness as an injected source: a stream of arbitrary
 * natural numbers standing for the draws `java.util.Random` would make.
 */
module Randoms {

  /** `nextInt(bound)` given the raw draw: some value in [0, bound). */
  function NextInt(draw: nat, bound: nat): (r: nat)
    requires bound > 0
    ensures r < bound
    ensures draw < bound ==> r == draw
  {
    draw % bound
  }

  /** Exchanges the elements at positions a and b. */
  function Swap<T>(s: seq<T>, a: nat, b: nat): (r: seq<T>)
    requires a < |s| && b < |s|
    ensures |r| == |s| && r[a] == s[b] && r[b] == s[a]
    ensures forall k :: 0 <= k < |s| && k != a && k != b ==> r[k] == s[k]
    ensures multiset(r) == multiset(s)
  {
    if a == b then s else
      var r := s[a := s[b]][b := s[a]];
      assert multiset(s[a := s[b]]) == multiset(s) - multiset{s[a]} + multiset{s[b]};
      r
  }

  /**
   * `Collections.shuffle`: for i from |s| down to 2, swap position i-1 with
   * a position drawn from [0, i). Draw number t + k feeds the k-th swap.
   */
  function Shuffle<T>(s: seq<T>, rnd: nat -> nat, t: nat): (r: seq<T>)
    ensures |r| == |s|
    ensures multiset(r) == multiset(s)
  {
    ShuffleDown(s, |s|, rnd, t)
  }

  function ShuffleDown<T>(s: seq<T>, i: nat, rnd: nat -> nat, t: nat): (r: seq<T>)
    requires i <= |s|
    ensures |r| == |s|
    ensures multiset(r) == multiset(s)
    decreases i
  {
    if i <= 1 then s else ShuffleDown(Swap(s, i - 1, NextInt(rnd(t), i)), i - 1, rnd, t + 1)
  }

  /** A permutation keeps exactly the elements it was given. */
  lemma ShuffleKeepsElements<T>(s: seq<T>, rnd: nat -> nat, t: nat)
    ensures forall x :: x in Shuffle(s, rnd, t) <==> x in s
  {
    var r := Shuffle(s, rnd, t);
    forall x ensures x in r <==> x in s {
      assert x in r <==> x in multiset(r);
      assert x in s <==> x in multiset(s);
    }
  }

  /** A permutation of a list without repeats has no repeats. */
  lemma ShuffleKeepsDistinct<T>(s: seq<T>, rnd: nat -> nat, t: nat)
    requires forall a, b :: 0 <= a < b < |s| ==> s[a] != s[b]
    ensures forall a, b :: 0 <= a < b < |Shuffle(s, rnd, t)| ==> Shuffle(s, rnd, t)[a] != Shuffle(s, rnd, t)[b]
  {
    var r := Shuffle(s, rnd, t);
    forall a, b | 0 <= a < b < |r| ensures r[a] != r[b] {
      if r[a] == r[b] {
        var x := r[a];
        assert multiset(r)[x] >= 2 by {
          assert r == r[..a] + [x] + r[a+1..b] + [x] + r[b+1..];
        }
        DistinctCountsOnce(s, x);
        assert false;
      }
    }
  }

  lemma {:induction false} DistinctCountsOnce<T>(s: seq<T>, x: T)
    requires forall a, b :: 0 <= a < b < |s| ==> s[a] != s[b]
    ensures multiset(s)[x] <= 1
  {
    if s != [] {
      var tail := s[1..];
      assert s == [s[0]] + tail;
      DistinctCountsOnce(tail, x);
      if s[0] == x {
        assert x !in tail;
        assert multiset(tail)[x] == 0;
      }
    }
  }
}
