/** Orderings of the indices 0 .. n-1, and the counting facts they rest on. */
module Permutations {
  import opened Core

  ghost predicate IsPermutation(s: seq<nat>, n: nat) {
    && |s| == n
    && (forall k :: 0 <= k < n ==> s[k] < n)
    && (forall a, b :: 0 <= a < b < n ==> s[a] != s[b])
  }

  function Below(n: nat): (s: set<nat>)
    ensures forall i :: i in s <==> 0 <= i < n
    ensures |s| == n
  {
    if n == 0 then {} else Below(n - 1) + {n - 1}
  }

  ghost predicate AllBelow(s: set<nat>, n: nat) {
    forall i :: i in s ==> i < n
  }

  lemma SubsetSize<T>(small: set<T>, big: set<T>)
    requires small <= big
    ensures |small| <= |big|
    ensures |small| == |big| ==> small == big
  {
    assert big == small + (big - small);
  }

  lemma {:induction false} DistinctSize<T>(s: seq<T>)
    requires forall a, b :: 0 <= a < b < |s| ==> s[a] != s[b]
    ensures |ElementsOf(s)| == |s|
  {
    if s != [] {
      var last := |s| - 1;
      DistinctSize(s[..last]);
      assert ElementsOf(s) == ElementsOf(s[..last]) + {s[last]};
    }
  }

  /** A list of n distinct indices below n leaves none out. */
  lemma PermutationCovers(s: seq<nat>, n: nat, i: nat) returns (k: nat)
    requires IsPermutation(s, n) && i < n
    ensures k < n && s[k] == i
  {
    DistinctSize(s);
    SubsetSize(ElementsOf(s), Below(n));
    assert i in ElementsOf(s);
    k :| 0 <= k < n && s[k] == i;
  }

  ghost predicate Takes<T(!new)>(s: set<T>, value: T -> int, v: int) {
    exists x :: x in s && value(x) == v
  }

  /** If every value below n is taken by some member of `s`, then `s` has at least n members. */
  lemma {:induction false} PigeonHole<T(!new)>(s: set<T>, value: T -> int, n: nat)
    requires forall v :: 0 <= v < n ==> Takes(s, value, v)
    ensures |s| >= n
  {
    if n > 0 {
      var rest := set x | x in s && value(x) != n - 1;
      forall v | 0 <= v < n - 1 ensures Takes(rest, value, v) {
        assert Takes(s, value, v);
        var x :| x in s && value(x) == v;
        assert x in rest;
      }
      PigeonHole(rest, value, n - 1);
      assert Takes(s, value, n - 1);
      var top :| top in s && value(top) == n - 1;
      SubsetSize(rest, s - {top});
    }
  }
}
