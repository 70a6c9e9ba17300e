/** Rust's `sort_by_key(Reverse(key))` seen from outside: a stable sort by descending key. */
module StableSort {
  import opened Permutations

  /** Rank: higher key first, and equal keys in input order. */
  ghost predicate Before(keys: seq<nat>, i: nat, j: nat)
    requires i < |keys| && j < |keys|
  {
    keys[i] > keys[j] || (keys[i] == keys[j] && i < j)
  }

  ghost predicate Ranked(keys: seq<nat>, order: seq<nat>) {
    && (forall k :: 0 <= k < |order| ==> order[k] < |keys|)
    && (forall a, b :: 0 <= a < b < |order| ==> Before(keys, order[a], order[b]))
  }

  /** `order` lists the indices of `keys` strictly by rank. */
  ghost predicate IsRankOrder(keys: seq<nat>, order: seq<nat>) {
    |order| == |keys| && Ranked(keys, order)
  }

  function Insert(keys: seq<nat>, order: seq<nat>, i: nat): (r: seq<nat>)
    requires i < |keys| && Ranked(keys, order) && forall k :: 0 <= k < |order| ==> order[k] < i
    ensures |r| == |order| + 1 && Ranked(keys, r)
    ensures forall k :: 0 <= k < |r| ==> r[k] <= i
    ensures r[|order|] == i || (|order| > 0 && r[|order|] == order[|order| - 1])
  {
    var last := |order| - 1;
    if order == [] || keys[order[last]] >= keys[i] then
      order + [i]
    else
      Insert(keys, order[..last], i) + [order[last]]
  }

  function OrderOfPrefix(keys: seq<nat>, n: nat): (order: seq<nat>)
    requires n <= |keys|
    ensures |order| == n && Ranked(keys, order) && forall k :: 0 <= k < n ==> order[k] < n
  {
    if n == 0 then [] else Insert(keys, OrderOfPrefix(keys, n - 1), n - 1)
  }

  /** The order in which a stable descending sort leaves the input positions. */
  function StableOrder(keys: seq<nat>): (order: seq<nat>)
    ensures IsRankOrder(keys, order)
  {
    OrderOfPrefix(keys, |keys|)
  }

  function Arrange<T>(items: seq<T>, order: seq<nat>): (r: seq<T>)
    requires forall k :: 0 <= k < |order| ==> order[k] < |items|
    ensures |r| == |order|
    ensures forall k :: 0 <= k < |order| ==> r[k] == items[order[k]]
  {
    seq(|order|, k requires 0 <= k < |order| => items[order[k]])
  }

  lemma RankOrderIsPermutation(keys: seq<nat>, order: seq<nat>)
    requires IsRankOrder(keys, order)
    ensures IsPermutation(order, |keys|)
  {
    forall a, b | 0 <= a < b < |order| ensures order[a] != order[b] {
      assert Before(keys, order[a], order[b]);
    }
  }

  /** There is only one rank order, so the sort's result does not depend on how it is computed. */
  lemma RankOrderIsUnique(keys: seq<nat>, one: seq<nat>, two: seq<nat>)
    requires IsRankOrder(keys, one) && IsRankOrder(keys, two)
    ensures one == two
  {
    var k := 0;
    while k < |keys|
      invariant 0 <= k <= |keys|
      invariant one[..k] == two[..k]
    {
      NextRankAgrees(keys, one, two, k);
      assert one[..k + 1] == one[..k] + [one[k]] == two[..k + 1];
      k := k + 1;
    }
    assert one == one[..k] == two[..k] == two;
  }

  lemma NextRankAgrees(keys: seq<nat>, one: seq<nat>, two: seq<nat>, k: nat)
    requires IsRankOrder(keys, one) && IsRankOrder(keys, two)
    requires k < |keys| && one[..k] == two[..k]
    ensures one[k] == two[k]
  {
    RankOrderIsPermutation(keys, one);
    RankOrderIsPermutation(keys, two);
    var i := PermutationCovers(one, |keys|, two[k]);
    var j := PermutationCovers(two, |keys|, one[k]);
  }
}
