/** List scheduling on identical workers: how far the least-loaded rule can be from the best
    placement. Sizes are natural numbers; `place[i]` is the worker of item i. */
module ListScheduling {

  ghost predicate IsPlacement(sizes: seq<nat>, place: seq<nat>, m: nat) {
    |place| == |sizes| && forall i :: 0 <= i < |place| ==> place[i] < m
  }

  function Total(sizes: seq<nat>): nat {
    if sizes == [] then 0 else Total(sizes[..|sizes| - 1]) + sizes[|sizes| - 1]
  }

  function Load(sizes: seq<nat>, place: seq<nat>, w: nat): nat
    requires |place| == |sizes|
  {
    if sizes == [] then 0
    else
      var k := |sizes| - 1;
      Load(sizes[..k], place[..k], w) + if place[k] == w then sizes[k] else 0
  }

  /** The loads of workers 0 .. m-1 together. */
  function LoadOfAll(sizes: seq<nat>, place: seq<nat>, m: nat): nat
    requires |place| == |sizes|
  {
    if m == 0 then 0 else LoadOfAll(sizes, place, m - 1) + Load(sizes, place, m - 1)
  }

  /** The heaviest load among workers 0 .. m-1. */
  function Makespan(sizes: seq<nat>, place: seq<nat>, m: nat): (top: nat)
    requires |place| == |sizes|
    ensures forall w :: 0 <= w < m ==> Load(sizes, place, w) <= top
    ensures m > 0 ==> exists w :: 0 <= w < m && Load(sizes, place, w) == top
  {
    if m == 0 then 0
    else
      var rest := Makespan(sizes, place, m - 1);
      var last := Load(sizes, place, m - 1);
      if last > rest then last else rest
  }

  /** When item k arrives, its worker carries no more than any other. */
  ghost predicate LeastLoadedAt(sizes: seq<nat>, place: seq<nat>, m: nat, k: nat)
    requires k < |sizes| == |place|
  {
    forall w :: 0 <= w < m ==> Load(sizes[..k], place[..k], place[k]) <= Load(sizes[..k], place[..k], w)
  }

  ghost predicate LeastLoaded(sizes: seq<nat>, place: seq<nat>, m: nat) {
    && IsPlacement(sizes, place, m)
    && forall k :: 0 <= k < |sizes| ==> LeastLoadedAt(sizes, place, m, k)
  }

  ghost predicate NonIncreasing(sizes: seq<nat>) {
    forall i, j :: 0 <= i < j < |sizes| ==> sizes[i] >= sizes[j]
  }

  ghost predicate Bounded(sizes: seq<nat>, place: seq<nat>, m: nat, cap: nat)
    requires |place| == |sizes|
  {
    forall w :: 0 <= w < m ==> Load(sizes, place, w) <= cap
  }

  lemma ProductIsMonotone(k: nat, a: nat, b: nat)
    requires a <= b
    ensures k * a <= k * b
  {
  }

  lemma ProductOfTriple(k: nat, a: nat)
    ensures k * (3 * a) == 3 * (k * a)
  {
  }

  // ----- conservation: no item is lost or counted twice

  lemma {:induction false} LoadOfAllStep(sizes: seq<nat>, place: seq<nat>, m: nat)
    requires |place| == |sizes| > 0
    ensures var k := |sizes| - 1;
      LoadOfAll(sizes, place, m)
      == LoadOfAll(sizes[..k], place[..k], m) + if place[k] < m then sizes[k] else 0
  {
    if m > 0 {
      LoadOfAllStep(sizes, place, m - 1);
    }
  }

  lemma {:induction false} LoadOfNothing(place: seq<nat>, m: nat)
    requires place == []
    ensures LoadOfAll([], place, m) == 0
  {
    if m > 0 {
      LoadOfNothing(place, m - 1);
    }
  }

  lemma {:induction false} LoadsAddUp(sizes: seq<nat>, place: seq<nat>, m: nat)
    requires IsPlacement(sizes, place, m)
    ensures LoadOfAll(sizes, place, m) == Total(sizes)
  {
    if sizes == [] {
      LoadOfNothing(place, m);
    } else {
      var k := |sizes| - 1;
      LoadsAddUp(sizes[..k], place[..k], m);
      LoadOfAllStep(sizes, place, m);
    }
  }

  lemma {:induction false} LoadOfAllAtMost(sizes: seq<nat>, place: seq<nat>, m: nat, cap: nat)
    requires |place| == |sizes| && Bounded(sizes, place, m, cap)
    ensures LoadOfAll(sizes, place, m) <= m * cap
  {
    if m > 0 {
      LoadOfAllAtMost(sizes, place, m - 1, cap);
      assert m * cap == (m - 1) * cap + cap;
    }
  }

  lemma {:induction false} LoadOfAllAtLeast(sizes: seq<nat>, place: seq<nat>, m: nat, low: nat)
    requires |place| == |sizes| && forall w :: 0 <= w < m ==> Load(sizes, place, w) >= low
    ensures LoadOfAll(sizes, place, m) >= m * low
  {
    if m > 0 {
      LoadOfAllAtLeast(sizes, place, m - 1, low);
      assert m * low == (m - 1) * low + low;
    }
  }

  // ----- Graham's bound for any order

  lemma LeastLoadedPrefix(sizes: seq<nat>, place: seq<nat>, m: nat)
    requires |sizes| > 0 && LeastLoaded(sizes, place, m)
    ensures var k := |sizes| - 1; LeastLoaded(sizes[..k], place[..k], m)
  {
    var k := |sizes| - 1;
    forall j | 0 <= j < k ensures LeastLoadedAt(sizes[..k], place[..k], m, j) {
      assert LeastLoadedAt(sizes, place, m, j);
      assert sizes[..k][..j] == sizes[..j] && place[..k][..j] == place[..j];
    }
  }

  /** What the last item does to the worker that takes it. */
  lemma LastItemBound(sizes: seq<nat>, place: seq<nat>, m: nat)
    requires |sizes| > 0 && LeastLoaded(sizes, place, m)
    ensures var k := |sizes| - 1;
      m * Load(sizes, place, place[k]) <= Total(sizes) + (m - 1) * sizes[k]
  {
    var k := |sizes| - 1;
    var low := Load(sizes[..k], place[..k], place[k]);
    assert LeastLoadedAt(sizes, place, m, k);
    LoadOfAllAtLeast(sizes[..k], place[..k], m, low);
    LoadsAddUp(sizes[..k], place[..k], m);
    assert m * (low + sizes[k]) == m * low + sizes[k] + (m - 1) * sizes[k];
  }

  /** Graham's list bound: no worker is more than (m-1)/m of the largest item above the average. */
  lemma {:induction false} ListBound(sizes: seq<nat>, place: seq<nat>, m: nat, h: nat, largest: nat)
    requires h < m && LeastLoaded(sizes, place, m)
    requires forall i :: 0 <= i < |sizes| ==> sizes[i] <= largest
    ensures m * Load(sizes, place, h) <= Total(sizes) + (m - 1) * largest
  {
    if sizes == [] {
      ProductIsMonotone(m - 1, 0, largest);
    } else {
      var k := |sizes| - 1;
      if place[k] == h {
        LastItemBound(sizes, place, m);
        ProductIsMonotone(m - 1, sizes[k], largest);
      } else {
        LeastLoadedPrefix(sizes, place, m);
        ListBound(sizes[..k], place[..k], m, h, largest);
      }
    }
  }

  /** Any two loads differ by at most the largest item. */
  lemma {:induction false} LoadsAreBalanced(
    sizes: seq<nat>, place: seq<nat>, m: nat, a: nat, b: nat, largest: nat)
    requires a < m && b < m && LeastLoaded(sizes, place, m)
    requires forall i :: 0 <= i < |sizes| ==> sizes[i] <= largest
    ensures Load(sizes, place, a) <= Load(sizes, place, b) + largest
  {
    if sizes != [] {
      var k := |sizes| - 1;
      LeastLoadedPrefix(sizes, place, m);
      LoadsAreBalanced(sizes[..k], place[..k], m, a, b, largest);
      assert LeastLoadedAt(sizes, place, m, k);
    }
  }

  // ----- the textbook placement

  /** The first of workers 0 .. m-1 with the smallest load. */
  function FirstLeastLoaded(sizes: seq<nat>, place: seq<nat>, m: nat): (w: nat)
    requires m > 0 && |place| == |sizes|
    ensures w < m
    ensures forall v: nat :: v < m ==>
      Load(sizes, place, w) <= Load(sizes, place, v) && (v < w ==> Load(sizes, place, w) < Load(sizes, place, v))
  {
    if m == 1 then 0
    else
      var w := FirstLeastLoaded(sizes, place, m - 1);
      if Load(sizes, place, m - 1) < Load(sizes, place, w) then m - 1 else w
  }

  /** Each item in turn on the first least-loaded worker. */
  function Textbook(sizes: seq<nat>, m: nat): (place: seq<nat>)
    requires m > 0
    ensures |place| == |sizes|
  {
    if sizes == [] then []
    else
      var k := |sizes| - 1;
      var before := Textbook(sizes[..k], m);
      before + [FirstLeastLoaded(sizes[..k], before, m)]
  }

  lemma LeastLoadedExtends(sizes: seq<nat>, place: seq<nat>, m: nat)
    requires |place| == |sizes| > 0
    requires var k := |sizes| - 1; LeastLoaded(sizes[..k], place[..k], m) && place[k] < m
    requires LeastLoadedAt(sizes, place, m, |sizes| - 1)
    ensures LeastLoaded(sizes, place, m)
  {
    var n := |sizes| - 1;
    forall k | 0 <= k < n ensures place[k] < m && LeastLoadedAt(sizes, place, m, k) {
      assert place[..n][k] < m && LeastLoadedAt(sizes[..n], place[..n], m, k);
      assert sizes[..n][..k] == sizes[..k] && place[..n][..k] == place[..k];
    }
  }

  lemma {:induction false} TextbookIsLeastLoaded(sizes: seq<nat>, m: nat)
    requires m > 0
    ensures LeastLoaded(sizes, Textbook(sizes, m), m)
  {
    if sizes != [] {
      var k := |sizes| - 1;
      TextbookIsLeastLoaded(sizes[..k], m);
      assert Textbook(sizes, m)[..k] == Textbook(sizes[..k], m);
      LeastLoadedExtends(sizes, Textbook(sizes, m), m);
    }
  }

  lemma CancelFactor(m: nat, a: nat, b: nat)
    requires m > 0 && m * a <= m * b
    ensures a <= b
  {
  }

  /** When a batch with a largest item is light enough, no worker of the textbook placement exceeds `cap`. */
  lemma LightBatchFits(sizes: seq<nat>, m: nat, largest: nat, cap: nat)
    requires m > 0 && Total(sizes) + (m - 1) * largest <= m * cap
    requires forall i :: 0 <= i < |sizes| ==> sizes[i] <= largest
    ensures Makespan(sizes, Textbook(sizes, m), m) <= cap
  {
    var place := Textbook(sizes, m);
    var h :| 0 <= h < m && Load(sizes, place, h) == Makespan(sizes, place, m);
    TextbookIsLeastLoaded(sizes, m);
    ListBound(sizes, place, m, h, largest);
    CancelFactor(m, Load(sizes, place, h), cap);
  }

  // ----- longest processing time first

  /** An item is big when nothing of size `p` fits beside it under `cap`; big items weigh 2, others 1. */
  function Weights(sizes: seq<nat>, p: nat, cap: nat): (t: seq<nat>)
    ensures |t| == |sizes|
  {
    seq(|sizes|, i requires 0 <= i < |sizes| => if sizes[i] + p > cap then 2 else 1)
  }

  lemma WeightsPrefix(sizes: seq<nat>, p: nat, cap: nat)
    requires |sizes| > 0
    ensures var k := |sizes| - 1; Weights(sizes, p, cap)[..k] == Weights(sizes[..k], p, cap)
  {
  }

  /** Under `cap`, items that are each above a third of it weigh at most 2 on any worker. */
  lemma {:induction false} CapLimitsWeight(sizes: seq<nat>, place: seq<nat>, w: nat, p: nat, cap: nat)
    requires |place| == |sizes| && p <= cap < 3 * p
    requires forall i :: 0 <= i < |sizes| ==> sizes[i] >= p
    ensures var t := Load(Weights(sizes, p, cap), place, w); var s := Load(sizes, place, w);
      && (t >= 1 ==> s >= p)
      && (t >= 2 ==> s >= 2 * p || s + p > cap)
      && (t >= 3 ==> s > cap)
  {
    if sizes != [] {
      var k := |sizes| - 1;
      CapLimitsWeight(sizes[..k], place[..k], w, p, cap);
      WeightsPrefix(sizes, p, cap);
    }
  }

  /** A worker on which an item of size `p` would exceed `cap` already weighs at least 2. */
  lemma {:induction false} FullWorkerWeighs(sizes: seq<nat>, place: seq<nat>, w: nat, p: nat, cap: nat)
    requires |place| == |sizes| && p <= cap
    ensures var t := Load(Weights(sizes, p, cap), place, w); var s := Load(sizes, place, w);
      && (t == 0 ==> s == 0)
      && (t == 1 ==> s + p <= cap)
  {
    if sizes != [] {
      var k := |sizes| - 1;
      FullWorkerWeighs(sizes[..k], place[..k], w, p, cap);
      WeightsPrefix(sizes, p, cap);
    }
  }

  /** When the last item exceeds a third of what another placement needs, least-loaded is optimal. */
  lemma LargeItemsFit(sizes: seq<nat>, place: seq<nat>, m: nat, other: seq<nat>, cap: nat)
    requires |sizes| > 0 && LeastLoaded(sizes, place, m) && NonIncreasing(sizes)
    requires IsPlacement(sizes, other, m) && Bounded(sizes, other, m, cap)
    requires cap < 3 * sizes[|sizes| - 1]
    ensures Load(sizes, place, place[|sizes| - 1]) <= cap
  {
    var k := |sizes| - 1;
    var p := sizes[k];
    assert Load(sizes, other, other[k]) >= p;
    assert LeastLoadedAt(sizes, place, m, k);
    if Load(sizes, place, place[k]) > cap {
      var t, t' := Weights(sizes, p, cap), Weights(sizes[..k], p, cap);
      WeightsPrefix(sizes, p, cap);
      forall w | 0 <= w < m ensures Load(t, other, w) <= 2 && Load(t', place[..k], w) >= 2 {
        CapLimitsWeight(sizes, other, w, p, cap);
        FullWorkerWeighs(sizes[..k], place[..k], w, p, cap);
      }
      LoadOfAllAtMost(t, other, m, 2);
      LoadOfAllAtLeast(t', place[..k], m, 2);
      LoadsAddUp(t, other, m);
      LoadsAddUp(t', place[..k], m);
      assert false;
    }
  }

  lemma BoundSplits(m: nat, cap: nat)
    ensures m > 0 ==> (4 * m - 1) * cap == 3 * (m * cap) + (m - 1) * cap
  {
  }

  /** The two ways the bound is met, as arithmetic: an optimal load, or a small last item. */
  lemma OptimalMeetsBound(m: nat, load: nat, cap: nat)
    requires m > 0 && load <= cap
    ensures 3 * (m * load) <= (4 * m - 1) * cap
  {
    BoundSplits(m, cap);
    ProductIsMonotone(m, load, cap);
    ProductIsMonotone(m - 1, 0, cap);
  }

  lemma SmallLastMeetsBound(m: nat, product: nat, total: nat, last: nat, cap: nat)
    requires m > 0 && product <= total + (m - 1) * last && total <= m * cap && 3 * last <= cap
    ensures 3 * product <= (4 * m - 1) * cap
  {
    BoundSplits(m, cap);
    ProductIsMonotone(m - 1, 3 * last, cap);
    ProductOfTriple(m - 1, last);
  }

  /** Graham's bound for longest-processing-time-first, worker by worker. */
  lemma {:induction false} LptWorkerBound(
    sizes: seq<nat>, place: seq<nat>, m: nat, other: seq<nat>, cap: nat, h: nat)
    requires h < m && LeastLoaded(sizes, place, m) && NonIncreasing(sizes)
    requires IsPlacement(sizes, other, m) && Bounded(sizes, other, m, cap)
    ensures 3 * (m * Load(sizes, place, h)) <= (4 * m - 1) * cap
  {
    var k := |sizes| - 1;
    if sizes == [] {
      OptimalMeetsBound(m, 0, cap);
    } else if place[k] != h {
      LeastLoadedPrefix(sizes, place, m);
      assert Bounded(sizes[..k], other[..k], m, cap) by {
        forall w | 0 <= w < m ensures Load(sizes[..k], other[..k], w) <= cap {
          assert Load(sizes[..k], other[..k], w) <= Load(sizes, other, w);
        }
      }
      LptWorkerBound(sizes[..k], place[..k], m, other[..k], cap, h);
    } else if cap < 3 * sizes[k] {
      LargeItemsFit(sizes, place, m, other, cap);
      OptimalMeetsBound(m, Load(sizes, place, h), cap);
    } else {
      LastItemBound(sizes, place, m);
      LoadsAddUp(sizes, other, m);
      LoadOfAllAtMost(sizes, other, m, cap);
      SmallLastMeetsBound(m, m * Load(sizes, place, h), Total(sizes), sizes[k], cap);
    }
  }

  /** Longest-processing-time-first is within 4/3 - 1/(3m) of every other placement. */
  lemma LptBound(sizes: seq<nat>, place: seq<nat>, m: nat, other: seq<nat>)
    requires m > 0 && LeastLoaded(sizes, place, m) && NonIncreasing(sizes)
    requires IsPlacement(sizes, other, m)
    ensures 3 * (m * Makespan(sizes, place, m)) <= (4 * m - 1) * Makespan(sizes, other, m)
  {
    var h :| 0 <= h < m && Load(sizes, place, h) == Makespan(sizes, place, m);
    LptWorkerBound(sizes, place, m, other, Makespan(sizes, other, m), h);
  }
}
