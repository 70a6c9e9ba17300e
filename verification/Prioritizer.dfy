/** Fee-per-compute-unit scores, their arithmetic, and the ranking built on them. */
module Prioritizer {
  import opened Core
  import opened PriorityGraph
  import opened StableSort

  function CalculateScore(unit: SchedulableUnit): u64 {
    var cu := unit.ComputeUnits();
    if cu == 0 then 0 else SaturatingMul(unit.PriorityScore(), 1_000_000) / cu
  }

  // ----- score arithmetic

  lemma DivisionLoss(x: nat, d: nat)
    requires d > 0
    ensures x - d < x / d * d <= x
  {
  }

  lemma QuotientsCompare(q: nat, r: nat, c: nat)
    requires q * c < (r + 1) * c
    ensures q <= r
  {
  }

  lemma TwoRoundings(p: nat, c: nat, fee: nat, s: nat)
    requires p * c < fee * 1_000_000 + 1_000_000 && fee * 1_000_000 < s * c + c
    ensures c * (p - s) < 1_000_000 + c
  {
    assert c * (p - s) == p * c - s * c;
  }

  lemma DivideLowers(product: nat, c: nat, p: nat)
    requires c > 0 && product <= p * c
    ensures product / c <= p
  {
    DivisionLoss(product, c);
    QuotientsCompare(product / c, p, c);
  }

  lemma DivideIsMonotone(a: nat, b: nat, c: nat)
    requires c > 0 && a <= b
    ensures a / c <= b / c
  {
    DivisionLoss(a, c);
    DivisionLoss(b, c);
    QuotientsCompare(a / c, b / c, c);
  }

  /** The second multiplication gives back at most what the division by a million took. */
  lemma SecondMultiplicationIsExact(t: Transaction)
    ensures SaturatingMul(t.PriorityScore(), 1_000_000) == t.PriorityScore() * 1_000_000
    ensures t.PriorityScore() * 1_000_000 <= SaturatingMul(t.computeUnitPrice, t.computeUnitLimit)
  {
  }

  /** The score never exceeds the bid price. */
  lemma ScoreIsAtMostPrice(t: Transaction)
    ensures CalculateScore(TransactionUnit(t)) <= t.computeUnitPrice
  {
    if t.computeUnitLimit > 0 {
      SecondMultiplicationIsExact(t);
      DivideLowers(t.PriorityScore() * 1_000_000, t.computeUnitLimit, t.computeUnitPrice);
    }
  }

  /** A higher price never lowers the score. */
  lemma ScoreIsMonotone(low: Transaction, high: Transaction)
    requires low.computeUnitLimit == high.computeUnitLimit
    requires low.computeUnitPrice <= high.computeUnitPrice
    ensures CalculateScore(TransactionUnit(low)) <= CalculateScore(TransactionUnit(high))
  {
    var c := low.computeUnitLimit;
    if c > 0 {
      assert low.computeUnitPrice * c <= high.computeUnitPrice * c;
      DivideIsMonotone(SaturatingMul(low.computeUnitPrice, c), SaturatingMul(high.computeUnitPrice, c), 1_000_000);
      SecondMultiplicationIsExact(low);
      SecondMultiplicationIsExact(high);
      DivideIsMonotone(low.PriorityScore() * 1_000_000, high.PriorityScore() * 1_000_000, c);
    }
  }

  /** What a saturated product becomes after the division by a million and the second multiplication. */
  const SATURATED_FEE: u64 := U64_MAX / 1_000_000 * 1_000_000

  lemma ErrorWhenExact(t: Transaction)
    requires t.computeUnitLimit > 0 && t.computeUnitPrice * t.computeUnitLimit <= U64_MAX
    ensures var c, p, s := t.computeUnitLimit, t.computeUnitPrice, CalculateScore(TransactionUnit(t));
      c * (p - s) < 1_000_000 + c
  {
    var c, p, s := t.computeUnitLimit, t.computeUnitPrice, CalculateScore(TransactionUnit(t));
    SecondMultiplicationIsExact(t);
    DivisionLoss(p * c, 1_000_000);
    DivisionLoss(t.PriorityScore() * 1_000_000, c);
    TwoRoundings(p, c, t.PriorityScore(), s);
  }

  lemma DifferenceTimes(c: nat, p: int, s: int)
    ensures c * (p - s) == p * c - s * c
  {
  }

  lemma ErrorWhenSaturated(t: Transaction)
    requires t.computeUnitLimit > 0 && t.computeUnitPrice * t.computeUnitLimit > U64_MAX
    ensures var c, p, s := t.computeUnitLimit, t.computeUnitPrice, CalculateScore(TransactionUnit(t));
      c * (p - s) == p * c + SATURATED_FEE % c - SATURATED_FEE
  {
    var c, p, s := t.computeUnitLimit, t.computeUnitPrice, CalculateScore(TransactionUnit(t));
    SecondMultiplicationIsExact(t);
    assert s == SATURATED_FEE / c;
    DifferenceTimes(c, p, s);
    assert s * c == SATURATED_FEE - SATURATED_FEE % c;
  }

  /** When the two roundings lose less than c + 1,000,000 per c of the price: whenever the first product
      fits, and beyond that only while it exceeds the saturated fee by little. */
  lemma ScoreErrorBound(t: Transaction)
    requires t.computeUnitLimit > 0
    ensures var c, p, s := t.computeUnitLimit, t.computeUnitPrice, CalculateScore(TransactionUnit(t));
      c * (p - s) < 1_000_000 + c <==>
        p * c <= U64_MAX || p * c + SATURATED_FEE % c < SATURATED_FEE + 1_000_000 + c
  {
    if t.computeUnitPrice * t.computeUnitLimit <= U64_MAX {
      ErrorWhenExact(t);
    } else {
      ErrorWhenSaturated(t);
    }
  }

  // ----- agreement with the graph scheduler

  function NodeOf(unit: SchedulableUnit): Node {
    match unit
    case BundleUnit(b) => BundleNode(b)
    case TransactionUnit(t) => TransactionNode(t)
  }

  /** Score and node priority agree except on a bundle without compute units that carries a tip. */
  lemma ScoreIsNodePriority(unit: SchedulableUnit)
    ensures CalculateScore(unit) == NodeOf(unit).priority <==>
      unit.TransactionUnit? || unit.ComputeUnits() > 0 || unit.PriorityScore() == 0
    ensures unit.ComputeUnits() == 0 ==> CalculateScore(unit) == 0
  {
  }

  // ----- ranking

  function UnitsOf(bundles: seq<Bundle>, looseTxs: seq<Transaction>): seq<SchedulableUnit> {
    seq(|bundles|, i requires 0 <= i < |bundles| => BundleUnit(bundles[i]))
    + seq(|looseTxs|, i requires 0 <= i < |looseTxs| => TransactionUnit(looseTxs[i]))
  }

  function Scores(units: seq<SchedulableUnit>): (keys: seq<nat>)
    ensures |keys| == |units|
  {
    seq(|units|, i requires 0 <= i < |units| => CalculateScore(units[i]))
  }

  /** `ranked` is `units` by descending score, equal scores in input order. */
  ghost predicate IsRanking(units: seq<SchedulableUnit>, order: seq<nat>, ranked: seq<SchedulableUnit>) {
    IsRankOrder(Scores(units), order) && ranked == Arrange(units, order)
  }

  method Prioritize(bundles: seq<Bundle>, looseTxs: seq<Transaction>) returns (units: seq<SchedulableUnit>)
    ensures exists order :: IsRanking(UnitsOf(bundles, looseTxs), order, units)
  {
    units := UnitsOf(bundles, looseTxs);
    var order := StableOrder(Scores(units));
    units := Arrange(units, order);
    assert IsRanking(UnitsOf(bundles, looseTxs), order, units);
  }

  /** When scores and node priorities agree, the prioritizer's ranking is itself an order in which the
      graph scheduler may emit the batch. */
  lemma RankingIsAnEmissionOrder(bundles: seq<Bundle>, looseTxs: seq<Transaction>, order: seq<nat>)
    requires IsRankOrder(Scores(UnitsOf(bundles, looseTxs)), order)
    requires forall b :: b in bundles ==> b.TotalComputeUnits() > 0 || b.tip == 0
    ensures IsEmissionOrder(NodesOf(bundles, looseTxs), order)
  {
    var units, nodes := UnitsOf(bundles, looseTxs), NodesOf(bundles, looseTxs);
    var keys := Scores(units);
    RankOrderIsPermutation(keys, order);
    forall i | 0 <= i < |units| ensures nodes[i].priority == keys[i] {
      assert nodes[i] == NodeOf(units[i]);
      ScoreIsNodePriority(units[i]);
      assert i < |bundles| ==> bundles[i] in bundles;
    }
    forall a, b | 0 <= a < b < |order|
      ensures nodes[order[a]].priority >= nodes[order[b]].priority && Outranks(nodes, order[a], order[b])
    {
      assert Before(keys, order[a], order[b]);
    }
  }
}
