/** The PrioGraph scheduler end to end: graph, emission, placement. */
module PrioGraphScheduler {
  import opened Core
  import opened Permutations
  import opened PriorityGraph
  import opened WorkerPlacement
  import opened ListScheduling
  import opened StableSort

  /** `sorted` and the assignments are a scheduling of `nodes` on m workers. */
  ghost predicate IsSchedule(nodes: seq<Node>, sorted: seq<nat>, workers: seq<nat>, m: nat) {
    && IsEmissionOrder(nodes, sorted)
    && IsGreedyPlacement(Arrange(nodes, sorted), workers, m)
  }

  /** The assignments are those of some scheduling of `nodes`, unit by unit. */
  ghost predicate AssignsByOrder(nodes: seq<Node>, sorted: seq<nat>, assignments: seq<WorkerAssignment>, m: nat) {
    && IsSchedule(nodes, sorted, WorkersIn(assignments), m)
    && Names(Arrange(nodes, sorted), assignments)
  }

  method Schedule(bundles: seq<Bundle>, looseTxs: seq<Transaction>, workerCount: nat)
    returns (assignments: seq<WorkerAssignment>)
    requires workerCount > 0 || (bundles == [] && looseTxs == [])
    ensures |assignments| == |bundles| + |looseTxs|
    ensures exists sorted :: AssignsByOrder(NodesOf(bundles, looseTxs), sorted, assignments, workerCount)
  {
    if bundles == [] && looseTxs == [] {
      assert AssignsByOrder(NodesOf([], []), [], [], workerCount);
      return [];
    }
    var nodes, adj := BuildPriorityGraph(bundles, looseTxs);
    var sorted;
    ghost var entered;
    sorted, entered := TopologicalSort(nodes, adj);
    assignments := AssignWorkers(nodes, sorted, workerCount);
    assert AssignsByOrder(nodes, sorted, assignments, workerCount);
  }

  // ----- a placement seen in input order and in emission order

  /** The load of worker w from the items of `chosen` alone, among the first n. */
  ghost function LoadFrom(sizes: seq<nat>, place: seq<nat>, chosen: set<nat>, w: nat, n: nat): nat
    requires n <= |sizes| == |place|
  {
    if n == 0 then 0
    else LoadFrom(sizes, place, chosen, w, n - 1) + if n - 1 in chosen && place[n - 1] == w then sizes[n - 1] else 0
  }

  lemma {:induction false} LoadFromAll(sizes: seq<nat>, place: seq<nat>, w: nat, chosen: set<nat>)
    requires |sizes| == |place| && Below(|sizes|) <= chosen
    ensures LoadFrom(sizes, place, chosen, w, |sizes|) == Load(sizes, place, w)
  {
    if sizes != [] {
      var k := |sizes| - 1;
      LoadFromAll(sizes[..k], place[..k], w, chosen);
      LoadFromPrefix(sizes, place, chosen, w, k);
    }
  }

  lemma {:induction false} LoadFromPrefix(sizes: seq<nat>, place: seq<nat>, chosen: set<nat>, w: nat, n: nat)
    requires n < |sizes| == |place|
    ensures var k := |sizes| - 1;
      LoadFrom(sizes, place, chosen, w, n) == LoadFrom(sizes[..k], place[..k], chosen, w, n)
  {
    if n > 0 {
      LoadFromPrefix(sizes, place, chosen, w, n - 1);
    }
  }

  lemma {:induction false} LoadFromPlusOne(sizes: seq<nat>, place: seq<nat>, chosen: set<nat>, x: nat, w: nat, n: nat)
    requires n <= |sizes| == |place| && x !in chosen && x < |sizes|
    ensures LoadFrom(sizes, place, chosen + {x}, w, n)
         == LoadFrom(sizes, place, chosen, w, n) + if x < n && place[x] == w then sizes[x] else 0
  {
    if n > 0 {
      LoadFromPlusOne(sizes, place, chosen, x, w, n - 1);
    }
  }

  lemma {:induction false} LoadFromNothing(sizes: seq<nat>, place: seq<nat>, w: nat, n: nat)
    requires n <= |sizes| == |place|
    ensures LoadFrom(sizes, place, {}, w, n) == 0
  {
    if n > 0 {
      LoadFromNothing(sizes, place, w, n - 1);
    }
  }

  lemma {:induction false} LoadOfArranged(sizes: seq<nat>, place: seq<nat>, s: seq<nat>, w: nat)
    requires |sizes| == |place| && Distinct(s) && forall k :: 0 <= k < |s| ==> s[k] < |sizes|
    ensures Load(Arrange(sizes, s), Arrange(place, s), w) == LoadFrom(sizes, place, ElementsOf(s), w, |sizes|)
  {
    if s == [] {
      assert ElementsOf(s) == {};
      LoadFromNothing(sizes, place, w, |sizes|);
    } else {
      var k := |s| - 1;
      LoadOfArranged(sizes, place, s[..k], w);
      assert ElementsOf(s) == ElementsOf(s[..k]) + {s[k]};
      LoadFromPlusOne(sizes, place, ElementsOf(s[..k]), s[k], w, |sizes|);
      assert Arrange(sizes, s)[..k] == Arrange(sizes, s[..k]) && Arrange(place, s)[..k] == Arrange(place, s[..k]);
    }
  }

  lemma PermutationElements(s: seq<nat>, n: nat)
    requires IsPermutation(s, n)
    ensures Below(n) <= ElementsOf(s) && Distinct(s)
  {
    forall i | i in Below(n) ensures i in ElementsOf(s) {
      var k := PermutationCovers(s, n, i);
    }
  }

  /** Reordering items together with their workers changes no load. */
  lemma LoadUnderPermutation(sizes: seq<nat>, place: seq<nat>, sorted: seq<nat>, w: nat)
    requires |sizes| == |place| && IsPermutation(sorted, |sizes|)
    ensures Load(Arrange(sizes, sorted), Arrange(place, sorted), w) == Load(sizes, place, w)
  {
    PermutationElements(sorted, |sizes|);
    LoadOfArranged(sizes, place, sorted, w);
    LoadFromAll(sizes, place, w, ElementsOf(sorted));
  }

  lemma TotalUnderPermutation(sizes: seq<nat>, sorted: seq<nat>)
    requires IsPermutation(sorted, |sizes|)
    ensures Total(Arrange(sizes, sorted)) == Total(sizes)
  {
    var zeros := seq(|sizes|, i => 0);
    LoadUnderPermutation(sizes, zeros, sorted, 0);
    LoadsAddUp(sizes, zeros, 1);
    LoadsAddUp(Arrange(sizes, sorted), Arrange(zeros, sorted), 1);
    assert LoadOfAll(sizes, zeros, 1) == Load(sizes, zeros, 0);
    assert LoadOfAll(Arrange(sizes, sorted), Arrange(zeros, sorted), 1)
        == Load(Arrange(sizes, sorted), Arrange(zeros, sorted), 0);
  }

  // ----- the guarantees of a schedule, in terms of the batch as submitted

  /** The batch's priorities, highest first. */
  function Descending(nodes: seq<Node>): (sizes: seq<nat>)
    ensures |sizes| == |nodes|
  {
    Arrange(Priorities(nodes), StableOrder(Priorities(nodes)))
  }

  /** Two orders that sort the same sizes downwards cannot differ at position k. */
  lemma SortedAtMost(sizes: seq<nat>, one: seq<nat>, two: seq<nat>, k: nat)
    requires IsPermutation(one, |sizes|) && IsPermutation(two, |sizes|) && k < |sizes|
    requires NonIncreasing(Arrange(sizes, one)) && NonIncreasing(Arrange(sizes, two))
    ensures sizes[one[k]] <= sizes[two[k]]
  {
    if sizes[one[k]] > sizes[two[k]] {
      forall i | i in ElementsOf(one[..k + 1]) ensures i in ElementsOf(two[..k]) {
        var a :| 0 <= a <= k && one[a] == i;
        var b := PermutationCovers(two, |sizes|, i);
        assert Arrange(sizes, one)[a] == sizes[i] && Arrange(sizes, one)[k] == sizes[one[k]];
        assert Arrange(sizes, two)[b] == sizes[i] && Arrange(sizes, two)[k] == sizes[two[k]];
        assert two[..k][b] == i;
      }
      DistinctSize(one[..k + 1]);
      DistinctSize(two[..k]);
      SubsetSize(ElementsOf(one[..k + 1]), ElementsOf(two[..k]));
      assert false;
    }
  }

  /** Whatever the heap does with ties, the emitted priorities are the same list. */
  lemma EmittedPriorities(nodes: seq<Node>, sorted: seq<nat>)
    requires IsEmissionOrder(nodes, sorted)
    ensures Priorities(Arrange(nodes, sorted)) == Descending(nodes)
  {
    var sizes, order := Priorities(nodes), StableOrder(Priorities(nodes));
    RankOrderIsPermutation(sizes, order);
    assert Priorities(Arrange(nodes, sorted)) == Arrange(sizes, sorted);
    assert NonIncreasing(Arrange(sizes, order)) by {
      forall i, j | 0 <= i < j < |order| ensures sizes[order[i]] >= sizes[order[j]] {
        assert Before(sizes, order[i], order[j]);
      }
    }
    forall k | 0 <= k < |sizes| ensures sizes[sorted[k]] == sizes[order[k]] {
      SortedAtMost(sizes, sorted, order, k);
      SortedAtMost(sizes, order, sorted, k);
    }
  }

  /** On a disjoint batch for which the load counters suffice, the heaviest worker carries at most
      4/3 - 1/(3m) of what any placement of the batch (worker `rival[i]` for unit i as submitted) puts
      on its heaviest worker. */
  lemma ScheduleMeetsLptBound(nodes: seq<Node>, sorted: seq<nat>, workers: seq<nat>, m: nat, rival: seq<nat>)
    requires m > 0 && IsSchedule(nodes, sorted, workers, m)
    requires PairwiseDisjoint(nodes) && CountersSuffice(Descending(nodes), m)
    requires IsPlacement(Priorities(nodes), rival, m)
    ensures 3 * (m * Makespan(Descending(nodes), workers, m)) <= (4 * m - 1) * Makespan(Priorities(nodes), rival, m)
  {
    EmittedPriorities(nodes, sorted);
    DisjointUnderPermutation(nodes, sorted);
    assert Priorities(Arrange(nodes, sorted)) == Arrange(Priorities(nodes), sorted);
    MakespanUnderPermutation(Priorities(nodes), rival, sorted, m);
    DisjointBatchMeetsLptBound(Arrange(nodes, sorted), workers, m, Arrange(rival, sorted));
  }

  lemma DisjointUnderPermutation(nodes: seq<Node>, sorted: seq<nat>)
    requires PairwiseDisjoint(nodes) && IsPermutation(sorted, |nodes|)
    ensures PairwiseDisjoint(Arrange(nodes, sorted))
  {
    forall a, b | 0 <= a < b < |sorted| ensures nodes[sorted[a]].accounts !! nodes[sorted[b]].accounts {
      var i, j := sorted[a], sorted[b];
      assert i < j || j < i;
    }
  }

  /** The same bound for a batch in which every two units conflict, where most placements are fallbacks. */
  lemma CrowdedScheduleMeetsLptBound(nodes: seq<Node>, sorted: seq<nat>, workers: seq<nat>, m: nat,
      largest: nat, rival: seq<nat>)
    requires m > 0 && IsSchedule(nodes, sorted, workers, m) && AllConflict(nodes)
    requires Total(Priorities(nodes)) + (m - 1) * largest <= m * U64_MAX
    requires forall i :: 0 <= i < |nodes| ==> nodes[i].priority <= largest
    requires IsPlacement(Priorities(nodes), rival, m)
    ensures 3 * (m * Makespan(Descending(nodes), workers, m)) <= (4 * m - 1) * Makespan(Priorities(nodes), rival, m)
  {
    var units := Arrange(nodes, sorted);
    EmittedPriorities(nodes, sorted);
    assert Priorities(units) == Arrange(Priorities(nodes), sorted);
    TotalUnderPermutation(Priorities(nodes), sorted);
    CrowdedUnderPermutation(nodes, sorted);
    CrowdedBatchIsBalanced(units, workers, m, largest, 0, 0);
    MakespanUnderPermutation(Priorities(nodes), rival, sorted, m);
    LptBound(Priorities(units), workers, m, Arrange(rival, sorted));
  }

  lemma CrowdedUnderPermutation(nodes: seq<Node>, sorted: seq<nat>)
    requires AllConflict(nodes) && IsPermutation(sorted, |nodes|)
    ensures AllConflict(Arrange(nodes, sorted))
  {
    forall a, b | 0 <= a < b < |sorted| ensures Conflict(Arrange(nodes, sorted), a, b) {
      var i, j := sorted[a], sorted[b];
      assert i < j || j < i;
      assert Conflict(nodes, if i < j then i else j, if i < j then j else i);
    }
  }

  /** The placement of a disjoint batch is the least-loaded one exactly when the counters suffice. */
  lemma ScheduleIsLeastLoaded(nodes: seq<Node>, sorted: seq<nat>, workers: seq<nat>, m: nat)
    requires m > 0 && IsSchedule(nodes, sorted, workers, m) && PairwiseDisjoint(nodes)
    ensures LeastLoaded(Descending(nodes), workers, m) <==> CountersSuffice(Descending(nodes), m)
  {
    EmittedPriorities(nodes, sorted);
    DisjointUnderPermutation(nodes, sorted);
    DisjointIsLeastLoaded(Arrange(nodes, sorted), workers, m);
  }

  /** A caller's test on the batch as submitted. */
  lemma LightScheduleSuffices(nodes: seq<Node>, m: nat, largest: nat)
    requires m > 0 && Total(Priorities(nodes)) + (m - 1) * largest <= m * U64_MAX
    requires forall i :: 0 <= i < |nodes| ==> nodes[i].priority <= largest
    ensures CountersSuffice(Descending(nodes), m)
  {
    var sizes := Priorities(nodes);
    RankOrderIsPermutation(sizes, StableOrder(sizes));
    TotalUnderPermutation(sizes, StableOrder(sizes));
    LightBatchSuffices(Descending(nodes), m, largest);
  }

  lemma MakespanUnderPermutation(sizes: seq<nat>, place: seq<nat>, sorted: seq<nat>, m: nat)
    requires |sizes| == |place| && IsPermutation(sorted, |sizes|)
    ensures Makespan(Arrange(sizes, sorted), Arrange(place, sorted), m) == Makespan(sizes, place, m)
  {
    if m > 0 {
      LoadUnderPermutation(sizes, place, sorted, m - 1);
      MakespanUnderPermutation(sizes, place, sorted, m - 1);
    }
  }

  /** The earlier conflicts of an emitted unit are with units that outrank it. */
  lemma EarlierConflictsOutrank(nodes: seq<Node>, sorted: seq<nat>, k: nat)
    requires IsEmissionOrder(nodes, sorted) && k < |sorted|
    ensures |EarlierConflicts(Arrange(nodes, sorted), k)| <= |Predecessors(nodes, sorted[k])|
  {
    forall j | j in EarlierConflicts(Arrange(nodes, sorted), k) ensures sorted[j] in Predecessors(nodes, sorted[k]) {
      assert Conflict(nodes, sorted[j], sorted[k]);
    }
    ImageSize(EarlierConflicts(Arrange(nodes, sorted), k), sorted, |nodes|, Predecessors(nodes, sorted[k]));
  }

  /** If every unit is outranked by fewer than m of the units it conflicts with, conflicting units never
      share a worker. */
  lemma ScheduleSeparatesConflicts(nodes: seq<Node>, sorted: seq<nat>, workers: seq<nat>, m: nat)
    requires IsSchedule(nodes, sorted, workers, m)
    requires forall i :: 0 <= i < |nodes| ==> |Predecessors(nodes, i)| < m
    ensures forall a, b :: 0 <= a < b < |sorted| && Conflict(nodes, sorted[a], sorted[b]) ==> workers[a] != workers[b]
  {
    forall a, b | 0 <= a < b < |sorted| && Conflict(nodes, sorted[a], sorted[b]) ensures workers[a] != workers[b] {
      if workers[a] == workers[b] {
        SharingNeedsManyConflicts(Arrange(nodes, sorted), workers, m, a, b);
        EarlierConflictsOutrank(nodes, sorted, b);
      }
    }
  }

  /** Positions that a permutation sends into a set are no more numerous than the set. */
  lemma {:induction false} ImageSize(positions: set<nat>, sorted: seq<nat>, n: nat, target: set<nat>)
    requires IsPermutation(sorted, n)
    requires forall k :: k in positions ==> k < n && sorted[k] in target
    ensures |positions| <= |target|
  {
    if positions != {} {
      var k :| k in positions;
      ImageSize(positions - {k}, sorted, n, target - {sorted[k]});
    }
  }

  // ----- the batch's own fields

  /** The submitted units that outrank unit i and name one of its accounts. */
  ghost function Rivals(bundles: seq<Bundle>, txs: seq<Transaction>, i: nat): set<nat>
    requires i < |bundles| + |txs|
  {
    set j | j in Below(|bundles| + |txs|)
      && UnitsShare(bundles, txs, j, i) && Outranks(NodesOf(bundles, txs), j, i)
  }

  lemma RivalsArePredecessors(bundles: seq<Bundle>, txs: seq<Transaction>, i: nat)
    requires i < |bundles| + |txs|
    ensures |NodesOf(bundles, txs)| == |bundles| + |txs|
    ensures Predecessors(NodesOf(bundles, txs), i) == Rivals(bundles, txs, i)
  {
    forall j: nat | j < |bundles| + |txs|
      ensures Conflict(NodesOf(bundles, txs), j, i) <==> UnitsShare(bundles, txs, j, i)
    {
      ConflictIsASharedAccount(bundles, txs, j, i);
    }
  }

  /** Each submitted unit gets one assignment, under its own id and kind; of two units that name a common
      account the outranking one comes first. */
  lemma SubmittedUnitsAreScheduled(bundles: seq<Bundle>, txs: seq<Transaction>, sorted: seq<nat>,
      assignments: seq<WorkerAssignment>, m: nat)
    requires AssignsByOrder(NodesOf(bundles, txs), sorted, assignments, m)
    ensures |assignments| == |sorted| && IsPermutation(sorted, |bundles| + |txs|)
    ensures forall k :: 0 <= k < |sorted| ==>
      assignments[k].unitId == UnitId(bundles, txs, sorted[k]) && assignments[k].isBundle == (sorted[k] < |bundles|)
    ensures forall a, b :: 0 <= a < b < |sorted| && UnitsShare(bundles, txs, sorted[a], sorted[b]) ==>
      Outranks(NodesOf(bundles, txs), sorted[a], sorted[b])
  {
    var nodes := NodesOf(bundles, txs);
    forall k | 0 <= k < |sorted|
      ensures assignments[k].unitId == UnitId(bundles, txs, sorted[k])
      ensures assignments[k].isBundle == (sorted[k] < |bundles|)
    {
      NodesAreTheBatch(bundles, txs, sorted[k]);
    }
    forall a, b | 0 <= a < b < |sorted| && UnitsShare(bundles, txs, sorted[a], sorted[b])
      ensures Outranks(nodes, sorted[a], sorted[b])
    {
      ConflictIsASharedAccount(bundles, txs, sorted[a], sorted[b]);
    }
  }

  /** Units that name a common account get different workers, if every unit has fewer than m rivals. */
  lemma SharingUnitsAreSeparated(bundles: seq<Bundle>, txs: seq<Transaction>, sorted: seq<nat>,
      assignments: seq<WorkerAssignment>, m: nat)
    requires AssignsByOrder(NodesOf(bundles, txs), sorted, assignments, m)
    requires forall i :: 0 <= i < |bundles| + |txs| ==> |Rivals(bundles, txs, i)| < m
    ensures forall a, b :: 0 <= a < b < |assignments| && UnitsShare(bundles, txs, sorted[a], sorted[b]) ==>
      assignments[a].workerId != assignments[b].workerId
  {
    var nodes := NodesOf(bundles, txs);
    forall i | 0 <= i < |nodes| ensures |Predecessors(nodes, i)| < m {
      RivalsArePredecessors(bundles, txs, i);
    }
    ScheduleSeparatesConflicts(nodes, sorted, WorkersIn(assignments), m);
    forall a, b | 0 <= a < b < |assignments| && UnitsShare(bundles, txs, sorted[a], sorted[b])
      ensures assignments[a].workerId != assignments[b].workerId
    {
      ConflictIsASharedAccount(bundles, txs, sorted[a], sorted[b]);
      assert WorkersIn(assignments)[a] != WorkersIn(assignments)[b];
    }
  }

  // ----- when a counter wraps

  /** A bundle without transactions: no accounts, no compute units. */
  function EmptyBundle(id: u64, tip: u64): Bundle {
    Bundle(id, [], tip)
  }

  /** The least tip at which an empty bundle's priority saturates. */
  const SATURATING_TIP: u64 := 18_446_744_073_710

  /** Two bundles of the greatest priority, then two of the given tips. */
  function OverflowBatch(third: u64, fourth: u64): seq<Bundle> {
    [EmptyBundle(0, SATURATING_TIP), EmptyBundle(1, SATURATING_TIP), EmptyBundle(2, third), EmptyBundle(3, fourth)]
  }

  function OverflowNodes(third: u64, fourth: u64): (nodes: seq<Node>)
    ensures |nodes| == 4 && PairwiseDisjoint(nodes)
    ensures nodes[0].priority == nodes[1].priority == U64_MAX
    ensures nodes[2].priority == SaturatingMul(third, 1_000_000)
    ensures nodes[3].priority == SaturatingMul(fourth, 1_000_000)
    ensures forall i :: 0 <= i < 4 ==> nodes[i].accounts == {}
  {
    NodesOf(OverflowBatch(third, fourth), [])
  }

  lemma LoadOfAppended(sizes: seq<nat>, place: seq<nat>, x: nat, p: nat, w: nat)
    requires |sizes| == |place|
    ensures Load(sizes + [x], place + [p], w) == Load(sizes, place, w) + if p == w then x else 0
  {
    assert (sizes + [x])[..|sizes|] == sizes && (place + [p])[..|place|] == place;
  }

  /** The loads as the four bundles go to workers 0, 1, 0 and `last`. */
  lemma OverflowLoads(sizes: seq<nat>, last: nat, w: nat)
    requires |sizes| == 4 && w < 2
    ensures Load(sizes[..1], [0], w) == if w == 0 then sizes[0] else 0
    ensures Load(sizes[..2], [0, 1], w) == if w == 0 then sizes[0] else sizes[1]
    ensures Load(sizes[..3], [0, 1, 0], w) == if w == 0 then sizes[0] + sizes[2] else sizes[1]
    ensures Load(sizes, [0, 1, 0, last], w)
         == Load(sizes[..3], [0, 1, 0], w) + if last == w then sizes[3] else 0
  {
    LoadOfAppended([], [], sizes[0], 0, w);
    LoadOfAppended(sizes[..1], [0], sizes[1], 1, w);
    LoadOfAppended(sizes[..2], [0, 1], sizes[2], 0, w);
    LoadOfAppended(sizes[..3], [0, 1, 0], sizes[3], last, w);
    assert [] + [sizes[0]] == sizes[..1] && sizes[..1] + [sizes[1]] == sizes[..2];
    assert sizes[..2] + [sizes[2]] == sizes[..3] && sizes[..3] + [sizes[3]] == sizes;
    assert [] + [0] == [0] && [0] + [1] == [0, 1] && [0, 1] + [0] == [0, 1, 0];
    assert [0, 1, 0] + [last] == [0, 1, 0, last];
  }

  /** With no accounts every worker is eligible, so only the two counters matter. */
  lemma OverflowChoice(units: seq<Node>, before: seq<nat>, w: nat)
    requires |before| < |units| && units[|before|].accounts == {} && w < 2
    requires Counter(units, before, w) <= Counter(units, before, 1 - w)
    requires w == 1 ==> Counter(units, before, 1) < Counter(units, before, 0)
    ensures IsFirstLeast(units, before, 2, w)
  {
    forall v: nat ensures Eligible(units, before, 2, v) <==> v == w || v == 1 - w {
    }
  }

  lemma OverflowCounters(units: seq<Node>, before: seq<nat>, sizes: seq<nat>, w: nat)
    requires |before| <= |units| && sizes == Priorities(units)
    ensures Counter(units, before, w) == Load(sizes[..|before|], before, w) % U64_MODULUS
  {
  }

  /** The third bundle wraps worker 0's counter, so the fourth joins it there. */
  lemma OverflowRule(units: seq<Node>, k: nat)
    requires |units| == 4 && k < 4 && forall i :: 0 <= i < 4 ==> units[i].accounts == {}
    requires units[0].priority == units[1].priority == U64_MAX && units[2].priority > 0
    ensures IsFirstLeast(units, [0, 1, 0, 0][..k], 2, [0, 1, 0, 0][k])
  {
    var sizes, before, w := Priorities(units), [0, 1, 0, 0][..k], [0, 1, 0, 0][k];
    assert before == if k == 0 then [] else if k == 1 then [0] else if k == 2 then [0, 1] else [0, 1, 0];
    OverflowLoads(sizes, 0, 0);
    OverflowLoads(sizes, 0, 1);
    OverflowCounters(units, before, sizes, 0);
    OverflowCounters(units, before, sizes, 1);
    OverflowChoice(units, before, w);
  }

  lemma OverflowPlacement(third: u64, fourth: u64)
    requires third >= fourth && third > 0
    ensures IsSchedule(NodesOf(OverflowBatch(third, fourth), []), [0, 1, 2, 3], [0, 1, 0, 0], 2)
  {
    var nodes := OverflowNodes(third, fourth);
    forall k | 0 <= k < 4 ensures IsFirstLeast(nodes, [0, 1, 0, 0][..k], 2, [0, 1, 0, 0][k]) {
      OverflowRule(nodes, k);
    }
    OverflowOrder(nodes);
    assert Arrange(nodes, [0, 1, 2, 3]) == nodes;
  }

  lemma OverflowOrder(nodes: seq<Node>)
    requires |nodes| == 4 && forall i, j :: 0 <= i < j < 4 ==> nodes[i].priority >= nodes[j].priority
    ensures IsEmissionOrder(nodes, [0, 1, 2, 3])
  {
  }

  /** Four bundles of the greatest priority on two workers: three end up on one of them, and the heaviest
      load is 3/2 of the best possible. */
  lemma OverflowBreaksLptBound()
    ensures var nodes := NodesOf(OverflowBatch(SATURATING_TIP, SATURATING_TIP), []);
      && IsSchedule(nodes, [0, 1, 2, 3], [0, 1, 0, 0], 2) && PairwiseDisjoint(nodes)
      && IsPlacement(Priorities(nodes), [0, 1, 0, 1], 2)
      && 3 * (2 * Makespan(Priorities(nodes), [0, 1, 0, 0], 2))
       > (4 * 2 - 1) * Makespan(Priorities(nodes), [0, 1, 0, 1], 2)
  {
    OverflowPlacement(SATURATING_TIP, SATURATING_TIP);
    var sizes := Priorities(OverflowNodes(SATURATING_TIP, SATURATING_TIP));
    OverflowLoads(sizes, 0, 0);
    OverflowLoads(sizes, 0, 1);
    OverflowLoads(sizes, 1, 0);
    OverflowLoads(sizes, 1, 1);
  }

  /** On sizes U64_MAX, U64_MAX, 1000000 and 0, the third item evens out no worse than any rival can. */
  lemma NearlyEvenLoads(sizes: seq<nat>, rival: seq<nat>)
    requires sizes == [U64_MAX, U64_MAX, 1_000_000, 0] && IsPlacement(sizes, rival, 2)
    ensures !LeastLoaded(sizes, [0, 1, 0, 0], 2)
    ensures Makespan(sizes, [0, 1, 0, 0], 2) == U64_MAX + 1_000_000
    ensures 2 * Makespan(sizes, rival, 2) >= 2 * U64_MAX + 1_000_000
  {
    OverflowLoads(sizes, 0, 0);
    OverflowLoads(sizes, 0, 1);
    assert [0, 1, 0, 0][..3] == [0, 1, 0];
    assert !LeastLoadedAt(sizes, [0, 1, 0, 0], 2, 3);
    LoadsAddUp(sizes, [0, 1, 0, 0], 2);
    LoadsAddUp(sizes, rival, 2);
    LoadOfAllAtMost(sizes, rival, 2, Makespan(sizes, rival, 2));
  }

  /** The bound can survive a wrap: here the placement is not the least-loaded one, and still within the
      bound of every other. */
  lemma OverflowCanMeetLptBound(rival: seq<nat>)
    requires IsPlacement(Priorities(NodesOf(OverflowBatch(1, 0), [])), rival, 2)
    ensures var nodes := NodesOf(OverflowBatch(1, 0), []);
      && IsSchedule(nodes, [0, 1, 2, 3], [0, 1, 0, 0], 2) && PairwiseDisjoint(nodes)
      && !LeastLoaded(Priorities(nodes), [0, 1, 0, 0], 2)
      && 3 * (2 * Makespan(Priorities(nodes), [0, 1, 0, 0], 2)) <= (4 * 2 - 1) * Makespan(Priorities(nodes), rival, 2)
  {
    OverflowPlacement(1, 0);
    var sizes := Priorities(OverflowNodes(1, 0));
    assert sizes == [U64_MAX, U64_MAX, 1_000_000, 0];
    NearlyEvenLoads(sizes, rival);
  }
}
