/** The conflict graph of a batch and Kahn's algorithm over it with a max-heap. */
module PriorityGraph {
  import opened Core
  import opened Permutations
  import StableSort

  datatype Node = Node(id: string, priority: u64, accounts: set<Pubkey>, isBundle: bool)

  // ----- nodes

  function BundleNode(b: Bundle): Node {
    Node(Decimal(b.id), SaturatingMul(b.tip, 1_000_000) / AtLeastOne(b.TotalComputeUnits()), b.AllAccounts(), true)
  }

  function TransactionNode(t: Transaction): Node {
    var fee := SaturatingMul(t.computeUnitPrice, t.computeUnitLimit) / 1_000_000;
    Node(t.signature, SaturatingMul(fee, 1_000_000) / AtLeastOne(t.computeUnitLimit), t.AllAccounts(), false)
  }

  /** Bundles first, then loose transactions, each in input order. */
  function NodesOf(bundles: seq<Bundle>, txs: seq<Transaction>): seq<Node> {
    seq(|bundles|, i requires 0 <= i < |bundles| => BundleNode(bundles[i]))
    + seq(|txs|, i requires 0 <= i < |txs| => TransactionNode(txs[i]))
  }

  /** Submitted unit i names `key`: bundles come first, then transactions. */
  ghost predicate UnitLists(bundles: seq<Bundle>, txs: seq<Transaction>, i: nat, key: Pubkey)
    requires i < |bundles| + |txs|
  {
    if i < |bundles| then bundles[i].Lists(key) else txs[i - |bundles|].Lists(key)
  }

  function UnitId(bundles: seq<Bundle>, txs: seq<Transaction>, i: nat): string
    requires i < |bundles| + |txs|
  {
    if i < |bundles| then Decimal(bundles[i].id) else txs[i - |bundles|].signature
  }

  /** Node i carries the id, the kind and exactly the accounts of submitted unit i. */
  lemma NodesAreTheBatch(bundles: seq<Bundle>, txs: seq<Transaction>, i: nat)
    requires i < |bundles| + |txs|
    ensures |NodesOf(bundles, txs)| == |bundles| + |txs|
    ensures var node := NodesOf(bundles, txs)[i];
      node.id == UnitId(bundles, txs, i) && node.isBundle == (i < |bundles|)
    ensures forall key :: key in NodesOf(bundles, txs)[i].accounts <==> UnitLists(bundles, txs, i, key)
  {
    forall key ensures key in NodesOf(bundles, txs)[i].accounts <==> UnitLists(bundles, txs, i, key) {
      if i < |bundles| {
        BundleAccountsAreListed(bundles[i], key);
      } else {
        TransactionAccountsAreListed(txs[i - |bundles|], key);
      }
    }
  }

  lemma QuotientBounds(x: nat, d: nat)
    requires d > 0
    ensures x / d * d <= x < (x / d + 1) * d
  {
  }

  /** A bundle's priority is its tip, scaled and capped at u64, for each of its compute units, rounded down. */
  lemma BundlePriorityIsTipPerUnit(b: Bundle)
    ensures var cu := if b.TotalComputeUnits() == 0 then 1 else b.TotalComputeUnits();
      var scaled := if b.tip * 1_000_000 > U64_MAX then U64_MAX else b.tip * 1_000_000;
      BundleNode(b).priority * cu <= scaled < (BundleNode(b).priority + 1) * cu
  {
    QuotientBounds(SaturatingMul(b.tip, 1_000_000), AtLeastOne(b.TotalComputeUnits()));
  }

  /** A transaction's priority is its fee, in whole units, scaled back, for each compute unit, rounded down. */
  lemma TransactionPriorityIsFeePerUnit(t: Transaction)
    ensures var cu := if t.computeUnitLimit == 0 then 1 else t.computeUnitLimit;
      var offer := if t.computeUnitPrice * t.computeUnitLimit > U64_MAX then U64_MAX
                   else t.computeUnitPrice * t.computeUnitLimit;
      exists fee: nat :: fee * 1_000_000 <= offer < (fee + 1) * 1_000_000
        && TransactionNode(t).priority * cu <= fee * 1_000_000 < (TransactionNode(t).priority + 1) * cu
  {
    var offer := SaturatingMul(t.computeUnitPrice, t.computeUnitLimit);
    var fee := offer / 1_000_000;
    QuotientBounds(offer, 1_000_000);
    QuotientBounds(fee * 1_000_000, AtLeastOne(t.computeUnitLimit));
  }

  // ----- edges

  ghost predicate Conflict(nodes: seq<Node>, i: nat, j: nat)
    requires i < |nodes| && j < |nodes|
  {
    i != j && !(nodes[i].accounts !! nodes[j].accounts)
  }

  function Priorities(nodes: seq<Node>): (keys: seq<nat>)
    ensures |keys| == |nodes|
  {
    seq(|nodes|, i requires 0 <= i < |nodes| => nodes[i].priority)
  }

  /** Two submitted units name a common account. */
  ghost predicate UnitsShare(bundles: seq<Bundle>, txs: seq<Transaction>, i: nat, j: nat)
    requires i < |bundles| + |txs| && j < |bundles| + |txs|
  {
    i != j && exists key :: UnitLists(bundles, txs, i, key) && UnitLists(bundles, txs, j, key)
  }

  lemma ConflictIsASharedAccount(bundles: seq<Bundle>, txs: seq<Transaction>, i: nat, j: nat)
    requires i < |bundles| + |txs| && j < |bundles| + |txs|
    ensures |NodesOf(bundles, txs)| == |bundles| + |txs|
    ensures Conflict(NodesOf(bundles, txs), i, j) <==> UnitsShare(bundles, txs, i, j)
  {
    NodesAreTheBatch(bundles, txs, i);
    NodesAreTheBatch(bundles, txs, j);
    if Conflict(NodesOf(bundles, txs), i, j) {
      var key :| key in NodesOf(bundles, txs)[i].accounts && key in NodesOf(bundles, txs)[j].accounts;
    }
  }

  /** Higher priority first; among equals the lower index: the rank of a stable descending sort. */
  ghost predicate Outranks(nodes: seq<Node>, i: nat, j: nat)
    requires i < |nodes| && j < |nodes|
  {
    StableSort.Before(Priorities(nodes), i, j)
  }

  ghost predicate Edge(nodes: seq<Node>, u: nat, v: nat)
    requires u < |nodes| && v < |nodes|
  {
    Conflict(nodes, u, v) && Outranks(nodes, u, v)
  }

  ghost predicate Distinct(s: seq<nat>) {
    forall a, b :: 0 <= a < b < |s| ==> s[a] != s[b]
  }

  /** Row u of `adj` lists exactly u's edges, each once. */
  ghost predicate IsRow(nodes: seq<Node>, u: nat, row: seq<nat>)
    requires u < |nodes|
  {
    Distinct(row) && forall v: nat :: v in row <==> v < |nodes| && Edge(nodes, u, v)
  }

  ghost predicate IsConflictGraph(nodes: seq<Node>, adj: seq<seq<nat>>) {
    |adj| == |nodes| && forall u :: 0 <= u < |nodes| ==> IsRow(nodes, u, adj[u])
  }

  /** Each conflicting pair has one edge, and other pairs none. */
  lemma OneEdgePerConflict(nodes: seq<Node>, adj: seq<seq<nat>>, i: nat, j: nat)
    requires IsConflictGraph(nodes, adj) && i < |nodes| && j < |nodes|
    ensures Conflict(nodes, i, j) <==> j in adj[i] || i in adj[j]
    ensures !(j in adj[i] && i in adj[j])
  {
    assert IsRow(nodes, i, adj[i]) && IsRow(nodes, j, adj[j]);
  }

  /** The pair {u, v} was compared before outer index i reached inner index j. */
  ghost predicate Compared(u: nat, v: nat, i: nat, j: nat) {
    var lo, hi := if u < v then u else v, if u < v then v else u;
    lo < i || (lo == i && hi < j)
  }

  ghost predicate IsPartialRow(nodes: seq<Node>, u: nat, row: seq<nat>, i: nat, j: nat)
    requires u < |nodes|
  {
    Distinct(row) && forall v: nat :: v in row <==> v < |nodes| && Edge(nodes, u, v) && Compared(u, v, i, j)
  }

  /** Comparing the pair (i, j) leaves every row right up to j + 1. */
  lemma RowAdvances(nodes: seq<Node>, u: nat, row: seq<nat>, next: seq<nat>, i: nat, j: nat)
    requires u < |nodes| && i < j < |nodes| && IsPartialRow(nodes, u, row, i, j)
    requires next == if u == i && Edge(nodes, i, j) then row + [j]
                     else if u == j && Edge(nodes, j, i) then row + [i] else row
    ensures IsPartialRow(nodes, u, next, i, j + 1)
  {
  }

  lemma NextOuterIndex(nodes: seq<Node>, u: nat, row: seq<nat>, i: nat)
    requires u < |nodes| && i < |nodes| && IsPartialRow(nodes, u, row, i, |nodes|)
    ensures IsPartialRow(nodes, u, row, i + 1, i + 2)
  {
  }

  method BuildPriorityGraph(bundles: seq<Bundle>, looseTxs: seq<Transaction>)
    returns (nodes: seq<Node>, adj: seq<seq<nat>>)
    ensures nodes == NodesOf(bundles, looseTxs)
    ensures IsConflictGraph(nodes, adj)
  {
    nodes := [];
    for b := 0 to |bundles|
      invariant nodes == NodesOf(bundles[..b], [])
    {
      nodes := nodes + [BundleNode(bundles[b])];
    }
    assert bundles[..|bundles|] == bundles;
    for t := 0 to |looseTxs|
      invariant nodes == NodesOf(bundles, looseTxs[..t])
    {
      nodes := nodes + [TransactionNode(looseTxs[t])];
    }
    assert looseTxs[..|looseTxs|] == looseTxs;
    adj := ConnectConflicts(nodes);
  }

  method ConnectConflicts(nodes: seq<Node>) returns (adj: seq<seq<nat>>)
    ensures IsConflictGraph(nodes, adj)
  {
    var n := |nodes|;
    var adjList := new seq<nat>[n](_ => []);
    for i := 0 to n
      invariant forall u :: 0 <= u < n ==> IsPartialRow(nodes, u, adjList[u], i, i + 1)
    {
      for j := i + 1 to n
        invariant forall u :: 0 <= u < n ==> IsPartialRow(nodes, u, adjList[u], i, j)
      {
        ghost var before := adjList[..];
        if !(nodes[i].accounts !! nodes[j].accounts) {
          if nodes[i].priority > nodes[j].priority {
            adjList[i] := adjList[i] + [j];
          } else if nodes[j].priority > nodes[i].priority {
            adjList[j] := adjList[j] + [i];
          } else {
            adjList[i] := adjList[i] + [j];
          }
        }
        forall u | 0 <= u < n ensures IsPartialRow(nodes, u, adjList[u], i, j + 1) {
          RowAdvances(nodes, u, before[u], adjList[u], i, j);
        }
      }
      forall u | 0 <= u < n ensures IsPartialRow(nodes, u, adjList[u], i + 1, i + 2) {
        NextOuterIndex(nodes, u, adjList[u], i);
      }
    }
    adj := adjList[..];
    forall u | 0 <= u < n ensures IsRow(nodes, u, adj[u]) {
      assert IsPartialRow(nodes, u, adjList[u], n, n + 1);
    }
  }

  // ----- the order of emission

  ghost predicate MayPrecede(nodes: seq<Node>, u: nat, v: nat)
    requires u < |nodes| && v < |nodes|
  {
    nodes[u].priority >= nodes[v].priority && !Edge(nodes, v, u)
  }

  /** Every index once; priorities never rise; of two conflicting nodes the outranking one first. */
  ghost predicate IsEmissionOrder(nodes: seq<Node>, sorted: seq<nat>) {
    && IsPermutation(sorted, |nodes|)
    && (forall a, b :: 0 <= a < b < |sorted| ==> nodes[sorted[a]].priority >= nodes[sorted[b]].priority)
    && (forall a, b :: 0 <= a < b < |sorted| && Conflict(nodes, sorted[a], sorted[b]) ==>
          Outranks(nodes, sorted[a], sorted[b]))
  }

  ghost function Predecessors(nodes: seq<Node>, v: nat): set<nat>
    requires v < |nodes|
  {
    set u | u in Below(|nodes|) && Edge(nodes, u, v)
  }

  /** An unemitted node is outranked, or equalled, by one with no unemitted predecessor. */
  lemma ReadyAbove(nodes: seq<Node>, done: set<nat>, v: nat) returns (top: nat)
    requires v < |nodes| && v !in done
    ensures top < |nodes| && top !in done && Predecessors(nodes, top) <= done
    ensures nodes[top].priority >= nodes[v].priority
    decreases U64_MAX - nodes[v].priority, v
  {
    if Predecessors(nodes, v) <= done {
      return v;
    }
    var u :| u in Predecessors(nodes, v) && u !in done;
    top := ReadyAbove(nodes, done, u);
  }

  /** A run of Kahn's algorithm with a max-heap, whatever it does with ties: each emitted node is
      ready and no ready node has higher priority. */
  ghost predicate IsHeapRun(nodes: seq<Node>, sorted: seq<nat>) {
    && IsPermutation(sorted, |nodes|)
    && forall k :: 0 <= k < |sorted| ==> PopsGreatestReady(nodes, ElementsOf(sorted[..k]), sorted[k])
  }

  ghost predicate PopsGreatestReady(nodes: seq<Node>, done: set<nat>, x: nat)
    requires x < |nodes|
  {
    && Predecessors(nodes, x) <= done
    && forall v :: 0 <= v < |nodes| && v !in done && Predecessors(nodes, v) <= done ==>
      nodes[v].priority <= nodes[x].priority
  }

  /** The emission orders are exactly the heap runs, so nothing more can be said for every tie-break. */
  lemma HeapRunsAreEmissionOrders(nodes: seq<Node>, sorted: seq<nat>)
    ensures IsHeapRun(nodes, sorted) <==> IsEmissionOrder(nodes, sorted)
  {
    if IsPermutation(sorted, |nodes|) {
      if IsEmissionOrder(nodes, sorted) {
        forall k | 0 <= k < |sorted| ensures PopsGreatestReady(nodes, ElementsOf(sorted[..k]), sorted[k]) {
          EmissionPopsGreatest(nodes, sorted, k);
        }
      }
      if IsHeapRun(nodes, sorted) {
        forall a, b | 0 <= a < b < |sorted| ensures MayPrecede(nodes, sorted[a], sorted[b]) {
          var done := ElementsOf(sorted[..a]);
          assert PopsGreatestReady(nodes, done, sorted[a]);
          assert sorted[b] !in done;
          var top := ReadyAbove(nodes, done, sorted[b]);
          assert sorted[b] !in Predecessors(nodes, sorted[a]);
        }
      }
    }
  }

  lemma EmissionPopsGreatest(nodes: seq<Node>, sorted: seq<nat>, k: nat)
    requires IsEmissionOrder(nodes, sorted) && k < |sorted|
    ensures PopsGreatestReady(nodes, ElementsOf(sorted[..k]), sorted[k])
  {
    var done := ElementsOf(sorted[..k]);
    forall v | 0 <= v < |nodes| && v !in done
      ensures nodes[v].priority <= nodes[sorted[k]].priority && !Edge(nodes, v, sorted[k])
    {
      var j := PermutationCovers(sorted, |nodes|, v);
    }
  }

  // ----- the heap: a bag that yields some entry of greatest priority

  datatype PriorityNode = PriorityNode(priority: u64, index: nat)

  ghost predicate IsGreatest(heap: multiset<PriorityNode>, top: PriorityNode) {
    top in heap && forall other :: other in heap ==> other.priority <= top.priority
  }

  lemma {:induction false} SomeGreatest(heap: multiset<PriorityNode>) returns (top: PriorityNode)
    requires |heap| > 0
    ensures IsGreatest(heap, top)
  {
    var one :| one in heap;
    top := one;
    var rest := heap - multiset{one};
    assert forall other :: other in heap ==> other == one || other in rest;
    if |rest| > 0 {
      var next := SomeGreatest(rest);
      if next.priority > one.priority {
        top := next;
      }
    }
  }

  method Pop(heap: multiset<PriorityNode>) returns (top: PriorityNode, rest: multiset<PriorityNode>)
    requires |heap| > 0
    ensures top in heap && rest == heap - multiset{top}
    ensures forall other :: other in heap ==> other.priority <= top.priority
  {
    ghost var greatest := SomeGreatest(heap);
    assert IsGreatest(heap, greatest);
    top :| top in heap && forall other :: other in heap ==> other.priority <= top.priority;
    rest := heap - multiset{top};
  }

  function Entry(nodes: seq<Node>, v: nat): PriorityNode
    requires v < |nodes|
  {
    PriorityNode(nodes[v].priority, v)
  }

  // ----- Kahn's algorithm

  /** After the rows below `u` and the first `k` entries of row u, the counts seen so far. */
  ghost predicate Counted(nodes: seq<Node>, row: seq<nat>, degree: seq<nat>, u: nat, k: nat)
    requires k <= |row|
  {
    && |degree| == |nodes|
    && forall v :: 0 <= v < |nodes| ==>
      degree[v] == |Predecessors(nodes, v) * Below(u)| + (if v in row[..k] then 1 else 0)
  }

  lemma RowCounted(nodes: seq<Node>, row: seq<nat>, degree: seq<nat>, u: nat)
    requires u < |nodes| && IsRow(nodes, u, row) && Counted(nodes, row, degree, u, |row|)
    ensures Counted(nodes, [], degree, u + 1, 0)
  {
    assert row[..|row|] == row;
    forall v | 0 <= v < |nodes| ensures degree[v] == |Predecessors(nodes, v) * Below(u + 1)| {
      assert v in row <==> u in Predecessors(nodes, v);
      OneMoreBelow(Predecessors(nodes, v), u);
    }
  }

  lemma OneMoreBelow(s: set<nat>, u: nat)
    ensures |s * Below(u + 1)| == |s * Below(u)| + if u in s then 1 else 0
  {
    if u in s {
      assert s * Below(u + 1) == s * Below(u) + {u};
    } else {
      assert s * Below(u + 1) == s * Below(u);
    }
  }

  lemma EntryCounted(nodes: seq<Node>, row: seq<nat>, degree: seq<nat>, u: nat, k: nat)
    requires u < |nodes| && IsRow(nodes, u, row) && k < |row| && Counted(nodes, row, degree, u, k)
    ensures row[k] < |nodes|
    ensures Counted(nodes, row, degree[row[k] := degree[row[k]] + 1], u, k + 1)
  {
    assert row[k] in row;
    assert row[..k + 1] == row[..k] + [row[k]];
  }

  method CountRow(nodes: seq<Node>, row: seq<nat>, inDegree: array<nat>, ghost u: nat)
    requires u < |nodes| && IsRow(nodes, u, row) && Counted(nodes, [], inDegree[..], u, 0)
    modifies inDegree
    ensures Counted(nodes, [], inDegree[..], u + 1, 0)
  {
    for k := 0 to |row|
      invariant Counted(nodes, row, inDegree[..], u, k)
    {
      EntryCounted(nodes, row, inDegree[..], u, k);
      inDegree[row[k]] := inDegree[row[k]] + 1;
    }
    RowCounted(nodes, row, inDegree[..], u);
  }

  method CountInDegrees(nodes: seq<Node>, adj: seq<seq<nat>>) returns (inDegree: array<nat>)
    requires IsConflictGraph(nodes, adj)
    ensures fresh(inDegree) && Degrees(nodes, {}, [], 0, inDegree[..])
  {
    var n := |nodes|;
    inDegree := new nat[n](_ => 0);
    for u := 0 to n
      invariant Counted(nodes, [], inDegree[..], u, 0)
    {
      assert IsRow(nodes, u, adj[u]);
      CountRow(nodes, adj[u], inDegree, u);
    }
    forall v | 0 <= v < n ensures inDegree[..][v] == |Predecessors(nodes, v) - {}| {
      assert Predecessors(nodes, v) * Below(n) == Predecessors(nodes, v) - {};
    }
  }

  /** While the row of an emitted node is being processed: each degree counts the predecessors not
      in `done`, less one where the row's first `k` entries already removed it. */
  ghost predicate Degrees(nodes: seq<Node>, done: set<nat>, row: seq<nat>, k: nat, degree: seq<nat>)
    requires k <= |row|
  {
    && |degree| == |nodes|
    && forall v :: 0 <= v < |nodes| ==>
      degree[v] == |Predecessors(nodes, v) - done| - (if v in row[..k] then 1 else 0)
  }

  ghost predicate IsReady(nodes: seq<Node>, done: set<nat>, degree: seq<nat>, e: PriorityNode) {
    e.index < |nodes| && e.index < |degree| && e == Entry(nodes, e.index) && e.index !in done && degree[e.index] == 0
  }

  /** The heap holds, once each, the nodes of degree zero that are not in `done`. */
  ghost predicate HeapHolds(nodes: seq<Node>, done: set<nat>, degree: seq<nat>, heap: multiset<PriorityNode>) {
    forall e :: heap[e] == (if IsReady(nodes, done, degree, e) then 1 else 0)
  }

  /** The nodes of degree zero have entered the heap, once each. */
  ghost predicate HaveEntered(degree: seq<nat>, entered: multiset<nat>) {
    forall v: nat :: entered[v] == (if v < |degree| && degree[v] == 0 then 1 else 0)
  }

  /** The emitted prefix is in order and may precede everything not yet emitted. */
  ghost predicate PrefixInOrder(nodes: seq<Node>, sorted: seq<nat>) {
    && (forall a :: 0 <= a < |sorted| ==> sorted[a] < |nodes|)
    && Distinct(sorted)
    && (forall a, b :: 0 <= a < b < |sorted| ==> MayPrecede(nodes, sorted[a], sorted[b]))
    && (forall a, v :: 0 <= a < |sorted| && 0 <= v < |nodes| && v !in sorted ==> MayPrecede(nodes, sorted[a], v))
  }

  /** A heap maximum is unemitted and may precede every other unemitted node. */
  lemma HeapMaximumIsGlobal(nodes: seq<Node>, done: set<nat>, degree: seq<nat>, heap: multiset<PriorityNode>,
      x: nat, v: nat)
    requires Degrees(nodes, done, [], 0, degree) && HeapHolds(nodes, done, degree, heap)
    requires x < |nodes| && Entry(nodes, x) in heap && v < |nodes| && v !in done
    requires forall other :: other in heap ==> other.priority <= nodes[x].priority
    ensures x !in done && MayPrecede(nodes, x, v)
  {
    assert IsReady(nodes, done, degree, Entry(nodes, x));
    assert Predecessors(nodes, x) - done == {};
    assert v !in Predecessors(nodes, x);
    var top := ReadyAbove(nodes, done, v);
    assert Predecessors(nodes, top) - done == {};
    assert Entry(nodes, top) in heap;
  }

  lemma EmitKeepsOrder(nodes: seq<Node>, sorted: seq<nat>, x: nat)
    requires PrefixInOrder(nodes, sorted) && x < |nodes| && x !in sorted
    requires forall v :: 0 <= v < |nodes| && v !in sorted ==> MayPrecede(nodes, x, v)
    ensures PrefixInOrder(nodes, sorted + [x])
  {
  }

  lemma UnemittedMeansNonEmpty(nodes: seq<Node>, done: set<nat>, degree: seq<nat>,
      heap: multiset<PriorityNode>, v: nat)
    requires Degrees(nodes, done, [], 0, degree) && HeapHolds(nodes, done, degree, heap)
    requires v < |nodes| && v !in done
    ensures |heap| > 0
  {
    var top := ReadyAbove(nodes, done, v);
    assert Predecessors(nodes, top) - done == {};
    assert Entry(nodes, top) in heap;
  }

  /** An empty heap means every node has been emitted. */
  lemma EmptyHeapIsComplete(nodes: seq<Node>, sorted: seq<nat>, degree: seq<nat>, heap: multiset<PriorityNode>)
    requires PrefixInOrder(nodes, sorted)
    requires Degrees(nodes, ElementsOf(sorted), [], 0, degree)
    requires HeapHolds(nodes, ElementsOf(sorted), degree, heap) && |heap| == 0
    ensures IsEmissionOrder(nodes, sorted)
    ensures forall v :: 0 <= v < |nodes| ==> degree[v] == 0
  {
    var done := ElementsOf(sorted);
    forall v | 0 <= v < |nodes| ensures v in done {
      if v !in done {
        UnemittedMeansNonEmpty(nodes, done, degree, heap, v);
      }
    }
    assert done == Below(|nodes|);
    DistinctSize(sorted);
    forall v | 0 <= v < |nodes| ensures degree[v] == 0 {
      assert Predecessors(nodes, v) - done == {};
    }
    forall a, b | 0 <= a < b < |sorted|
      ensures nodes[sorted[a]].priority >= nodes[sorted[b]].priority
      ensures Conflict(nodes, sorted[a], sorted[b]) ==> Outranks(nodes, sorted[a], sorted[b])
    {
      assert MayPrecede(nodes, sorted[a], sorted[b]);
    }
  }

  // ----- one neighbour of an emitted node

  lemma DegreeDrops(nodes: seq<Node>, done: set<nat>, index: nat, row: seq<nat>, k: nat,
      degree: seq<nat>)
    requires index < |nodes| && index !in done && IsRow(nodes, index, row) && k < |row|
    requires Degrees(nodes, done, row, k, degree)
    ensures row[k] < |nodes| && degree[row[k]] > 0
    ensures Degrees(nodes, done, row, k + 1, degree[row[k] := degree[row[k]] - 1])
  {
    assert row[k] in row;
    assert index in Predecessors(nodes, row[k]) - done;
    assert row[..k + 1] == row[..k] + [row[k]];
  }

  lemma RowFinished(nodes: seq<Node>, done: set<nat>, index: nat, row: seq<nat>, degree: seq<nat>)
    requires index < |nodes| && index !in done && IsRow(nodes, index, row)
    requires Degrees(nodes, done, row, |row|, degree)
    ensures Degrees(nodes, done + {index}, [], 0, degree)
  {
    assert row[..|row|] == row;
    forall v | 0 <= v < |nodes| ensures degree[v] == |Predecessors(nodes, v) - (done + {index})| {
      var left := Predecessors(nodes, v) - done;
      assert v in row <==> index in left;
      assert Predecessors(nodes, v) - (done + {index}) == if v in row then left - {index} else left;
    }
  }

  lemma ReadyAfterDrop(nodes: seq<Node>, done: set<nat>, degree: seq<nat>, next: seq<nat>, v: nat,
      heap: multiset<PriorityNode>, entered: multiset<nat>)
    requires |degree| == |nodes| && v < |nodes| && degree[v] > 0 && v !in done
    requires next == degree[v := degree[v] - 1]
    requires HeapHolds(nodes, done, degree, heap) && HaveEntered(degree, entered)
    ensures next[v] == 0 ==>
      HeapHolds(nodes, done, next, heap + multiset{Entry(nodes, v)}) && HaveEntered(next, entered + multiset{v})
    ensures next[v] != 0 ==> HeapHolds(nodes, done, next, heap) && HaveEntered(next, entered)
  {
    forall e ensures IsReady(nodes, done, next, e) <==>
        IsReady(nodes, done, degree, e) || (e == Entry(nodes, v) && next[v] == 0)
    {
    }
  }

  /** Between two neighbours: degrees, heap and history agree. */
  ghost predicate Releasing(nodes: seq<Node>, done: set<nat>, index: nat, row: seq<nat>, k: nat,
      degree: seq<nat>, heap: multiset<PriorityNode>, entered: multiset<nat>)
    requires k <= |row|
  {
    && Degrees(nodes, done, row, k, degree)
    && HeapHolds(nodes, done + {index}, degree, heap)
    && HaveEntered(degree, entered)
  }

  lemma ReleaseOne(nodes: seq<Node>, done: set<nat>, index: nat, row: seq<nat>, k: nat,
      degree: seq<nat>, heap: multiset<PriorityNode>, entered: multiset<nat>)
    requires index < |nodes| && index !in done && IsRow(nodes, index, row) && k < |row| && row[k] !in done
    requires Releasing(nodes, done, index, row, k, degree, heap, entered)
    ensures row[k] < |nodes| && degree[row[k]] > 0
    ensures var v := row[k]; var next := degree[v := degree[v] - 1];
      if next[v] == 0
      then Releasing(nodes, done, index, row, k + 1, next, heap + multiset{Entry(nodes, v)}, entered + multiset{v})
      else Releasing(nodes, done, index, row, k + 1, next, heap, entered)
  {
    var v := row[k];
    assert v in row;
    DegreeDrops(nodes, done, index, row, k, degree);
    ReadyAfterDrop(nodes, done + {index}, degree, degree[v := degree[v] - 1], v, heap, entered);
  }

  method ReleaseNeighbors(nodes: seq<Node>, row: seq<nat>, index: nat, ghost done: set<nat>,
      inDegree: array<nat>, heap0: multiset<PriorityNode>, ghost entered0: multiset<nat>)
    returns (heap: multiset<PriorityNode>, ghost entered: multiset<nat>)
    requires index < |nodes| && index !in done && IsRow(nodes, index, row)
    requires forall k :: 0 <= k < |row| ==> row[k] !in done
    requires Releasing(nodes, done, index, row, 0, inDegree[..], heap0, entered0)
    modifies inDegree
    ensures Releasing(nodes, done, index, row, |row|, inDegree[..], heap, entered)
  {
    heap, entered := heap0, entered0;
    for k := 0 to |row|
      invariant Releasing(nodes, done, index, row, k, inDegree[..], heap, entered)
    {
      var neighbor := row[k];
      ReleaseOne(nodes, done, index, row, k, inDegree[..], heap, entered);
      inDegree[neighbor] := inDegree[neighbor] - 1;
      if inDegree[neighbor] == 0 {
        heap := heap + multiset{Entry(nodes, neighbor)};
        entered := entered + multiset{neighbor};
      }
    }
  }

  method FillHeap(nodes: seq<Node>, inDegree: array<nat>)
    returns (heap: multiset<PriorityNode>, ghost entered: multiset<nat>)
    requires inDegree.Length == |nodes|
    ensures HeapHolds(nodes, {}, inDegree[..], heap) && HaveEntered(inDegree[..], entered)
  {
    heap, entered := multiset{}, multiset{};
    for i := 0 to |nodes|
      invariant HeapHolds(nodes, {}, inDegree[..i], heap) && HaveEntered(inDegree[..i], entered)
    {
      assert inDegree[..i + 1] == inDegree[..i] + [inDegree[i]];
      if inDegree[i] == 0 {
        heap := heap + multiset{Entry(nodes, i)};
        entered := entered + multiset{i};
      }
    }
    assert inDegree[..|nodes|] == inDegree[..];
  }

  lemma PrefixIsShort(nodes: seq<Node>, sorted: seq<nat>, x: nat)
    requires Distinct(sorted) && forall a :: 0 <= a < |sorted| ==> sorted[a] < |nodes|
    requires x < |nodes| && x !in sorted
    ensures |sorted| < |nodes|
  {
    DistinctSize(sorted);
    SubsetSize(ElementsOf(sorted), Below(|nodes|) - {x});
  }

  lemma RestIsReady(nodes: seq<Node>, done: set<nat>, degree: seq<nat>, heap: multiset<PriorityNode>, top: PriorityNode)
    requires HeapHolds(nodes, done, degree, heap) && top in heap
    ensures HeapHolds(nodes, done + {top.index}, degree, heap - multiset{top})
  {
    assert IsReady(nodes, done, degree, top);
    forall e ensures IsReady(nodes, done + {top.index}, degree, e) <==> IsReady(nodes, done, degree, e) && e != top {
    }
  }

  lemma EmitTop(nodes: seq<Node>, sorted: seq<nat>, degree: seq<nat>, heap: multiset<PriorityNode>, top: PriorityNode)
    requires PrefixInOrder(nodes, sorted)
    requires Degrees(nodes, ElementsOf(sorted), [], 0, degree)
    requires HeapHolds(nodes, ElementsOf(sorted), degree, heap) && top in heap
    requires forall other :: other in heap ==> other.priority <= top.priority
    ensures top.index < |nodes| && top.index !in ElementsOf(sorted) && PrefixInOrder(nodes, sorted + [top.index])
    ensures HeapHolds(nodes, ElementsOf(sorted) + {top.index}, degree, heap - multiset{top})
    ensures forall v :: v in ElementsOf(sorted) ==> !Edge(nodes, top.index, v)
    ensures |sorted| < |nodes|
  {
    var done := ElementsOf(sorted);
    assert IsReady(nodes, done, degree, top);
    forall v | 0 <= v < |nodes| && v !in done ensures MayPrecede(nodes, top.index, v) {
      HeapMaximumIsGlobal(nodes, done, degree, heap, top.index, v);
    }
    EmitKeepsOrder(nodes, sorted, top.index);
    PrefixIsShort(nodes, sorted, top.index);
    RestIsReady(nodes, done, degree, heap, top);
  }

  /** What holds between two pops of the heap. */
  ghost predicate KahnState(nodes: seq<Node>, sorted: seq<nat>, degree: seq<nat>,
      heap: multiset<PriorityNode>, entered: multiset<nat>)
  {
    && PrefixInOrder(nodes, sorted)
    && Degrees(nodes, ElementsOf(sorted), [], 0, degree)
    && HeapHolds(nodes, ElementsOf(sorted), degree, heap)
    && HaveEntered(degree, entered)
  }

  /** One turn of the main loop: pop, emit, and release the neighbours. */
  method EmitNext(nodes: seq<Node>, adj: seq<seq<nat>>, sorted0: seq<nat>, inDegree: array<nat>,
      heap0: multiset<PriorityNode>, ghost entered0: multiset<nat>)
    returns (sorted: seq<nat>, heap: multiset<PriorityNode>, ghost entered: multiset<nat>)
    requires IsConflictGraph(nodes, adj) && |heap0| > 0
    requires KahnState(nodes, sorted0, inDegree[..], heap0, entered0)
    modifies inDegree
    ensures KahnState(nodes, sorted, inDegree[..], heap, entered)
    ensures |sorted0| < |nodes| && |sorted| == |sorted0| + 1
  {
    ghost var done := ElementsOf(sorted0);
    var top, rest := Pop(heap0);
    EmitTop(nodes, sorted0, inDegree[..], heap0, top);
    sorted := sorted0 + [top.index];
    assert ElementsOf(sorted) == done + {top.index};
    var row := adj[top.index];
    assert IsRow(nodes, top.index, row);
    assert forall k :: 0 <= k < |row| ==> row[k] in row;
    heap, entered := ReleaseNeighbors(nodes, row, top.index, done, inDegree, rest, entered0);
    RowFinished(nodes, done, top.index, row, inDegree[..]);
  }

  method TopologicalSort(nodes: seq<Node>, adj: seq<seq<nat>>)
    returns (sorted: seq<nat>, ghost entered: multiset<nat>)
    requires IsConflictGraph(nodes, adj)
    ensures IsEmissionOrder(nodes, sorted)
    ensures forall v :: 0 <= v < |nodes| ==> entered[v] == 1
  {
    var inDegree := CountInDegrees(nodes, adj);
    var heap: multiset<PriorityNode>;
    heap, entered := FillHeap(nodes, inDegree);
    sorted := [];
    assert ElementsOf(sorted) == {};
    while |heap| > 0
      invariant KahnState(nodes, sorted, inDegree[..], heap, entered)
      decreases |nodes| - |sorted|
    {
      sorted, heap, entered := EmitNext(nodes, adj, sorted, inDegree, heap, entered);
    }
    EmptyHeapIsComplete(nodes, sorted, inDegree[..], heap);
  }
}
