/**
 * `KPlexCover.__call__`: one cover per graph, computed by the compiled
 * greedy k-plex search, and for a batch of graphs the merge of the
 * per-graph covers into one node id space and one cluster id space.
 *
 * The search itself (`kplex_cpu.kplex_cover`) is a parameter `kc` of type
 * `CoverFn`. What the model relies on is the contract `Honest(kc)`: on an
 * edge list inside `[0, n)` it returns pairs whose node ids lie in
 * `[0, n)`, whose cluster ids are the dense range `0 .. max`, and which
 * give every node at least one cluster.
 */
module KPlexCall {
  import opened Wrappers
  import opened CoverTypes
  import opened Priority

  /** `kplex_cpu.kplex_cover` applied to `k`, the edges, `num_nodes` and the configuration. */
  type CoverFn = (int, seq<Edge>, int, KPlexCover) -> seq<Pair>

  datatype CallError =
    | EmptyEdgeIndex        // `edge_index.max()` of an empty edge list
    | EmptyCover            // `cover_index[1].max()` of an empty cover
    | NegativeClusterCount  // `new_zeros` of a negative size
    | EmptyBatch            // `batch[-1]` of an empty batch vector
    | NegativeBatchLabel    // `bincount` of a negative label
    | IndexOutOfRange       // `dataset[idx]` with an index past the end

  /** Result of a call: `(cover_index, clusters, batch-per-cluster)`. */
  datatype CoverOut = CoverOut(pairs: seq<Pair>, clusters: int, batch: seq<int>)

  /** Node ids below `n`, cluster ids dense from 0, and every node in some cluster. */
  ghost predicate ValidCover(pairs: seq<Pair>, n: int) {
    NodesBelow(pairs, n) && DenseUpTo(pairs, if pairs == [] then 0 else MaxCluster(pairs) + 1) &&
    CoversAll(pairs, n)
  }

  /**
   * The contract assumed of the compiled cover search, for every `k >= 1`
   * (a smaller `k` is a configuration error it is not specified for).
   */
  ghost predicate Honest(kc: CoverFn) {
    forall k, edges, n, cfg :: k >= 1 && EdgesWithin(edges, n) ==> ValidCover(kc(k, edges, n, cfg), n)
  }

  /** `edge_index.max()`: the largest endpoint over both rows. */
  function MaxEndpoint(edges: seq<Edge>): (m: int)
    requires edges != []
    ensures forall e :: e in edges ==> e.src <= m && e.dst <= m
    ensures exists e :: e in edges && (e.src == m || e.dst == m)
  {
    var e := edges[0];
    var here := if e.src >= e.dst then e.src else e.dst;
    if |edges| == 1 then here
    else
      var rest := MaxEndpoint(edges[1..]);
      assert forall x :: x in edges ==> x == e || x in edges[1..];
      if here >= rest then here else rest
  }

  /** `num_nodes`, or `edge_index.max() + 1` when it is `None`. */
  function DefaultNumNodes(edges: seq<Edge>, numNodes: Option<int>): (r: Result<int, CallError>)
    ensures r.Success? <==> numNodes.Some? || edges != []
    ensures numNodes.Some? ==> r == Success(numNodes.value)
    ensures numNodes.None? && r.Success? ==>
      (forall e :: e in edges ==> e.src < r.value && e.dst < r.value) &&
      exists e :: e in edges && (e.src == r.value - 1 || e.dst == r.value - 1)
  {
    match numNodes
    case Some(n) => Success(n)
    case None => if edges == [] then Failure(EmptyEdgeIndex) else Success(MaxEndpoint(edges) + 1)
  }

  /** The unbatched branch of `__call__`. */
  function CoverGraph(k: int, edges: seq<Edge>, numNodes: Option<int>, cfg: KPlexCover, kc: CoverFn)
    : (r: Result<CoverOut, CallError>)
    ensures r.Success? ==>
      r.value.pairs != [] && r.value.clusters == MaxCluster(r.value.pairs) + 1 &&
      r.value.clusters >= 0 && r.value.batch == Fill(r.value.clusters, 0)
  {
    match DefaultNumNodes(edges, numNodes)
    case Failure(e) => Failure(e)
    case Success(n) =>
      var pairs := kc(k, edges, n, cfg);
      if pairs == [] then Failure(EmptyCover)
      else
        var clusters := MaxCluster(pairs) + 1;
        if clusters < 0 then Failure(NegativeClusterCount)
        else Success(CoverOut(pairs, clusters, Fill(clusters, 0)))
  }

  /** Both endpoints are non-negative (node ids of a `torch` index). */
  predicate NonNegative(edges: seq<Edge>) {
    forall e :: e in edges ==> 0 <= e.src && 0 <= e.dst
  }

  /**
   * The unbatched call on edges inside its node range: it fails exactly when
   * there are no nodes; otherwise it returns the search's pairs, counts
   * `1 + max` clusters, which are dense, and labels every cluster 0.
   */
  lemma UnbatchedCover(k: int, edges: seq<Edge>, numNodes: Option<int>, cfg: KPlexCover, kc: CoverFn)
    requires Honest(kc) && k >= 1
    requires numNodes.Some? ==> EdgesWithin(edges, numNodes.value)
    requires numNodes.None? ==> NonNegative(edges)
    ensures numNodes.None? && edges == [] ==> CoverGraph(k, edges, numNodes, cfg, kc) == Failure(EmptyEdgeIndex)
    ensures DefaultNumNodes(edges, numNodes).Success? ==>
      var n := DefaultNumNodes(edges, numNodes).value;
      var r := CoverGraph(k, edges, numNodes, cfg, kc);
      (r.Success? <==> n > 0) &&
      (r.Success? ==>
        r.value.pairs == kc(k, edges, n, cfg) &&
        NodesBelow(r.value.pairs, n) && CoversAll(r.value.pairs, n) &&
        DenseUpTo(r.value.pairs, r.value.clusters) &&
        r.value.batch == Fill(r.value.clusters, 0))
  {
    if DefaultNumNodes(edges, numNodes).Success? {
      var n := DefaultNumNodes(edges, numNodes).value;
      assert EdgesWithin(edges, n);
      var pairs := kc(k, edges, n, cfg);
      assert ValidCover(pairs, n);
      if n > 0 {
        assert HasNode(pairs, 0);
        var m := MaxCluster(pairs);
        assert m >= 0;
        assert DenseUpTo(pairs, m + 1);
      } else {
        assert NodesBelow(pairs, n);
        NoRoomNoPairs(pairs, n);
      }
    }
  }

  /** A cover with no node to place has no pairs. */
  lemma NoRoomNoPairs(pairs: seq<Pair>, n: int)
    requires NodesBelow(pairs, n) && n <= 0
    ensures pairs == []
  {
    if pairs != [] {
      FirstIsMember(pairs);
      assert false;
    }
  }

  lemma FirstIsMember(pairs: seq<Pair>)
    requires pairs != []
    ensures pairs[0] in pairs
  {
  }

  // ---------------------------------------------------------------------
  // The batch vector: `count = batch.bincount(...)` and the node offsets.

  predicate Sorted(s: seq<int>) {
    forall i, j :: 0 <= i <= j < |s| ==> s[i] <= s[j]
  }

  /** `count[b]`: how many nodes carry label `b`. */
  function Count(s: seq<int>, b: int): (r: nat)
    ensures r <= |s|
  {
    if s == [] then 0 else Count(s[..|s| - 1], b) + (if s[|s| - 1] == b then 1 else 0)
  }

  /** How many nodes carry a label below `b`: the total node count of graphs `0 .. b-1`. */
  function Below(s: seq<int>, b: int): (r: nat)
    ensures r <= |s|
  {
    if s == [] then 0 else Below(s[..|s| - 1], b) + (if s[|s| - 1] < b then 1 else 0)
  }

  /** Below every label there are no nodes; above every label, all of them. */
  lemma {:induction false} BelowExtremes(s: seq<int>, b: int)
    ensures (forall i :: 0 <= i < |s| ==> s[i] < b) ==> Below(s, b) == |s|
    ensures (forall i :: 0 <= i < |s| ==> b <= s[i]) ==> Below(s, b) == 0
  {
    if s != [] {
      BelowExtremes(s[..|s| - 1], b);
    }
  }

  /** The largest label; the number of graphs is one more. */
  function MaxLabel(s: seq<int>): int
    requires s != []
  {
    if |s| == 1 then s[0]
    else
      var rest := MaxLabel(s[..|s| - 1]);
      if s[|s| - 1] >= rest then s[|s| - 1] else rest
  }

  /** `MaxLabel` is the largest label of the batch. */
  lemma {:induction false} MaxLabelIsMax(s: seq<int>)
    requires s != []
    ensures forall i :: 0 <= i < |s| ==> s[i] <= MaxLabel(s)
    ensures exists i :: 0 <= i < |s| && s[i] == MaxLabel(s)
  {
    if |s| > 1 {
      var t := s[..|s| - 1];
      MaxLabelIsMax(t);
      if s[|s| - 1] < MaxLabel(t) {
        var j :| 0 <= j < |t| && t[j] == MaxLabel(t);
        assert s[j] == MaxLabel(s);
      } else {
        assert s[|s| - 1] == MaxLabel(s);
      }
    } else {
      assert s[0] == MaxLabel(s);
    }
  }

  lemma {:induction false} MaxLabelNonNegative(s: seq<int>)
    requires s != [] && forall i :: 0 <= i < |s| ==> 0 <= s[i]
    ensures MaxLabel(s) >= 0
  {
    if |s| > 1 {
      MaxLabelNonNegative(s[..|s| - 1]);
    }
  }

  /** The running offset advances by the count of the graph just done. */
  lemma {:induction false} BelowStep(s: seq<int>, b: int)
    ensures Below(s, b + 1) == Below(s, b) + Count(s, b)
  {
    if s != [] {
      BelowStep(s[..|s| - 1], b);
    }
  }

  /** In a sorted batch, the nodes with a label below `b` are exactly the first `Below(s, b)`. */
  lemma {:induction false} SortedBelow(s: seq<int>, b: int)
    requires Sorted(s)
    ensures forall i :: 0 <= i < |s| ==> (s[i] < b <==> i < Below(s, b))
  {
    if s != [] {
      var t := s[..|s| - 1];
      assert Sorted(t);
      SortedBelow(t, b);
      if s[|s| - 1] < b {
        assert forall i :: 0 <= i < |t| ==> t[i] < b;
      }
    }
  }

  /** In a sorted batch, graph `b` occupies the node range `[Below(s, b), Below(s, b) + Count(s, b))`. */
  lemma GraphRange(s: seq<int>, b: int)
    requires Sorted(s)
    ensures forall i :: 0 <= i < |s| ==>
      (s[i] == b <==> Below(s, b) <= i < Below(s, b) + Count(s, b))
  {
    SortedBelow(s, b);
    SortedBelow(s, b + 1);
    BelowStep(s, b);
  }

  // ---------------------------------------------------------------------
  // The batched branch.

  /** The inputs the batched branch is written for (a `torch_geometric` batch). */
  ghost predicate BatchWellFormed(batch: seq<int>, edges: seq<Edge>) {
    (forall i :: 0 <= i < |batch| ==> 0 <= batch[i]) &&
    Sorted(batch) &&
    forall e :: e in edges ==>
      0 <= e.src < |batch| && 0 <= e.dst < |batch| && batch[e.src] == batch[e.dst]
  }

  predicate SourcesIn(edges: seq<Edge>, batch: seq<int>) {
    forall e :: e in edges ==> 0 <= e.src < |batch|
  }

  /** `edge_index[:, batch[edge_index[0]] == b] - min_index`. */
  function LocalEdges(edges: seq<Edge>, batch: seq<int>, b: int, off: int): seq<Edge>
    requires SourcesIn(edges, batch)
  {
    if edges == [] then []
    else
      var e := edges[0];
      assert forall x :: x in edges[1..] ==> x in edges;
      (if batch[e.src] == b then [Edge(e.src - off, e.dst - off)] else []) +
      LocalEdges(edges[1..], batch, b, off)
  }

  /** The edges of graph `b` are exactly the edges whose source has label `b`, shifted down by `off`. */
  lemma {:induction false} LocalEdgesMembers(edges: seq<Edge>, batch: seq<int>, b: int, off: int)
    requires SourcesIn(edges, batch)
    ensures forall e :: e in LocalEdges(edges, batch, b, off) <==>
      exists e0 :: e0 in edges && batch[e0.src] == b && e == Edge(e0.src - off, e0.dst - off)
  {
    if edges != [] {
      LocalEdgesMembers(edges[1..], batch, b, off);
      assert forall x :: x in edges <==> x == edges[0] || x in edges[1..];
    }
  }

  /** `cover_index[0].add_(min_index)` and `cover_index[1].add_(out_clusters)`. */
  function Shift(pairs: seq<Pair>, nodeOff: int, clusterOff: int): seq<Pair> {
    seq(|pairs|, i requires 0 <= i < |pairs| => Pair(pairs[i].node + nodeOff, pairs[i].cluster + clusterOff))
  }

  /** The unbatched call on graph `b` of the batch. */
  function GraphCover(k: int, edges: seq<Edge>, batch: seq<int>, cfg: KPlexCover, kc: CoverFn, b: int)
    : Result<CoverOut, CallError>
    requires SourcesIn(edges, batch)
  {
    CoverGraph(k, LocalEdges(edges, batch, b, Below(batch, b)), Some(Count(batch, b)), cfg, kc)
  }

  /** The independent covers of graphs `0 .. n-1`. */
  function PerGraph(k: int, edges: seq<Edge>, batch: seq<int>, cfg: KPlexCover, kc: CoverFn, n: nat)
    : (gs: seq<Result<CoverOut, CallError>>)
    requires SourcesIn(edges, batch)
    ensures |gs| == n && CountsNonNegative(gs)
  {
    seq(n, b requires 0 <= b < n => GraphCover(k, edges, batch, cfg, kc, b))
  }

  predicate CountsNonNegative(gs: seq<Result<CoverOut, CallError>>) {
    forall i :: 0 <= i < |gs| && gs[i].Success? ==> gs[i].value.clusters >= 0
  }

  /**
   * The loop body's update of `(out_index, out_clusters, out_batch)` with
   * the cover `g` of graph `b`, whose nodes start at `off`.
   */
  function Append(acc: CoverOut, g: CoverOut, b: int, off: int): CoverOut
    requires g.clusters >= 0
  {
    CoverOut(
      acc.pairs + Shift(g.pairs, off, acc.clusters),
      acc.clusters + g.clusters,
      acc.batch + Fill(g.clusters, b))
  }

  /**
   * The accumulated `(out_index, out_clusters, out_batch)` after merging the
   * per-graph results `gs[0 .. nb-1]`; the first failing graph fails the call.
   */
  function Merge(gs: seq<Result<CoverOut, CallError>>, batch: seq<int>, nb: nat): Result<CoverOut, CallError>
    requires nb <= |gs| && CountsNonNegative(gs)
  {
    if nb == 0 then Success(CoverOut([], 0, []))
    else
      match Merge(gs, batch, nb - 1)
      case Failure(e) => Failure(e)
      case Success(acc) =>
        if gs[nb - 1].Failure? then Failure(gs[nb - 1].error)
        else Success(Append(acc, gs[nb - 1].value, nb - 1, Below(batch, nb - 1)))
  }

  /** The number of graphs in a batch: the length of `batch.bincount(...)`. */
  function NumGraphs(batch: seq<int>): int
    requires batch != []
  {
    MaxLabel(batch) + 1
  }

  /** The batched call: merge the independent covers of all graphs of the batch. */
  function BatchedCover(k: int, edges: seq<Edge>, batch: seq<int>, cfg: KPlexCover, kc: CoverFn)
    : Result<CoverOut, CallError>
    requires SourcesIn(edges, batch) && batch != [] && NumGraphs(batch) >= 0
  {
    Merge(PerGraph(k, edges, batch, cfg, kc, NumGraphs(batch)), batch, NumGraphs(batch))
  }

  /** Once a graph fails, the whole batched call fails with its error. */
  lemma {:induction false} MergeFailurePersists(gs: seq<Result<CoverOut, CallError>>, batch: seq<int>,
                                                b: nat, nb: nat, e: CallError)
    requires b <= nb <= |gs| && CountsNonNegative(gs)
    requires Merge(gs, batch, b) == Failure(e)
    ensures Merge(gs, batch, nb) == Failure(e)
  {
    if b < nb {
      MergeFailurePersists(gs, batch, b, nb - 1, e);
    }
  }

  /**
   * The batched branch of `__call__`: the loop over the `graphs` entries of
   * `count = batch.bincount(...)`.
   */
  method CallBatched(k: int, edges: seq<Edge>, batch: seq<int>, graphs: nat, cfg: KPlexCover, kc: CoverFn)
    returns (r: Result<CoverOut, CallError>)
    requires SourcesIn(edges, batch)
    requires forall i :: 0 <= i < |batch| ==> 0 <= batch[i]
    ensures r == Merge(PerGraph(k, edges, batch, cfg, kc, graphs), batch, graphs)
  {
    BelowExtremes(batch, 0);
    ghost var gs := PerGraph(k, edges, batch, cfg, kc, graphs);
    var outPairs: seq<Pair> := [];
    var outBatch: seq<int> := [];
    var outClusters := 0;
    var minIndex := 0;
    var b := 0;
    while b < graphs
      invariant 0 <= b <= graphs
      invariant minIndex == Below(batch, b)
      invariant Merge(gs, batch, b) == Success(CoverOut(outPairs, outClusters, outBatch))
    {
      var g := CoverGraph(k, LocalEdges(edges, batch, b, minIndex), Some(Count(batch, b)), cfg, kc);
      assert g == gs[b];
      assert g.Success? ==> g.value.clusters >= 0;
      if g.Failure? {
        MergeFailurePersists(gs, batch, b + 1, graphs, g.error);
        return Failure(g.error);
      }
      outPairs, outClusters, outBatch :=
        outPairs + Shift(g.value.pairs, minIndex, outClusters),
        outClusters + g.value.clusters,
        outBatch + Fill(g.value.clusters, b);
      BelowStep(batch, b);
      minIndex := minIndex + Count(batch, b);
      b := b + 1;
    }
    return Success(CoverOut(outPairs, outClusters, outBatch));
  }

  // ---------------------------------------------------------------------
  // What the batched call guarantees, given an honest cover search.

  /** Graph `b` of a well-formed batch is covered on its own node range, and only an empty graph fails. */
  lemma GraphCoverValid(k: int, edges: seq<Edge>, batch: seq<int>, cfg: KPlexCover, kc: CoverFn, b: int)
    requires BatchWellFormed(batch, edges) && Honest(kc) && k >= 1
    ensures SourcesIn(edges, batch)
    ensures var g := GraphCover(k, edges, batch, cfg, kc, b);
      (g.Success? <==> Count(batch, b) > 0) &&
      (g.Success? ==>
        NodesBelow(g.value.pairs, Count(batch, b)) && CoversAll(g.value.pairs, Count(batch, b)) &&
        DenseUpTo(g.value.pairs, g.value.clusters))
  {
    var off := Below(batch, b);
    var local := LocalEdges(edges, batch, b, off);
    LocalEdgesMembers(edges, batch, b, off);
    GraphRange(batch, b);
    assert EdgesWithin(local, Count(batch, b));
    UnbatchedCover(k, local, Some(Count(batch, b)), cfg, kc);
  }

  /** Every pair's node is a batch position, and its cluster's emitted label is that node's graph label. */
  ghost predicate LabelsMatch(o: CoverOut, batch: seq<int>) {
    forall p :: p in o.pairs ==>
      0 <= p.node < |batch| && 0 <= p.cluster < |o.batch| && o.batch[p.cluster] == batch[p.node]
  }

  /** Every emitted cluster label names one of the first `nb` graphs. */
  predicate LabelsBelow(labels: seq<int>, nb: int) {
    forall c :: 0 <= c < |labels| ==> 0 <= labels[c] < nb
  }

  /** What holds of the accumulated result after the first `nb` graphs. */
  ghost predicate MergedInvariant(o: CoverOut, batch: seq<int>, nb: int) {
    |o.batch| == o.clusters &&
    DenseUpTo(o.pairs, o.clusters) &&
    NodesBelow(o.pairs, Below(batch, nb)) &&
    CoversAll(o.pairs, Below(batch, nb)) &&
    LabelsMatch(o, batch) &&
    LabelsBelow(o.batch, nb)
  }

  /** A pair of the merged result comes from the accumulated pairs or from the shifted new ones. */
  lemma AppendMembers(acc: CoverOut, g: CoverOut, b: int, off: int, p: Pair)
    requires g.clusters >= 0
    requires p in Append(acc, g, b, off).pairs
    ensures p in acc.pairs ||
      exists q :: q in g.pairs && p == Pair(q.node + off, q.cluster + acc.clusters)
  {
    var sh := Shift(g.pairs, off, acc.clusters);
    if p !in acc.pairs {
      assert p in sh;
      var i :| 0 <= i < |sh| && sh[i] == p;
      assert g.pairs[i] in g.pairs;
    }
  }

  /** A pair of graph `b`, shifted, is in the merged result. */
  lemma AppendHas(acc: CoverOut, g: CoverOut, b: int, off: int, q: Pair)
    requires g.clusters >= 0
    requires q in g.pairs
    ensures Pair(q.node + off, q.cluster + acc.clusters) in Append(acc, g, b, off).pairs
  {
    var sh := Shift(g.pairs, off, acc.clusters);
    var i :| 0 <= i < |g.pairs| && g.pairs[i] == q;
    assert sh[i] in sh;
  }

  /** Cluster ids stay dense when a dense cover is appended with its ids shifted past the old ones. */
  lemma AppendDense(acc: CoverOut, g: CoverOut, b: int, off: int)
    requires acc.clusters >= 0 && g.clusters >= 0
    requires DenseUpTo(acc.pairs, acc.clusters) && DenseUpTo(g.pairs, g.clusters)
    ensures DenseUpTo(Append(acc, g, b, off).pairs, acc.clusters + g.clusters)
  {
    var o := Append(acc, g, b, off);
    forall p | p in o.pairs
      ensures 0 <= p.cluster < acc.clusters + g.clusters
    {
      AppendMembers(acc, g, b, off, p);
    }
    forall c | 0 <= c < acc.clusters + g.clusters
      ensures HasCluster(o.pairs, c)
    {
      if c < acc.clusters {
        assert HasCluster(acc.pairs, c);
        var p :| p in acc.pairs && p.cluster == c;
        assert p in o.pairs;
      } else {
        assert HasCluster(g.pairs, c - acc.clusters);
        var q :| q in g.pairs && q.cluster == c - acc.clusters;
        AppendHas(acc, g, b, off, q);
      }
    }
  }

  /** The node range grows by the appended graph's node count, and all of it stays covered. */
  lemma AppendCovers(acc: CoverOut, g: CoverOut, b: int, off: nat, cnt: nat)
    requires g.clusters >= 0
    requires NodesBelow(acc.pairs, off) && CoversAll(acc.pairs, off)
    requires NodesBelow(g.pairs, cnt) && CoversAll(g.pairs, cnt)
    ensures NodesBelow(Append(acc, g, b, off).pairs, off + cnt)
    ensures CoversAll(Append(acc, g, b, off).pairs, off + cnt)
  {
    var o := Append(acc, g, b, off);
    forall p | p in o.pairs
      ensures 0 <= p.node < off + cnt
    {
      AppendMembers(acc, g, b, off, p);
    }
    forall v | 0 <= v < off + cnt
      ensures HasNode(o.pairs, v)
    {
      if v < off {
        assert HasNode(acc.pairs, v);
        var p :| p in acc.pairs && p.node == v;
        assert p in o.pairs;
      } else {
        assert HasNode(g.pairs, v - off);
        var q :| q in g.pairs && q.node == v - off;
        AppendHas(acc, g, b, off, q);
      }
    }
  }

  /** The appended clusters are labelled `b`, which is the graph label of the nodes they hold. */
  lemma AppendLabels(acc: CoverOut, g: CoverOut, batch: seq<int>, b: nat)
    requires Sorted(batch)
    requires |acc.batch| == acc.clusters && LabelsMatch(acc, batch) && LabelsBelow(acc.batch, b)
    requires g.clusters >= 0
    requires NodesBelow(g.pairs, Count(batch, b)) && DenseUpTo(g.pairs, g.clusters)
    ensures LabelsMatch(Append(acc, g, b, Below(batch, b)), batch)
    ensures LabelsBelow(Append(acc, g, b, Below(batch, b)).batch, b + 1)
  {
    var off := Below(batch, b);
    var o := Append(acc, g, b, off);
    GraphRange(batch, b);
    BelowStep(batch, b);
    forall p | p in o.pairs
      ensures 0 <= p.node < |batch| && 0 <= p.cluster < |o.batch| && o.batch[p.cluster] == batch[p.node]
    {
      AppendMembers(acc, g, b, off, p);
      if p !in acc.pairs {
        var q :| q in g.pairs && p == Pair(q.node + off, q.cluster + acc.clusters);
        assert batch[p.node] == b;
        assert o.batch[p.cluster] == Fill(g.clusters, b)[q.cluster];
      } else {
        assert o.batch[p.cluster] == acc.batch[p.cluster];
      }
    }
    forall c | 0 <= c < |o.batch|
      ensures 0 <= o.batch[c] < b + 1
    {
      if c >= |acc.batch| {
        assert o.batch[c] == Fill(g.clusters, b)[c - |acc.batch|];
      }
    }
  }

  /** Appending graph `b`'s valid cover keeps the invariant, one graph further. */
  lemma AppendKeepsInvariant(acc: CoverOut, g: CoverOut, batch: seq<int>, b: nat)
    requires Sorted(batch)
    requires MergedInvariant(acc, batch, b)
    requires GraphValid(g, Count(batch, b))
    ensures MergedInvariant(Append(acc, g, b, Below(batch, b)), batch, b + 1)
  {
    BelowStep(batch, b);
    AppendDense(acc, g, b, Below(batch, b));
    AppendCovers(acc, g, b, Below(batch, b), Count(batch, b));
    AppendLabels(acc, g, batch, b);
  }

  /** Merging stops at the first failing graph, and succeeds exactly when every graph so far did. */
  lemma {:induction false} MergeSucceeds(gs: seq<Result<CoverOut, CallError>>, batch: seq<int>, nb: nat)
    requires nb <= |gs| && CountsNonNegative(gs)
    ensures Merge(gs, batch, nb).Success? <==> forall b :: 0 <= b < nb ==> gs[b].Success?
  {
    if nb > 0 {
      MergeSucceeds(gs, batch, nb - 1);
    }
  }

  /** Each of the graphs `0 .. nb-1` has at least one node. */
  predicate NoEmptyGraph(batch: seq<int>, nb: int) {
    forall b :: 0 <= b < nb ==> Count(batch, b) > 0
  }

  /** A single graph's cover is valid for its own node count. */
  ghost predicate GraphValid(g: CoverOut, cnt: int) {
    g.clusters >= 0 && NodesBelow(g.pairs, cnt) && CoversAll(g.pairs, cnt) && DenseUpTo(g.pairs, g.clusters)
  }

  /** Each per-graph entry is that graph's cover, valid for its own node count. */
  lemma PerGraphValid(k: int, edges: seq<Edge>, batch: seq<int>, cfg: KPlexCover, kc: CoverFn, n: nat, b: nat)
    requires BatchWellFormed(batch, edges) && Honest(kc) && k >= 1 && b < n
    ensures SourcesIn(edges, batch)
    ensures var g := PerGraph(k, edges, batch, cfg, kc, n)[b];
      (g.Success? <==> Count(batch, b) > 0) &&
      (g.Success? ==> GraphValid(g.value, Count(batch, b)))
  {
    GraphCoverValid(k, edges, batch, cfg, kc, b);
  }

  /** The invariant holds of every successful merge of the first `nb` valid graph covers. */
  lemma {:induction false} MergeInvariant(gs: seq<Result<CoverOut, CallError>>, batch: seq<int>, nb: nat)
    requires nb <= |gs| && CountsNonNegative(gs) && Sorted(batch)
    requires forall i :: 0 <= i < |batch| ==> 0 <= batch[i]
    requires forall b :: 0 <= b < nb && gs[b].Success? ==> GraphValid(gs[b].value, Count(batch, b))
    ensures Merge(gs, batch, nb).Success? ==> MergedInvariant(Merge(gs, batch, nb).value, batch, nb)
  {
    if nb == 0 {
      BelowExtremes(batch, 0);
    } else {
      var b := nb - 1;
      MergeInvariant(gs, batch, b);
      var prev := Merge(gs, batch, b);
      if prev.Success? && gs[b].Success? {
        AppendKeepsInvariant(prev.value, gs[b].value, batch, b);
      }
    }
  }

  /**
   * Merging the per-graph covers of a well-formed batch: it succeeds exactly
   * when none of the first `nb` graphs is empty, and then the invariant holds.
   */
  lemma MergeCorrect(k: int, edges: seq<Edge>, batch: seq<int>, cfg: KPlexCover,
                     kc: CoverFn, n: nat, nb: nat)
    requires BatchWellFormed(batch, edges) && Honest(kc) && k >= 1 && nb <= n
    ensures SourcesIn(edges, batch)
    ensures var r := Merge(PerGraph(k, edges, batch, cfg, kc, n), batch, nb);
      (r.Success? <==> NoEmptyGraph(batch, nb)) &&
      (r.Success? ==> MergedInvariant(r.value, batch, nb))
  {
    var gs := PerGraph(k, edges, batch, cfg, kc, n);
    MergeSucceeds(gs, batch, nb);
    forall b | 0 <= b < nb
      ensures gs[b].Success? <==> Count(batch, b) > 0
      ensures gs[b].Success? ==> GraphValid(gs[b].value, Count(batch, b))
    {
      PerGraphValid(k, edges, batch, cfg, kc, n, b);
    }
    if !NoEmptyGraph(batch, nb) {
      var b :| 0 <= b < nb && Count(batch, b) <= 0;
      assert !gs[b].Success?;
    }
    MergeInvariant(gs, batch, nb);
  }

  /**
   * The batched call on a well-formed batch, given an honest cover search:
   * it fails exactly when some graph id up to the largest label has no
   * node; otherwise the merged cluster ids are exactly `0 .. clusters-1`,
   * the node ids are exactly the batch's nodes, each covered, and the
   * emitted label of every cluster is the graph label of each of its nodes.
   */
  lemma BatchedCoverCorrect(k: int, edges: seq<Edge>, batch: seq<int>, cfg: KPlexCover, kc: CoverFn)
    requires batch != [] && BatchWellFormed(batch, edges) && Honest(kc) && k >= 1
    ensures SourcesIn(edges, batch) && NumGraphs(batch) >= 1
    ensures var r := BatchedCover(k, edges, batch, cfg, kc);
      (r.Success? <==> NoEmptyGraph(batch, NumGraphs(batch))) &&
      (r.Success? ==>
        |r.value.batch| == r.value.clusters &&
        DenseUpTo(r.value.pairs, r.value.clusters) &&
        NodesBelow(r.value.pairs, |batch|) &&
        CoversAll(r.value.pairs, |batch|) &&
        LabelsBelow(r.value.batch, NumGraphs(batch)) &&
        forall p :: p in r.value.pairs ==> r.value.batch[p.cluster] == batch[p.node])
  {
    MaxLabelIsMax(batch);
    var n := NumGraphs(batch);
    BelowExtremes(batch, n);
    MergeCorrect(k, edges, batch, cfg, kc, n, n);
  }

  // ---------------------------------------------------------------------
  // The layout of the merged result: graph `b`'s clusters follow the
  // clusters of the graphs before it, and its nodes follow their nodes.

  /** `out_clusters` before graph `b`: the cluster counts of graphs `0 .. b-1` added up. */
  function ClusterSum(gs: seq<Result<CoverOut, CallError>>, b: nat): int
    requires b <= |gs|
  {
    if b == 0 then 0
    else ClusterSum(gs, b - 1) + (if gs[b - 1].Success? then gs[b - 1].value.clusters else 0)
  }

  /**
   * The cluster count is the sum of the first `nb` graphs' counts, and each
   * emitted label `b` sits exactly on graph `b`'s block of cluster ids.
   */
  ghost predicate ClusterBlocks(gs: seq<Result<CoverOut, CallError>>, nb: nat, o: CoverOut)
    requires nb <= |gs|
  {
    o.clusters == ClusterSum(gs, nb) && |o.batch| == ClusterSum(gs, nb) &&
    forall c :: 0 <= c < |o.batch| ==>
      0 <= o.batch[c] < nb && ClusterSum(gs, o.batch[c]) <= c < ClusterSum(gs, o.batch[c] + 1)
  }

  /** The merged cluster count and labels are laid out in per-graph blocks. */
  lemma {:induction false} MergeClusters(gs: seq<Result<CoverOut, CallError>>, batch: seq<int>, nb: nat)
    requires nb <= |gs| && CountsNonNegative(gs)
    ensures var r := Merge(gs, batch, nb);
      r.Success? ==> ClusterBlocks(gs, nb, r.value)
  {
    if nb > 0 {
      MergeClusters(gs, batch, nb - 1);
      var prev := Merge(gs, batch, nb - 1);
      if prev.Success? && gs[nb - 1].Success? {
        var acc := prev.value;
        var g := gs[nb - 1].value;
        var o := Append(acc, g, nb - 1, Below(batch, nb - 1));
        forall c | 0 <= c < |o.batch|
          ensures 0 <= o.batch[c] < nb &&
            ClusterSum(gs, o.batch[c]) <= c < ClusterSum(gs, o.batch[c] + 1)
        {
          if c < |acc.batch| {
            assert o.batch[c] == acc.batch[c];
          } else {
            assert o.batch[c] == Fill(g.clusters, nb - 1)[c - |acc.batch|];
          }
        }
      }
    }
  }

  /** Pair `p` is pair `q` of graph `b`, moved to graph `b`'s node offset and cluster offset. */
  ghost predicate Placed(gs: seq<Result<CoverOut, CallError>>, batch: seq<int>, b: nat, p: Pair)
    requires b < |gs|
  {
    gs[b].Success? &&
    exists q :: q in gs[b].value.pairs && p == Pair(q.node + Below(batch, b), q.cluster + ClusterSum(gs, b))
  }

  /** The pairs are exactly the first `nb` graphs' pairs, each placed at its graph's offsets. */
  ghost predicate PairsPlaced(gs: seq<Result<CoverOut, CallError>>, batch: seq<int>, nb: nat, o: CoverOut)
    requires nb <= |gs|
  {
    forall p :: p in o.pairs <==> exists b :: 0 <= b < nb && Placed(gs, batch, b, p)
  }

  /** The merged pairs are exactly the per-graph pairs, each shifted by its graph's offsets; there are no others. */
  lemma {:induction false} MergePairs(gs: seq<Result<CoverOut, CallError>>, batch: seq<int>, nb: nat)
    requires nb <= |gs| && CountsNonNegative(gs)
    ensures var r := Merge(gs, batch, nb);
      r.Success? ==> PairsPlaced(gs, batch, nb, r.value)
  {
    if nb > 0 {
      MergePairs(gs, batch, nb - 1);
      MergeClusters(gs, batch, nb - 1);
      var prev := Merge(gs, batch, nb - 1);
      if prev.Success? && gs[nb - 1].Success? {
        var acc := prev.value;
        var g := gs[nb - 1].value;
        var off := Below(batch, nb - 1);
        var o := Append(acc, g, nb - 1, off);
        forall p
          ensures p in o.pairs <==> exists b :: 0 <= b < nb && Placed(gs, batch, b, p)
        {
          if p in o.pairs {
            AppendMembers(acc, g, nb - 1, off, p);
            if p !in acc.pairs {
              assert Placed(gs, batch, nb - 1, p);
            }
          }
          if exists b :: 0 <= b < nb && Placed(gs, batch, b, p) {
            var b :| 0 <= b < nb && Placed(gs, batch, b, p);
            if b < nb - 1 {
              assert p in acc.pairs;
            } else {
              var q :| q in g.pairs && p == Pair(q.node + off, q.cluster + ClusterSum(gs, b));
              AppendHas(acc, g, nb - 1, off, q);
            }
          }
        }
      }
    }
  }

  /**
   * The batched call, graph by graph: `clusters` adds up the graphs' own
   * counts, every cluster's label is the graph whose block holds it, and
   * the pairs are the graphs' own covers moved to their offsets.
   */
  lemma BatchedCoverLayout(k: int, edges: seq<Edge>, batch: seq<int>, cfg: KPlexCover, kc: CoverFn)
    requires SourcesIn(edges, batch) && batch != [] && NumGraphs(batch) >= 0
    ensures var gs := PerGraph(k, edges, batch, cfg, kc, NumGraphs(batch));
      var r := BatchedCover(k, edges, batch, cfg, kc);
      r.Success? ==>
        ClusterBlocks(gs, NumGraphs(batch), r.value) && PairsPlaced(gs, batch, NumGraphs(batch), r.value)
  {
    var n := NumGraphs(batch);
    var gs := PerGraph(k, edges, batch, cfg, kc, n);
    assert BatchedCover(k, edges, batch, cfg, kc) == Merge(gs, batch, n);
    MergeClusters(gs, batch, n);
    MergePairs(gs, batch, n);
  }

  /** `__call__(k, edge_index, num_nodes, batch)`. */
  method Call(k: int, edges: seq<Edge>, numNodes: Option<int>, batch: Option<seq<int>>,
              cfg: KPlexCover, kc: CoverFn)
    returns (r: Result<CoverOut, CallError>)
    requires batch.Some? ==> SourcesIn(edges, batch.value)
    ensures numNodes.None? && edges == [] ==> r == Failure(EmptyEdgeIndex)
    ensures !(numNodes.None? && edges == []) ==>
      match batch
      case None => r == CoverGraph(k, edges, numNodes, cfg, kc)
      case Some(bv) =>
        if bv == [] then r == Failure(EmptyBatch)
        else if exists i :: 0 <= i < |bv| && bv[i] < 0 then r == Failure(NegativeBatchLabel)
        else NumGraphs(bv) >= 1 && r == BatchedCover(k, edges, bv, cfg, kc)
  {
    // `num_nodes` is defaulted before the batch is looked at.
    var n := DefaultNumNodes(edges, numNodes);
    if n.Failure? {
      return Failure(n.error);
    }
    if batch.None? {
      return CoverGraph(k, edges, numNodes, cfg, kc);
    }
    var bv := batch.value;
    if bv == [] {
      return Failure(EmptyBatch);
    }
    if exists i :: 0 <= i < |bv| && bv[i] < 0 {
      return Failure(NegativeBatchLabel);
    }
    MaxLabelNonNegative(bv);
    r := CallBatched(k, edges, bv, NumGraphs(bv), cfg, kc);
  }
}
