/**
 * `cover_pool`: pools a graph through a cover. The cover is the sparse
 * `num_nodes × num_clusters` matrix `C` with an entry `value` at
 * `(node, cluster)` for every cover pair. Node features become `Cᵀ x`, the
 * adjacency becomes `Cᵀ A C` (two chained sparse products), and every
 * cluster takes the largest batch label among its nodes.
 *
 * Feature and weight values are integers. Out-of-range ids, which the
 * tensor library would index with, are reported as `IndexOutOfRange`.
 */
module CoverPool {
  import opened Wrappers
  import opened CoverTypes
  import opened Sparse

  datatype PoolError =
    | EmptyCoverIndex        // `cover_index[1].max()` of an empty cover
    | NegativeClusterCount   // `new_zeros` of a negative size
    | LengthMismatch         // a weight or value list of the wrong length
    | IndexOutOfRange        // a node or cluster id outside its dimension

  /** What `cover_pool` returns: `(out, (out_adj_index, out_adj_weights), out_batch)`. */
  datatype Pooled = Pooled(x: seq<seq<int>>, adj: seq<Entry>, batch: seq<int>)

  /** `torch.ones(n)`. */
  function Ones(n: nat): (r: seq<int>)
    ensures |r| == n && forall i :: 0 <= i < n ==> r[i] == 1
  {
    seq(n, _ => 1)
  }

  /** A feature matrix: every row has `width` columns. */
  predicate Rectangular(x: seq<seq<int>>, width: nat) {
    forall n :: 0 <= n < |x| ==> |x[n]| == width
  }

  /** Feature column `f`. */
  function Column(x: seq<seq<int>>, f: nat): (col: seq<int>)
    requires forall n :: 0 <= n < |x| ==> f < |x[n]|
    ensures |col| == |x| && forall n :: 0 <= n < |x| ==> col[n] == x[n][f]
  {
    seq(|x|, n requires 0 <= n < |x| => x[n][f])
  }

  /** The cover as `(node, cluster, value)` triples. */
  function CoverEntries(cover: seq<Pair>, vals: seq<int>): (t: seq<Entry>)
    requires |vals| == |cover|
    ensures |t| == |cover|
    ensures forall k :: 0 <= k < |cover| ==> t[k] == Entry(cover[k].node, cover[k].cluster, vals[k])
  {
    seq(|cover|, k requires 0 <= k < |cover| => Entry(cover[k].node, cover[k].cluster, vals[k]))
  }

  /** The adjacency as `(src, dst, weight)` triples. */
  function EdgeEntries(edges: seq<Edge>, w: seq<int>): (t: seq<Entry>)
    requires |w| == |edges|
    ensures |t| == |edges|
    ensures forall k :: 0 <= k < |edges| ==> t[k] == Entry(edges[k].src, edges[k].dst, w[k])
  {
    seq(|edges|, k requires 0 <= k < |edges| => Entry(edges[k].src, edges[k].dst, w[k]))
  }

  /** Node ids of the cover below `n`, cluster ids in `[0, m)`. */
  predicate CoverIn(cover: seq<Pair>, n: int, m: int) {
    forall k :: 0 <= k < |cover| ==> 0 <= cover[k].node < n && 0 <= cover[k].cluster < m
  }

  /** `torch_sparse.spmm(index, values, m, x)`: row `c` of the sparse matrix times `x`. */
  function Spmm(t: seq<Entry>, m: nat, x: seq<seq<int>>, width: nat): (out: seq<seq<int>>)
    requires Rectangular(x, width) && ColsBelow(t, |x|)
    ensures |out| == m && Rectangular(out, width)
  {
    seq(m, c requires 0 <= c < m =>
      seq(width, f requires 0 <= f < width => RowDot(t, c, Column(x, f))))
  }

  function Max(a: int, b: int): int {
    if a >= b then a else b
  }

  /** `scatter_max(batch[cover_index[0]], cover_index[1], out=zeros(m))`, pair by pair. */
  function ScatterMax(cover: seq<Pair>, labels: seq<int>, m: nat): (r: seq<int>)
    requires CoverIn(cover, |labels|, m)
    ensures |r| == m
  {
    if cover == [] then Fill(m, 0)
    else
      var prev := ScatterMax(cover[..|cover| - 1], labels, m);
      var p := cover[|cover| - 1];
      prev[p.cluster := Max(prev[p.cluster], labels[p.node])]
  }

  /**
   * The scatter-max label of cluster `c`: at least 0 (the buffer starts at
   * zeros), at least every member's label, and either 0 or some member's label.
   */
  lemma {:induction false} ScatterMaxIsMax(cover: seq<Pair>, labels: seq<int>, m: nat)
    requires CoverIn(cover, |labels|, m)
    ensures var r := ScatterMax(cover, labels, m);
      (forall c :: 0 <= c < m ==> r[c] >= 0) &&
      (forall k :: 0 <= k < |cover| ==> r[cover[k].cluster] >= labels[cover[k].node]) &&
      (forall c :: 0 <= c < m ==>
         r[c] == 0 || exists k :: 0 <= k < |cover| && cover[k].cluster == c && labels[cover[k].node] == r[c])
  {
    if cover != [] {
      var init := cover[..|cover| - 1];
      ScatterMaxIsMax(init, labels, m);
      var prev := ScatterMax(init, labels, m);
      var r := ScatterMax(cover, labels, m);
      var p := cover[|cover| - 1];
      forall c | 0 <= c < m && r[c] != 0
        ensures exists k :: 0 <= k < |cover| && cover[k].cluster == c && labels[cover[k].node] == r[c]
      {
        if c == p.cluster && r[c] == labels[p.node] {
          assert cover[|cover| - 1].cluster == c;
        } else {
          assert r[c] == prev[c];
          var k :| 0 <= k < |init| && init[k].cluster == c && labels[init[k].node] == prev[c];
          assert cover[k] == init[k];
        }
      }
      forall k | 0 <= k < |cover|
        ensures r[cover[k].cluster] >= labels[cover[k].node]
      {
        if k < |init| {
          assert cover[k] == init[k];
        }
      }
    }
  }

  /** `num_clusters` when given, else one more than the largest cluster id. */
  function DefaultNumClusters(cover: seq<Pair>, numClusters: Option<int>): (r: Result<int, PoolError>)
    ensures r.Success? <==> numClusters.Some? || cover != []
    ensures numClusters.Some? ==> r == Success(numClusters.value)
    ensures numClusters.None? && r.Success? ==>
      (forall p :: p in cover ==> p.cluster < r.value) && exists p :: p in cover && p.cluster == r.value - 1
  {
    match numClusters
    case Some(m) => Success(m)
    case None => if cover == [] then Failure(EmptyCoverIndex) else Success(MaxCluster(cover) + 1)
  }

  /** The cover values in use: the given ones, else all ones. */
  function Values(cover: seq<Pair>, coverValues: Option<seq<int>>): seq<int> {
    coverValues.GetOr(Ones(|cover|))
  }

  /** The edge weights in use: the given ones, else all ones. */
  function Weights(edges: seq<Edge>, edgeWeights: Option<seq<int>>): seq<int> {
    edgeWeights.GetOr(Ones(|edges|))
  }

  /** The batch vector in use: the given one, else one zero per node. */
  function Labels(x: seq<seq<int>>, batch: Option<seq<int>>): seq<int> {
    batch.GetOr(Fill(|x|, 0))
  }

  /**
   * `cover_pool(x, edge_index, cover_index, edge_weights, cover_values,
   * num_nodes, num_clusters, batch)`.
   */
  function Pool(x: seq<seq<int>>, width: nat, edges: seq<Edge>, cover: seq<Pair>,
                edgeWeights: Option<seq<int>>, coverValues: Option<seq<int>>,
                numNodes: Option<int>, numClusters: Option<int>, batch: Option<seq<int>>)
    : (r: Result<Pooled, PoolError>)
    requires Rectangular(x, width)
    ensures numClusters.None? && cover == [] ==> r == Failure(EmptyCoverIndex)
    ensures r.Success? ==>
      DefaultNumClusters(cover, numClusters).Success? &&
      |r.value.x| == DefaultNumClusters(cover, numClusters).value && Rectangular(r.value.x, width) &&
      |r.value.batch| == |r.value.x|
  {
    var n := numNodes.GetOr(|x|);
    var m :- DefaultNumClusters(cover, numClusters);
    var w := Weights(edges, edgeWeights);
    var vals := Values(cover, coverValues);
    var labels := Labels(x, batch);
    if m < 0 then Failure(NegativeClusterCount)
    else if |w| != |edges| || |vals| != |cover| then Failure(LengthMismatch)
    else if !CoverIn(cover, n, m) || !CoverIn(cover, |x|, m) || !CoverIn(cover, |labels|, m) ||
            !EdgesWithin(edges, n) then
      Failure(IndexOutOfRange)
    else
      Success(Compute(x, width, edges, cover, w, vals, m, labels))
  }

  /** The three results of `cover_pool`, once every default is settled and every index checked. */
  function Compute(x: seq<seq<int>>, width: nat, edges: seq<Edge>, cover: seq<Pair>,
                   w: seq<int>, vals: seq<int>, m: nat, labels: seq<int>): (p: Pooled)
    requires Rectangular(x, width) && |w| == |edges| && |vals| == |cover|
    requires CoverIn(cover, |x|, m) && CoverIn(cover, |labels|, m)
    ensures |p.x| == m && Rectangular(p.x, width) && |p.batch| == m
  {
    var c := CoverEntries(cover, vals);
    TransposeBounds(c, |x|, 0);
    Pooled(
      Spmm(Transpose(c), m, x, width),
      Mul(Mul(Transpose(c), EdgeEntries(edges, w)), c),
      ScatterMax(cover, labels, m))
  }

  /** With nothing but `x`, the edges and the cover given, every default is taken. */
  lemma PoolDefaults(x: seq<seq<int>>, width: nat, edges: seq<Edge>, cover: seq<Pair>)
    requires Rectangular(x, width)
    ensures var r := Pool(x, width, edges, cover, None, None, None, None, None);
      (cover == [] ==> r == Failure(EmptyCoverIndex)) &&
      (r.Success? <==>
         cover != [] && MaxCluster(cover) >= -1 &&
         CoverIn(cover, |x|, MaxCluster(cover) + 1) && EdgesWithin(edges, |x|)) &&
      (r.Success? ==>
         |r.value.x| == MaxCluster(cover) + 1 && Rectangular(r.value.x, width) &&
         (forall k :: 0 <= k < |cover| ==> cover[k].cluster < |r.value.x|) &&
         (exists k :: 0 <= k < |cover| && cover[k].cluster == |r.value.x| - 1) &&
         |r.value.batch| == |r.value.x| &&
         forall c :: 0 <= c < |r.value.batch| ==> r.value.batch[c] == 0)
  {
    var r := Pool(x, width, edges, cover, None, None, None, None, None);
    if r.Success? {
      var m := MaxCluster(cover) + 1;
      ScatterMaxIsMax(cover, Fill(|x|, 0), m);
      var p :| p in cover && p.cluster == MaxCluster(cover);
      var k :| 0 <= k < |cover| && cover[k] == p;
    }
  }

  /** Pooled node features are `Cᵀ x`: row `c`, column `f` sums `C[n, c] · x[n][f]` over the nodes `n`. */
  lemma PooledFeatures(x: seq<seq<int>>, width: nat, edges: seq<Edge>, cover: seq<Pair>,
                       edgeWeights: Option<seq<int>>, coverValues: Option<seq<int>>,
                       numNodes: Option<int>, numClusters: Option<int>, batch: Option<seq<int>>,
                       c: int, f: int)
    requires Rectangular(x, width)
    requires 0 <= f < width
    ensures var r := Pool(x, width, edges, cover, edgeWeights, coverValues, numNodes, numClusters, batch);
      r.Success? ==>
        DefaultNumClusters(cover, numClusters).Success? &&
        |r.value.x| == DefaultNumClusters(cover, numClusters).value && Rectangular(r.value.x, width)
    ensures var r := Pool(x, width, edges, cover, edgeWeights, coverValues, numNodes, numClusters, batch);
      r.Success? && 0 <= c < |r.value.x| ==>
        |Values(cover, coverValues)| == |cover| &&
        r.value.x[c][f] == ColDot(CoverEntries(cover, Values(cover, coverValues)), c, Column(x, f), |x|)
  {
    var r := Pool(x, width, edges, cover, edgeWeights, coverValues, numNodes, numClusters, batch);
    if r.Success? && 0 <= c < |r.value.x| {
      var t := CoverEntries(cover, Values(cover, coverValues));
      TransposeBounds(t, |x|, 0);
      var col := Column(x, f);
      assert r.value.x[c][f] == RowDot(Transpose(t), c, col);
      RowDotIsDot(Transpose(t), c, col);
      DotTranspose(t, c, col, |x|);
    }
  }

  /**
   * The pooled adjacency is `Cᵀ A C`: its `(c, d)` weight sums
   * `C[n, c] · A[n, m] · C[m, d]` over the nodes `n` and `m`.
   */
  lemma PooledAdjacency(x: seq<seq<int>>, width: nat, edges: seq<Edge>, cover: seq<Pair>,
                        edgeWeights: Option<seq<int>>, coverValues: Option<seq<int>>,
                        numNodes: Option<int>, numClusters: Option<int>, batch: Option<seq<int>>,
                        c: int, d: int)
    requires Rectangular(x, width)
    ensures var r := Pool(x, width, edges, cover, edgeWeights, coverValues, numNodes, numClusters, batch);
      var n := numNodes.GetOr(|x|);
      r.Success? && n >= 0 ==>
        |Values(cover, coverValues)| == |cover| && |Weights(edges, edgeWeights)| == |edges| &&
        At(r.value.adj, c, d) ==
          Chained(CoverEntries(cover, Values(cover, coverValues)),
                  EdgeEntries(edges, Weights(edges, edgeWeights)), c, d, n, n)
  {
    var r := Pool(x, width, edges, cover, edgeWeights, coverValues, numNodes, numClusters, batch);
    var n := numNodes.GetOr(|x|);
    if r.Success? && n >= 0 {
      var t := CoverEntries(cover, Values(cover, coverValues));
      var a := EdgeEntries(edges, Weights(edges, edgeWeights));
      assert ColsBelow(a, n) by {
        forall k | 0 <= k < |a|
          ensures 0 <= a[k].col < n
        {
          assert edges[k] in edges;
        }
      }
      PoolProduct(t, a, c, d, n);
    }
  }

  /** The pooled batch label of cluster `c` is the largest label among its nodes, or 0 if that is larger or it has none. */
  lemma PooledBatchLabels(x: seq<seq<int>>, width: nat, edges: seq<Edge>, cover: seq<Pair>,
                          edgeWeights: Option<seq<int>>, coverValues: Option<seq<int>>,
                          numNodes: Option<int>, numClusters: Option<int>, batch: Option<seq<int>>)
    requires Rectangular(x, width)
    ensures var r := Pool(x, width, edges, cover, edgeWeights, coverValues, numNodes, numClusters, batch);
      var labels := Labels(x, batch);
      r.Success? ==>
        DefaultNumClusters(cover, numClusters).Success? &&
        |r.value.batch| == DefaultNumClusters(cover, numClusters).value &&
        CoverIn(cover, |labels|, |r.value.batch|) &&
        (forall c :: 0 <= c < |r.value.batch| ==> r.value.batch[c] >= 0) &&
        (forall k :: 0 <= k < |cover| ==> r.value.batch[cover[k].cluster] >= labels[cover[k].node]) &&
        (forall c :: 0 <= c < |r.value.batch| ==>
           r.value.batch[c] == 0 ||
           exists k :: 0 <= k < |cover| && cover[k].cluster == c && labels[cover[k].node] == r.value.batch[c])
  {
    var r := Pool(x, width, edges, cover, edgeWeights, coverValues, numNodes, numClusters, batch);
    if r.Success? {
      var m := DefaultNumClusters(cover, numClusters).value;
      ScatterMaxIsMax(cover, Labels(x, batch), m);
    }
  }

  /** The identity cover: node `i` alone in cluster `i`. */
  function IdentityCover(n: nat): (cover: seq<Pair>)
    ensures |cover| == n && forall k :: 0 <= k < n ==> cover[k] == Pair(k, k)
  {
    seq(n, k => Pair(k, k))
  }

  /**
   * Pooling through the identity cover, with `num_clusters = num_nodes`
   * and unit values, gives back the features, the adjacency and the
   * (non-negative) batch labels unchanged.
   */
  lemma IdentityPool(x: seq<seq<int>>, width: nat, edges: seq<Edge>, edgeWeights: Option<seq<int>>, batch: Option<seq<int>>)
    requires Rectangular(x, width) && EdgesWithin(edges, |x|)
    requires |Weights(edges, edgeWeights)| == |edges|
    requires batch.Some? ==> |batch.value| == |x|
    ensures var r := Pool(x, width, edges, IdentityCover(|x|), edgeWeights, None, None, Some(|x|), batch);
      r.Success? && r.value.x == x &&
      (forall c, d :: 0 <= c < |x| && 0 <= d < |x| ==>
         At(r.value.adj, c, d) == At(EdgeEntries(edges, Weights(edges, edgeWeights)), c, d)) &&
      ((forall i :: 0 <= i < |x| ==> Labels(x, batch)[i] >= 0) ==> r.value.batch == Labels(x, batch))
  {
    var N := |x|;
    var cover := IdentityCover(N);
    var w := Weights(edges, edgeWeights);
    var labels := Labels(x, batch);
    assert CoverIn(cover, N, N);
    var out := Compute(x, width, edges, cover, w, Ones(N), N, labels);
    assert Pool(x, width, edges, cover, edgeWeights, None, None, Some(N), batch) == Success(out);
    assert CoverEntries(IdentityCover(N), Ones(N)) == Identity(N);
    TransposeIdentity(N);
    IdentityFeatures(x, width, edges, w, labels);
    IdentityAdjacency(x, width, edges, w, labels);
    IdentityLabels(x, width, edges, w, labels);
  }

  lemma IdentityFeatures(x: seq<seq<int>>, width: nat, edges: seq<Edge>, w: seq<int>, labels: seq<int>)
    requires Rectangular(x, width) && |w| == |edges| && |labels| == |x|
    requires CoverIn(IdentityCover(|x|), |x|, |x|)
    ensures Compute(x, width, edges, IdentityCover(|x|), w, Ones(|x|), |x|, labels).x == x
  {
    var N := |x|;
    assert CoverEntries(IdentityCover(N), Ones(N)) == Identity(N);
    TransposeIdentity(N);
    var out := Compute(x, width, edges, IdentityCover(N), w, Ones(N), N, labels).x;
    forall c | 0 <= c < N
      ensures out[c] == x[c]
    {
      forall f | 0 <= f < width
        ensures out[c][f] == x[c][f]
      {
        RowDotIdentity(N, c, Column(x, f));
      }
    }
  }

  lemma IdentityAdjacency(x: seq<seq<int>>, width: nat, edges: seq<Edge>, w: seq<int>, labels: seq<int>)
    requires Rectangular(x, width) && |w| == |edges| && |labels| == |x|
    requires EdgesWithin(edges, |x|) && CoverIn(IdentityCover(|x|), |x|, |x|)
    ensures forall c, d :: 0 <= c < |x| && 0 <= d < |x| ==>
      At(Compute(x, width, edges, IdentityCover(|x|), w, Ones(|x|), |x|, labels).adj, c, d) ==
      At(EdgeEntries(edges, w), c, d)
  {
    var N := |x|;
    assert CoverEntries(IdentityCover(N), Ones(N)) == Identity(N);
    var a := EdgeEntries(edges, w);
    assert ColsBelow(a, N) by {
      forall k | 0 <= k < |a|
        ensures 0 <= a[k].col < N
      {
        assert edges[k] in edges;
      }
    }
    forall c, d | 0 <= c < N && 0 <= d < N
      ensures At(Mul(Mul(Transpose(Identity(N)), a), Identity(N)), c, d) == At(a, c, d)
    {
      IdentityProduct(a, c, d, N);
    }
  }

  lemma IdentityLabels(x: seq<seq<int>>, width: nat, edges: seq<Edge>, w: seq<int>, labels: seq<int>)
    requires Rectangular(x, width) && |w| == |edges| && |labels| == |x|
    requires CoverIn(IdentityCover(|x|), |x|, |x|)
    ensures (forall i :: 0 <= i < |x| ==> labels[i] >= 0) ==>
      Compute(x, width, edges, IdentityCover(|x|), w, Ones(|x|), |x|, labels).batch == labels
  {
    var N := |x|;
    var cover := IdentityCover(N);
    ScatterMaxIsMax(cover, labels, N);
    var r := ScatterMax(cover, labels, N);
    if forall i :: 0 <= i < N ==> labels[i] >= 0 {
      forall c | 0 <= c < N
        ensures r[c] == labels[c]
      {
        assert cover[c].cluster == c;
      }
    }
  }

  /** How many cover pairs name node `n`. */
  function Multiplicity(cover: seq<Pair>, n: int): nat {
    if cover == [] then 0
    else Multiplicity(cover[..|cover| - 1], n) + (if cover[|cover| - 1].node == n then 1 else 0)
  }

  /** With unit values, a node's row weight in `C` is the number of clusters holding it. */
  lemma {:induction false} RowWeightUnit(cover: seq<Pair>, n: int)
    ensures RowWeight(CoverEntries(cover, Ones(|cover|)), n) == Multiplicity(cover, n)
  {
    if cover != [] {
      var init := cover[..|cover| - 1];
      RowWeightUnit(init, n);
      assert Init(CoverEntries(cover, Ones(|cover|))) == CoverEntries(init, Ones(|init|));
    }
  }

  /** Summing a column whose entries are the rows of a sparse product. */
  lemma {:induction false} SumOfRowDots(s: seq<int>, t: seq<Entry>, v: seq<int>)
    requires ColsBelow(t, |v|)
    requires forall c :: 0 <= c < |s| ==> s[c] == RowDot(t, c, v)
    ensures Sum(s) == SumRowDots(t, v, |s|)
  {
    if s != [] {
      SumOfRowDots(s[..|s| - 1], t, v);
    }
  }

  /**
   * Mass preservation: with unit cover values and every node in exactly
   * one cluster, each pooled feature column sums to the same total as the
   * input column.
   */
  lemma MassPreserved(x: seq<seq<int>>, width: nat, edges: seq<Edge>, cover: seq<Pair>,
                      edgeWeights: Option<seq<int>>, numNodes: Option<int>, numClusters: Option<int>,
                      batch: Option<seq<int>>, f: nat)
    requires Rectangular(x, width) && f < width
    requires forall n :: 0 <= n < |x| ==> Multiplicity(cover, n) == 1
    ensures var r := Pool(x, width, edges, cover, edgeWeights, None, numNodes, numClusters, batch);
      r.Success? ==> Sum(Column(r.value.x, f)) == Sum(Column(x, f))
  {
    var r := Pool(x, width, edges, cover, edgeWeights, None, numNodes, numClusters, batch);
    if r.Success? {
      var m := DefaultNumClusters(cover, numClusters).value;
      var t := CoverEntries(cover, Ones(|cover|));
      var col := Column(x, f);
      TransposeBounds(t, |x|, m);
      var out := Column(r.value.x, f);
      forall c | 0 <= c < |out|
        ensures out[c] == RowDot(Transpose(t), c, col)
      {
      }
      SumOfRowDots(out, Transpose(t), col);
      SumRows(Transpose(t), col, m);
      TotalTranspose(t, col, |x|);
      forall n | 0 <= n < |x|
        ensures RowWeight(t, n) == 1
      {
        RowWeightUnit(cover, n);
      }
      WeightedRowsUnit(t, col, |x|);
      assert col[..|x|] == col;
    }
  }
}
