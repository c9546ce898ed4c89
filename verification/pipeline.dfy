/**
 * How the two halves fit together: the cover the batched call returns for
 * a batch of graphs, pooled with the same batch vector, gives every
 * cluster exactly the graph label the call emitted for it.
 */
module Pipeline {
  import opened Wrappers
  import opened CoverTypes
  import opened Priority
  import opened KPlexCall
  import CoverPool

  /** A dense, non-empty cover has `1 + its largest cluster id` clusters. */
  lemma DenseCount(pairs: seq<Pair>, m: int)
    requires pairs != [] && DenseUpTo(pairs, m)
    ensures MaxCluster(pairs) + 1 == m
  {
    assert pairs[0] in pairs;
    assert HasCluster(pairs, m - 1);
    var q :| q in pairs && q.cluster == m - 1;
  }

  /** With dense cluster ids in range, `cover_pool` with default values and cluster count computes. */
  lemma PoolDense(x: seq<seq<int>>, width: nat, edges: seq<Edge>, pairs: seq<Pair>, batch: seq<int>, m: nat)
    requires CoverPool.Rectangular(x, width) && |batch| == |x|
    requires pairs != [] && DenseUpTo(pairs, m) && CoverPool.CoverIn(pairs, |x|, m)
    requires EdgesWithin(edges, |x|)
    ensures CoverPool.Pool(x, width, edges, pairs, None, None, None, None, Some(batch)) ==
      Success(CoverPool.Compute(x, width, edges, pairs, CoverPool.Ones(|edges|), CoverPool.Ones(|pairs|), m, batch))
  {
    DenseCount(pairs, m);
  }

  /** When every member of each cluster carries the cluster's label, and labels are non-negative, scatter-max recovers the labels. */
  lemma ScatterMaxOfUniformLabels(pairs: seq<Pair>, batch: seq<int>, labels: seq<int>, m: nat)
    requires DenseUpTo(pairs, m) && CoverPool.CoverIn(pairs, |batch|, m) && |labels| == m
    requires forall j :: 0 <= j < |pairs| ==> labels[pairs[j].cluster] == batch[pairs[j].node]
    requires forall c :: 0 <= c < m ==> labels[c] >= 0
    ensures CoverPool.ScatterMax(pairs, batch, m) == labels
  {
    var r := CoverPool.ScatterMax(pairs, batch, m);
    CoverPool.ScatterMaxIsMax(pairs, batch, m);
    forall c | 0 <= c < m
      ensures r[c] == labels[c]
    {
      assert HasCluster(pairs, c);
      var p :| p in pairs && p.cluster == c;
      var j :| 0 <= j < |pairs| && pairs[j] == p;
      if r[c] != 0 {
        var i :| 0 <= i < |pairs| && pairs[i].cluster == c && batch[pairs[i].node] == r[c];
      }
    }
  }

  /**
   * Pooling a batch through the batched call's cover, with the defaults
   * for everything but the batch vector: it succeeds, it has one row per
   * cluster, and its pooled batch labels are the call's label vector.
   */
  lemma PooledLabelsMatchCall(k: int, edges: seq<Edge>, batch: seq<int>, cfg: KPlexCover, kc: CoverFn,
                              x: seq<seq<int>>, width: nat)
    requires batch != [] && BatchWellFormed(batch, edges) && Honest(kc) && k >= 1
    requires CoverPool.Rectangular(x, width) && |x| == |batch|
    requires NumGraphs(batch) >= 0 && SourcesIn(edges, batch)
    requires BatchedCover(k, edges, batch, cfg, kc).Success?
    ensures var o := BatchedCover(k, edges, batch, cfg, kc).value;
      var r := CoverPool.Pool(x, width, edges, o.pairs, None, None, None, None, Some(batch));
      r.Success? && |r.value.x| == o.clusters && r.value.batch == o.batch
  {
    BatchedCoverCorrect(k, edges, batch, cfg, kc);
    var o := BatchedCover(k, edges, batch, cfg, kc).value;
    assert HasNode(o.pairs, 0);
    var m := o.clusters;
    forall j | 0 <= j < |o.pairs|
      ensures 0 <= o.pairs[j].node < |x| && 0 <= o.pairs[j].cluster < m
      ensures o.batch[o.pairs[j].cluster] == batch[o.pairs[j].node]
    {
      assert o.pairs[j] in o.pairs;
    }
    PoolDense(x, width, edges, o.pairs, batch, m);
    ScatterMaxOfUniformLabels(o.pairs, batch, o.batch, m);
  }
}
