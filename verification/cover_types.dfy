/** Values shared by the cover coordinator and the pooling operator: edges and cover pairs. */
module CoverTypes {

  /** One column `(src, dst)` of an `edge_index` tensor. */
  datatype Edge = Edge(src: int, dst: int)

  /** One column `(node, cluster)` of a `cover_index` tensor. */
  datatype Pair = Pair(node: int, cluster: int)

  ghost predicate HasCluster(pairs: seq<Pair>, c: int) {
    exists p :: p in pairs && p.cluster == c
  }

  ghost predicate HasNode(pairs: seq<Pair>, v: int) {
    exists p :: p in pairs && p.node == v
  }

  /** `cover_index[1].max()`: the largest cluster id (the tensor maximum fails on an empty cover). */
  function MaxCluster(pairs: seq<Pair>): (m: int)
    requires pairs != []
    ensures forall p :: p in pairs ==> p.cluster <= m
    ensures exists p :: p in pairs && p.cluster == m
  {
    if |pairs| == 1 then pairs[0].cluster
    else
      var rest := MaxCluster(pairs[1..]);
      assert forall p :: p in pairs ==> p == pairs[0] || p in pairs[1..];
      if pairs[0].cluster >= rest then pairs[0].cluster else rest
  }

  /** Cluster ids are exactly `0 .. m-1`. */
  ghost predicate DenseUpTo(pairs: seq<Pair>, m: int) {
    (forall p :: p in pairs ==> 0 <= p.cluster < m) &&
    (forall c :: 0 <= c < m ==> HasCluster(pairs, c))
  }

  /** Node ids lie in `[0, n)`. */
  predicate NodesBelow(pairs: seq<Pair>, n: int) {
    forall p :: p in pairs ==> 0 <= p.node < n
  }

  /** Every node of `[0, n)` belongs to at least one cluster. */
  ghost predicate CoversAll(pairs: seq<Pair>, n: int) {
    forall v :: 0 <= v < n ==> HasNode(pairs, v)
  }

  /** Both endpoints of every edge lie in `[0, n)`. */
  predicate EdgesWithin(edges: seq<Edge>, n: int) {
    forall e :: e in edges ==> 0 <= e.src < n && 0 <= e.dst < n
  }

  /** `new_zeros(n).add_(v)`: `n` copies of `v`. */
  function Fill(n: nat, v: int): (r: seq<int>)
    ensures |r| == n && forall i :: 0 <= i < n ==> r[i] == v
  {
    seq(n, _ => v)
  }
}
