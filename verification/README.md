# kplex-pool core in Dafny

This project models the core of kplex-pool, a graph-pooling library. The
library covers each graph with k-plexes: every node lands in at least one
cluster, and clusters may overlap. It then pools node features and the
adjacency matrix onto those clusters. There are two core files.

- `kplex_pool/kplex.py`, class `KPlexCover`:
  - the constructor resolves the two priority-name lists into the node
    priorities the native search accepts;
  - `__call__` covers one graph, or a batch of graphs one graph at a time,
    shifting node and cluster ids into the batch's numbering;
  - `process` covers every graph of a dataset and pools its edges;
  - `get_representations` repeats `process` once per `k`;
  - `get_cover_fun` returns either a lazy or a cached cover function.
- `kplex_pool/pool.py`, function `cover_pool`:
  - fills in its default arguments;
  - pools node features as `Cᵀ x` and the adjacency as `Cᵀ A C`, where `C`
    is the node-by-cluster cover matrix;
  - labels each cluster with the scatter-max of its nodes' batch labels.

Modules, one per file:

- `Wrappers`: `Option` and `Result`.
- `CoverTypes`: the edge and cover-pair records, plus the facts a cover may
  satisfy (dense cluster ids, every node covered, node ids below `n`), edge
  lists inside a node range, and the constant-filled label vector.
- `Priority`: the `NodePriority` enumeration and the `KPlexCover`
  configuration record. The constructor's two validation loops are
  `ResolvePriorities`.
- `KPlexCall`: the unbatched and batched `__call__`. The native
  `kplex_cpu.kplex_cover` search is a function parameter `kc`. Its
  assumed contract is the predicate `Honest(kc)`: for every `k >= 1`, node
  ids below `num_nodes`, cluster ids dense from 0, every node covered, and
  no cover for an empty graph. Nothing is assumed for `k < 1`, which the
  search is not specified for.
- `Hierarchy`: `process`, `get_representations` and `get_cover_fun` over
  graph records. `cover_pool_edge` is a function parameter `pe` whose only
  assumed promise (`PoolHonest`) is that pooled edges stay within the
  clusters.
- `Sparse`: sparse matrices as lists of `(row, col, value)` triples.
  `At(t, i, j)` is the matrix entry they represent. The module covers
  transpose, product, and the algebra the pooling lemmas need.
- `CoverPool`: `cover_pool`.
- `Pipeline`: how the batched cover and pooling compose. Pooling a batch
  with the cover that `__call__` produced gives back exactly the cluster
  labels that `__call__` reported.

Every Python exception on a path the model covers becomes a `Failure`
value. For example, `max()` of an empty `edge_index` gives
`EmptyEdgeIndex`, `batch[-1]` of an empty batch gives `EmptyBatch`, and an
invalid priority name gives `InvalidPriority(name)`.

## Model

| member | source | states |
|---|---|---|
| Priority.Lookup | kplex_pool/kplex.py:32 | `getattr(NodePriority, name, None)`. A found member carries exactly that attribute name (`NameOf`). `None` means no member has it. |
| Priority.Normalize | kplex_pool/kplex.py:15-25 | The `"default"` expansion, then the wrap of a single name into a list. Its contracts are `SingleNameIsOneElementList` and `NewKPlexCover`. |
| Priority.ResolvePriorities | kplex_pool/kplex.py:31-50 | Names are resolved in order. The call succeeds iff every name is accepted, and then the result is the names' priorities. Otherwise it fails on the first rejected name. For the cover list, the four growth-only priorities are rejected too. |
| Priority.NewKPlexCover | kplex_pool/kplex.py:14-50 | `"default"` becomes the lists written at kplex.py:16 and kplex.py:19. A single name becomes a one-element list. The cover list is checked before the k-plex list, and the first invalid name is reported. On success the configuration holds both resolutions and `skip_covered`. |
| Priority.DefaultsResolve | kplex_pool/kplex.py:15-19 | The two default lists are always accepted. They give `[MinDegree, MinUncovered]` and `[MaxInKplex, MaxCandidates, MinUncovered]`. |
| Priority.SeedRejectsGrowthOnly | kplex_pool/kplex.py:34-40 | Each growth-only priority is refused as a cover priority but accepted as a k-plex priority. |
| Priority.SingleNameIsOneElementList | kplex_pool/kplex.py:21-25 | Passing one name behaves exactly like passing a list with just that name. |
| CoverTypes.MaxCluster | kplex_pool/kplex.py:64 | The largest cluster id bounds every pair's id and is the id of some pair. |
| KPlexCall.MaxEndpoint | kplex_pool/kplex.py:55-56 | The largest endpoint bounds every edge endpoint and is attained. This is the default `num_nodes - 1`. |
| CoverTypes.Fill | kplex_pool/kplex.py:66 | `new_zeros(clusters).add_(b)`, and `new_zeros(n)` when the label is 0: `n` copies of the label, each equal to it. |
| KPlexCall.DefaultNumNodes | kplex_pool/kplex.py:55-56 | A given `num_nodes` is kept. Otherwise the call fails iff the edge list is empty, and the default is one more than the largest endpoint: it bounds every endpoint and is attained. |
| KPlexCall.CoverGraph | kplex_pool/kplex.py:55-66 | A successful unbatched call returns a non-empty cover. Its cluster count is one more than the largest cluster id, is non-negative, and comes with that many zero labels. |
| KPlexCall.UnbatchedCover | kplex_pool/kplex.py:55-66 | An empty edge list without `num_nodes` fails. Otherwise, for an honest search on in-range edges, the call succeeds iff `num_nodes > 0`. On success the pairs are the search's result, with node ids below `num_nodes` and every node covered. Cluster ids are dense below the reported count, and the labels are `count` zeros. |
| KPlexCall.BelowExtremes | kplex_pool/kplex.py:72-83 | The offset of graph `b` (nodes with a smaller label) is 0 when no label is below `b`. It is the batch length when every label is below `b`. So `min_index` starts at 0 and ends at the batch length. |
| KPlexCall.MaxLabelIsMax | kplex_pool/kplex.py:68 | The number of graphs (bincount length) is the largest label plus one. It bounds every label and is attained. |
| KPlexCall.BelowStep | kplex_pool/kplex.py:83 | `min_index += num_nodes`: the offset of graph `b+1` is the offset of graph `b` plus `count[b]`. |
| KPlexCall.SortedBelow | kplex_pool/kplex.py:74-83 | In a sorted batch, a node's label is below `b` iff its position is below graph `b`'s offset. |
| KPlexCall.GraphRange | kplex_pool/kplex.py:74-83 | In a sorted batch, a node has label `b` iff its position lies in `[offset, offset + count[b])`. |
| KPlexCall.LocalEdgesMembers | kplex_pool/kplex.py:75-76 | `edge_index[:, mask] - min_index` holds exactly the edges whose source has label `b`, each endpoint moved down by the offset. |
| KPlexCall.Count | kplex_pool/kplex.py:68 | `count[b]` of `bincount`: how many nodes carry label `b`, never more than the batch length. |
| KPlexCall.Below | kplex_pool/kplex.py:72-83 | `min_index` before graph `b`: how many nodes carry a smaller label, never more than the batch length. `BelowStep` ties it to the loop's running sum. |
| KPlexCall.MaxLabel | kplex_pool/kplex.py:68 | The largest label. Its contract is `MaxLabelIsMax`. |
| KPlexCall.NumGraphs | kplex_pool/kplex.py:68 | The length of `bincount(minlength=batch[-1] + 1)`: the largest label plus one. That is never less than `batch[-1] + 1`. |
| KPlexCall.LocalEdges | kplex_pool/kplex.py:75-76 | `edge_index[:, mask] - min_index`. Its contract is `LocalEdgesMembers`. |
| KPlexCall.Shift | kplex_pool/kplex.py:77-78 | `cover_index[0].add_(min_index)` and `cover_index[1].add_(out_clusters)`. What the shift keeps is stated by `AppendDense`, `AppendCovers` and `MergePairs`. |
| KPlexCall.Append | kplex_pool/kplex.py:77-83 | One loop step's update of `out_index`, `out_clusters` and `out_batch`. It keeps `MergedInvariant` (`AppendKeepsInvariant`). |
| KPlexCall.Merge | kplex_pool/kplex.py:74-85 | The loop over the graphs as a recursion. Its contracts are `MergeSucceeds`, `MergeCorrect`, `MergeClusters` and `MergePairs`, and `CallBatched` is proved equal to it. |
| KPlexCall.BatchedCover | kplex_pool/kplex.py:68-85 | The batched branch as a function of its inputs. Its contracts are `BatchedCoverCorrect` and `BatchedCoverLayout`. |
| KPlexCall.ClusterSum | kplex_pool/kplex.py:78-82 | `out_clusters` before graph `b`, written independently of the loop: the earlier graphs' cluster counts, added up. |
| KPlexCall.MergeClusters | kplex_pool/kplex.py:78-82 | After `n` graphs, `out_clusters` and the label count both equal the sum of the graphs' counts. Each label `b` sits exactly on graph `b`'s block `[ClusterSum(b), ClusterSum(b+1))`. |
| KPlexCall.MergePairs | kplex_pool/kplex.py:77-83 | After `n` graphs, a pair is in `out_index` iff it is a pair of some graph `b`, moved up by graph `b`'s node offset and by `ClusterSum(b)`. There are no other pairs. |
| KPlexCall.BatchedCoverLayout | kplex_pool/kplex.py:68-85 | For the whole batched call: the cluster count is the per-graph sum, the labels lie in per-graph blocks, and the pairs are exactly the per-graph covers moved to their offsets. |
| KPlexCall.MergeFailurePersists | kplex_pool/kplex.py:74-76 | Once one graph's call raises, the whole batched call raises that same error. |
| KPlexCall.CallBatched | kplex_pool/kplex.py:68-85 | The loop returns what the recursive merge of the per-graph results defines. |
| KPlexCall.GraphCover | kplex_pool/kplex.py:74-76 | The call `self(k, edge_index[:, mask] - min_index, num_nodes)` on graph `b`: the unbatched cover of the masked, shifted edges with `num_nodes` = the graph's count. Its contract is `GraphCoverValid`. |
| KPlexCall.PerGraph | kplex_pool/kplex.py:74-76 | The per-graph results of the loop, one per graph in order, each with a non-negative cluster count on success. Its contract is `PerGraphValid`. |
| KPlexCall.GraphCoverValid | kplex_pool/kplex.py:74-76 | In a well-formed batch, graph `b`'s call succeeds iff the graph has nodes. On success its cover is valid on `[0, count[b])`. |
| KPlexCall.AppendDense | kplex_pool/kplex.py:78-82 | Shifting a graph's cluster ids by `out_clusters` keeps the merged ids dense. |
| KPlexCall.AppendCovers | kplex_pool/kplex.py:77-83 | Shifting node ids by `min_index` keeps every node of the processed graphs covered. |
| KPlexCall.AppendLabels | kplex_pool/kplex.py:80-82 | After the append, each cluster's emitted label is the graph label of its nodes. |
| KPlexCall.AppendKeepsInvariant | kplex_pool/kplex.py:76-83 | One loop step preserves the merged-cover invariant. |
| KPlexCall.MergeSucceeds | kplex_pool/kplex.py:74-76 | The merge of the first `n` graphs succeeds iff none of them fails. |
| KPlexCall.PerGraphValid | kplex_pool/kplex.py:74-76 | Every per-graph result of a well-formed batch is valid, or is a failure of an empty graph. |
| KPlexCall.MergeInvariant | kplex_pool/kplex.py:74-85 | After `n` graphs, the merged output covers the first `n` graphs' nodes, with dense clusters and correct labels. |
| KPlexCall.MergeCorrect | kplex_pool/kplex.py:74-85 | The merge of `n` graphs succeeds iff none of them is empty, and then satisfies the invariant. |
| KPlexCall.BatchedCoverCorrect | kplex_pool/kplex.py:68-85 | The batched call on a well-formed batch succeeds iff no label below the largest one is missing. On success there is one label per cluster, cluster ids are dense, every node is covered with ids below the batch length, every label is a graph index, and each cluster's label is the label of each of its nodes. |
| KPlexCall.Call | kplex_pool/kplex.py:52-85 | `num_nodes` is defaulted first, so an empty edge list fails first. No batch: the unbatched call. An empty batch fails at `batch[-1]`. A negative label fails in `bincount`. Otherwise: the batched call. |
| Hierarchy.CoverOne | kplex_pool/kplex.py:97 | `self(k, data.edge_index, data.num_nodes)` for one graph, kept with the graph as its `Cover` record. Its contract is `CoverOneValid`. |
| Hierarchy.Pooled | kplex_pool/kplex.py:104-113 | The pooled graph of one cover (`cover_pool_edge` at lines 104-105, the out-graph at line 113): the pooled edges, with `num_nodes` = the cluster count. Its contract is `LevelValid`. |
| Hierarchy.CoverOneValid | kplex_pool/kplex.py:97 | Covering one well-formed graph succeeds iff it has nodes. On success the cover is valid and its pooled graph is well formed. |
| Hierarchy.Level | kplex_pool/kplex.py:96-115 | `process` as a recursion over the dataset. Its contracts are `LevelSucceeds`, `LevelContents`, `LevelPointwise`, `LevelSelect` and `LevelValid`, and `Process` is proved equal to it. |
| Hierarchy.Process | kplex_pool/kplex.py:87-115 | The loop returns the in- and out-lists that `Level` defines: the cover record and the pooled graph of each graph, in order. The first failure aborts. |
| Hierarchy.LevelSucceeds | kplex_pool/kplex.py:96-105 | A level succeeds iff every graph's cover succeeds. |
| Hierarchy.LevelContents | kplex_pool/kplex.py:110-113 | A successful level has one in-record and one out-graph per input graph. |
| Hierarchy.LevelPointwise | kplex_pool/kplex.py:96-115 | Entry `j` of a successful level is the cover of graph `j` and the pooled graph of that cover. |
| Hierarchy.Select | kplex_pool/kplex.py:134 | `ds[idx]` with an index list: entry `j` is `ds[idx[j]]`. |
| Hierarchy.LevelSelect | kplex_pool/kplex.py:96-115 | Processing is per graph: selecting graphs first, then processing, gives the same level as processing all graphs, then selecting. |
| Hierarchy.LevelValid | kplex_pool/kplex.py:96-113 | With an honest search and pooling: a level of well-formed graphs succeeds iff no graph is empty. Every cover is valid, and every pooled graph is well formed. |
| Hierarchy.Representations | kplex_pool/kplex.py:117-130 | `get_representations` as a recursion over `ks`. Its contracts are `RepresentationsShape`, `RepresentationsSucceed` and `RepresentationsSelect`. |
| Hierarchy.GetRepresentations | kplex_pool/kplex.py:117-130 | The loop returns the recursive definition `Representations`. |
| Hierarchy.RepresentationsShape | kplex_pool/kplex.py:124-130 | The result has one level per `k` plus the last dataset. Every level has one entry per input graph. Level 0's inputs are the dataset, and level `i+1`'s inputs are the graphs pooled at level `i`. Item `j` of level `i` is the cover of its input graph `j` with `ks[i]`. |
| Hierarchy.RepresentationsSucceed | kplex_pool/kplex.py:124-128 | With an honest search and pooling, on well-formed graphs: the representations succeed iff there is no `k` or no graph is empty. |
| Hierarchy.SelectEntry | kplex_pool/kplex.py:138 | `ds[idx]` on one cached level, annotated or plain, with `|idx|` entries. Its contracts are `SliceCons` and `RepresentationsSelect`. |
| Hierarchy.SliceLevels | kplex_pool/kplex.py:138 | `[ds[idx] for ds in cache]`, failing on an index past the end. Its contract is `SliceCons`. |
| Hierarchy.GetCoverFun | kplex_pool/kplex.py:132-138 | No dataset gives the lazy closure. A dataset gives the cached closure over its representations, or the error building them raised. Its contract is `ModesAgree`. |
| Hierarchy.ApplyCoverFun | kplex_pool/kplex.py:134-138 | Calling the closure: the lazy one builds the representations of `ds[idx]`, and the cached one slices its cache and ignores `ds`. Its contract is `ModesAgree`. |
| Hierarchy.SliceCons | kplex_pool/kplex.py:138 | Slicing a list of levels slices its head and then the rest. |
| Hierarchy.RepresentationsSelect | kplex_pool/kplex.py:134-138 | Slicing every level of the representations of `ds` gives the representations of `ds[idx]`. |
| Hierarchy.ModesAgree | kplex_pool/kplex.py:132-138 | The cached cover function ignores its dataset argument. Applied to any argument, it equals the lazy function applied to the dataset it was built from. |
| Sparse.AtConcat | kplex_pool/pool.py:25-28 | The matrix of concatenated triple lists is the sum of their matrices, so duplicates add up. |
| Sparse.Transpose | kplex_pool/pool.py:22 | `torch_sparse.transpose`: one swapped triple per triple. Its contracts are `AtTranspose` and `TransposeBounds`. |
| Sparse.Mul | kplex_pool/pool.py:25-28 | `torch_sparse.spspmm`, uncoalesced: every product of a matching left and right triple. Its contracts are `MulAt` and `MulCols`. |
| Sparse.AtTranspose | kplex_pool/pool.py:22 | `torch_sparse.transpose`: entry `(i, j)` of the transpose is entry `(j, i)`. |
| Sparse.TransposeBounds | kplex_pool/pool.py:22 | Transposing swaps the row and column bounds. |
| Sparse.MulAt | kplex_pool/pool.py:25-28 | `spspmm`: entry `(i, j)` of the product sums `a[i, l] · b[l, j]` over every `l` below the inner dimension. |
| Sparse.MulCols | kplex_pool/pool.py:25-28 | The product's columns are bounded by the right factor's columns. |
| Sparse.AtIdentity | kplex_pool/pool.py:22-28 | The identity cover matrix has 1 on the diagonal and 0 elsewhere. |
| Sparse.RowDotIsDot | kplex_pool/pool.py:24 | `spmm`, row by row: row `c` of the product with a vector is the sum of `t[c, n] · v[n]`. |
| Sparse.RowDotIdentity | kplex_pool/pool.py:24 | Multiplying by the identity leaves a vector unchanged. |
| Sparse.SumRows | kplex_pool/pool.py:24 | Summing the entries of a matrix-vector product over all rows gives the sum of every triple's value times `v` at its column. |
| Sparse.TotalTranspose | kplex_pool/pool.py:22-24 | Summing the transpose's entries, each times `v` at its column, equals the sum of each `v[n]` times row `n`'s weight in the original. |
| Sparse.WeightedRowsUnit | kplex_pool/pool.py:22-24 | If every row's weight is 1, the row-weighted sum of a vector is its plain sum. |
| Sparse.DotTranspose | kplex_pool/pool.py:22-24 | The product of the transpose with a vector is a column-wise sum over the original. |
| Sparse.InnerChained | kplex_pool/pool.py:25-28 | If `p`'s entry `(i, m)` is entry `(i, m)` of `Cᵀ A`, then the inner product of `p` with `C` is the chained sum over both node indices. |
| Sparse.PoolProduct | kplex_pool/pool.py:25-28 | Entry `(i, j)` of `(Cᵀ A) C` is the sum of `C[n, i] · A[n, m] · C[m, j]` over `n, m < N`. |
| Sparse.IdentityProduct | kplex_pool/pool.py:22-28 | With the identity cover, `Cᵀ A C` has the same entries as `A`. |
| CoverPool.Ones | kplex_pool/pool.py:13-17 | The default weight vectors: the requested length, every entry 1. |
| CoverPool.Labels | kplex_pool/pool.py:19-20 | The batch vector in use: the given one, else one 0 per node (`Fill(|x|, 0)`). Its effect is stated by `PooledBatchLabels` and `PoolDefaults`. |
| CoverPool.Values | kplex_pool/pool.py:16-17 | The cover values in use: the given ones, else a 1 per cover pair. Its effect is stated by `PoolDefaults`. |
| CoverPool.Weights | kplex_pool/pool.py:13-14 | The edge weights in use: the given ones, else a 1 per edge. Its effect is stated by `PoolDefaults`. |
| CoverPool.CoverEntries | kplex_pool/pool.py:22-24 | The cover as sparse `(node, cluster, value)` triples, one per pair, in order. Its values are stated by `PooledFeatures`. |
| CoverPool.EdgeEntries | kplex_pool/pool.py:25-27 | The adjacency as sparse `(src, dst, weight)` triples, one per edge, in order. Its values are stated by `PooledAdjacency`. |
| CoverPool.Spmm | kplex_pool/pool.py:24 | The feature product has `num_clusters` rows of the feature width. |
| CoverPool.ScatterMax | kplex_pool/pool.py:30-32 | `scatter_max` into a zero buffer yields one label per cluster. |
| CoverPool.ScatterMaxIsMax | kplex_pool/pool.py:30-32 | Every cluster's label is at least 0 and at least each member's label. It is either 0 or some member's label. |
| CoverPool.DefaultNumClusters | kplex_pool/pool.py:10-11 | A given `num_clusters` is kept. Otherwise it fails iff the cover is empty, and the default is one more than the largest cluster id: it bounds every id and is attained. |
| CoverPool.Pool | kplex_pool/pool.py:6-34 | `cover_pool` itself. An empty cover without `num_clusters` fails. On success the features have `num_clusters` rows of the input width and there is one label per row. Its values are stated by `PooledFeatures`, `PooledAdjacency`, `PooledBatchLabels`, `PoolDefaults`, `IdentityPool` and `MassPreserved`. |
| CoverPool.Compute | kplex_pool/pool.py:22-34 | The three results once the defaults are settled and the ids checked. There are `m` feature rows of the input width and `m` labels. |
| CoverPool.PoolDefaults | kplex_pool/pool.py:6-20 | With only `x`, the edges and the cover given: an empty cover fails. Success iff every id is in range. The pooled features then have one row per cluster, with the count taken as the largest cluster id plus one, and every pooled label is 0. |
| CoverPool.PooledFeatures | kplex_pool/pool.py:22-24 | The pooled features have `num_clusters` rows (given or defaulted) of the feature width. Pooled feature `(c, f)` is the sum of `C[n, c] · x[n][f]` over the nodes. |
| CoverPool.PooledAdjacency | kplex_pool/pool.py:25-28 | Pooled adjacency entry `(c, d)` is the sum of `C[n, c] · A[n, m] · C[m, d]` over the nodes. |
| CoverPool.PooledBatchLabels | kplex_pool/pool.py:30-32 | There are `num_clusters` pooled labels. Each is at least 0, at least each member node's label, and either 0 or some member's label. |
| CoverPool.IdentityCover | kplex_pool/pool.py:22-32 | The one-node-per-cluster cover pairs node `k` with cluster `k`. |
| CoverPool.IdentityFeatures | kplex_pool/pool.py:22-24 | Pooling with the identity cover returns the features unchanged. |
| CoverPool.IdentityAdjacency | kplex_pool/pool.py:25-28 | Pooling with the identity cover returns the adjacency entries unchanged. |
| CoverPool.IdentityLabels | kplex_pool/pool.py:30-32 | Pooling with the identity cover returns non-negative batch labels unchanged. |
| CoverPool.IdentityPool | kplex_pool/pool.py:6-32 | `cover_pool` with the identity cover succeeds and is the identity on features, adjacency and batch labels. |
| CoverPool.RowWeightUnit | kplex_pool/pool.py:16-17 | With unit cover values, a node's row weight is the number of clusters containing it. |
| CoverPool.SumOfRowDots | kplex_pool/pool.py:24 | Summing the pooled column equals summing its row products. |
| CoverPool.MassPreserved | kplex_pool/pool.py:16-24 | With unit cover values and every node in exactly one cluster, each pooled feature column has the same sum as the input column. |
| Pipeline.DenseCount | kplex_pool/pool.py:10-11 | For a dense cover, the default `num_clusters` equals the cluster count that `__call__` reported. |
| Pipeline.PoolDense | kplex_pool/pool.py:6-32 | For a dense cover with in-range ids, pooling with defaults succeeds with the reported cluster count. |
| Pipeline.ScatterMaxOfUniformLabels | kplex_pool/pool.py:30-32 | If each cluster's nodes all carry that cluster's non-negative label, scatter-max returns exactly those labels. |
| Pipeline.PooledLabelsMatchCall | kplex_pool/pool.py:30-32 | Pooling a batch with the cover from the batched `__call__` succeeds. It yields one row per reported cluster and exactly the labels `__call__` reported. |

## Left out

- The native k-plex search `kplex_cpu.kplex_cover` is not part of this model. It is a parameter, and its promise is the assumed predicate `Honest`. How `cover_priority`, `kplex_priority` and `skip_covered` steer it is therefore not modelled. They are only stored.
- `hub_promotion`, `simplify` and `cover_pool_edge` are not part of this model. `process` is modelled with `q=None` and `simplify=False`. Edge pooling is the parameter `pe`, and only the pooled edge list is carried. Edge attributes and weights through `process` are not.
- `cover_pool_node` and the `Cover`/`CustomDataset` classes are not part of this model. A graph record keeps only its edges and node count. The other keys copied from each data object are not carried.
- Devices, `.cpu()`/`.to(device)`, the `tqdm` progress bars and the `verbose` flag are left out: none affects the values computed.
- The arguments `get_representations` and `get_cover_fun` forward to `process` (`edge_pool_op`, `q`, `simplify`, `verbose`) are left out. Only their defaults are modelled.
- Feature values, cover values and edge weights are integers, not floats. Rounding is not modelled.
- `torch_sparse` returns coalesced index lists: sorted, with duplicates summed. The model keeps uncoalesced triple lists. Every statement is about the matrix they represent (`Sparse.At`), so the order and layout of `out_adj_index` are not modelled.
- Python and torch negative indexing is not modelled. `dataset[idx]` takes a list of non-negative positions, not a single integer or a slice. Out-of-range positions give `IndexOutOfRange`.
- `cover_pool`: where torch would raise, or wrap a negative index, for a node or cluster id outside the matrix shape, the model returns `IndexOutOfRange`.
- KPlexCall.Call: requires every edge source to be a position of the batch vector. Torch's `IndexError` for a source past the end, and its wrap-around for a negative source, are not modelled.
- KPlexCall.BatchedCoverCorrect: proved only for sorted batch vectors with no edge between two graphs. Batches collated by torch_geometric have this form. For other batches, `CallBatched` still models exactly what the code does.
- CoverPool.PooledAdjacency: says nothing when a negative `num_nodes` is passed. A successful call then has an empty cover and no edges.
- KPlexCall.Honest: the search is assumed to cover every node under `skip_covered = true` too. In that mode only unassigned nodes seed new clusters, and the search stops once none is left, but the coverage guarantee is stated only for the normal policy. The search is assumed nothing for `k < 1`, a configuration error. So every lemma that relies on `Honest` requires `k >= 1`.
- Priority.Lookup: `NodePriority` is modelled as exactly the six members named in the code. Other attributes of the enumeration class that `getattr` would return are not modelled.
- `benchmark/*` (training, evaluation, models) is not part of this model.
