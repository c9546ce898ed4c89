/**
 * `KPlexCover.process`, `get_representations` and `get_cover_fun`: the
 * hierarchy driver. One level covers every graph of a dataset with the
 * same `k` and pools each graph onto its clusters; the pooled graphs are
 * the next level's input. The cover function either recomputes the levels
 * for the indexed graphs (lazy) or slices levels computed once (cached).
 *
 * The edge pooling (`cover_pool_edge`) is a parameter `pe`; what the
 * model relies on about it is `PoolHonest(pe)`: pooling onto `m` dense
 * clusters yields edges between cluster ids in `[0, m)`.
 */
module Hierarchy {
  import opened Wrappers
  import opened CoverTypes
  import opened Priority
  import opened KPlexCall

  /** A graph of a dataset: its edge list and `num_nodes`. */
  datatype Graph = Graph(edges: seq<Edge>, numNodes: int)

  /** A `Cover` record of the input side: the graph with its cover index and cluster count. */
  datatype CoverData = CoverData(graph: Graph, cover: seq<Pair>, clusters: int)

  /** What `process` returns: the covered inputs and the pooled outputs, graph by graph. */
  datatype LevelOut = LevelOut(ins: seq<CoverData>, outs: seq<Graph>)

  /** One entry of `get_representations`' list: a covered level, or the final pooled dataset. */
  datatype Entry = Annotated(items: seq<CoverData>) | Plain(graphs: seq<Graph>)

  /** The two closures `get_cover_fun` can return. */
  datatype CoverFun = Lazy(ks: seq<int>) | Cached(levels: seq<Entry>)

  /** `cover_pool_edge(cover_index, edge_index, edge_attr, num_nodes, clusters)`, edges only. */
  type PoolEdgeFn = (seq<Pair>, seq<Edge>, int, int) -> seq<Edge>

  ghost predicate PoolHonest(pe: PoolEdgeFn) {
    forall cover, edges, n, m :: DenseUpTo(cover, m) ==> EdgesWithin(pe(cover, edges, n, m), m)
  }

  predicate WellFormed(g: Graph) {
    g.numNodes >= 0 && EdgesWithin(g.edges, g.numNodes)
  }

  predicate AllWellFormed(ds: seq<Graph>) {
    forall j :: 0 <= j < |ds| ==> WellFormed(ds[j])
  }

  predicate AllNonEmpty(ds: seq<Graph>) {
    forall j :: 0 <= j < |ds| ==> ds[j].numNodes > 0
  }

  /** The pooled graph: the cover's clusters as nodes, joined by the pooled edges. */
  function Pooled(cd: CoverData, pe: PoolEdgeFn): Graph {
    Graph(pe(cd.cover, cd.graph.edges, cd.graph.numNodes, cd.clusters), cd.clusters)
  }

  /** One graph of `process`: the unbatched call with the graph's own `num_nodes`. */
  function CoverOne(k: int, g: Graph, cfg: KPlexCover, kc: CoverFn): Result<CoverData, CallError> {
    var o :- CoverGraph(k, g.edges, Some(g.numNodes), cfg, kc);
    Success(CoverData(g, o.pairs, o.clusters))
  }

  /** A well-formed graph is covered exactly when it has a node; its pooled graph is again well formed and non-empty. */
  lemma CoverOneValid(k: int, g: Graph, cfg: KPlexCover, kc: CoverFn, pe: PoolEdgeFn)
    requires Honest(kc) && PoolHonest(pe) && WellFormed(g) && k >= 1
    ensures var r := CoverOne(k, g, cfg, kc);
      (r.Success? <==> g.numNodes > 0) &&
      (r.Success? ==>
        r.value.graph == g &&
        NodesBelow(r.value.cover, g.numNodes) && CoversAll(r.value.cover, g.numNodes) &&
        DenseUpTo(r.value.cover, r.value.clusters) &&
        WellFormed(Pooled(r.value, pe)) && Pooled(r.value, pe).numNodes > 0)
  {
    UnbatchedCover(k, g.edges, Some(g.numNodes), cfg, kc);
    var r := CoverOne(k, g, cfg, kc);
    if r.Success? {
      var cd := r.value;
      assert HasNode(cd.cover, 0);
      var p :| p in cd.cover && p.node == 0;
      assert 0 <= p.cluster < cd.clusters;
    }
  }

  /** What `process` computes, graph by graph; the first failing graph's error is raised. */
  function Level(ds: seq<Graph>, k: int, cfg: KPlexCover, kc: CoverFn, pe: PoolEdgeFn)
    : Result<LevelOut, CallError>
    decreases |ds|
  {
    if ds == [] then Success(LevelOut([], []))
    else
      var cd :- CoverOne(k, ds[0], cfg, kc);
      var rest :- Level(ds[1..], k, cfg, kc, pe);
      Success(LevelOut([cd] + rest.ins, [Pooled(cd, pe)] + rest.outs))
  }

  /** The lists built so far, in front of what the rest of the dataset yields. */
  function Prepend(ins: seq<CoverData>, outs: seq<Graph>, r: Result<LevelOut, CallError>)
    : Result<LevelOut, CallError>
  {
    match r
    case Failure(e) => Failure(e)
    case Success(l) => Success(LevelOut(ins + l.ins, outs + l.outs))
  }

  /** `process(dataset, k)`: loops over the dataset and appends to `in_list` and `out_list`. */
  method Process(ds: seq<Graph>, k: int, cfg: KPlexCover, kc: CoverFn, pe: PoolEdgeFn)
    returns (r: Result<LevelOut, CallError>)
    ensures r == Level(ds, k, cfg, kc, pe)
  {
    var ins: seq<CoverData> := [];
    var outs: seq<Graph> := [];
    var i := 0;
    assert ds[i..] == ds;
    ghost var whole := Level(ds, k, cfg, kc, pe);
    if whole.Success? {
      assert ins + whole.value.ins == whole.value.ins && outs + whole.value.outs == whole.value.outs;
    }
    while i < |ds|
      invariant 0 <= i <= |ds|
      invariant Level(ds, k, cfg, kc, pe) == Prepend(ins, outs, Level(ds[i..], k, cfg, kc, pe))
    {
      assert ds[i..][1..] == ds[i + 1..];
      var cd := CoverOne(k, ds[i], cfg, kc);
      if cd.Failure? {
        return Failure(cd.error);
      }
      ghost var rest := Level(ds[i + 1..], k, cfg, kc, pe);
      if rest.Success? {
        assert ins + ([cd.value] + rest.value.ins) == (ins + [cd.value]) + rest.value.ins;
        assert outs + ([Pooled(cd.value, pe)] + rest.value.outs) == (outs + [Pooled(cd.value, pe)]) + rest.value.outs;
      }
      ins := ins + [cd.value];
      outs := outs + [Pooled(cd.value, pe)];
      i := i + 1;
    }
    assert ds[i..] == [];
    assert ins + [] == ins && outs + [] == outs;
    r := Success(LevelOut(ins, outs));
  }

  /** Every graph of the dataset is covered. */
  predicate AllCovered(ds: seq<Graph>, k: int, cfg: KPlexCover, kc: CoverFn) {
    forall j :: 0 <= j < |ds| ==> CoverOne(k, ds[j], cfg, kc).Success?
  }

  /** A level succeeds exactly when every graph is covered. */
  lemma {:induction false} LevelSucceeds(ds: seq<Graph>, k: int, cfg: KPlexCover, kc: CoverFn, pe: PoolEdgeFn)
    ensures Level(ds, k, cfg, kc, pe).Success? <==> AllCovered(ds, k, cfg, kc)
  {
    if ds != [] {
      LevelSucceeds(ds[1..], k, cfg, kc, pe);
      if !AllCovered(ds, k, cfg, kc) {
        var j :| 0 <= j < |ds| && !CoverOne(k, ds[j], cfg, kc).Success?;
        if j > 0 {
          assert ds[1..][j - 1] == ds[j];
        }
      } else {
        assert CoverOne(k, ds[0], cfg, kc).Success?;
        assert forall j :: 0 <= j < |ds| - 1 ==> ds[1..][j] == ds[j + 1];
      }
    }
  }

  /** A successful level's `j`-th input record is graph `j`'s cover, and its `j`-th output is that record pooled. */
  lemma {:induction false} LevelContents(ds: seq<Graph>, k: int, cfg: KPlexCover, kc: CoverFn, pe: PoolEdgeFn)
    requires Level(ds, k, cfg, kc, pe).Success?
    ensures var l := Level(ds, k, cfg, kc, pe).value;
      |l.ins| == |ds| && |l.outs| == |ds| &&
      forall j :: 0 <= j < |ds| ==>
        CoverOne(k, ds[j], cfg, kc) == Success(l.ins[j]) && l.outs[j] == Pooled(l.ins[j], pe)
  {
    if ds != [] {
      LevelContents(ds[1..], k, cfg, kc, pe);
      assert forall j :: 0 <= j < |ds| - 1 ==> ds[1..][j] == ds[j + 1];
    }
  }

  /**
   * A level succeeds exactly when every graph is covered, and then its
   * `j`-th input record is graph `j`'s cover and its `j`-th output is that
   * record pooled.
   */
  lemma LevelPointwise(ds: seq<Graph>, k: int, cfg: KPlexCover, kc: CoverFn, pe: PoolEdgeFn)
    ensures Level(ds, k, cfg, kc, pe).Success? <==> AllCovered(ds, k, cfg, kc)
    ensures Level(ds, k, cfg, kc, pe).Success? ==>
      var l := Level(ds, k, cfg, kc, pe).value;
      |l.ins| == |ds| && |l.outs| == |ds| &&
      forall j :: 0 <= j < |ds| ==>
        CoverOne(k, ds[j], cfg, kc) == Success(l.ins[j]) && l.outs[j] == Pooled(l.ins[j], pe)
  {
    LevelSucceeds(ds, k, cfg, kc, pe);
    if Level(ds, k, cfg, kc, pe).Success? {
      LevelContents(ds, k, cfg, kc, pe);
    }
  }

  /** `dataset[idx]` for an index list: the graphs at those positions, in that order. */
  function Select<T>(ds: seq<T>, idx: seq<nat>): (r: seq<T>)
    requires InRange(idx, |ds|)
    ensures |r| == |idx| && forall j :: 0 <= j < |idx| ==> r[j] == ds[idx[j]]
  {
    seq(|idx|, j requires 0 <= j < |idx| => ds[idx[j]])
  }

  predicate InRange(idx: seq<nat>, n: int) {
    forall j :: 0 <= j < |idx| ==> idx[j] < n
  }

  /** Processing the indexed graphs yields the indexed slice of processing them all. */
  lemma LevelSelect(ds: seq<Graph>, idx: seq<nat>, k: int, cfg: KPlexCover, kc: CoverFn, pe: PoolEdgeFn)
    requires InRange(idx, |ds|) && Level(ds, k, cfg, kc, pe).Success?
    ensures var l := Level(ds, k, cfg, kc, pe).value;
      InRange(idx, |l.ins|) && InRange(idx, |l.outs|) &&
      Level(Select(ds, idx), k, cfg, kc, pe) == Success(LevelOut(Select(l.ins, idx), Select(l.outs, idx)))
  {
    var l := Level(ds, k, cfg, kc, pe).value;
    var sub := Select(ds, idx);
    LevelPointwise(ds, k, cfg, kc, pe);
    LevelPointwise(sub, k, cfg, kc, pe);
    assert AllCovered(sub, k, cfg, kc);
    var m := Level(sub, k, cfg, kc, pe).value;
    assert m.ins == Select(l.ins, idx);
    assert m.outs == Select(l.outs, idx);
  }

  /** Covering well-formed graphs with a node each yields well-formed, non-empty pooled graphs. */
  lemma LevelValid(ds: seq<Graph>, k: int, cfg: KPlexCover, kc: CoverFn, pe: PoolEdgeFn)
    requires Honest(kc) && PoolHonest(pe) && AllWellFormed(ds) && k >= 1
    ensures Level(ds, k, cfg, kc, pe).Success? <==> AllNonEmpty(ds)
    ensures Level(ds, k, cfg, kc, pe).Success? ==>
      AllWellFormed(Level(ds, k, cfg, kc, pe).value.outs) &&
      AllNonEmpty(Level(ds, k, cfg, kc, pe).value.outs)
  {
    LevelPointwise(ds, k, cfg, kc, pe);
    forall j | 0 <= j < |ds|
      ensures CoverOne(k, ds[j], cfg, kc).Success? <==> ds[j].numNodes > 0
      ensures CoverOne(k, ds[j], cfg, kc).Success? ==>
        WellFormed(Pooled(CoverOne(k, ds[j], cfg, kc).value, pe)) &&
        Pooled(CoverOne(k, ds[j], cfg, kc).value, pe).numNodes > 0
    {
      CoverOneValid(k, ds[j], cfg, kc, pe);
    }
    if !AllNonEmpty(ds) {
      var j :| 0 <= j < |ds| && ds[j].numNodes <= 0;
      assert !CoverOne(k, ds[j], cfg, kc).Success?;
    }
  }

  /** What `get_representations(dataset, ks)` returns: one covered level per `k`, then the last pooled dataset. */
  function Representations(ds: seq<Graph>, ks: seq<int>, cfg: KPlexCover, kc: CoverFn, pe: PoolEdgeFn)
    : Result<seq<Entry>, CallError>
    decreases |ks|
  {
    if ks == [] then Success([Plain(ds)])
    else
      var l :- Level(ds, ks[0], cfg, kc, pe);
      var rest :- Representations(l.outs, ks[1..], cfg, kc, pe);
      Success([Annotated(l.ins)] + rest)
  }

  /** The levels built so far, in front of what the remaining `ks` yield. */
  function Chain(pre: seq<Entry>, r: Result<seq<Entry>, CallError>): Result<seq<Entry>, CallError> {
    match r
    case Failure(e) => Failure(e)
    case Success(rest) => Success(pre + rest)
  }

  /** `get_representations(dataset, ks)`: feeds each level's pooled dataset to the next `process`. */
  method GetRepresentations(ds: seq<Graph>, ks: seq<int>, cfg: KPlexCover, kc: CoverFn, pe: PoolEdgeFn)
    returns (r: Result<seq<Entry>, CallError>)
    ensures r == Representations(ds, ks, cfg, kc, pe)
  {
    var last := ds;
    var output: seq<Entry> := [];
    var i := 0;
    assert ks[i..] == ks;
    ghost var whole := Representations(ds, ks, cfg, kc, pe);
    if whole.Success? {
      assert output + whole.value == whole.value;
    }
    while i < |ks|
      invariant 0 <= i <= |ks|
      invariant Representations(ds, ks, cfg, kc, pe) == Chain(output, Representations(last, ks[i..], cfg, kc, pe))
    {
      assert ks[i..][1..] == ks[i + 1..];
      var level := Process(last, ks[i], cfg, kc, pe);
      if level.Failure? {
        return Failure(level.error);
      }
      ghost var rest := Representations(level.value.outs, ks[i + 1..], cfg, kc, pe);
      if rest.Success? {
        assert output + ([Annotated(level.value.ins)] + rest.value) == (output + [Annotated(level.value.ins)]) + rest.value;
      }
      output := output + [Annotated(level.value.ins)];
      last := level.value.outs;
      i := i + 1;
    }
    assert ks[i..] == [];
    r := Success(output + [Plain(last)]);
  }

  /** The graphs an entry holds: the covered inputs of a level, or the final pooled graphs. */
  function Inputs(e: Entry): (gs: seq<Graph>)
    ensures |gs| == Size(e)
  {
    match e
    case Annotated(items) => seq(|items|, j requires 0 <= j < |items| => items[j].graph)
    case Plain(graphs) => graphs
  }

  function Size(e: Entry): nat {
    match e
    case Annotated(items) => |items|
    case Plain(graphs) => |graphs|
  }

  /** The pooled graphs of a covered level. */
  function Outputs(items: seq<CoverData>, pe: PoolEdgeFn): (gs: seq<Graph>)
    ensures |gs| == |items|
  {
    seq(|items|, j requires 0 <= j < |items| => Pooled(items[j], pe))
  }

  /** `e` is a covered level whose item `j` is the cover of its input graph `j` with `k`. */
  ghost predicate CoveredWith(e: Entry, k: int, cfg: KPlexCover, kc: CoverFn) {
    e.Annotated? &&
    forall j :: 0 <= j < |e.items| ==> CoverOne(k, Inputs(e)[j], cfg, kc) == Success(e.items[j])
  }

  /**
   * The shape of `get_representations`: `|ks| + 1` entries, every one the
   * size of the dataset; entry `i < |ks|` covers its inputs with `ks[i]`;
   * entry 0's inputs are the dataset; each later entry's inputs are the
   * pooled outputs of the entry before; the last entry is plain.
   */
  lemma {:induction false} RepresentationsShape(ds: seq<Graph>, ks: seq<int>, cfg: KPlexCover, kc: CoverFn, pe: PoolEdgeFn)
    requires Representations(ds, ks, cfg, kc, pe).Success?
    ensures var r := Representations(ds, ks, cfg, kc, pe).value;
      |r| == |ks| + 1 && r[|ks|].Plain? && Inputs(r[0]) == ds &&
      (forall i :: 0 <= i < |r| ==> Size(r[i]) == |ds|) &&
      forall i :: 0 <= i < |ks| ==>
        CoveredWith(r[i], ks[i], cfg, kc) && Inputs(r[i + 1]) == Outputs(r[i].items, pe)
    decreases |ks|
  {
    if ks != [] {
      var l := Level(ds, ks[0], cfg, kc, pe).value;
      RepresentationsShape(l.outs, ks[1..], cfg, kc, pe);
      var r := Representations(ds, ks, cfg, kc, pe).value;
      var rest := Representations(l.outs, ks[1..], cfg, kc, pe).value;
      assert r == [Annotated(l.ins)] + rest;
      assert Inputs(r[0]) == ds && CoveredWith(r[0], ks[0], cfg, kc) &&
             Inputs(r[1]) == Outputs(r[0].items, pe) by {
        LevelPointwise(ds, ks[0], cfg, kc, pe);
        assert Inputs(r[1]) == l.outs;
      }
      forall i | 1 <= i < |ks|
        ensures CoveredWith(r[i], ks[i], cfg, kc) && Inputs(r[i + 1]) == Outputs(r[i].items, pe)
      {
        assert r[i] == rest[i - 1] && r[i + 1] == rest[i] && ks[i] == ks[1..][i - 1];
      }
    }
  }

  /**
   * On well-formed graphs, with an honest search and honest pooling, the
   * hierarchy is built exactly when there are no levels or every graph of
   * the dataset has a node: pooled graphs are never empty.
   */
  lemma {:induction false} RepresentationsSucceed(ds: seq<Graph>, ks: seq<int>, cfg: KPlexCover, kc: CoverFn, pe: PoolEdgeFn)
    requires Honest(kc) && PoolHonest(pe) && AllWellFormed(ds)
    requires forall i :: 0 <= i < |ks| ==> ks[i] >= 1
    ensures Representations(ds, ks, cfg, kc, pe).Success? <==> (ks == [] || AllNonEmpty(ds))
    decreases |ks|
  {
    if ks != [] {
      LevelValid(ds, ks[0], cfg, kc, pe);
      if AllNonEmpty(ds) {
        var l := Level(ds, ks[0], cfg, kc, pe).value;
        RepresentationsSucceed(l.outs, ks[1..], cfg, kc, pe);
      }
    }
  }

  /** `ds[idx]` of one entry. */
  function SelectEntry(e: Entry, idx: seq<nat>): (r: Entry)
    requires InRange(idx, Size(e))
    ensures Size(r) == |idx|
  {
    match e
    case Annotated(items) => Annotated(Select(items, idx))
    case Plain(graphs) => Plain(Select(graphs, idx))
  }

  /** `[ds[idx] for ds in cache]`, an `IndexError` if some index is past the end. */
  function SliceLevels(levels: seq<Entry>, idx: seq<nat>): Result<seq<Entry>, CallError> {
    if forall i :: 0 <= i < |levels| ==> InRange(idx, Size(levels[i])) then
      Success(seq(|levels|, i requires 0 <= i < |levels| => SelectEntry(levels[i], idx)))
    else
      Failure(IndexOutOfRange)
  }

  /** `get_cover_fun(ks, dataset)`: with a dataset, the levels are computed here, once. */
  function GetCoverFun(ks: seq<int>, dataset: Option<seq<Graph>>, cfg: KPlexCover, kc: CoverFn, pe: PoolEdgeFn)
    : Result<CoverFun, CallError>
  {
    match dataset
    case None => Success(Lazy(ks))
    case Some(ds) =>
      var cache :- Representations(ds, ks, cfg, kc, pe);
      Success(Cached(cache))
  }

  /** Calling the returned closure on `(ds, idx)`; the cached closure ignores `ds`. */
  function ApplyCoverFun(f: CoverFun, ds: seq<Graph>, idx: seq<nat>, cfg: KPlexCover, kc: CoverFn, pe: PoolEdgeFn)
    : Result<seq<Entry>, CallError>
  {
    match f
    case Lazy(ks) =>
      if InRange(idx, |ds|) then Representations(Select(ds, idx), ks, cfg, kc, pe)
      else Failure(IndexOutOfRange)
    case Cached(levels) => SliceLevels(levels, idx)
  }

  /** Slicing a list of levels slices its first level and then the rest. */
  lemma SliceCons(e: Entry, rest: seq<Entry>, idx: seq<nat>)
    requires InRange(idx, Size(e))
    ensures SliceLevels([e] + rest, idx) == Chain([SelectEntry(e, idx)], SliceLevels(rest, idx))
  {
    var all := [e] + rest;
    assert forall i :: 0 <= i < |rest| ==> all[i + 1] == rest[i];
    if forall i :: 0 <= i < |rest| ==> InRange(idx, Size(rest[i])) {
      assert forall i :: 0 <= i < |all| ==> InRange(idx, Size(all[i]));
      assert SliceLevels(all, idx).value == [SelectEntry(e, idx)] + SliceLevels(rest, idx).value;
    } else {
      var i :| 0 <= i < |rest| && !InRange(idx, Size(rest[i]));
      assert !InRange(idx, Size(all[i + 1]));
    }
  }

  /** Building the hierarchy of the indexed graphs yields the indexed slice of every level of the whole hierarchy. */
  lemma {:induction false} RepresentationsSelect(ds: seq<Graph>, idx: seq<nat>, ks: seq<int>, cfg: KPlexCover, kc: CoverFn, pe: PoolEdgeFn)
    requires InRange(idx, |ds|) && Representations(ds, ks, cfg, kc, pe).Success?
    ensures SliceLevels(Representations(ds, ks, cfg, kc, pe).value, idx) ==
      Representations(Select(ds, idx), ks, cfg, kc, pe)
    decreases |ks|
  {
    if ks == [] {
      assert SliceLevels([Plain(ds)], idx).value == [Plain(Select(ds, idx))];
    } else {
      var l := Level(ds, ks[0], cfg, kc, pe).value;
      LevelPointwise(ds, ks[0], cfg, kc, pe);
      LevelSelect(ds, idx, ks[0], cfg, kc, pe);
      RepresentationsSelect(l.outs, idx, ks[1..], cfg, kc, pe);
      var rest := Representations(l.outs, ks[1..], cfg, kc, pe).value;
      SliceCons(Annotated(l.ins), rest, idx);
    }
  }

  /**
   * Eager and lazy cover functions agree: once `get_cover_fun` has built
   * the cache for a dataset, calling it on any `ds` with `idx` gives what
   * the lazy closure gives on that dataset with `idx`, errors included.
   */
  lemma ModesAgree(ks: seq<int>, dataset: seq<Graph>, ds: seq<Graph>, idx: seq<nat>,
                   cfg: KPlexCover, kc: CoverFn, pe: PoolEdgeFn)
    requires GetCoverFun(ks, Some(dataset), cfg, kc, pe).Success?
    ensures ApplyCoverFun(GetCoverFun(ks, Some(dataset), cfg, kc, pe).value, ds, idx, cfg, kc, pe) ==
      ApplyCoverFun(GetCoverFun(ks, None, cfg, kc, pe).value, dataset, idx, cfg, kc, pe)
  {
    var r := Representations(dataset, ks, cfg, kc, pe).value;
    RepresentationsShape(dataset, ks, cfg, kc, pe);
    if InRange(idx, |dataset|) {
      RepresentationsSelect(dataset, idx, ks, cfg, kc, pe);
    } else {
      var j :| 0 <= j < |idx| && idx[j] >= |dataset|;
      assert !InRange(idx, Size(r[0]));
    }
  }
}
