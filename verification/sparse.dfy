/**
 * The sparse matrices `cover_pool` multiplies: lists of `(row, col, value)`
 * triples, in the form `torch_sparse` takes them (an index pair list and a
 * value list). A list stands for the matrix whose `(i, j)` entry is the sum
 * of the values of its `(i, j)` triples, so duplicate triples add up and
 * their order does not matter.
 *
 * Weights are integers here; every statement is about the represented
 * matrix, not about how the list happens to be laid out.
 */
module Sparse {

  datatype Entry = Entry(row: int, col: int, val: int)

  /** All but the last triple; the recursions below peel triples from the back. */
  function Init(t: seq<Entry>): seq<Entry>
    requires t != []
  {
    t[..|t| - 1]
  }

  function Last(t: seq<Entry>): Entry
    requires t != []
  {
    t[|t| - 1]
  }

  /** Entry `(i, j)` of the matrix the triples stand for. */
  function At(t: seq<Entry>, i: int, j: int): int {
    if t == [] then 0
    else At(Init(t), i, j) + (if Last(t).row == i && Last(t).col == j then Last(t).val else 0)
  }

  predicate ColsBelow(t: seq<Entry>, n: int) {
    forall k :: 0 <= k < |t| ==> 0 <= t[k].col < n
  }

  predicate RowsBelow(t: seq<Entry>, n: int) {
    forall k :: 0 <= k < |t| ==> 0 <= t[k].row < n
  }

  lemma {:induction false} AtConcat(a: seq<Entry>, b: seq<Entry>, i: int, j: int)
    ensures At(a + b, i, j) == At(a, i, j) + At(b, i, j)
    decreases |b|
  {
    if b == [] {
      assert a + b == a;
    } else {
      assert Init(a + b) == a + Init(b);
      assert Last(a + b) == Last(b);
      AtConcat(a, Init(b), i, j);
    }
  }

  /** `torch_sparse.transpose`: every triple with its row and column swapped. */
  function Transpose(t: seq<Entry>): (r: seq<Entry>)
    ensures |r| == |t|
  {
    if t == [] then []
    else Transpose(Init(t)) + [Entry(Last(t).col, Last(t).row, Last(t).val)]
  }

  /** The transposed list stands for the transposed matrix. */
  lemma {:induction false} AtTranspose(t: seq<Entry>, i: int, j: int)
    ensures At(Transpose(t), i, j) == At(t, j, i)
  {
    if t != [] {
      AtTranspose(Init(t), i, j);
      var r := Transpose(t);
      assert Init(r) == Transpose(Init(t));
    }
  }

  /** Rows of the transposed list are the original columns, and its columns the original rows. */
  lemma {:induction false} TransposeBounds(t: seq<Entry>, n: int, m: int)
    ensures RowsBelow(t, n) ==> ColsBelow(Transpose(t), n)
    ensures ColsBelow(t, m) ==> RowsBelow(Transpose(t), m)
  {
    if t != [] {
      TransposeBounds(Init(t), n, m);
      assert Transpose(t) == Transpose(Init(t)) + [Entry(Last(t).col, Last(t).row, Last(t).val)];
    }
  }

  /** Triple `e` of the left factor times every triple of `b` in row `e.col`. */
  function RowTimes(e: Entry, b: seq<Entry>): seq<Entry> {
    if b == [] then []
    else
      RowTimes(e, Init(b)) +
      (if Last(b).row == e.col then [Entry(e.row, Last(b).col, e.val * Last(b).val)] else [])
  }

  /** `torch_sparse.spspmm`, uncoalesced: one triple per pair of matching triples. */
  function Mul(a: seq<Entry>, b: seq<Entry>): seq<Entry> {
    if a == [] then [] else Mul(Init(a), b) + RowTimes(Last(a), b)
  }

  lemma {:induction false} AtRowTimes(e: Entry, b: seq<Entry>, i: int, j: int)
    ensures At(RowTimes(e, b), i, j) == if e.row == i then e.val * At(b, e.col, j) else 0
  {
    if b != [] {
      var f := Last(b);
      AtRowTimes(e, Init(b), i, j);
      var tail := if f.row == e.col then [Entry(e.row, f.col, e.val * f.val)] else [];
      AtConcat(RowTimes(e, Init(b)), tail, i, j);
      if f.row == e.col {
        assert At(tail, i, j) == if e.row == i && f.col == j then e.val * f.val else 0 by {
          assert Init(tail) == [];
        }
      }
      var hit := if f.row == e.col && f.col == j then f.val else 0;
      assert At(b, e.col, j) == At(Init(b), e.col, j) + hit;
      assert e.val * At(b, e.col, j) == e.val * At(Init(b), e.col, j) + e.val * hit;
    }
  }

  /** Entry `(i, j)` of the product of the matrices `a` and `b`, summing over the middle index `k < K`. */
  function Inner(a: seq<Entry>, b: seq<Entry>, i: int, j: int, K: nat): int {
    if K == 0 then 0 else Inner(a, b, i, j, K - 1) + At(a, i, K - 1) * At(b, K - 1, j)
  }

  lemma {:induction false} InnerSnoc(a: seq<Entry>, b: seq<Entry>, i: int, j: int, K: nat)
    requires a != []
    ensures Inner(a, b, i, j, K) == Inner(Init(a), b, i, j, K) +
      (if Last(a).row == i && 0 <= Last(a).col < K then Last(a).val * At(b, Last(a).col, j) else 0)
  {
    if K > 0 {
      InnerSnoc(a, b, i, j, K - 1);
      var e := Last(a);
      var hit := if e.row == i && e.col == K - 1 then e.val else 0;
      assert At(a, i, K - 1) == At(Init(a), i, K - 1) + hit;
      assert At(a, i, K - 1) * At(b, K - 1, j) == At(Init(a), i, K - 1) * At(b, K - 1, j) + hit * At(b, K - 1, j);
    }
  }

  /** The empty list stands for the zero matrix; so the products below start from zero. */
  lemma {:induction false} InnerEmpty(b: seq<Entry>, i: int, j: int, K: nat)
    ensures Inner([], b, i, j, K) == 0
  {
    if K > 0 {
      InnerEmpty(b, i, j, K - 1);
    }
  }

  /** The product list stands for the matrix product, whenever the left factor's columns lie below `K`. */
  lemma {:induction false} MulAt(a: seq<Entry>, b: seq<Entry>, i: int, j: int, K: nat)
    requires ColsBelow(a, K)
    ensures At(Mul(a, b), i, j) == Inner(a, b, i, j, K)
  {
    if a == [] {
      InnerEmpty(b, i, j, K);
    } else {
      MulAt(Init(a), b, i, j, K);
      assert 0 <= Last(a).col < K;
      AtConcat(Mul(Init(a), b), RowTimes(Last(a), b), i, j);
      AtRowTimes(Last(a), b, i, j);
      InnerSnoc(a, b, i, j, K);
    }
  }

  lemma {:induction false} MulCols(a: seq<Entry>, b: seq<Entry>, m: int)
    requires ColsBelow(b, m)
    ensures ColsBelow(Mul(a, b), m)
  {
    if a != [] {
      MulCols(Init(a), b, m);
      RowTimesBounds(Last(a), b, m);
    }
  }

  lemma {:induction false} RowTimesBounds(e: Entry, b: seq<Entry>, m: int)
    requires ColsBelow(b, m)
    ensures forall k :: 0 <= k < |RowTimes(e, b)| ==> RowTimes(e, b)[k].row == e.row
    ensures ColsBelow(RowTimes(e, b), m)
  {
    if b != [] {
      RowTimesBounds(e, Init(b), m);
    }
  }

  /** The `n × n` identity: triples `(i, i, 1)` for `i < n`. */
  function Identity(n: nat): (r: seq<Entry>)
    ensures |r| == n && forall k :: 0 <= k < n ==> r[k] == Entry(k, k, 1)
  {
    if n == 0 then [] else Identity(n - 1) + [Entry(n - 1, n - 1, 1)]
  }

  lemma {:induction false} AtIdentity(n: nat, i: int, j: int)
    ensures At(Identity(n), i, j) == if i == j && 0 <= i < n then 1 else 0
  {
    if n > 0 {
      assert Init(Identity(n)) == Identity(n - 1);
      AtIdentity(n - 1, i, j);
    }
  }

  lemma {:induction false} IdentityBounds(n: nat)
    ensures RowsBelow(Identity(n), n) && ColsBelow(Identity(n), n)
  {
    if n > 0 {
      IdentityBounds(n - 1);
    }
  }

  lemma {:induction false} TransposeIdentity(n: nat)
    ensures Transpose(Identity(n)) == Identity(n)
  {
    if n > 0 {
      TransposeIdentity(n - 1);
      assert Init(Identity(n)) == Identity(n - 1);
    }
  }

  /** Multiplying by the identity on the left, over the first `K` middle indices. */
  lemma {:induction false} InnerIdentityLeft(n: nat, b: seq<Entry>, i: int, j: int, K: nat)
    requires K <= n
    ensures Inner(Identity(n), b, i, j, K) == if 0 <= i < K then At(b, i, j) else 0
  {
    if K > 0 {
      InnerIdentityLeft(n, b, i, j, K - 1);
      AtIdentity(n, i, K - 1);
    }
  }

  /** Multiplying by the identity on the right, over the first `K` middle indices. */
  lemma {:induction false} InnerIdentityRight(a: seq<Entry>, n: nat, i: int, j: int, K: nat)
    requires K <= n
    ensures Inner(a, Identity(n), i, j, K) == if 0 <= j < K then At(a, i, j) else 0
  {
    if K > 0 {
      InnerIdentityRight(a, n, i, j, K - 1);
      AtIdentity(n, K - 1, j);
    }
  }

  // ---------------------------------------------------------------------
  // Sparse times dense: `torch_sparse.spmm` on one feature column.

  /** Row `i` of the sparse matrix times the column vector `v`. */
  function RowDot(t: seq<Entry>, i: int, v: seq<int>): int
    requires ColsBelow(t, |v|)
  {
    if t == [] then 0
    else RowDot(Init(t), i, v) + (if Last(t).row == i then Last(t).val * v[Last(t).col] else 0)
  }

  /** Row `i` of the represented matrix times `v`, over the first `K` columns. */
  function Dot(t: seq<Entry>, i: int, v: seq<int>, K: nat): int
    requires K <= |v|
  {
    if K == 0 then 0 else Dot(t, i, v, K - 1) + At(t, i, K - 1) * v[K - 1]
  }

  lemma {:induction false} DotSnoc(t: seq<Entry>, i: int, v: seq<int>, K: nat)
    requires t != [] && K <= |v|
    ensures Dot(t, i, v, K) == Dot(Init(t), i, v, K) +
      (if Last(t).row == i && 0 <= Last(t).col < K then Last(t).val * v[Last(t).col] else 0)
  {
    if K > 0 {
      DotSnoc(t, i, v, K - 1);
      var e := Last(t);
      var hit := if e.row == i && e.col == K - 1 then e.val else 0;
      assert At(t, i, K - 1) == At(Init(t), i, K - 1) + hit;
      assert At(t, i, K - 1) * v[K - 1] == At(Init(t), i, K - 1) * v[K - 1] + hit * v[K - 1];
    }
  }

  lemma {:induction false} DotEmpty(i: int, v: seq<int>, K: nat)
    requires K <= |v|
    ensures Dot([], i, v, K) == 0
  {
    if K > 0 {
      DotEmpty(i, v, K - 1);
    }
  }

  /** The list's row times a vector is the represented matrix's row times it. */
  lemma {:induction false} RowDotIsDot(t: seq<Entry>, i: int, v: seq<int>)
    requires ColsBelow(t, |v|)
    ensures RowDot(t, i, v) == Dot(t, i, v, |v|)
  {
    if t == [] {
      DotEmpty(i, v, |v|);
    } else {
      RowDotIsDot(Init(t), i, v);
      DotSnoc(t, i, v, |v|);
      assert 0 <= Last(t).col < |v|;
    }
  }

  lemma {:induction false} RowDotIdentity(n: nat, i: int, v: seq<int>)
    requires n <= |v|
    ensures ColsBelow(Identity(n), |v|)
    ensures RowDot(Identity(n), i, v) == if 0 <= i < n then v[i] else 0
  {
    IdentityBounds(n);
    if n > 0 {
      assert Init(Identity(n)) == Identity(n - 1);
      RowDotIdentity(n - 1, i, v);
    }
  }

  /** Every triple's value times `v` at its column, all rows together. */
  function Total(t: seq<Entry>, v: seq<int>): int
    requires ColsBelow(t, |v|)
  {
    if t == [] then 0 else Total(Init(t), v) + Last(t).val * v[Last(t).col]
  }

  /** `RowDot` summed over the rows `0 .. m-1`. */
  function SumRowDots(t: seq<Entry>, v: seq<int>, m: nat): int
    requires ColsBelow(t, |v|)
  {
    if m == 0 then 0 else SumRowDots(t, v, m - 1) + RowDot(t, m - 1, v)
  }

  lemma {:induction false} SumRowDotsSnoc(t: seq<Entry>, v: seq<int>, m: nat)
    requires t != [] && ColsBelow(t, |v|)
    ensures SumRowDots(t, v, m) == SumRowDots(Init(t), v, m) +
      (if 0 <= Last(t).row < m then Last(t).val * v[Last(t).col] else 0)
  {
    if m > 0 {
      SumRowDotsSnoc(t, v, m - 1);
    }
  }

  lemma {:induction false} SumRowDotsEmpty(v: seq<int>, m: nat)
    ensures SumRowDots([], v, m) == 0
  {
    if m > 0 {
      SumRowDotsEmpty(v, m - 1);
    }
  }

  /** Summing the rows of a product with rows in `[0, m)` sums every triple once. */
  lemma {:induction false} SumRows(t: seq<Entry>, v: seq<int>, m: nat)
    requires ColsBelow(t, |v|) && RowsBelow(t, m)
    ensures SumRowDots(t, v, m) == Total(t, v)
  {
    if t == [] {
      SumRowDotsEmpty(v, m);
    } else {
      SumRows(Init(t), v, m);
      SumRowDotsSnoc(t, v, m);
      assert 0 <= Last(t).row < m;
    }
  }

  /** The summed values of row `n`'s triples: how much of node `n` the cover hands out. */
  function RowWeight(t: seq<Entry>, n: int): int {
    if t == [] then 0 else RowWeight(Init(t), n) + (if Last(t).row == n then Last(t).val else 0)
  }

  /** `v[n]` weighted by row `n`'s weight, summed over `n < N`. */
  function WeightedRows(t: seq<Entry>, v: seq<int>, N: nat): int
    requires N <= |v|
  {
    if N == 0 then 0 else WeightedRows(t, v, N - 1) + v[N - 1] * RowWeight(t, N - 1)
  }

  lemma {:induction false} WeightedRowsSnoc(t: seq<Entry>, v: seq<int>, N: nat)
    requires t != [] && N <= |v|
    ensures WeightedRows(t, v, N) == WeightedRows(Init(t), v, N) +
      (if 0 <= Last(t).row < N then v[Last(t).row] * Last(t).val else 0)
  {
    if N > 0 {
      WeightedRowsSnoc(t, v, N - 1);
      var e := Last(t);
      var hit := if e.row == N - 1 then e.val else 0;
      assert v[N - 1] * RowWeight(t, N - 1) == v[N - 1] * RowWeight(Init(t), N - 1) + v[N - 1] * hit;
    }
  }

  lemma {:induction false} WeightedRowsEmpty(v: seq<int>, N: nat)
    requires N <= |v|
    ensures WeightedRows([], v, N) == 0
  {
    if N > 0 {
      WeightedRowsEmpty(v, N - 1);
    }
  }

  /** The transposed list's total, grouped by the original rows. */
  lemma {:induction false} TotalTranspose(t: seq<Entry>, v: seq<int>, N: nat)
    requires RowsBelow(t, N) && N <= |v|
    ensures ColsBelow(Transpose(t), |v|)
    ensures Total(Transpose(t), v) == WeightedRows(t, v, N)
  {
    TransposeBounds(t, |v|, 0);
    if t == [] {
      WeightedRowsEmpty(v, N);
    } else {
      TotalTranspose(Init(t), v, N);
      WeightedRowsSnoc(t, v, N);
      assert 0 <= Last(t).row < N;
      assert Init(Transpose(t)) == Transpose(Init(t));
      assert Last(Transpose(t)) == Entry(Last(t).col, Last(t).row, Last(t).val);
    }
  }

  function Sum(v: seq<int>): int {
    if v == [] then 0 else Sum(v[..|v| - 1]) + v[|v| - 1]
  }

  /** With every row weighing exactly one, the weighted sum is the plain sum. */
  lemma {:induction false} WeightedRowsUnit(t: seq<Entry>, v: seq<int>, N: nat)
    requires N <= |v|
    requires forall n :: 0 <= n < N ==> RowWeight(t, n) == 1
    ensures WeightedRows(t, v, N) == Sum(v[..N])
  {
    if N > 0 {
      WeightedRowsUnit(t, v, N - 1);
      assert v[..N][..N - 1] == v[..N - 1];
    }
  }

  // ---------------------------------------------------------------------
  // Products through a cover matrix `C` (rows: nodes, columns: clusters).

  /** Column `j` of the represented matrix times `v`, over the first `K` rows: entry `j` of `Cᵀv`. */
  function ColDot(t: seq<Entry>, j: int, v: seq<int>, K: nat): int
    requires K <= |v|
  {
    if K == 0 then 0 else ColDot(t, j, v, K - 1) + At(t, K - 1, j) * v[K - 1]
  }

  lemma {:induction false} DotTranspose(t: seq<Entry>, j: int, v: seq<int>, K: nat)
    requires K <= |v|
    ensures Dot(Transpose(t), j, v, K) == ColDot(t, j, v, K)
  {
    if K > 0 {
      DotTranspose(t, j, v, K - 1);
      AtTranspose(t, j, K - 1);
    }
  }

  /** Entry `(i, m)` of `Cᵀ A`, over the first `K` nodes. */
  function Through(c: seq<Entry>, a: seq<Entry>, i: int, m: int, K: nat): int {
    if K == 0 then 0 else Through(c, a, i, m, K - 1) + At(c, K - 1, i) * At(a, K - 1, m)
  }

  /** Entry `(i, j)` of `(Cᵀ A) C`, with `N` nodes in the inner product and the first `K` in the outer one. */
  function Chained(c: seq<Entry>, a: seq<Entry>, i: int, j: int, N: nat, K: nat): int {
    if K == 0 then 0 else Chained(c, a, i, j, N, K - 1) + Through(c, a, i, K - 1, N) * At(c, K - 1, j)
  }

  lemma {:induction false} InnerTranspose(c: seq<Entry>, a: seq<Entry>, i: int, m: int, K: nat)
    ensures Inner(Transpose(c), a, i, m, K) == Through(c, a, i, m, K)
  {
    if K > 0 {
      InnerTranspose(c, a, i, m, K - 1);
      AtTranspose(c, i, K - 1);
    }
  }

  lemma {:induction false} InnerChained(p: seq<Entry>, c: seq<Entry>, a: seq<Entry>, i: int, j: int, N: nat, K: nat)
    requires forall m :: 0 <= m < K ==> At(p, i, m) == Through(c, a, i, m, N)
    ensures Inner(p, c, i, j, K) == Chained(c, a, i, j, N, K)
  {
    if K > 0 {
      InnerChained(p, c, a, i, j, N, K - 1);
    }
  }

  /**
   * The two chained sparse products `(Cᵀ A) C` stand for the matrix
   * `Cᵀ A C`, when the cover's node ids and the adjacency's columns lie
   * below `N`.
   */
  lemma PoolProduct(c: seq<Entry>, a: seq<Entry>, i: int, j: int, N: nat)
    requires RowsBelow(c, N) && ColsBelow(a, N)
    ensures At(Mul(Mul(Transpose(c), a), c), i, j) == Chained(c, a, i, j, N, N)
  {
    var ct := Transpose(c);
    var p := Mul(ct, a);
    TransposeBounds(c, N, 0);
    MulCols(ct, a, N);
    MulAt(p, c, i, j, N);
    forall m | 0 <= m < N
      ensures At(p, i, m) == Through(c, a, i, m, N)
    {
      MulAt(ct, a, i, m, N);
      InnerTranspose(c, a, i, m, N);
    }
    InnerChained(p, c, a, i, j, N, N);
  }

  /** With the identity as cover, `(Cᵀ A) C` stands for `A` itself. */
  lemma IdentityProduct(a: seq<Entry>, i: int, j: int, N: nat)
    requires 0 <= i < N && 0 <= j < N && ColsBelow(a, N)
    ensures At(Mul(Mul(Transpose(Identity(N)), a), Identity(N)), i, j) == At(a, i, j)
  {
    TransposeIdentity(N);
    IdentityBounds(N);
    var p := Mul(Identity(N), a);
    MulCols(Identity(N), a, N);
    MulAt(p, Identity(N), i, j, N);
    InnerIdentityRight(p, N, i, j, N);
    MulAt(Identity(N), a, i, j, N);
    InnerIdentityLeft(N, a, i, j, N);
  }
}
