/** The read-only weight matrix W of an APPR computation, in the compressed
    sparse column (CSC) layout the solver reads it in: the stored entries of
    column j sit at positions col[j] .. col[j+1]-1 of `row` (their row
    indices, i.e. the target nodes) and of `val` (their weights). */
module Csc {

  datatype Matrix = Matrix(n: nat, col: seq<nat>, row: seq<nat>, val: seq<real>)

  /** The layout the solver relies on: N+1 column pointers that never
      decrease, every stored entry inside `row` and `val`, and every stored
      row index a node of the square N x N matrix. */
  predicate Valid(m: Matrix) {
    && |m.col| == m.n + 1
    && (forall j, k :: 0 <= j <= k <= m.n ==> m.col[j] <= m.col[k])
    && m.col[m.n] <= |m.row|
    && |m.val| == |m.row|
    && (forall i :: 0 <= i < m.col[m.n] ==> m.row[i] < m.n)
  }

  /** Every stored weight is non-negative. */
  predicate NonNegative(m: Matrix) {
    forall i :: 0 <= i < |m.val| ==> m.val[i] >= 0.0
  }

  /** Column j's entries lie inside the stored part of the matrix. */
  lemma ColumnInRange(m: Matrix, j: nat)
    requires Valid(m) && j < m.n
    ensures m.col[j] <= m.col[j + 1] <= m.col[m.n] <= |m.val|
  {
  }

  /** The total weight stored at positions lo .. hi-1. */
  function RangeSum(m: Matrix, lo: nat, hi: nat): real
    requires lo <= hi <= |m.val|
    decreases hi - lo
  {
    if lo == hi then 0.0 else RangeSum(m, lo, hi - 1) + m.val[hi - 1]
  }

  /** The weight sum of column j (the node's weighted out-degree). */
  function ColSum(m: Matrix, j: nat): real
    requires Valid(m) && j < m.n
  {
    ColumnInRange(m, j);
    RangeSum(m, m.col[j], m.col[j + 1])
  }
}
