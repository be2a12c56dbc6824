/**
 * The compressed-sparse-column binary matrix (CSCBinaryMatrix of
 * src/core/matrix.h) that every engine reads, and the undirected edge
 * relation it stands for.
 *
 * Entries carry no value: a matrix is exactly the set of stored
 * (row, column) positions.  Column c stores the row indices
 * rowIdx[colPtr[c] .. colPtr[c+1]).
 */
module Csc {
  import opened Common

  datatype CscMatrix = CscMatrix(
    nrows: nat,           // number of rows (the node count of the graph)
    ncols: nat,           // number of columns
    nnz: nat,             // number of stored entries
    rowIdx: seq<nat>,     // row index of each stored entry, length nnz
    colPtr: seq<nat>      // column pointers, length ncols + 1
  )

  /** The layout invariants of the struct: array lengths, non-decreasing
      column pointers, last pointer equal to the entry count. */
  predicate ValidLayout(m: CscMatrix) {
    && |m.rowIdx| == m.nnz
    && |m.colPtr| == m.ncols + 1
    && (forall c, d :: 0 <= c <= d <= m.ncols ==> m.colPtr[c] <= m.colPtr[d])
    && m.colPtr[m.ncols] == m.nnz
  }

  /** Every stored row index names a row of the matrix. */
  predicate RowsInRange(m: CscMatrix) {
    forall j :: 0 <= j < |m.rowIdx| ==> m.rowIdx[j] < m.nrows
  }

  /** The counts fit the uint32_t row indices, column pointers and labels. */
  predicate Fits32(m: CscMatrix) {
    m.nrows < UintLimit && m.ncols < UintLimit && m.nnz < UintLimit
  }

  /** What the engines that index the label array with every row index
      and every column index need: all of their reads are in bounds. */
  predicate WellFormed(m: CscMatrix) {
    ValidLayout(m) && RowsInRange(m) && m.ncols <= m.nrows && Fits32(m)
  }

  /** What the union-find engines that skip rows >= nrows need: the row
      indices are not trusted, the column indices still are. */
  predicate GuardedWellFormed(m: CscMatrix) {
    ValidLayout(m) && m.ncols <= m.nrows && Fits32(m)
  }

  /** Row r is stored in column c. */
  predicate Stored(m: CscMatrix, r: nat, c: nat) {
    && c < m.ncols
    && c + 1 < |m.colPtr|
    && exists j :: m.colPtr[c] <= j < m.colPtr[c + 1] && j < |m.rowIdx| && m.rowIdx[j] == r
  }

  /** The undirected edge relation: a stored position (u, v) or (v, u),
      both ends being nodes (rows) of the graph. */
  predicate Edge(m: CscMatrix, u: nat, v: nat) {
    u < m.nrows && v < m.nrows && (Stored(m, u, v) || Stored(m, v, u))
  }

  /** The stored positions of column c, in storage order. */
  function ColumnEntries(m: CscMatrix, c: nat): (e: seq<(nat, nat)>)
    requires ValidLayout(m) && c < m.ncols
    ensures |e| == m.colPtr[c + 1] - m.colPtr[c]
    ensures forall r: nat :: (r, c) in e <==> Stored(m, r, c)
    ensures forall p :: p in e ==> p.1 == c
  {
    var lo, hi := m.colPtr[c], m.colPtr[c + 1];
    var e := seq(hi - lo, k requires 0 <= k < hi - lo => (m.rowIdx[lo + k], c));
    assert forall r: nat :: Stored(m, r, c) ==> (r, c) in e by {
      forall r: nat | Stored(m, r, c)
        ensures (r, c) in e
      {
        var j :| lo <= j < hi && j < |m.rowIdx| && m.rowIdx[j] == r;
        assert e[j - lo] == (r, c);
      }
    }
    e
  }

  /** The stored positions of columns [0, k), in the order the engines
      visit them: column by column, each column in storage order. */
  function EntriesBefore(m: CscMatrix, k: nat): (e: seq<(nat, nat)>)
    requires ValidLayout(m) && k <= m.ncols
    ensures |e| == m.colPtr[k] - m.colPtr[0]
    ensures forall r: nat, c: nat :: (r, c) in e <==> c < k && Stored(m, r, c)
  {
    if k == 0 then []
    else
      var prefix := EntriesBefore(m, k - 1);
      var last := ColumnEntries(m, k - 1);
      assert forall r: nat, c: nat :: (r, c) in prefix + last <==> (r, c) in prefix || (r, c) in last;
      prefix + last
  }

  /** All stored positions.  With colPtr[0] == 0 there are exactly nnz. */
  function Entries(m: CscMatrix): (e: seq<(nat, nat)>)
    requires ValidLayout(m)
    ensures |e| == m.nnz - m.colPtr[0]
    ensures forall r: nat, c: nat :: (r, c) in e <==> Stored(m, r, c)
  {
    EntriesBefore(m, m.ncols)
  }

  /** The graph is exactly the stored positions, read without direction. */
  lemma EdgeIsStoredPosition(m: CscMatrix, u: nat, v: nat)
    requires ValidLayout(m)
    ensures Edge(m, u, v) <==> u < m.nrows && v < m.nrows && ((u, v) in Entries(m) || (v, u) in Entries(m))
    ensures Edge(m, u, v) <==> Edge(m, v, u)
  {
  }
}
