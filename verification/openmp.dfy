/**
 * The OpenMP back-end (src/algorithms/cc_openmp.c) with a team of one
 * thread: every worksharing loop runs all of its iterations in order on
 * that thread, and the reduction of the root count is the plain sum.
 */
module Openmp {
  import opened Common
  import opened Csc
  import opened Graph
  import opened UnionFind
  import opened LabelProp

  /** cc_union_find: 0 for a NULL matrix or no rows, -1 when the label
      array cannot be allocated; otherwise the identity array, the unions
      of every stored entry whose row is a node (entries with row >= n are
      skipped, so row indices need not be in range; column indices are not
      checked and must name nodes), the flattening pass, and the count of
      the roots, which is the number of components. */
  method CcUnionFind(matrix: Option<CscMatrix>, nThreads: nat, alloc: Malloc) returns (r: int)
    requires matrix.Some? && matrix.value.nrows > 0 ==> GuardedWellFormed(matrix.value) && nThreads >= 1
    ensures r == UfResult(matrix, alloc)
  {
    if matrix.None? || matrix.value.nrows == 0 {
      return 0;
    }
    var m := matrix.value;
    var n := m.nrows;
    if !alloc.labelArray {
      return -1;
    }
    var labels: seq<nat> := seq(n, i => i);
    IdentityStart(m);
    for col := 0 to m.ncols
      invariant RootsReachable(m, labels) && ColumnsJoined(m, labels, col)
    {
      labels := UnionColumn(m, labels, col, true);
    }
    JoinedIsDone(m, labels);
    labels := FlattenAll(labels);
    var count := CountRoots(labels, 0, n);
    DoneRootCount(m, labels);
    ComponentCountBound(m);
    r := ToInt(count);
  }

  /** One round: the larger-end step on every stored entry of every column
      under the thread's one local_changed flag, which clears finished.
      finished stays set exactly when the round changed nothing, and then
      the round ended at a fixed point; otherwise the sum of the labels
      went down. */
  method LpRound(m: CscMatrix, labels: seq<nat>) returns (labels': seq<nat>, finished: bool)
    requires WellFormed(m) && LpInv(m, labels)
    ensures LpInv(m, labels') && Below(labels', labels)
    ensures finished <==> labels' == labels
    ensures !finished ==> Sum(labels') < Sum(labels)
    ensures finished ==> ConstantAlongEdges(m, labels')
  {
    finished := true;
    var local := RelaxColumns(m, labels, 0, m.ncols, LargerEnd);
    RoundDone(m, labels, local);
    if local.changed {
      finished := false;
    }
    labels' := local.labels;
  }

  /** cc_label_propagation: -1 when an allocation fails; otherwise rounds
      from the identity labelling until one leaves finished set, then the
      bitmap count of the distinct labels, which is the number of
      components.  The matrix is dereferenced without a NULL check, and the
      thread count, an int here, must be positive for num_threads. */
  method CcLabelPropagation(m: CscMatrix, nThreads: int, alloc: Malloc) returns (r: int)
    requires WellFormed(m) && nThreads >= 1
    ensures r == LpResult(m, alloc)
  {
    var n := m.nrows;
    if !alloc.labelArray {
      return -1;
    }
    var labels: seq<nat> := seq(n, i => i);
    IdentityInv(m);
    var finished := false;
    while !finished
      invariant LpInv(m, labels)
      invariant finished ==> ConstantAlongEdges(m, labels)
      decreases Sum(labels), !finished
    {
      labels, finished := LpRound(m, labels);
    }
    FixedPointIsDone(m, labels);
    DoneLabelCount(m, labels);
    if !alloc.bitmap {
      return -1;
    }
    var count := BitmapCount(labels, n);
    ComponentCountBound(m);
    r := ToInt(count);
  }

  /** cc_openmp: variant 0 is label propagation, called with the thread
      count converted to int, 1 is union-find, and any other variant is
      rejected with -1. */
  method CcOpenmp(matrix: Option<CscMatrix>, nThreads: nat, variant: nat, alloc: Malloc) returns (r: int)
    requires nThreads < UintLimit
    requires variant == 0 ==> matrix.Some? && WellFormed(matrix.value) && ToInt(nThreads) >= 1
    requires variant == 1 ==> (matrix.Some? && matrix.value.nrows > 0 ==> GuardedWellFormed(matrix.value) && nThreads >= 1)
    ensures variant == 0 ==> r == LpResult(matrix.value, alloc)
    ensures variant == 1 ==> r == UfResult(matrix, alloc)
    ensures variant != 0 && variant != 1 ==> r == -1
  {
    if variant == 0 {
      r := CcLabelPropagation(matrix.value, ToInt(nThreads), alloc);
    } else if variant == 1 {
      r := CcUnionFind(matrix, nThreads, alloc);
    } else {
      r := -1;
    }
  }
}
