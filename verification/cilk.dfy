/**
 * The Cilk back-end (src/algorithms/cc_cilk.c) with one worker: every
 * cilk_for runs its iterations in order, and the atomic increments of the
 * root count are plain increments.  The thread-count argument is ignored.
 */
module Cilk {
  import opened Common
  import opened Csc
  import opened Graph
  import opened UnionFind
  import opened LabelProp

  /** cc_union_find: as in the OpenMP back-end, 0 for a NULL matrix or no
      rows, -1 when the label array cannot be allocated, and otherwise the
      number of components, entries whose row is not a node being skipped. */
  method CcUnionFind(matrix: Option<CscMatrix>, alloc: Malloc) returns (r: int)
    requires matrix.Some? && matrix.value.nrows > 0 ==> GuardedWellFormed(matrix.value)
    ensures r == UfResult(matrix, alloc)
  {
    if matrix.None? || matrix.value.nrows == 0 {
      return 0;
    }
    var m := matrix.value;
    var n := m.nrows;
    if !alloc.labelArray {
      return -1;
    }
    var labels: seq<nat> := seq(n, i => i);
    IdentityStart(m);
    for col := 0 to m.ncols
      invariant RootsReachable(m, labels) && ColumnsJoined(m, labels, col)
    {
      labels := UnionColumn(m, labels, col, true);
    }
    JoinedIsDone(m, labels);
    labels := FlattenAll(labels);
    var count := CountRoots(labels, 0, n);
    DoneRootCount(m, labels);
    ComponentCountBound(m);
    r := ToInt(count);
  }

  /** One round: for each column, the larger-end step on each of its stored
      entries under a flag local to the column; a column that stored clears
      finished.  finished stays set exactly when the round changed nothing,
      and then the round ended at a fixed point; otherwise the sum of the
      labels went down. */
  method LpRound(m: CscMatrix, labels: seq<nat>) returns (labels': seq<nat>, finished: bool)
    requires WellFormed(m) && LpInv(m, labels)
    ensures LpInv(m, labels') && Below(labels', labels)
    ensures finished <==> labels' == labels
    ensures !finished ==> Sum(labels') < Sum(labels)
    ensures finished ==> ConstantAlongEdges(m, labels')
  {
    finished := true;
    labels' := labels;
    PassStart(m, labels, 0);
    for col := 0 to m.ncols
      invariant PassSoFar(m, labels, labels', !finished, 0, col)
    {
      var local := RelaxColumn(m, labels', col, LargerEnd);
      PassStep(m, labels, Step(labels', !finished), 0, col, local);
      labels' := local.labels;
      if local.changed {
        finished := false;
      }
    }
    RoundDone(m, labels, Step(labels', !finished));
  }

  /** cc_label_propagation: unlike the other back-ends it returns 0 for a
      NULL matrix or one without rows; otherwise -1 when an allocation
      fails, and else the bitmap count of the distinct labels at the fixed
      point, which is the number of components. */
  method CcLabelPropagation(matrix: Option<CscMatrix>, alloc: Malloc) returns (r: int)
    requires matrix.Some? && matrix.value.nrows > 0 ==> WellFormed(matrix.value)
    ensures matrix.None? || matrix.value.nrows == 0 ==> r == 0
    ensures matrix.Some? && matrix.value.nrows > 0 ==> r == LpResult(matrix.value, alloc)
  {
    if matrix.None? || matrix.value.nrows == 0 {
      return 0;
    }
    var m := matrix.value;
    var n := m.nrows;
    if !alloc.labelArray {
      return -1;
    }
    var labels: seq<nat> := seq(n, i => i);
    IdentityInv(m);
    var finished := false;
    while !finished
      invariant LpInv(m, labels)
      invariant finished ==> ConstantAlongEdges(m, labels)
      decreases Sum(labels), !finished
    {
      labels, finished := LpRound(m, labels);
    }
    FixedPointIsDone(m, labels);
    DoneLabelCount(m, labels);
    if !alloc.bitmap {
      return -1;
    }
    var count := BitmapCount(labels, n);
    ComponentCountBound(m);
    r := ToInt(count);
  }

  /** cc_cilk: variant 0 is label propagation, 1 is union-find, and any
      other variant is rejected with -1; the thread count plays no part. */
  method CcCilk(matrix: Option<CscMatrix>, nThreads: nat, variant: nat, alloc: Malloc) returns (r: int)
    requires variant == 0 ==> (matrix.Some? && matrix.value.nrows > 0 ==> WellFormed(matrix.value))
    requires variant == 1 ==> (matrix.Some? && matrix.value.nrows > 0 ==> GuardedWellFormed(matrix.value))
    ensures variant == 0 && (matrix.None? || matrix.value.nrows == 0) ==> r == 0
    ensures variant == 0 && matrix.Some? && matrix.value.nrows > 0 ==> r == LpResult(matrix.value, alloc)
    ensures variant == 1 ==> r == UfResult(matrix, alloc)
    ensures variant != 0 && variant != 1 ==> r == -1
  {
    if variant == 0 {
      r := CcLabelPropagation(matrix, alloc);
    } else if variant == 1 {
      r := CcUnionFind(matrix, alloc);
    } else {
      r := -1;
    }
  }
}
