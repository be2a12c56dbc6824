/**
 * The Pthreads back-end (src/algorithms/cc_pthreads.c) with one worker
 * thread: the shared column cursor hands that worker every chunk of 4096
 * columns in turn, and the T static count ranges are counted one after
 * another and added up.
 */
module Pthreads {
  import opened Common
  import opened Csc
  import opened Graph
  import opened Partition
  import opened UnionFind
  import opened LabelProp

  /** uf_worker: chunk after chunk from the cursor, the unions of every
      stored entry of each column of the chunk.  Afterwards every stored
      entry shares its column's root and every root is still reachable. */
  method UfWorker(m: CscMatrix, labels: seq<nat>) returns (labels': seq<nat>)
    requires WellFormed(m) && RootsReachable(m, labels)
    ensures RootsReachable(m, labels') && Coarser(labels, labels')
    ensures ColumnsJoined(m, labels', m.ncols)
  {
    labels' := labels;
    CoarserRefl(labels);
    var col: nat := 0;
    while col < m.ncols
      invariant RootsReachable(m, labels') && Coarser(labels, labels')
      invariant ColumnsJoined(m, labels', Min(col, m.ncols))
      decreases m.ncols - col
    {
      var endcol := ChunkEnd(col, m.ncols);
      for c := col to endcol
        invariant RootsReachable(m, labels') && Coarser(labels, labels')
        invariant ColumnsJoined(m, labels', c)
      {
        var before := labels';
        labels' := UnionColumn(m, labels', c, false);
        CoarserTrans(labels, before, labels');
      }
      col := col + DynamicChunk;
    }
  }

  /** Adding the count of worker i's static range to the count of the
      ranges before it gives the count of the nodes below the next range. */
  lemma StaticCountStep(labels: seq<nat>, i: nat, chunk: nat)
    ensures |Roots(labels, 0, Min((i + 1) * chunk, |labels|))|
         == |Roots(labels, 0, Min(i * chunk, |labels|))| + |Roots(labels, RangeBegin(i, chunk), RangeEnd(i, chunk, |labels|))|
  {
    var n := |labels|;
    assert (i + 1) * chunk == i * chunk + chunk;
    if i * chunk >= n {
      assert Roots(labels, RangeBegin(i, chunk), RangeEnd(i, chunk, n)) == {};
    } else {
      RootsSplit(labels, 0, i * chunk, RangeEnd(i, chunk, n));
    }
  }

  /** cc_union_find: 0 for a NULL matrix or no rows, -1 when the label
      array cannot be allocated; otherwise the identity array, the unions
      of uf_worker, the flattening pass, and the sum of the root counts of
      the T static ranges, which is the number of components. */
  method CcUnionFind(matrix: Option<CscMatrix>, nThreads: nat, alloc: Malloc) returns (r: int)
    requires matrix.Some? && matrix.value.nrows > 0 ==> WellFormed(matrix.value) && nThreads >= 1
    ensures r == UfResult(matrix, alloc)
  {
    if matrix.None? || matrix.value.nrows == 0 {
      return 0;
    }
    var m := matrix.value;
    var n := m.nrows;
    if !alloc.labelArray {
      return -1;
    }
    var labels: seq<nat> := seq(n, i => i);
    IdentityStart(m);
    labels := UfWorker(m, labels);
    JoinedIsDone(m, labels);
    labels := FlattenAll(labels);
    var total: nat := 0;
    var chunk := StaticChunk(n, nThreads);
    for i := 0 to nThreads
      invariant total == |Roots(labels, 0, Min(i * chunk, n))|
    {
      var begin := RangeBegin(i, chunk);
      var end := RangeEnd(i, chunk, n);
      var local := CountRoots(labels, begin, end);
      StaticCountStep(labels, i, chunk);
      total := total + local;
    }
    DoneRootCount(m, labels);
    ComponentCountBound(m);
    r := ToInt(total);
  }

  /** One round of lp_worker: chunk after chunk from the cursor, the
      both-ends step on every stored entry of the chunk's columns; a chunk
      that stored raises the global change flag.  The flag is raised
      exactly when the round changed the array, and then the sum of the
      labels went down; a round that leaves it down ends at a fixed point. */
  method LpRound(m: CscMatrix, labels: seq<nat>) returns (res: Step)
    requires WellFormed(m) && LpInv(m, labels)
    ensures LpInv(m, res.labels) && Below(res.labels, labels)
    ensures res.changed <==> res.labels != labels
    ensures res.changed ==> Sum(res.labels) < Sum(labels)
    ensures !res.changed ==> ConstantAlongEdges(m, res.labels)
  {
    var cur := labels;
    var globalChange := false;
    PassStart(m, labels, 0);
    var col: nat := 0;
    while col < m.ncols
      invariant PassSoFar(m, labels, cur, globalChange, 0, Min(col, m.ncols))
      decreases m.ncols - col
    {
      var endcol := ChunkEnd(col, m.ncols);
      var chunk := RelaxColumns(m, cur, col, endcol, BothEnds);
      PassJoin(m, labels, cur, chunk.labels, globalChange, chunk.changed, 0, col, endcol);
      cur := chunk.labels;
      if chunk.changed {
        globalChange := true;
      }
      col := col + DynamicChunk;
    }
    res := Step(cur, globalChange);
    RoundDone(m, labels, res);
  }

  /** cc_label_propagation: -1 when an allocation fails; otherwise rounds
      from the identity labelling until one changes nothing, then the
      bitmap count of the distinct labels, which is the number of
      components.  The matrix is dereferenced without a NULL check. */
  method CcLabelPropagation(m: CscMatrix, nThreads: nat, alloc: Malloc) returns (r: int)
    requires WellFormed(m) && nThreads >= 1
    ensures r == LpResult(m, alloc)
  {
    var n := m.nrows;
    if !alloc.labelArray {
      return -1;
    }
    var labels: seq<nat> := seq(n, i => i);
    IdentityInv(m);
    var globalChange := true;
    while globalChange
      invariant LpInv(m, labels)
      invariant !globalChange ==> ConstantAlongEdges(m, labels)
      decreases Sum(labels), globalChange
    {
      var round := LpRound(m, labels);
      labels, globalChange := round.labels, round.changed;
    }
    FixedPointIsDone(m, labels);
    DoneLabelCount(m, labels);
    if !alloc.bitmap {
      return -1;
    }
    var count := BitmapCount(labels, n);
    ComponentCountBound(m);
    r := ToInt(count);
  }

  /** cc_pthreads: variant 0 is label propagation, 1 is union-find, and
      any other variant is rejected with -1. */
  method CcPthreads(matrix: Option<CscMatrix>, nThreads: nat, variant: nat, alloc: Malloc) returns (r: int)
    requires variant == 0 ==> matrix.Some? && WellFormed(matrix.value) && nThreads >= 1
    requires variant == 1 ==> (matrix.Some? && matrix.value.nrows > 0 ==> WellFormed(matrix.value) && nThreads >= 1)
    ensures variant == 0 ==> r == LpResult(matrix.value, alloc)
    ensures variant == 1 ==> r == UfResult(matrix, alloc)
    ensures variant != 0 && variant != 1 ==> r == -1
  {
    if variant == 0 {
      r := CcLabelPropagation(matrix.value, nThreads, alloc);
    } else if variant == 1 {
      r := CcUnionFind(matrix, nThreads, alloc);
    } else {
      r := -1;
    }
  }
}
