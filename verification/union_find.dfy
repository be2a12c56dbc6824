/**
 * The union-find engine shared by the three back-ends (find_compress and
 * union_rem are textually the same in cc_pthreads.c, cc_openmp.c and
 * cc_cilk.c), run by a single worker.
 *
 * The label array is a parent array.  Its central invariant, Canonical,
 * is that no node's parent has a larger index than the node: it holds of
 * the identity initialisation, and every store links a larger root under
 * a smaller one.  It makes the parent chain strictly decreasing, which
 * is why the root-following loop terminates, and it makes every root the
 * least index of its tree.
 */
module UnionFind {
  import opened Common
  import opened Csc
  import opened Graph

  /** MAX_RETRIES of union_rem. */
  const MaxRetries: nat := 10

  /** No parent index exceeds its node's index. */
  predicate Canonical(labels: seq<nat>) {
    forall i :: 0 <= i < |labels| ==> labels[i] <= i
  }

  /** The root reached from x by following parent links.  It is a fixed
      point of the parent array and no larger than x. */
  function Root(labels: seq<nat>, x: nat): (r: nat)
    requires Canonical(labels) && x < |labels|
    ensures r <= x && labels[r] == r
    decreases x
  {
    if labels[x] == x then x else Root(labels, labels[x])
  }

  /** Root(labels, ·) as a labelling of all nodes. */
  ghost function RootsOf(labels: seq<nat>): (g: seq<nat>)
    requires Canonical(labels)
    ensures |g| == |labels|
    ensures forall i :: 0 <= i < |labels| ==> g[i] == Root(labels, i)
  {
    seq(|labels|, i requires 0 <= i < |labels| => Root(labels, i))
  }

  /** find_compress with one worker.  The first loop follows parent links to
      the root.  The compression walk reads labels[x] twice with no store in
      between, so its "already compressed" exit is always taken on the
      first iteration: no store is ever made, although the doc comment
      promises path compression.  In general form the contract is that no
      node's root changes; with one worker the array is untouched. */
  method FindCompress(labels: seq<nat>, x: nat) returns (root: nat, labels': seq<nat>)
    requires Canonical(labels) && x < |labels|
    ensures root == Root(labels, x)
    ensures labels' == labels
    ensures forall y :: 0 <= y < |labels| ==> Root(labels', y) == Root(labels, y)
  {
    root := x;
    while labels[root] != root
      invariant root <= x
      invariant Root(labels, root) == Root(labels, x)
      decreases root
    {
      root := labels[root];
    }
    labels' := labels;
    // The compression walk, entered when x is not its own root.
    var y := x;
    if y != root {
      var next := labels'[y];
      if labels'[y] != next {
        // The store labels[y] := root and the step y := next sit here;
        // both loads above see the same value, so this is unreachable.
        assert false;
      }
    }
  }

  /** Outcome of a strong compare-and-exchange. */
  datatype CasResult = CasResult(success: bool, observed: nat, labels: seq<nat>)

  /** __atomic_compare_exchange_n(&labels[idx], &expected, desired): stores
      desired only if labels[idx] still equals expected, and otherwise
      reports the value it found.  A store of a value no larger than idx
      keeps the array canonical. */
  function CompareExchange(labels: seq<nat>, idx: nat, expected: nat, desired: nat): (r: CasResult)
    requires idx < |labels|
    ensures |r.labels| == |labels|
    ensures r.success <==> labels[idx] == expected
    ensures r.success ==> r.labels[idx] == desired
    ensures forall i :: 0 <= i < |labels| && (i != idx || !r.success) ==> r.labels[i] == labels[i]
    ensures !r.success ==> r.observed == labels[idx]
    ensures Canonical(labels) && desired <= idx ==> Canonical(r.labels)
  {
    if labels[idx] == expected then CasResult(true, expected, labels[idx := desired])
    else CasResult(false, labels[idx], labels)
  }

  /** after is before with the trees of roots ra and rb merged under the
      smaller of the two roots, every other tree keeping its root. */
  ghost predicate Merged(before: seq<nat>, after: seq<nat>, ra: nat, rb: nat) {
    && Canonical(before) && Canonical(after) && |after| == |before|
    && forall y :: 0 <= y < |before| ==>
         Root(after, y) == (if Root(before, y) == ra || Root(before, y) == rb then Min(ra, rb) else Root(before, y))
  }

  /** Linking root hi under root lo (lo < hi) keeps the array canonical
      and moves exactly the nodes of hi's tree to root lo. */
  lemma {:induction false} LinkRoot(labels: seq<nat>, lo: nat, hi: nat, y: nat)
    requires Canonical(labels) && lo < hi < |labels| && labels[lo] == lo && labels[hi] == hi
    requires y < |labels|
    ensures Canonical(labels[hi := lo])
    ensures Root(labels[hi := lo], y) == if Root(labels, y) == hi then lo else Root(labels, y)
    decreases y
  {
    var linked := labels[hi := lo];
    if y == hi {
      assert Root(linked, lo) == lo;
    } else if labels[y] != y {
      LinkRoot(labels, lo, hi, labels[y]);
    }
  }

  lemma LinkMerges(labels: seq<nat>, lo: nat, hi: nat)
    requires Canonical(labels) && lo < hi < |labels| && labels[lo] == lo && labels[hi] == hi
    ensures Merged(labels, labels[hi := lo], lo, hi)
  {
    forall y | 0 <= y < |labels|
      ensures Root(labels[hi := lo], y) == if Root(labels, y) == hi then lo else Root(labels, y)
    {
      LinkRoot(labels, lo, hi, y);
    }
  }

  /** What the retry b = expected of union_rem relies on: a failed
      exchange on b reports b's parent, which is smaller than b and has b's
      root, so the next attempt continues from the same tree and nearer
      its root. */
  lemma RetryStep(labels: seq<nat>, b: nat)
    requires Canonical(labels) && b < |labels| && labels[b] != b
    ensures labels[b] < b
    ensures Root(labels, labels[b]) == Root(labels, b)
    ensures !CompareExchange(labels, b, b, 0).success && CompareExchange(labels, b, b, 0).observed == labels[b]
  {
  }

  /** union_rem(a, b) with one worker.  If a and b already share a root
      nothing is written; otherwise exactly the larger root's slot is
      written, with the smaller root, so the array stays canonical.  The
      compare-and-exchange succeeds on the first attempt because its
      expected value was just returned as a root, so with one worker the
      retry branch is unreachable and its statement is kept only for the
      shape of the loop (RetryStep states what it relies on when another
      worker has linked b meanwhile).  The fallback store after the loop
      is proved to keep the same contract. */
  method UnionRem(labels: seq<nat>, a: nat, b: nat) returns (labels': seq<nat>)
    requires Canonical(labels) && a < |labels| && b < |labels|
    ensures Canonical(labels') && |labels'| == |labels|
    ensures Root(labels, a) == Root(labels, b) ==> labels' == labels
    ensures Root(labels, a) != Root(labels, b) ==>
              labels' == labels[Max(Root(labels, a), Root(labels, b)) := Min(Root(labels, a), Root(labels, b))]
    ensures Merged(labels, labels', Root(labels, a), Root(labels, b))
    ensures Root(labels', a) == Root(labels', b)
  {
    ghost var ra, rb := Root(labels, a), Root(labels, b);
    labels' := labels;
    var x: nat, y: nat := a, b;
    for retries := 0 to MaxRetries
      invariant labels' == labels
      invariant x < |labels| && y < |labels|
      invariant {Root(labels, x), Root(labels, y)} == {ra, rb}
    {
      x, labels' := FindCompress(labels', x);
      y, labels' := FindCompress(labels', y);
      if x == y {
        return;
      }
      if x > y {
        x, y := y, x;
      }
      var cas := CompareExchange(labels', y, y, x);
      labels' := cas.labels;
      if cas.success {
        LinkMerges(labels, x, y);
        return;
      }
      // Unreachable with one worker: y is a root, so the exchange succeeded.
      y := cas.observed;
    }
    // Fallback after MaxRetries failed attempts: an unconditional store.
    x, labels' := FindCompress(labels', x);
    y, labels' := FindCompress(labels', y);
    if x != y {
      if x > y {
        x, y := y, x;
      }
      labels' := labels'[y := x];
      LinkMerges(labels, x, y);
    }
  }

  /** Every node's root lies in the node's component: unions only ever
      join the two ends of an edge. */
  ghost predicate RootsReachable(m: CscMatrix, labels: seq<nat>) {
    && Canonical(labels) && |labels| == m.nrows
    && forall i :: 0 <= i < |labels| ==> Connected(m, i, Root(labels, i))
  }

  /** The partition of after is a coarsening of that of before: nodes that
      shared a root still share one. */
  ghost predicate Coarser(before: seq<nat>, after: seq<nat>) {
    && Canonical(before) && Canonical(after) && |after| == |before|
    && forall u :: 0 <= u < |before| ==> Root(after, u) == Root(after, Root(before, u))
  }

  lemma CoarserRefl(labels: seq<nat>)
    requires Canonical(labels)
    ensures Coarser(labels, labels)
  {
  }

  lemma CoarserTrans(a: seq<nat>, b: seq<nat>, c: seq<nat>)
    requires Coarser(a, b) && Coarser(b, c)
    ensures Coarser(a, c)
  {
  }

  /** The union of the two ends of an edge keeps every root in its node's
      component and only coarsens the partition. */
  lemma UnionOfEdge(m: CscMatrix, before: seq<nat>, after: seq<nat>, a: nat, b: nat)
    requires RootsReachable(m, before) && a < |before| && b < |before| && Connected(m, a, b)
    requires Merged(before, after, Root(before, a), Root(before, b))
    ensures RootsReachable(m, after) && Coarser(before, after)
  {
    var ra, rb := Root(before, a), Root(before, b);
    assert Connected(m, ra, rb) by {
      ConnectedSymm(m, a, ra);
      ConnectedTrans(m, ra, a, b);
      ConnectedTrans(m, ra, b, rb);
    }
    ConnectedSymm(m, ra, rb);
    forall i | 0 <= i < |after|
      ensures Connected(m, i, Root(after, i))
    {
      var r := Root(before, i);
      if r == ra && Root(after, i) == rb {
        ConnectedTrans(m, i, ra, rb);
      } else if r == rb && Root(after, i) == ra {
        ConnectedTrans(m, i, rb, ra);
      }
    }
  }

  /** Entries [lo, hi) of column c that name a node share c's root. */
  ghost predicate EntriesJoined(m: CscMatrix, labels: seq<nat>, c: nat, lo: nat, hi: nat) {
    && Canonical(labels) && c < |labels|
    && forall j :: lo <= j < hi && j < |m.rowIdx| && m.rowIdx[j] < |labels| ==>
         Root(labels, m.rowIdx[j]) == Root(labels, c)
  }

  /** Every entry of columns [0, hi) that names a node shares its column's root. */
  ghost predicate ColumnsJoined(m: CscMatrix, labels: seq<nat>, hi: nat) {
    && Canonical(labels) && hi <= |labels| && hi < |m.colPtr|
    && forall c :: 0 <= c < hi ==> EntriesJoined(m, labels, c, m.colPtr[c], m.colPtr[c + 1])
  }

  lemma EntriesJoinedCoarser(m: CscMatrix, before: seq<nat>, after: seq<nat>, c: nat, lo: nat, hi: nat)
    requires EntriesJoined(m, before, c, lo, hi) && Coarser(before, after)
    ensures EntriesJoined(m, after, c, lo, hi)
  {
  }

  lemma ColumnsJoinedCoarser(m: CscMatrix, before: seq<nat>, after: seq<nat>, hi: nat)
    requires ColumnsJoined(m, before, hi) && Coarser(before, after)
    ensures ColumnsJoined(m, after, hi)
  {
  }

  /** The union of entry j of column c: afterwards the entries of the column
      up to and including j share c's root, and the earlier columns still
      do.  The engines' inner loop calls this after each union_rem. */
  lemma UnionEntry(m: CscMatrix, before: seq<nat>, after: seq<nat>, c: nat, j: nat)
    requires ValidLayout(m) && m.ncols <= m.nrows && c < m.ncols
    requires m.colPtr[c] <= j < m.colPtr[c + 1] && m.rowIdx[j] < m.nrows
    requires RootsReachable(m, before)
    requires ColumnsJoined(m, before, c) && EntriesJoined(m, before, c, m.colPtr[c], j)
    requires Merged(before, after, Root(before, m.rowIdx[j]), Root(before, c))
    requires Root(after, m.rowIdx[j]) == Root(after, c)
    ensures RootsReachable(m, after) && Coarser(before, after)
    ensures ColumnsJoined(m, after, c) && EntriesJoined(m, after, c, m.colPtr[c], j + 1)
  {
    assert Stored(m, m.rowIdx[j], c);
    EdgeConnected(m, m.rowIdx[j], c);
    UnionOfEdge(m, before, after, m.rowIdx[j], c);
    ColumnsJoinedCoarser(m, before, after, c);
    EntriesJoinedCoarser(m, before, after, c, m.colPtr[c], j);
  }

  /** The identity array: every node its own root. */
  lemma IdentityStart(m: CscMatrix)
    ensures RootsReachable(m, seq(m.nrows, i => i))
  {
    var id := seq(m.nrows, i => i);
    forall i | 0 <= i < m.nrows
      ensures Connected(m, i, Root(id, i))
    {
      ConnectedRefl(m, i);
    }
  }

  /** The final state of the union pass: every node's root is the least
      index of the node's component. */
  ghost predicate UnionFindDone(m: CscMatrix, labels: seq<nat>) {
    && Canonical(labels) && |labels| == m.nrows
    && forall i :: 0 <= i < |labels| ==> IsLeastInComponent(m, Root(labels, i), i)
  }

  /** Once every column has been joined, the roots are the least indices of
      the components. */
  lemma JoinedIsDone(m: CscMatrix, labels: seq<nat>)
    requires ValidLayout(m) && m.ncols <= m.nrows
    requires RootsReachable(m, labels) && ColumnsJoined(m, labels, m.ncols)
    ensures UnionFindDone(m, labels)
  {
    var g := RootsOf(labels);
    forall u: nat, v: nat | Edge(m, u, v)
      ensures g[u] == g[v]
    {
      if Stored(m, u, v) {
        var j :| m.colPtr[v] <= j < m.colPtr[v + 1] && j < |m.rowIdx| && m.rowIdx[j] == u;
        assert EntriesJoined(m, labels, v, m.colPtr[v], m.colPtr[v + 1]);
      } else {
        var j :| m.colPtr[u] <= j < m.colPtr[u + 1] && j < |m.rowIdx| && m.rowIdx[j] == v;
        assert EntriesJoined(m, labels, u, m.colPtr[u], m.colPtr[u + 1]);
      }
    }
    LeastLabelling(m, g);
  }

  /** The roots of nodes [lo, hi): the nodes that are their own parent. */
  function Roots(labels: seq<nat>, lo: nat, hi: nat): set<nat> {
    set i: nat | lo <= i < hi && i < |labels| && labels[i] == i
  }

  lemma RootsExtend(labels: seq<nat>, lo: nat, k: nat)
    requires lo <= k < |labels|
    ensures |Roots(labels, lo, k + 1)| == |Roots(labels, lo, k)| + (if labels[k] == k then 1 else 0)
  {
    var before, after := Roots(labels, lo, k), Roots(labels, lo, k + 1);
    assert k !in before;
    if labels[k] == k {
      assert after == before + {k};
    } else {
      assert after == before;
    }
  }

  /** Counting the roots of consecutive ranges separately and adding up. */
  lemma RootsSplit(labels: seq<nat>, lo: nat, mid: nat, hi: nat)
    requires lo <= mid <= hi
    ensures |Roots(labels, lo, hi)| == |Roots(labels, lo, mid)| + |Roots(labels, mid, hi)|
  {
    assert Roots(labels, lo, hi) == Roots(labels, lo, mid) + Roots(labels, mid, hi);
    assert Roots(labels, lo, mid) !! Roots(labels, mid, hi);
  }

  /** When the union pass is done, the roots are one per component. */
  lemma DoneRootCount(m: CscMatrix, labels: seq<nat>)
    requires UnionFindDone(m, labels)
    ensures |Roots(labels, 0, |labels|)| == ComponentCount(m)
  {
    var g := RootsOf(labels);
    LeastLabellingCounts(m, g);
    assert Roots(labels, 0, |labels|) == set i: nat | i < m.nrows && g[i] == i;
  }

  /** The unions of the entries of column c in storage order: union_rem of
      each stored row with c.  With rowGuard, entries whose row is not a
      node are skipped (the OpenMP and Cilk loops); without it, every row
      index must name a node (the Pthreads loop reads label[row] for each). */
  method UnionColumn(m: CscMatrix, labels: seq<nat>, c: nat, rowGuard: bool) returns (labels': seq<nat>)
    requires ValidLayout(m) && m.ncols <= m.nrows && c < m.ncols
    requires rowGuard || RowsInRange(m)
    requires RootsReachable(m, labels) && ColumnsJoined(m, labels, c)
    ensures RootsReachable(m, labels') && Coarser(labels, labels')
    ensures ColumnsJoined(m, labels', c + 1)
  {
    labels' := labels;
    CoarserRefl(labels);
    var start, end := m.colPtr[c], m.colPtr[c + 1];
    for j := start to end
      invariant RootsReachable(m, labels') && Coarser(labels, labels')
      invariant ColumnsJoined(m, labels', c) && EntriesJoined(m, labels', c, start, j)
    {
      var row := m.rowIdx[j];
      if !rowGuard || row < m.nrows {
        var before := labels';
        labels' := UnionRem(labels', row, c);
        UnionEntry(m, before, labels', c, j);
        CoarserTrans(labels, before, labels');
      }
    }
  }

  /** The flattening pass: find_compress of every node in turn.  With one
      worker it stores nothing, so the array it leaves is the one it got. */
  method FlattenAll(labels: seq<nat>) returns (labels': seq<nat>)
    requires Canonical(labels)
    ensures labels' == labels
  {
    labels' := labels;
    for i := 0 to |labels|
      invariant labels' == labels
    {
      var _, flattened := FindCompress(labels', i);
      labels' := flattened;
    }
  }

  /** The roots among the nodes [begin, end): count_worker of the Pthreads
      back-end, and with [0, n) the counting loops of OpenMP and Cilk.  A
      range whose begin is not below its end counts nothing. */
  method CountRoots(labels: seq<nat>, begin: nat, end: nat) returns (cnt: nat)
    requires end <= |labels|
    ensures cnt == |Roots(labels, begin, end)|
  {
    cnt := 0;
    var i := begin;
    while i < end
      invariant begin <= i && (i <= end || i == begin)
      invariant cnt == |Roots(labels, begin, i)|
      decreases end - i
    {
      RootsExtend(labels, begin, i);
      if labels[i] == i {
        cnt := cnt + 1;
      }
      i := i + 1;
    }
    assert Roots(labels, begin, end) == Roots(labels, begin, i);
  }

  /** What cc_union_find returns: 0 for a NULL matrix or one without rows,
      -1 when the label array cannot be allocated, and otherwise the
      number of components, converted to int. */
  ghost function UfResult(matrix: Option<CscMatrix>, alloc: Malloc): int
    requires matrix.Some? ==> matrix.value.nrows < UintLimit
  {
    if matrix.None? || matrix.value.nrows == 0 then 0
    else if !alloc.labelArray then -1
    else
      ComponentCountBound(matrix.value);
      ToInt(ComponentCount(matrix.value))
  }
}
