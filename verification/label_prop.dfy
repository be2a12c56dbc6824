/**
 * The label-propagation engine shared by the three back-ends, run by a
 * single worker: the edge step in its two textual forms, the invariant
 * every step keeps, the termination measure of the round loop, the fixed
 * point the loop stops at, and the bitmap count of the distinct labels.
 */
module LabelProp {
  import opened Common
  import opened Csc
  import opened Graph

  /** The label array after a step or a round, and whether it changed. */
  datatype Step = Step(labels: seq<nat>, changed: bool)

  /** The meaning of one edge step on (r, c): both ends end at the smaller
      of their two labels, no other slot moves, nothing grows, and the
      change flag is raised exactly when the two labels differed, which is
      exactly when the array changed. */
  predicate Relaxed(before: seq<nat>, s: Step, r: nat, c: nat)
    requires r < |before| && c < |before|
  {
    && |s.labels| == |before|
    && s.labels[r] == Min(before[r], before[c])
    && s.labels[c] == Min(before[r], before[c])
    && (forall i :: 0 <= i < |before| && i != r && i != c ==> s.labels[i] == before[i])
    && Below(s.labels, before)
    && (s.changed <==> before[r] != before[c])
    && (s.changed <==> s.labels != before)
  }

  /** a is pointwise no larger than b. */
  predicate Below(a: seq<nat>, b: seq<nat>) {
    |a| == |b| && forall i :: 0 <= i < |a| ==> a[i] <= b[i]
  }

  /** The Pthreads edge step: each end is stored only if it is above the
      minimum, and each store raises the flag. */
  function LowerBoth(labels: seq<nat>, r: nat, c: nat): (s: Step)
    requires r < |labels| && c < |labels|
    ensures Relaxed(labels, s, r, c)
  {
    var lc := labels[c];
    var lr := labels[r];
    if lc != lr then
      var low := Min(lc, lr);
      var afterC := if lc > low then labels[c := low] else labels;
      var afterR := if lr > low then afterC[r := low] else afterC;
      assert afterR[r] != labels[r] || afterR[c] != labels[c];
      Step(afterR, lc > low || lr > low)
    else
      Step(labels, false)
  }

  /** The OpenMP and Cilk edge step: when the labels differ, only the end
      holding the larger one is stored, and the flag is raised. */
  function LowerLarger(labels: seq<nat>, r: nat, c: nat): (s: Step)
    requires r < |labels| && c < |labels|
    ensures Relaxed(labels, s, r, c)
  {
    var lc := labels[c];
    var lr := labels[r];
    if lc != lr then
      var low := Min(lc, lr);
      if lc != low then
        assert labels[c := low][c] != labels[c];
        Step(labels[c := low], true)
      else
        assert labels[r := low][r] != labels[r];
        Step(labels[r := low], true)
    else
      Step(labels, false)
  }

  /** Relaxed determines the step: the two textual forms compute the same
      array and the same flag. */
  lemma StepsAgree(labels: seq<nat>, r: nat, c: nat)
    requires r < |labels| && c < |labels|
    ensures LowerBoth(labels, r, c) == LowerLarger(labels, r, c)
  {
  }

  /** The two textual forms of the edge step. */
  datatype StepForm = BothEnds | LargerEnd

  function EdgeStep(form: StepForm, labels: seq<nat>, r: nat, c: nat): (s: Step)
    requires r < |labels| && c < |labels|
    ensures Relaxed(labels, s, r, c)
  {
    match form
    case BothEnds => LowerBoth(labels, r, c)
    case LargerEnd => LowerLarger(labels, r, c)
  }

  /** The propagation invariant: every label is at most its node's index
      and names a node of the node's component. */
  ghost predicate LpInv(m: CscMatrix, labels: seq<nat>) {
    && |labels| == m.nrows
    && forall i :: 0 <= i < |labels| ==> labels[i] <= i && Connected(m, i, labels[i])
  }

  /** The initial labelling, every node its own label, satisfies it. */
  lemma IdentityInv(m: CscMatrix)
    ensures LpInv(m, seq(m.nrows, i => i))
  {
    forall i | 0 <= i < m.nrows
      ensures Connected(m, i, i)
    {
      ConnectedRefl(m, i);
    }
  }

  /** A step on an edge keeps the invariant: the end that is lowered takes
      the other end's label, which names a node of the same component. */
  lemma RelaxKeepsInv(m: CscMatrix, before: seq<nat>, s: Step, r: nat, c: nat)
    requires LpInv(m, before) && Edge(m, r, c)
    requires Relaxed(before, s, r, c)
    ensures LpInv(m, s.labels)
  {
    var after := s.labels;
    EdgeConnected(m, r, c);
    ConnectedSymm(m, r, c);
    forall i | 0 <= i < |after|
      ensures after[i] <= i && Connected(m, i, after[i])
    {
      if i == c && after[c] != before[c] {
        ConnectedTrans(m, c, r, before[r]);
      } else if i == r && after[r] != before[r] {
        ConnectedTrans(m, r, c, before[c]);
      }
    }
  }

  /** The sum of the labels, the measure that bounds the number of rounds. */
  function Sum(s: seq<nat>): nat {
    if |s| == 0 then 0 else Sum(s[..|s| - 1]) + s[|s| - 1]
  }

  /** Lowering labels lowers the sum, strictly when anything was lowered. */
  lemma {:induction false} SumBelow(a: seq<nat>, b: seq<nat>)
    requires Below(a, b)
    ensures Sum(a) <= Sum(b)
    ensures a != b ==> Sum(a) < Sum(b)
    decreases |a|
  {
    if |a| > 0 {
      var k := |a| - 1;
      assert Below(a[..k], b[..k]);
      SumBelow(a[..k], b[..k]);
      assert a == a[..k] + [a[k]] && b == b[..k] + [b[k]];
    }
  }

  /** Entries [lo, hi) of column c that name a node carry c's label. */
  ghost predicate EntriesSettled(m: CscMatrix, labels: seq<nat>, c: nat, lo: nat, hi: nat) {
    && c < |labels|
    && forall j :: lo <= j < hi && j < |m.rowIdx| && m.rowIdx[j] < |labels| ==>
         labels[m.rowIdx[j]] == labels[c]
  }

  /** Every entry of columns [lo, hi) that names a node carries its column's label. */
  ghost predicate ColumnsSettled(m: CscMatrix, labels: seq<nat>, lo: nat, hi: nat) {
    && hi <= |labels| && hi < |m.colPtr|
    && forall c :: lo <= c < hi ==> EntriesSettled(m, labels, c, m.colPtr[c], m.colPtr[c + 1])
  }

  /** A round that stores nothing has checked every entry of every column
      against the same array, so all of them are settled; a settled array
      agrees across every edge. */
  lemma SettledIsFixedPoint(m: CscMatrix, labels: seq<nat>)
    requires ValidLayout(m) && m.ncols <= m.nrows && |labels| == m.nrows
    requires ColumnsSettled(m, labels, 0, m.ncols)
    ensures ConstantAlongEdges(m, labels)
  {
  }

  /** The steps of the entries of column c in storage order, each against
      the array as the previous one left it; the flag says whether any of
      them stored.  A column that stores nothing is settled. */
  method RelaxColumn(m: CscMatrix, labels: seq<nat>, c: nat, form: StepForm) returns (res: Step)
    requires WellFormed(m) && c < m.ncols && LpInv(m, labels)
    ensures LpInv(m, res.labels) && Below(res.labels, labels)
    ensures res.changed ==> Sum(res.labels) < Sum(labels)
    ensures !res.changed ==> res.labels == labels && EntriesSettled(m, labels, c, m.colPtr[c], m.colPtr[c + 1])
  {
    var cur := labels;
    var changed := false;
    for j := m.colPtr[c] to m.colPtr[c + 1]
      invariant LpInv(m, cur) && Below(cur, labels)
      invariant changed ==> Sum(cur) < Sum(labels)
      invariant !changed ==> cur == labels && EntriesSettled(m, labels, c, m.colPtr[c], j)
    {
      var r := m.rowIdx[j];
      var s := EdgeStep(form, cur, r, c);
      EntryStep(m, labels, cur, changed, c, j, s);
      cur := s.labels;
      changed := changed || s.changed;
    }
    res := Step(cur, changed);
  }

  /** Adding the step of entry j of column c to the steps of the column. */
  lemma EntryStep(m: CscMatrix, labels: seq<nat>, cur: seq<nat>, changed: bool, c: nat, j: nat, s: Step)
    requires WellFormed(m) && c < m.ncols && m.colPtr[c] <= j < m.colPtr[c + 1]
    requires LpInv(m, labels) && LpInv(m, cur) && Below(cur, labels)
    requires changed ==> Sum(cur) < Sum(labels)
    requires !changed ==> cur == labels && EntriesSettled(m, labels, c, m.colPtr[c], j)
    requires Relaxed(cur, s, m.rowIdx[j], c)
    ensures LpInv(m, s.labels) && Below(s.labels, labels)
    ensures changed || s.changed ==> Sum(s.labels) < Sum(labels)
    ensures !(changed || s.changed) ==> s.labels == labels && EntriesSettled(m, labels, c, m.colPtr[c], j + 1)
  {
    var r := m.rowIdx[j];
    assert Stored(m, r, c);
    RelaxKeepsInv(m, cur, s, r, c);
    SumBelow(s.labels, cur);
    SumBelow(cur, labels);
    BelowTrans(s.labels, cur, labels);
  }

  /** The state of a pass over columns [lo, hi) that took labels0 to
      labels: the invariant holds, labels only went down, a raised flag
      means the sum went down, and a lowered flag means nothing was stored
      and the columns [lo, hi) are settled. */
  ghost predicate PassSoFar(m: CscMatrix, labels0: seq<nat>, labels: seq<nat>, changed: bool, lo: nat, hi: nat) {
    && LpInv(m, labels0) && LpInv(m, labels) && Below(labels, labels0)
    && (changed ==> Sum(labels) < Sum(labels0))
    && (!changed ==> labels == labels0 && ColumnsSettled(m, labels0, lo, hi))
  }

  /** The empty pass. */
  lemma PassStart(m: CscMatrix, labels: seq<nat>, lo: nat)
    requires ValidLayout(m) && m.ncols <= m.nrows && lo <= m.ncols && LpInv(m, labels)
    ensures PassSoFar(m, labels, labels, false, lo, lo)
  {
  }

  /** Adding the steps of column c to a pass. */
  lemma PassStep(m: CscMatrix, labels0: seq<nat>, sofar: Step, lo: nat, c: nat, col: Step)
    requires WellFormed(m) && c < m.ncols
    requires PassSoFar(m, labels0, sofar.labels, sofar.changed, lo, c)
    requires LpInv(m, col.labels) && Below(col.labels, sofar.labels)
    requires col.changed ==> Sum(col.labels) < Sum(sofar.labels)
    requires !col.changed ==> col.labels == sofar.labels && EntriesSettled(m, sofar.labels, c, m.colPtr[c], m.colPtr[c + 1])
    ensures PassSoFar(m, labels0, col.labels, sofar.changed || col.changed, lo, c + 1)
  {
  }

  /** A pass over [lo, mid) followed by one over [mid, hi) is a pass over
      [lo, hi) whose flag is the disjunction of the two. */
  lemma PassJoin(m: CscMatrix, l0: seq<nat>, l1: seq<nat>, l2: seq<nat>, ch1: bool, ch2: bool, lo: nat, mid: nat, hi: nat)
    requires PassSoFar(m, l0, l1, ch1, lo, mid) && PassSoFar(m, l1, l2, ch2, mid, hi)
    ensures PassSoFar(m, l0, l2, ch1 || ch2, lo, hi)
  {
  }

  lemma BelowTrans(a: seq<nat>, b: seq<nat>, c: seq<nat>)
    requires Below(a, b) && Below(b, c)
    ensures Below(a, c)
  {
  }

  /** The steps of columns [lo, hi) in order, under one change flag: a
      chunk of lp_worker, or the whole column loop of one OpenMP round. */
  method RelaxColumns(m: CscMatrix, labels: seq<nat>, lo: nat, hi: nat, form: StepForm) returns (res: Step)
    requires WellFormed(m) && lo <= hi <= m.ncols && LpInv(m, labels)
    ensures PassSoFar(m, labels, res.labels, res.changed, lo, hi)
  {
    res := Step(labels, false);
    PassStart(m, labels, lo);
    for c := lo to hi
      invariant PassSoFar(m, labels, res.labels, res.changed, lo, c)
    {
      var col := RelaxColumn(m, res.labels, c, form);
      PassStep(m, labels, res, lo, c, col);
      res := Step(col.labels, res.changed || col.changed);
    }
  }

  /** What a round leaves, read off a pass over all columns: the flag is
      raised exactly when the array changed, a raised flag means the sum of
      the labels went down, and a round with the flag down stopped at a
      fixed point. */
  lemma RoundDone(m: CscMatrix, labels0: seq<nat>, res: Step)
    requires WellFormed(m) && PassSoFar(m, labels0, res.labels, res.changed, 0, m.ncols)
    ensures LpInv(m, res.labels) && Below(res.labels, labels0)
    ensures res.changed <==> res.labels != labels0
    ensures res.changed ==> Sum(res.labels) < Sum(labels0)
    ensures !res.changed ==> ConstantAlongEdges(m, res.labels)
  {
  }

  /** The final state of propagation: every label is the least index of
      its node's component. */
  ghost predicate PropagationDone(m: CscMatrix, labels: seq<nat>) {
    |labels| == m.nrows && forall i :: 0 <= i < |labels| ==> IsLeastInComponent(m, labels[i], i)
  }

  /** The invariant at a fixed point gives the least-index labelling. */
  lemma FixedPointIsDone(m: CscMatrix, labels: seq<nat>)
    requires LpInv(m, labels) && ConstantAlongEdges(m, labels)
    ensures PropagationDone(m, labels)
  {
    LeastLabelling(m, labels);
  }

  /** The distinct values of the label array. */
  function LabelSet(labels: seq<nat>): set<nat> {
    set i | 0 <= i < |labels| :: labels[i]
  }

  /** What cc_label_propagation returns for a matrix: -1 when the label
      array or the bitmap cannot be allocated, and otherwise the number of
      components, converted to int. */
  ghost function LpResult(m: CscMatrix, alloc: Malloc): int
    requires m.nrows < UintLimit
  {
    if !alloc.labelArray || !alloc.bitmap then -1
    else
      ComponentCountBound(m);
      ToInt(ComponentCount(m))
  }

  /** When propagation is done, the distinct labels are one per component. */
  lemma DoneLabelCount(m: CscMatrix, labels: seq<nat>)
    requires PropagationDone(m, labels)
    ensures |LabelSet(labels)| == ComponentCount(m)
  {
    LeastLabellingCounts(m, labels);
  }

  // ---------------------------------------------------------------------
  // The bitmap count.  A uint64_t word is modelled as 64 booleans, bit k
  // of word w standing for the label 64 * w + k.

  const WordBits: nat := 64

  /** Every word of the bitmap has 64 bits. */
  predicate IsBitmap(words: seq<seq<bool>>) {
    forall w :: 0 <= w < |words| ==> |words[w]| == WordBits
  }

  /** The number of set bits (__builtin_popcountll on one word). */
  function Popcount(bits: seq<bool>): nat {
    if |bits| == 0 then 0 else Popcount(bits[..|bits| - 1]) + (if bits[|bits| - 1] then 1 else 0)
  }

  /** The bitmap read as one sequence of bits, word 0 first. */
  function Flatten(words: seq<seq<bool>>): seq<bool> {
    if |words| == 0 then [] else Flatten(words[..|words| - 1]) + words[|words| - 1]
  }

  /** The indices of the set bits. */
  function SetBits(bits: seq<bool>): set<nat> {
    set k: nat | k < |bits| && bits[k]
  }

  lemma {:induction false} PopcountAppend(a: seq<bool>, b: seq<bool>)
    ensures Popcount(a + b) == Popcount(a) + Popcount(b)
    decreases |b|
  {
    if |b| == 0 {
      assert a + b == a;
    } else {
      var k := |b| - 1;
      assert (a + b)[..|a + b| - 1] == a + b[..k];
      PopcountAppend(a, b[..k]);
    }
  }

  /** The popcount of a bit sequence is the size of its set of set bits. */
  lemma {:induction false} PopcountIsSetBits(bits: seq<bool>)
    ensures Popcount(bits) == |SetBits(bits)|
    decreases |bits|
  {
    if |bits| > 0 {
      var k := |bits| - 1;
      PopcountIsSetBits(bits[..k]);
      if bits[k] {
        assert SetBits(bits) == SetBits(bits[..k]) + {k};
      } else {
        assert SetBits(bits) == SetBits(bits[..k]);
      }
    }
  }

  /** Bit v of the flattened bitmap is bit v % 64 of word v / 64. */
  lemma {:induction false} FlattenIndex(words: seq<seq<bool>>)
    requires IsBitmap(words)
    ensures |Flatten(words)| == WordBits * |words|
    ensures forall v :: 0 <= v < WordBits * |words| ==> Flatten(words)[v] == words[v / WordBits][v % WordBits]
    decreases |words|
  {
    if |words| > 0 {
      var k := |words| - 1;
      FlattenIndex(words[..k]);
      forall v | 0 <= v < WordBits * |words|
        ensures Flatten(words)[v] == words[v / WordBits][v % WordBits]
      {
        if v < WordBits * k {
          assert words[..k][v / WordBits] == words[v / WordBits];
        } else {
          assert v / WordBits == k;
        }
      }
    }
  }

  /** The bitmap length bsz = (n + 63) / 64 without wrap-around, as the
      size_t arithmetic of cc_openmp.c and cc_cilk.c gives it: the fewest
      words that hold a bit for every label below n. */
  function BitmapWords(n: nat): (bsz: nat)
    ensures n <= WordBits * bsz
    ensures bsz > 0 ==> WordBits * (bsz - 1) < n
  {
    (n + 63) / WordBits
  }

  /** The bitmap length as cc_pthreads.c computes it: n is a uint32_t, so
      n + 63 wraps modulo 2^32 before the conversion to size_t. */
  function BitmapWordsAsWritten(n: nat): nat
    requires n < UintLimit
  {
    var sum := n + 63;
    (if sum < UintLimit then sum else sum - UintLimit) / WordBits
  }

  /** Without the wrap the two agree. */
  lemma BitmapWordsNoWrap(n: nat)
    requires n + 63 < UintLimit
    ensures BitmapWordsAsWritten(n) == BitmapWords(n)
  {
  }

  /** With 2^32 - 1 nodes the wrapped length is 0 words, so the store for
      label 0, a label every such array holds, lands in word 0, outside the
      zero-length bitmap; the unwrapped length is 2^26 words. */
  lemma BitmapWrapOutOfBounds()
    ensures BitmapWordsAsWritten(0xFFFF_FFFF) == 0
    ensures 0 / WordBits >= BitmapWordsAsWritten(0xFFFF_FFFF)
    ensures BitmapWords(0xFFFF_FFFF) == 0x400_0000
  {
  }

  /** The bitmap count of cc_label_propagation: bsz = (n + 63) / 64 zeroed
      words, bit v set for every label v, then the popcounts of the words
      added up.  Every label is below n, so its word index v >> 6 is below
      bsz, and the total is the number of distinct labels. */
  method BitmapCount(labels: seq<nat>, n: nat) returns (count: nat)
    requires |labels| == n
    requires forall i :: 0 <= i < n ==> labels[i] < n
    ensures count == |LabelSet(labels)|
  {
    var bsz := BitmapWords(n);
    var bitmap := seq(bsz, _ => seq(WordBits, _ => false));
    for i := 0 to n
      invariant |bitmap| == bsz && IsBitmap(bitmap)
      invariant forall v :: 0 <= v < WordBits * bsz ==>
                  (bitmap[v / WordBits][v % WordBits] <==> v in labels[..i])
    {
      var v := labels[i];
      var word := v / WordBits;
      var bit := v % WordBits;
      bitmap := bitmap[word := bitmap[word][bit := true]];
      assert labels[..i + 1] == labels[..i] + [v];
    }
    count := 0;
    for w := 0 to bsz
      invariant count == Popcount(Flatten(bitmap[..w]))
    {
      assert bitmap[..w + 1][..w] == bitmap[..w];
      PopcountAppend(Flatten(bitmap[..w]), bitmap[w]);
      count := count + Popcount(bitmap[w]);
    }
    assert bitmap[..bsz] == bitmap;
    assert labels[..n] == labels;
    FlattenIndex(bitmap);
    PopcountIsSetBits(Flatten(bitmap));
    assert SetBits(Flatten(bitmap)) == LabelSet(labels);
  }
}
