# Connected components over a CSC binary matrix, modelled in Dafny

This project models the connected-components engines of a parallel C library and proves them correct for a single worker. The engines are union-find and label propagation. Each is written three times, once per back-end: Pthreads, OpenMP and Cilk.

The input is a compressed-sparse-column binary matrix. Its stored positions `(row, col)` are read as the undirected edges of a graph whose nodes are the rows. The engines return the number of connected components of that graph. They return -1 when an allocation fails or the variant is unknown.

## What the model covers

- **The matrix** (`Csc`) is an immutable datatype with layout predicates.
  - `ValidLayout`: the array lengths are right, the column pointers never decrease, and the last pointer equals `nnz`.
  - `RowsInRange`: every stored row index names a row.
  - `Fits32`: the counts fit `uint32_t`.
  - `Entries` lists the stored positions in the order the engines visit them.
  - `Edge` is the symmetric edge relation built from them.
- **Connectivity** (`Graph`) is ghost.
  - `Connected` is the reflexive-transitive closure of `Edge`, defined through walks.
  - `ComponentCount` counts the representatives of the components. A representative is the least index of its component.
  - The central lemma is `LeastLabelling`. A labelling that agrees across every edge, never exceeds a node's own index and names only nodes of the node's component maps every node to the least index of its component.
- **Union-find** (`UnionFind`): `find_compress`, `union_rem`, the column loops, the flattening pass and the root count.
  - The label array is a parent array, threaded through methods as a `seq<nat>`.
  - Its invariant `Canonical` says `labels[i] <= i`. It is the termination measure of `Root`, and it is why every root is the least index of its tree.
  - The union pass is proved to leave, for every node, the least index of its component as the node's root.
- **Label propagation** (`LabelProp`) has two textual forms of the edge step:
  - the Pthreads form stores both ends conditionally;
  - the OpenMP and Cilk form stores only the larger end.
  - `StepsAgree` proves the two forms equal.
  - The invariant `LpInv`: every label is at most its node's index and names a node of the node's component.
  - The label sum strictly drops in every round that changes something, which proves termination.
  - A round that changes nothing ends at a fixed point where every edge's ends carry the same label.
  - The 64-bit-word bitmap count is proved to equal the number of distinct labels.
- **Back-ends** (`Pthreads`, `Openmp`, `Cilk`): each engine and dispatcher of each back-end is modelled with its own guards. Every result is stated against one reference outcome:
  - `UfResult` for union-find;
  - `LpResult` for label propagation.
- **Agreement** (`Agreement`): the union-find root map and the label-propagation map are the same map, so the root count equals the distinct-label count. A five-node example (components {0,1}, {2,3} and {4}) is proved to have three components.

### Single-worker reading

Threads, the shared cursors and the atomics become one worker running every loop iteration in order.

- **`find_compress` stores nothing.** Its compression walk reads `label[x]` twice with no store in between, so the "already compressed" exit is taken on the first iteration. `UnionFind.FindCompress` proves that the array comes back unchanged. This is despite the doc comment at src/algorithms/cc_pthreads.c:33-36, which describes path compression; the model follows the code.
- **The compare-and-exchange of `union_rem` succeeds at once.** Its expected value was just returned as a root.
- **The retry branch of `union_rem` is unreachable with one worker.** The exchange always succeeds, so the statement `b = expected` is kept only for the shape of the loop. `UnionFind.RetryStep` proves the fact it relies on when another worker has linked `b` first: the value a failed exchange reports is `b`'s parent, smaller than `b` and in the same tree.
- **The fallback store after the retry loop is kept.** It is proved to satisfy the same contract as the exchange.

### Zero rows

Every union-find engine and the Cilk label propagation return 0 for a NULL matrix or zero rows before allocating anything (src/algorithms/cc_pthreads.c:224, src/algorithms/cc_openmp.c:63, src/algorithms/cc_cilk.c:64 and src/algorithms/cc_cilk.c:99). The Pthreads and OpenMP label propagation have no such guard: with zero rows they return 0 or -1, depending on whether `malloc(0)` and `calloc(0, ...)` return memory. The model follows the code. `Common.Malloc` carries the outcome of each allocation, and `LabelProp.LpResult` is -1 whenever an allocation fails.

## Model

| member | source | states |
|---|---|---|
| Csc.ColumnEntries | src/core/matrix.h:25-26 | column c holds exactly `col_ptr[c+1] - col_ptr[c]` entries, and row r is among them exactly when (r, c) is stored |
| Csc.EntriesBefore | src/core/matrix.h:21-27 | the entries of columns [0, k) number `col_ptr[k] - col_ptr[0]`, and (r, c) is among them exactly when c < k and (r, c) is stored |
| Csc.Entries | src/core/matrix.h:16-27 | the matrix is exactly its set of stored positions, `nnz - col_ptr[0]` of them |
| Csc.EdgeIsStoredPosition | src/core/matrix.h:16-20 | an edge is exactly a stored position read in either direction between two rows, and the edge relation is symmetric |
| Common.ToInt | src/algorithms/cc_pthreads.c:265 | the `(int)` conversion of a uint32 count is that count below 2^31, agrees with it modulo 2^32 and lies in the int range |
| Graph.LeastLabelling | src/algorithms/cc_pthreads.c:66 | a labelling that agrees across edges, is at most the node's index and stays in the node's component gives every node the least index of its component: the result does not depend on the order of the unions |
| Graph.LeastLabellingCounts | src/algorithms/cc_pthreads.c:194-196 | under the least-index labelling, the fixed points and the distinct values are both exactly the component representatives |
| Graph.SelfLoopsComponentCount | src/core/matrix.h:16-20 | a matrix whose only stored positions are on the diagonal has one component per row |
| Graph.ComponentCountBound | src/algorithms/cc_pthreads.c:249-265 | there are at most `nrows` components, so every count fits the uint32 accumulators |
| Partition.StaticChunk | src/algorithms/cc_pthreads.c:250 | `(n + T - 1) / T`, computed without wrap-around, is the ceiling of n / T: T ranges of it reach n, and T ranges of one less do not |
| Partition.StaticChunkNoWrap | src/algorithms/cc_pthreads.c:250 | the 32-bit `(n + T - 1) / T` equals the ceiling of n / T whenever `n + T - 1` fits in 32 bits |
| Partition.StaticChunkWrapMissesNodes | src/algorithms/cc_pthreads.c:250-256 | for n = 2^32 - 1 and T = 2 the 32-bit range length is 0, so the two ranges cover no node, while the unwrapped ceiling covers all of them |
| Partition.DynamicChunksPartition | src/algorithms/cc_pthreads.c:141-147 | every column below ncols lies in the chunk `[k*4096, min(k*4096 + 4096, ncols))` exactly when k is c / 4096, and that chunk starts below ncols, so it is handed out |
| Partition.StaticRangesPartition | src/algorithms/cc_pthreads.c:250-256 | every node below n lies in the range `[i*chunk, min(i*chunk + chunk, n))` of exactly one worker i, and that worker is below T |
| UnionFind.Root | src/algorithms/cc_pthreads.c:45-48 | following parent links from x ends at a node that is its own parent and is no larger than x, which is also why the loop terminates |
| UnionFind.FindCompress | src/algorithms/cc_pthreads.c:42-58 | returns the root of x and changes no node's root; with one worker the early exit always fires and the array is unchanged |
| UnionFind.CompareExchange | src/algorithms/cc_pthreads.c:88-93 | the slot is written with desired exactly when it held expected; otherwise the value found is reported and nothing changes; a write of a value no larger than the slot's index keeps `label[i] <= i` |
| UnionFind.LinkRoot | src/algorithms/cc_pthreads.c:89-91 | linking root hi under a smaller root lo keeps `label[i] <= i` and moves exactly the nodes of hi's tree to root lo |
| UnionFind.LinkMerges | src/algorithms/cc_pthreads.c:99-101 | the store `label[b] = a` of two roots a < b merges their two trees under a and leaves every other tree alone |
| UnionFind.RetryStep | src/algorithms/cc_pthreads.c:88-93 | an exchange on b that expects b fails exactly when b is not a root, reports b's parent, and that parent is smaller than b and has b's root |
| UnionFind.UnionRem | src/algorithms/cc_pthreads.c:72-103 | no write when a and b share a root; otherwise only the larger root's slot is written, with the smaller root; `label[i] <= i` is kept, the two trees merge, and a and b share a root afterwards |
| UnionFind.UnionOfEdge | src/algorithms/cc_pthreads.c:152-155 | a union of the two ends of an edge keeps every root inside its node's component and only coarsens the partition |
| UnionFind.UnionEntry | src/algorithms/cc_pthreads.c:152-155 | after the union of entry j of column c, the entries of c up to j and all earlier columns share their column's root |
| UnionFind.UnionColumn | src/algorithms/cc_openmp.c:76-81 | after the unions of column c, with or without the `row < n` guard, every stored entry of columns [0, c] whose row is a node shares its column's root, and every root stays in its node's component |
| UnionFind.IdentityStart | src/algorithms/cc_pthreads.c:230-231 | the identity array satisfies the union-find invariant, with every node its own root |
| UnionFind.JoinedIsDone | src/algorithms/cc_pthreads.c:239-242 | once every column is joined, each node's root is the least index of its component |
| UnionFind.FlattenAll | src/algorithms/cc_pthreads.c:244-246 | the flattening pass leaves the array as it found it |
| UnionFind.RootsExtend | src/algorithms/cc_pthreads.c:194-196 | one more node adds one to the root count exactly when it is its own parent |
| UnionFind.RootsSplit | src/algorithms/cc_pthreads.c:259-262 | root counts of consecutive ranges add up to the count of their union |
| UnionFind.DoneRootCount | src/algorithms/cc_openmp.c:88-90 | when the union pass is done, the nodes with `label[i] == i` are one per component |
| UnionFind.CountRoots | src/algorithms/cc_pthreads.c:188-200 | the count is the number of i in [begin, end) with `label[i] == i`, and 0 for a range with begin >= end |
| LabelProp.LowerBoth | src/algorithms/cc_pthreads.c:316-333 | both ends end at `min(lc, lr)`, no other label moves and none grows, and changed is set exactly when lc != lr, that is, exactly when something was stored |
| LabelProp.LowerLarger | src/algorithms/cc_openmp.c:136-151 | the same edge-step contract for the form that stores only the larger end |
| LabelProp.StepsAgree | src/algorithms/cc_cilk.c:117-128 | the single-end step of OpenMP and Cilk computes the same array and flag as the both-ends step of Pthreads |
| LabelProp.EdgeStep | src/algorithms/cc_cilk.c:120-128 | either form of the step satisfies the edge-step contract |
| LabelProp.IdentityInv | src/algorithms/cc_pthreads.c:372-373 | the identity labelling satisfies the propagation invariant |
| LabelProp.RelaxKeepsInv | src/algorithms/cc_pthreads.c:316-333 | a step on an edge keeps every label at most its node's index and inside its node's component |
| LabelProp.SumBelow | src/algorithms/cc_pthreads.c:377-390 | lowering labels never raises their sum and lowers it strictly when any label moved: the termination measure of the round loop |
| LabelProp.SettledIsFixedPoint | src/algorithms/cc_pthreads.c:377-390 | when every stored entry carries its column's label, the labels agree across every edge |
| LabelProp.RelaxColumn | src/algorithms/cc_cilk.c:112-134 | after the steps of one column the invariant holds and labels only went down; a raised flag means the sum went down, and an unraised one means nothing was stored and the column is settled |
| LabelProp.RelaxColumns | src/algorithms/cc_openmp.c:127-159 | the same for a run of columns under one change flag |
| LabelProp.PassJoin | src/algorithms/cc_pthreads.c:337-338 | a chunk's flag joined into the global flag gives the flag of the two passes together |
| LabelProp.RoundDone | src/algorithms/cc_pthreads.c:377-390 | after a round, the flag is raised exactly when the array changed and then the sum dropped; a round without a change ends at a fixed point |
| LabelProp.FixedPointIsDone | src/algorithms/cc_pthreads.c:352-356 | at a fixed point the propagation invariant gives every node the least index of its component |
| LabelProp.DoneLabelCount | src/algorithms/cc_pthreads.c:356 | then the distinct labels are one per component |
| LabelProp.PopcountIsSetBits | src/algorithms/cc_pthreads.c:403-404 | the popcount of a bit sequence is the number of its set bits |
| LabelProp.PopcountAppend | src/algorithms/cc_pthreads.c:403-404 | popcounts of consecutive words add up |
| LabelProp.FlattenIndex | src/algorithms/cc_pthreads.c:399 | bit v of the bitmap is bit `v & 63` of word `v >> 6` |
| LabelProp.BitmapWords | src/algorithms/cc_openmp.c:164 | the `(nrows + 63) / 64` words of the bitmap, computed without wrap-around, hold a bit for every label below n, and one word fewer would not |
| LabelProp.BitmapWordsNoWrap | src/algorithms/cc_pthreads.c:393 | the 32-bit `(n + 63) / 64` of Pthreads equals the unwrapped length whenever `n + 63` fits in 32 bits |
| LabelProp.BitmapWrapOutOfBounds | src/algorithms/cc_pthreads.c:393-399 | for n = 2^32 - 1 the 32-bit length is 0 words, so the store for label 0 falls outside the bitmap, while the unwrapped length is 2^26 words |
| LabelProp.BitmapCount | src/algorithms/cc_pthreads.c:393-404 | every label below n sets a bit inside the `(n + 63) / 64` words, and the popcount total is the number of distinct labels |
| Pthreads.UfWorker | src/algorithms/cc_pthreads.c:135-160 | the chunk loop joins every stored entry of every column with its column and keeps every root in its node's component |
| Pthreads.StaticCountStep | src/algorithms/cc_pthreads.c:253-262 | adding worker i's range count gives the root count of the nodes below the next range, an empty range adding nothing |
| Pthreads.CcUnionFind | src/algorithms/cc_pthreads.c:221-266 | 0 for NULL or zero rows, -1 on allocation failure, and otherwise the number of components |
| Pthreads.LpRound | src/algorithms/cc_pthreads.c:300-342 | one round keeps the invariant and never raises a label; the global flag is set exactly when something changed, and then the label sum dropped; otherwise the labels are a fixed point |
| Pthreads.CcLabelPropagation | src/algorithms/cc_pthreads.c:365-409 | the rounds terminate; -1 on allocation failure, otherwise the number of components |
| Pthreads.CcPthreads | src/algorithms/cc_pthreads.c:425-435 | variant 0 gives the label-propagation result, 1 the union-find result, and anything else -1 |
| Openmp.CcUnionFind | src/algorithms/cc_openmp.c:60-94 | 0 for NULL or zero rows, -1 on allocation failure, and otherwise the number of components; entries with row >= n are skipped |
| Openmp.LpRound | src/algorithms/cc_openmp.c:121-160 | finished stays set exactly when the round changed nothing, and then the labels are a fixed point; otherwise the label sum dropped |
| Openmp.CcLabelPropagation | src/algorithms/cc_openmp.c:109-192 | the rounds terminate; -1 on allocation failure, otherwise the number of components |
| Openmp.CcOpenmp | src/algorithms/cc_openmp.c:196-206 | variant 0 gives the label-propagation result with the thread count passed as int, 1 the union-find result, and anything else -1 |
| Cilk.CcUnionFind | src/algorithms/cc_cilk.c:61-92 | 0 for NULL or zero rows, -1 on allocation failure, and otherwise the number of components; entries with row >= n are skipped |
| Cilk.LpRound | src/algorithms/cc_cilk.c:107-136 | per-column flags: finished stays set exactly when nothing changed, and then the labels are a fixed point; otherwise the label sum dropped |
| Cilk.CcLabelPropagation | src/algorithms/cc_cilk.c:96-167 | 0 for NULL or zero rows; otherwise -1 on allocation failure and the number of components after that |
| Cilk.CcCilk | src/algorithms/cc_cilk.c:171-182 | variant 0 gives the label-propagation result, 1 the union-find result, and anything else -1; the thread count plays no part |
| Agreement.EnginesAgree | src/algorithms/cc_pthreads.c:66 | the final union-find roots and the final propagated labels are the same map, so the root count equals the distinct-label count and both equal the component count |
| Agreement.EnginesReturnSame | src/algorithms/cc_pthreads.c:221-266 | for a matrix with at least one row and a successful bitmap allocation, the union-find result and the label-propagation result are the same: the component count, or -1 when the label array is not allocated |

## Findings

| source | as written | input that shows it | evidently intended | confidence | as-written member | corrected member |
|---|---|---|---|---|---|---|
| src/algorithms/cc_pthreads.c:250 | `chunk = (n + n_threads - 1) / n_threads` adds in uint32_t, so the sum wraps | nrows = 2^32 - 1, n_threads = 2: the sum wraps to 0, chunk is 0, every count range is empty and the total is 0 | the ceiling of n / n_threads, so that the ranges cover every node | not executed | Partition.StaticChunkWrapMissesNodes | Partition.StaticChunk |
| src/algorithms/cc_pthreads.c:393 | `bsz = (n + 63) / 64` adds in uint32_t before the conversion to size_t | nrows = 2^32 - 1: bsz is 0, so the store at line 399 for label 0 writes outside the bitmap | `(n + 63) / 64` without wrap-around, as cc_openmp.c:164 computes it | not executed | LabelProp.BitmapWrapOutOfBounds | LabelProp.BitmapWords |

## Left out

- Threads, OpenMP pragmas, `cilk_for`, the atomic column cursors and the memory orders are left out: one worker runs every iteration in order, so concurrent interleavings and the race of the fallback store are not modelled.
- `schedule(dynamic, 128)`, `schedule(static, 2048)` and the `reduction` clause are left out: one thread runs all iterations, and the reduction is a plain sum.
- `uint32_t` wrap-around of the cursor `col + CHUNK` and of `i * chunk` and `begin + chunk` is left out: indices are unbounded `nat`s, and the matrix counts are required to be below 2^32 (`Csc.Fits32`).
- Partition.StaticChunk: computes `(n + T - 1) / T` without the uint32_t wrap of cc_pthreads.c:250; the wrap is recorded under Findings, with `Partition.StaticChunkAsWritten` as the code computes it.
- Pthreads.CcUnionFind: uses the unwrapped `Partition.StaticChunk`, so for `nrows + n_threads - 1 >= 2^32` it returns the component count where the code, whose ranges then miss nodes, returns a smaller total (see Findings).
- LabelProp.BitmapCount: uses the unwrapped `LabelProp.BitmapWords`; the uint32_t wrap of `n + 63` at cc_pthreads.c:393 is recorded under Findings.
- Pthreads.CcLabelPropagation: for `nrows >= 2^32 - 63` the code allocates a bitmap of `(n + 63) / 64` words computed with wrap-around, too short, and stores outside it; the model counts with the unwrapped length (see Findings).
- Common.ToInt: models the `(int)` conversion of counts from 2^31 on as the two's-complement wrap; C leaves that conversion implementation-defined.
- The thread count: a positive count is required wherever the source uses it. A zero count declares zero-length arrays of threads, and in the Pthreads union-find it also divides by zero. The count does not otherwise affect the single-worker result.
- `malloc` and `calloc` are left out as operations: their outcome is an input (`Common.Malloc`), because whether memory is available is outside the program. This includes `malloc(0)` in the label propagation of Pthreads and OpenMP.
- `__builtin_popcountll` is modelled as the count of `true` bits in a word of 64 booleans, not as 64-bit arithmetic.
- `free` is left out: it has no effect on the result.
- src/utils/benchmark.c and benchmark.h are left out: they do wall-clock timing, floating-point statistics and printing.
- src/utils/args.h and main.c are left out: they parse the command line and load and print MAT files.
- The load, free and print functions declared at src/core/matrix.h:39-57 are left out: they are file I/O.
- src/algorithms/connected_components.h is left out: it declares two other entry points, `cc_count_sequential` and `cc_count_parallel_omp`, whose bodies are not part of this model.
