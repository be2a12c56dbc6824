/**
 * The two work partitioners the engines use to hand columns (or nodes)
 * to workers: dynamic fixed-size chunks claimed from a shared cursor, and
 * static contiguous ranges of ceil(n / T) indices, one per worker.
 */
module Partition {
  import opened Common

  /** Columns claimed per fetch-and-add on the shared cursor (CHUNK). */
  const DynamicChunk: nat := 4096

  /** Exclusive end of the dynamic chunk that starts at col: col + CHUNK,
      clipped to the column count. */
  function ChunkEnd(col: nat, ncols: nat): nat {
    if col + DynamicChunk > ncols then ncols else col + DynamicChunk
  }

  /** The static range length ceil(n / T): T ranges of it reach n, and T
      ranges of one less do not. */
  function StaticChunk(n: nat, t: nat): (chunk: nat)
    requires t >= 1
    ensures n <= t * chunk
    ensures chunk > 0 ==> t * (chunk - 1) < n
  {
    var q := (n + t - 1) / t;
    assert n + t - 1 == t * q + (n + t - 1) % t;
    q
  }

  /** The range length as cc_pthreads.c computes it: n + T - 1 is a
      uint32_t sum, so it wraps modulo 2^32 before the division. */
  function StaticChunkAsWritten(n: nat, t: nat): nat
    requires t >= 1 && n < UintLimit && t < UintLimit
  {
    var sum := n + t - 1;
    (if sum < UintLimit then sum else sum - UintLimit) / t
  }

  /** Without the wrap the two agree. */
  lemma StaticChunkNoWrap(n: nat, t: nat)
    requires t >= 1 && n < UintLimit && t < UintLimit && n + t - 1 < UintLimit
    ensures StaticChunkAsWritten(n, t) == StaticChunk(n, t)
  {
  }

  /** With 2^32 - 1 nodes and two workers the wrapped sum is 0, so both
      ranges are empty and no node is counted, while the unwrapped ceiling
      covers every node. */
  lemma StaticChunkWrapMissesNodes()
    ensures StaticChunkAsWritten(0xFFFF_FFFF, 2) == 0
    ensures 2 * StaticChunkAsWritten(0xFFFF_FFFF, 2) < 0xFFFF_FFFF
    ensures 0xFFFF_FFFF <= 2 * StaticChunk(0xFFFF_FFFF, 2)
  {
  }

  /** Bounds of worker i's static range: [i*chunk, min(i*chunk + chunk, n)).
      A range whose begin is past n is empty. */
  function RangeBegin(i: nat, chunk: nat): nat {
    i * chunk
  }

  function RangeEnd(i: nat, chunk: nat, n: nat): nat {
    if i * chunk + chunk > n then n else i * chunk + chunk
  }

  lemma MulMono(a: nat, b: nat, c: nat)
    requires a <= b
    ensures a * c <= b * c
  {
  }

  /** Blocks of a fixed positive size tile the naturals: x lies in block i
      exactly when i is x / size. */
  lemma BlockOwner(x: nat, size: nat, i: nat)
    requires size > 0
    ensures i * size <= x < i * size + size <==> i == x / size
  {
    var q := x / size;
    assert x == q * size + x % size;
    if i < q {
      MulMono(i + 1, q, size);
    } else if i > q {
      MulMono(q + 1, i, size);
    }
  }

  /** Every column below ncols falls in exactly one dynamic chunk, and the
      cursor value that starts that chunk is below ncols, so the chunk is
      handed out before a worker reads a cursor value >= ncols and stops. */
  lemma DynamicChunksPartition(ncols: nat, c: nat, k: nat)
    requires c < ncols
    ensures k * DynamicChunk <= c < ChunkEnd(k * DynamicChunk, ncols) <==> k == c / DynamicChunk
    ensures (c / DynamicChunk) * DynamicChunk <= c
  {
  }

  /** The T static ranges are pairwise disjoint and cover [0, n): every
      x < n lies in the range of exactly one worker i < T. */
  lemma StaticRangesPartition(n: nat, t: nat, x: nat, i: nat)
    requires t >= 1 && x < n
    ensures x / StaticChunk(n, t) < t
    ensures RangeBegin(i, StaticChunk(n, t)) <= x < RangeEnd(i, StaticChunk(n, t), n) <==> i == x / StaticChunk(n, t)
  {
    var chunk := StaticChunk(n, t);
    assert chunk > 0;
    BlockOwner(x, chunk, i);
    BlockOwner(x, chunk, x / chunk);
    if x / chunk >= t {
      MulMono(t, x / chunk, chunk);
    }
  }
}
