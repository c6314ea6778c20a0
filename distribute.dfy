/**
 * How the sweep splits its work over `size` MPI ranks: the node and pathway
 * lists are cut into contiguous blocks whose lengths differ by at most one (the
 * first `n % size` ranks take one extra item), while the permutation run indices
 * are cut into equal blocks with the whole remainder going to the last rank.
 */
module Distribution {

  function Min(a: int, b: int): int
  {
    if a <= b then a else b
  }

  /** Python's `s[start:end]` for non-negative bounds: both are clamped to the length. */
  function Slice<T>(s: seq<T>, start: nat, end: nat): (r: seq<T>)
    ensures |r| == if start <= end && start <= |s| then Min(end, |s|) - start else 0
    ensures start <= end <= |s| ==> r == s[start..end]
  {
    var hi := Min(end, |s|);
    var lo := Min(start, hi);
    s[lo..hi]
  }

  /** `start_index` of `distribute_nodes` / `distribute_pathways`. */
  function StartIndexOf(n: nat, rank: nat, size: nat): nat
    requires size >= 1
  {
    var perProc := n / size;
    var remainder := n % size;
    if rank < remainder then rank * (perProc + 1)
    else remainder * (perProc + 1) + (rank - remainder) * perProc
  }

  /** `end_index`: one item past the start more for the first `n % size` ranks. */
  function EndIndexOf(n: nat, rank: nat, size: nat): nat
    requires size >= 1
  {
    StartIndexOf(n, rank, size) + (if rank < n % size then n / size + 1 else n / size)
  }

  /**
   * `distribute_nodes` / `distribute_pathways`: the block of `items` that `rank`
   * processes.
   */
  function Distribute<T>(items: seq<T>, rank: nat, size: nat): (r: seq<T>)
    requires size >= 1
    ensures |r| <= |items| / size + 1
  {
    Slice(items, StartIndexOf(|items|, rank, size), EndIndexOf(|items|, rank, size))
  }

  /** How many items `rank` gets: `n / size`, plus one for the first `n % size` ranks. */
  function BlockLength(n: nat, rank: nat, size: nat): nat
    requires size >= 1
  {
    if rank < size then n / size + (if rank < n % size then 1 else 0) else 0
  }

  /** Where the block of `rank` starts: right after the blocks of the ranks before it. */
  function BlockStart(n: nat, rank: nat, size: nat): nat
    requires size >= 1
  {
    if rank == 0 then 0 else BlockStart(n, rank - 1, size) + BlockLength(n, rank - 1, size)
  }

  lemma MulSucc(a: nat, c: nat)
    ensures (a + 1) * c == a * c + c
  {
  }

  lemma MulAddOne(a: nat, c: nat)
    ensures a * (c + 1) == a * c + a
  {
  }

  lemma MulLe(a: nat, b: nat, c: nat)
    requires a <= b
    ensures a * c <= b * c
  {
  }

  lemma MulSub(a: nat, b: nat, c: nat)
    requires b <= a
    ensures (a - b) * c == a * c - b * c
  {
  }

  lemma DivSplit(n: nat, size: nat)
    requires size >= 1
    ensures n == size * (n / size) + n % size && n % size < size
  {
  }

  /**
   * The first `rank` blocks hold `rank * (n / size)` items plus one for each long
   * block among them; all `size` blocks hold exactly the `n` items.
   */
  lemma {:induction false} BlockStartClosedForm(n: nat, rank: nat, size: nat)
    requires size >= 1 && rank <= size
    ensures BlockStart(n, rank, size) == rank * (n / size) + Min(rank, n % size)
  {
    if rank > 0 {
      BlockStartClosedForm(n, rank - 1, size);
      MulSucc(rank - 1, n / size);
    }
  }

  /** All `size` blocks together hold exactly the `n` items. */
  lemma BlockStartAll(n: nat, size: nat)
    requires size >= 1
    ensures BlockStart(n, size, size) == n
  {
    BlockStartClosedForm(n, size, size);
    DivSplit(n, size);
  }

  /** Ranks at or past `size` start at the end of the list. */
  lemma {:induction false} BlockStartPast(n: nat, rank: nat, size: nat)
    requires size >= 1 && size <= rank
    ensures BlockStart(n, rank, size) == n
  {
    if rank == size {
      BlockStartAll(n, size);
    } else {
      BlockStartPast(n, rank - 1, size);
    }
  }

  lemma {:induction false} BlockStartBound(n: nat, rank: nat, size: nat)
    requires size >= 1
    ensures BlockStart(n, rank, size) + BlockLength(n, rank, size) <= n
  {
    if rank < size {
      BlockStartMonotone(n, rank + 1, size, size);
      BlockStartAll(n, size);
      assert BlockStart(n, rank + 1, size) == BlockStart(n, rank, size) + BlockLength(n, rank, size);
    } else {
      BlockStartPast(n, rank, size);
    }
  }

  lemma {:induction false} BlockStartMonotone(n: nat, a: nat, b: nat, size: nat)
    requires size >= 1 && a <= b
    ensures BlockStart(n, a, size) <= BlockStart(n, b, size)
  {
    if a < b {
      BlockStartMonotone(n, a, b - 1, size);
    }
  }

  lemma ModBound(n: nat, size: nat)
    requires size >= 1
    ensures n % size < size
  {
  }

  /** For a rank among the first `n % size`, the start index is where its block starts. */
  lemma LongBlockStart(n: nat, rank: nat, size: nat)
    requires size >= 1 && rank < n % size
    ensures StartIndexOf(n, rank, size) == BlockStart(n, rank, size)
  {
    ModBound(n, size);
    BlockStartClosedForm(n, rank, size);
    MulAddOne(rank, n / size);
  }

  lemma ShortArith(rank: nat, q: nat, rem: nat)
    requires rem <= rank
    ensures rem * (q + 1) + (rank - rem) * q == rank * q + rem
  {
    MulSub(rank, rem, q);
    MulAddOne(rem, q);
  }

  /** For the remaining ranks below `size`, the start index is where the block starts too. */
  lemma ShortBlockStart(n: nat, rank: nat, size: nat)
    requires size >= 1 && n % size <= rank < size
    ensures StartIndexOf(n, rank, size) == BlockStart(n, rank, size)
  {
    BlockStartClosedForm(n, rank, size);
    ShortArith(rank, n / size, n % size);
  }

  /** Ranks at or past `size` start at or past the end. */
  lemma PastStart(n: nat, rank: nat, size: nat)
    requires size >= 1 && size <= rank
    ensures StartIndexOf(n, rank, size) >= n
  {
    var q, rem := n / size, n % size;
    DivSplit(n, size);
    ShortArith(rank, q, rem);
    MulLe(size, rank, q);
    assert size * q == q * size;
  }

  /** Below `size`, a rank's indices delimit its block. */
  lemma IndicesOfBlock(n: nat, rank: nat, size: nat)
    requires size >= 1 && rank < size
    ensures StartIndexOf(n, rank, size) == BlockStart(n, rank, size)
    ensures EndIndexOf(n, rank, size) == BlockStart(n, rank, size) + BlockLength(n, rank, size)
  {
    if rank < n % size {
      LongBlockStart(n, rank, size);
    } else {
      ShortBlockStart(n, rank, size);
    }
  }

  /**
   * The block a rank receives is the slice of `items` from `BlockStart` of length
   * `BlockLength`; ranks at or past `size` receive nothing.
   */
  lemma DistributeBlock<T>(items: seq<T>, rank: nat, size: nat)
    requires size >= 1
    ensures var start, len := BlockStart(|items|, rank, size), BlockLength(|items|, rank, size);
      start + len <= |items| && Distribute(items, rank, size) == items[start..start + len]
  {
    var n := |items|;
    BlockStartBound(n, rank, size);
    if rank < size {
      IndicesOfBlock(n, rank, size);
    } else {
      PastStart(n, rank, size);
      BlockStartPast(n, rank, size);
    }
  }

  /** The blocks of ranks `0 .. k - 1`, concatenated in rank order. */
  function Gathered<T>(items: seq<T>, size: nat, k: nat): seq<T>
    requires size >= 1
  {
    if k == 0 then [] else Gathered(items, size, k - 1) + Distribute(items, k - 1, size)
  }

  lemma {:induction false} GatheredPrefix<T>(items: seq<T>, size: nat, k: nat)
    requires size >= 1 && k <= size
    ensures BlockStart(|items|, k, size) <= |items|
    ensures Gathered(items, size, k) == items[..BlockStart(|items|, k, size)]
  {
    if k == 0 {
    } else {
      var n := |items|;
      GatheredPrefix(items, size, k - 1);
      DistributeBlock(items, k - 1, size);
      var a, b := BlockStart(n, k - 1, size), BlockStart(n, k, size);
      assert items[..a] + items[a..b] == items[..b];
    }
  }

  /**
   * Every item is processed exactly once and in order: the blocks of ranks
   * `0 .. size - 1`, concatenated, are the whole list.
   */
  lemma DistributeCovers<T>(items: seq<T>, size: nat)
    requires size >= 1
    ensures Gathered(items, size, size) == items
  {
    GatheredPrefix(items, size, size);
    BlockStartAll(|items|, size);
  }

  /**
   * Each block has `n / size` items, plus one for the first `n % size` ranks;
   * ranks at or past `size` get nothing.
   */
  lemma DistributeLength<T>(items: seq<T>, rank: nat, size: nat)
    requires size >= 1
    ensures |Distribute(items, rank, size)| == BlockLength(|items|, rank, size)
    ensures |Distribute(items, rank, size)| <= |items| / size + 1
  {
    DistributeBlock(items, rank, size);
  }

  /** `range(lo, hi)`. */
  function Range(lo: nat, hi: nat): (r: seq<nat>)
    ensures |r| == if lo <= hi then hi - lo else 0
    ensures forall k :: 0 <= k < |r| ==> r[k] == lo + k
  {
    if lo < hi then seq(hi - lo, k requires 0 <= k < hi - lo => lo + k) else []
  }

  /** `distribute_runs`: the run indices of `rank`; the last rank runs to the end. */
  function DistributeRuns(total: nat, rank: nat, size: nat): seq<nat>
    requires size >= 1
  {
    var perRank := total / size;
    var start := rank * perRank;
    var end := if rank != size - 1 then start + perRank else total;
    Range(start, end)
  }

  /** The run blocks of ranks `0 .. k - 1`, concatenated in rank order. */
  function GatheredRuns(total: nat, size: nat, k: nat): seq<nat>
    requires size >= 1
  {
    if k == 0 then [] else GatheredRuns(total, size, k - 1) + DistributeRuns(total, k - 1, size)
  }

  lemma {:induction false} GatheredRunsPrefix(total: nat, size: nat, k: nat)
    requires size >= 1 && k < size
    ensures GatheredRuns(total, size, k) == Range(0, k * (total / size))
  {
    if k > 0 {
      GatheredRunsPrefix(total, size, k - 1);
      var q := total / size;
      MulSucc(k - 1, q);
      assert Range(0, (k - 1) * q) + Range((k - 1) * q, k * q) == Range(0, k * q);
    }
  }

  /**
   * The run ranges of ranks `0 .. size - 1` are contiguous, disjoint and together
   * are exactly `range(total)`.
   */
  lemma RunsCover(total: nat, size: nat)
    requires size >= 1
    ensures GatheredRuns(total, size, size) == Range(0, total)
  {
    var q := total / size;
    GatheredRunsPrefix(total, size, size - 1);
    DivSplit(total, size);
    MulSucc(size - 1, q);
    assert Range(0, (size - 1) * q) + Range((size - 1) * q, total) == Range(0, total);
  }

  /**
   * Every rank but the last gets `total / size` runs; the last gets those and
   * the whole remainder `total % size`, so block sizes can differ by up to
   * `size - 1`.
   */
  lemma RunsLength(total: nat, rank: nat, size: nat)
    requires size >= 1 && rank < size
    ensures rank < size - 1 ==> |DistributeRuns(total, rank, size)| == total / size
    ensures rank == size - 1 ==> |DistributeRuns(total, rank, size)| == total / size + total % size
  {
    var q := total / size;
    DivSplit(total, size);
    MulSucc(rank, q);
  }

  /** Seven runs over four ranks: three ranks get one run each, the last gets four. */
  lemma RunsImbalanceExample()
    ensures DistributeRuns(7, 0, 4) == [0]
    ensures DistributeRuns(7, 1, 4) == [1]
    ensures DistributeRuns(7, 2, 4) == [2]
    ensures DistributeRuns(7, 3, 4) == [3, 4, 5, 6]
  {
    assert Range(3, 7) == [3, 4, 5, 6];
  }
}
