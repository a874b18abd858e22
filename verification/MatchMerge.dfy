/** benchmarks/csrc/match_merge.cpp: the two functions that find the seam between two
    neighbouring shards and that splice the shards together. */
module MatchMerge {
  import opened Common

  ghost predicate Increasing(a: seq<int>) {
    forall i, j :: 0 <= i < j < |a| ==> a[i] < a[j]
  }

  /** Number of aligned tokens in a row, starting with the pair (i, j): the brute-force notion
      that the two-pointer scan has to agree with. */
  ghost function RunLength(a: seq<int>, b: seq<int>, shift: int, i: int, j: int): (n: nat)
    requires 0 <= i <= |a| && 0 <= j <= |b|
    ensures i + n <= |a| && j + n <= |b|
    decreases |a| - i
  {
    if i < |a| && j < |b| && a[i] == b[j] + shift then 1 + RunLength(a, b, shift, i + 1, j + 1) else 0
  }

  /** A run of `size` aligned pairs whose first pair is (i, j). */
  datatype Run = Run(i: int, j: int, size: int)

  ghost predicate IsRun(a: seq<int>, b: seq<int>, shift: int, r: Run) {
    && 0 <= r.i <= r.i + r.size <= |a| && 0 <= r.j <= r.j + r.size <= |b|
    && forall x :: r.i <= x < r.i + r.size ==> a[x] == b[x - r.i + r.j] + shift
  }

  /** `RunLength` counts what it says: that many pairs are aligned, and the next one is not. */
  lemma {:induction false} RunLengthIsMaximal(a: seq<int>, b: seq<int>, shift: int, i: int, j: int)
    requires 0 <= i <= |a| && 0 <= j <= |b|
    ensures var n := RunLength(a, b, shift, i, j);
            && IsRun(a, b, shift, Run(i, j, n))
            && (i + n < |a| && j + n < |b| ==> a[i + n] != b[j + n] + shift)
    decreases |a| - i
  {
    if i < |a| && j < |b| && a[i] == b[j] + shift {
      RunLengthIsMaximal(a, b, shift, i + 1, j + 1);
    }
  }

  /** No pair starts a longer run, and none further right starts an equally long one. */
  ghost predicate IsRightmostLongest(a: seq<int>, b: seq<int>, shift: int, r: Run) {
    && IsRun(a, b, shift, r)
    && forall i, j :: 0 <= i <= |a| && 0 <= j <= |b| ==>
         && RunLength(a, b, shift, i, j) <= r.size
         && (j > r.j ==> RunLength(a, b, shift, i, j) < r.size)
  }

  /** Every aligned run, wherever it starts, has at most `n` tokens. */
  ghost predicate RunsAtMost(a: seq<int>, b: seq<int>, shift: int, n: int) {
    forall i, j :: 0 <= i <= |a| && 0 <= j <= |b| ==> RunLength(a, b, shift, i, j) <= n
  }

  /** What a caller can rely on when `Match` succeeds: the suffix counts name the second-to-last
      pair of a run that is long enough. */
  ghost predicate IsCut(a: seq<int>, b: seq<int>, shift: int, thres: int, r: Run, sa: int, sb: int) {
    && IsRun(a, b, shift, r)
    && r.size >= thres + 2
    && sa == |a| - (r.i + r.size - 2)
    && sb == |b| - (r.j + r.size - 2)
  }

  /** Where the scan stands: the start at `i0` is too small for the rows done so far, the one right of
      it too large for the rows still to come. */
  ghost predicate Frontier(a: seq<int>, b: seq<int>, shift: int, i0: int, i1: int) {
    && -1 <= i0 < |a| && -1 <= i1 < |b|
    && (0 <= i0 && i1 + 1 < |b| ==> a[i0] < b[i1 + 1] + shift)
    && (i0 + 1 < |a| && 0 <= i1 ==> a[i0 + 1] > b[i1] + shift)
  }

  /** The run that starts at (i, j) does not beat `best`, nor tie with it from further right. A run
      of one token never registers, so `best.size == 1` means that none has been seen. */
  ghost predicate Beaten(a: seq<int>, b: seq<int>, shift: int, i: int, j: int, best: Run)
    requires 0 <= i <= |a| && 0 <= j <= |b|
  {
    && RunLength(a, b, shift, i, j) <= best.size
    && (best.size > 1 && j > best.j ==> RunLength(a, b, shift, i, j) < best.size)
  }

  /** With increasing starts the scan misses nothing: `current` is the length of the run that starts
      right of the frontier, and `best` beats every run that starts in a row after `i1`. */
  ghost predicate Exhaustive(a: seq<int>, b: seq<int>, shift: int, i0: int, i1: int, current: int, best: Run) {
    && Frontier(a, b, shift, i0, i1)
    && current == RunLength(a, b, shift, i0 + 1, i1 + 1)
    && forall i, j :: 0 <= i <= |a| && i1 < j <= |b| ==> Beaten(a, b, shift, i, j, best)
  }

  /** State of the scan once the rows after `i1` are done: `current` pairs in a row have just matched,
      and `best` is the best run seen. */
  ghost predicate Scanned(a: seq<int>, b: seq<int>, shift: int, i0: int, i1: int, current: int, best: Run) {
    && -1 <= i0 < |a| && -1 <= i1 < |b| && 0 <= current && 1 <= best.size
    && IsRun(a, b, shift, Run(i0 + 1, i1 + 1, current))
    && (best.size > 1 ==> i1 < best.j && IsRun(a, b, shift, best))
    && (Increasing(a) && Increasing(b) ==> Exhaustive(a, b, shift, i0, i1, current, best))
  }

  lemma SkipLarge(a: seq<int>, b: seq<int>, shift: int, i0: int, i1: int, current: int, best: Run)
    requires Scanned(a, b, shift, i0, i1, current, best)
    requires 0 <= i0 && 0 <= i1 && a[i0] > b[i1] + shift
    ensures Scanned(a, b, shift, i0 - 1, i1, 0, best)
  {
    if Increasing(a) && Increasing(b) && i1 + 1 < |b| {
      assert a[i0] < b[i1 + 1] + shift;
    }
  }

  /** Row `i1` holds an aligned pair, which extends the run counted so far. */
  lemma RowHit(a: seq<int>, b: seq<int>, shift: int, i0: int, i1: int, current: int, best: Run, best': Run)
    requires Scanned(a, b, shift, i0, i1, current, best)
    requires 0 <= i0 && 0 <= i1 && a[i0] == b[i1] + shift
    requires best' == if current > best.size - 1 then Run(i0, i1, current + 1) else best
    ensures Scanned(a, b, shift, i0 - 1, i1 - 1, current + 1, best')
  {
    if Increasing(a) && Increasing(b) {
      forall i, j | 0 <= i <= |a| && i1 - 1 < j <= |b|
        ensures Beaten(a, b, shift, i, j, best')
      {
        if j == i1 {
          HitRow(a, b, shift, i0, i1, current, i);
        } else {
          assert Beaten(a, b, shift, i, j, best);
        }
      }
    }
  }

  lemma HitRow(a: seq<int>, b: seq<int>, shift: int, i0: int, i1: int, current: int, i: int)
    requires Increasing(a) && 0 <= i0 < |a| && 0 <= i1 < |b| && a[i0] == b[i1] + shift && 0 <= i <= |a|
    requires current == RunLength(a, b, shift, i0 + 1, i1 + 1)
    ensures RunLength(a, b, shift, i, i1) == if i == i0 then current + 1 else 0
  {
    assert i != i0 && i < |a| ==> a[i] != a[i0];
  }

  /** Row `i1` holds no aligned pair. */
  lemma RowMiss(a: seq<int>, b: seq<int>, shift: int, i0: int, i1: int, current: int, best: Run)
    requires Scanned(a, b, shift, i0, i1, current, best)
    requires 0 <= i1 && (i0 < 0 || a[i0] < b[i1] + shift)
    ensures Scanned(a, b, shift, i0, i1 - 1, 0, best)
  {
    if Increasing(a) && Increasing(b) {
      forall i, j | 0 <= i <= |a| && i1 - 1 < j <= |b|
        ensures Beaten(a, b, shift, i, j, best)
      {
        if j == i1 {
          assert i < |a| ==> a[i] != b[i1] + shift;
        }
      }
    }
  }

  /** One row of the scan, once nothing at or left of `i0` is too large for it. */
  lemma RowDone(a: seq<int>, b: seq<int>, shift: int, i0: int, i1: int, current: int, best: Run,
                i0': int, current': int, best': Run)
    requires Scanned(a, b, shift, i0, i1, current, best) && 0 <= i1
    requires i0 >= 0 ==> a[i0] <= b[i1] + shift
    requires if i0 >= 0 && a[i0] == b[i1] + shift
             then i0' == i0 - 1 && current' == current + 1
                  && best' == if current > best.size - 1 then Run(i0, i1, current + 1) else best
             else i0' == i0 && current' == 0 && best' == best
    ensures Scanned(a, b, shift, i0', i1 - 1, current', best')
  {
    if i0 >= 0 && a[i0] == b[i1] + shift {
      RowHit(a, b, shift, i0, i1, current, best, best');
    } else {
      RowMiss(a, b, shift, i0, i1, current, best);
    }
  }

  lemma {:induction false} RunIsCounted(a: seq<int>, b: seq<int>, shift: int, i: int, j: int, size: nat)
    requires 0 <= i <= |a| - size && 0 <= j <= |b| - size && IsRun(a, b, shift, Run(i, j, size))
    ensures RunLength(a, b, shift, i, j) >= size
    decreases size
  {
    if size > 0 {
      assert a[i] == b[i - i + j] + shift;
      RunIsCounted(a, b, shift, i + 1, j + 1, size - 1);
    }
  }

  lemma ScanStart(a: seq<int>, b: seq<int>, shift: int)
    ensures Scanned(a, b, shift, |a| - 1, |b| - 1, 0, Run(0, 0, 1))
  {
  }

  /** What the finished scan knows, in terms of the threshold that its caller applies. */
  lemma ScanDone(a: seq<int>, b: seq<int>, shift: int, thres: int, i0: int, current: int, best: Run)
    requires Scanned(a, b, shift, i0, -1, current, best) && thres >= 0
    ensures best.size >= 2 ==> best.i + best.size <= |a| && best.j + best.size <= |b|
    ensures best.size >= thres + 2 ==>
              IsCut(a, b, shift, thres, best, |a| - (best.i + best.size - 2), |b| - (best.j + best.size - 2))
    ensures Increasing(a) && Increasing(b) ==>
              && (best.size - 1 <= thres <==> RunsAtMost(a, b, shift, thres + 1))
              && (best.size >= thres + 2 ==> IsRightmostLongest(a, b, shift, best))
  {
    if Increasing(a) && Increasing(b) {
      forall i, j | 0 <= i <= |a| && 0 <= j <= |b|
        ensures RunLength(a, b, shift, i, j) <= best.size
        ensures best.size > 1 && j > best.j ==> RunLength(a, b, shift, i, j) < best.size
      {
        assert Beaten(a, b, shift, i, j, best);
      }
      if best.size > 1 {
        RunIsCounted(a, b, shift, best.i, best.j, best.size);
      }
    }
  }

  /** The inner loop of the scan: starts of `a` that are too large for row `i1`. */
  method SkipStarts(a: seq<int>, b: seq<int>, chunkSize: int, i0: int, i1: int, current: int, ghost best: Run)
    returns (i: int, c: int)
    requires Scanned(a, b, chunkSize, i0, i1, current, best) && 0 <= i1
    ensures Scanned(a, b, chunkSize, i, i1, c, best) && (i >= 0 ==> a[i] <= b[i1] + chunkSize)
  {
    i, c := i0, current;
    while i >= 0 && a[i] > b[i1] + chunkSize
      invariant Scanned(a, b, chunkSize, i, i1, c, best)
    {
      SkipLarge(a, b, chunkSize, i, i1, c, best);
      i, c := i - 1, 0;
    }
  }

  /** The scan. For arbitrary inputs a reported seam is a genuine aligned run; for strictly
      increasing starts it is the rightmost longest run of all, and the scan gives up exactly when
      no run has more than `mismatchThres + 1` tokens. */
  method Match(a: seq<int>, b: seq<int>, chunkSize: int, mismatchThres: int)
    returns (sa: int, sb: int, ghost run: Run)
    requires mismatchThres >= 0
    ensures (sa, sb) == (-1, -1) || IsCut(a, b, chunkSize, mismatchThres, run, sa, sb)
    ensures Increasing(a) && Increasing(b) ==>
              ((sa, sb) == (-1, -1) <==> RunsAtMost(a, b, chunkSize, mismatchThres + 1))
    ensures Increasing(a) && Increasing(b) && sa >= 0 ==> IsRightmostLongest(a, b, chunkSize, run)
  {
    var matchA, matchB, matchSize := 0, 0, 0;
    var i0, current := |a| - 1, 0;
    var i1 := |b| - 1;
    ScanStart(a, b, chunkSize);
    while i1 >= 0
      invariant -1 <= i1
      invariant Scanned(a, b, chunkSize, i0, i1, current, Run(matchA, matchB, matchSize + 1))
    {
      i0, current := SkipStarts(a, b, chunkSize, i0, i1, current, Run(matchA, matchB, matchSize + 1));
      ghost var i0Was, currentWas, bestWas := i0, current, Run(matchA, matchB, matchSize + 1);
      if i0 >= 0 && a[i0] == b[i1] + chunkSize {
        if current > matchSize {
          matchA, matchB, matchSize := i0, i1, current;
        }
        current := current + 1;
        i0 := i0 - 1;
      } else {
        current := 0;
      }
      RowDone(a, b, chunkSize, i0Was, i1, currentWas, bestWas, i0, current, Run(matchA, matchB, matchSize + 1));
      i1 := i1 - 1;
    }
    run := Run(matchA, matchB, matchSize + 1);
    ScanDone(a, b, chunkSize, mismatchThres, i0, current, run);
    if matchSize <= mismatchThres {
      return -1, -1, run;
    }
    return |a| - (matchA + matchSize - 1), |b| - (matchB + matchSize - 1), run;
  }

  /** The scan's answer is determined by its inputs: there is only one rightmost longest run. */
  lemma RightmostLongestIsUnique(a: seq<int>, b: seq<int>, shift: int, r: Run, r': Run)
    requires Increasing(a)
    requires IsRightmostLongest(a, b, shift, r) && IsRightmostLongest(a, b, shift, r')
    requires r.size > 0
    ensures r == r'
  {
    RunIsCounted(a, b, shift, r.i, r.j, r.size);
    RunIsCounted(a, b, shift, r'.i, r'.j, r'.size);
    assert RunLength(a, b, shift, r.i, r.j) == RunLength(a, b, shift, r'.i, r'.j) == r.size;
    assert a[r.i] == b[r.j] + shift && a[r'.i] == b[r'.j] + shift;
  }

  // ---- merge -------------------------------------------------------------------------------------

  /** Both counts of a table entry count from the end of the shard. The unchecked buffer access needs
      every index that the loop visits to exist. */
  predicate InBuffer(len: int, l: int, r: int) {
    l > r ==> l <= len && 0 <= r
  }

  /** The tokens from the `l`-th last on, up to the `r`-th last. */
  function Slice<T>(c: seq<T>, l: int, r: int): (s: seq<T>)
    requires InBuffer(|c|, l, r)
    ensures |s| == Max(l - r, 0) && forall i {:trigger s[i]} :: 0 <= i < |s| ==> s[i] == c[|c| - l + i]
  {
    if l > r then seq(l - r, i requires 0 <= i < l - r => c[|c| - l + i]) else []
  }

  /** The table's entry for shard `i` stays within that shard. */
  predicate EntryFits<T>(chunks: seq<seq<T>>, matches: seq<int>, i: nat)
    requires i < |chunks| && |matches| == 2 * |chunks|
  {
    InBuffer(|chunks[i]|, matches[2 * i], matches[2 * i + 1])
  }

  predicate TableFits<T>(chunks: seq<seq<T>>, matches: seq<int>) {
    && |matches| == 2 * |chunks|
    && forall i :: 0 <= i < |chunks| ==> EntryFits(chunks, matches, i)
  }

  /** What shard `i` contributes. */
  function SliceOf<T>(chunks: seq<seq<T>>, matches: seq<int>, i: nat): (s: seq<T>)
    requires i < |chunks| && |matches| == 2 * |chunks| && EntryFits(chunks, matches, i)
  {
    Slice(chunks[i], matches[2 * i], matches[2 * i + 1])
  }

  function Slices<T>(chunks: seq<seq<T>>, matches: seq<int>): (r: seq<seq<T>>)
    requires TableFits(chunks, matches)
    ensures |r| == |chunks|
    ensures forall k {:trigger r[k]} :: 0 <= k < |r| ==>
              EntryFits(chunks, matches, k) && r[k] == SliceOf(chunks, matches, k)
  {
    seq(|chunks|, k requires 0 <= k < |chunks| => SliceOf(chunks, matches, k))
  }

  /** The slices of the first `n` shards, in order. */
  function Spliced<T>(chunks: seq<seq<T>>, matches: seq<int>, n: nat): (s: seq<T>)
    requires TableFits(chunks, matches) && n <= |chunks|
  {
    Concat(Slices(chunks, matches), n)
  }

  /** The inner loop of `merge`: one shard's slice is appended to the result. */
  method AppendSlice<T>(result: seq<T>, buf: seq<T>, l: int, r: int) returns (result': seq<T>)
    requires InBuffer(|buf|, l, r)
    ensures result' == result + Slice(buf, l, r)
  {
    var start, end := |buf| - l, |buf| - r;
    var j := start;
    result' := result;
    while j < end
      invariant start < end ==> start <= j <= end && result' == result + buf[start..j]
      invariant start >= end ==> j == start && result' == result
    {
      result' := result' + [buf[j]];
      j := j + 1;
    }
  }

  method Merge<T>(chunks: seq<seq<T>>, matches: seq<int>) returns (r: Option<seq<T>>)
    requires |matches| == 2 * |chunks| ==> TableFits(chunks, matches)
    ensures r.None? <==> |matches| != 2 * |chunks|
    ensures r.Some? ==> r.value == Spliced(chunks, matches, |chunks|)
  {
    if |matches| != 2 * |chunks| {
      return None;
    }
    var result := [];
    ghost var ps := Slices(chunks, matches);
    for i := 0 to |chunks|
      invariant result == Concat(ps, i)
    {
      assert ps[i] == SliceOf(chunks, matches, i);
      result := AppendSlice(result, chunks[i], matches[i * 2], matches[i * 2 + 1]);
    }
    return Some(result);
  }

  /** Number of tokens the first `n` slices contribute. */
  function TableSize(matches: seq<int>, n: nat): (size: nat)
    requires 2 * n <= |matches|
  {
    if n == 0 then 0 else TableSize(matches, n - 1) + Max(matches[2 * (n - 1)] - matches[2 * (n - 1) + 1], 0)
  }

  lemma {:induction false} SizeOfPieces<T>(ps: seq<seq<T>>, matches: seq<int>, n: nat)
    requires n <= |ps| && |matches| == 2 * |ps|
    requires forall k {:trigger ps[k]} :: 0 <= k < n ==> |ps[k]| == Max(matches[2 * k] - matches[2 * k + 1], 0)
    ensures |Concat(ps, n)| == TableSize(matches, n)
  {
    if n > 0 {
      SizeOfPieces(ps, matches, n - 1);
    }
  }

  lemma SplicedSize<T>(chunks: seq<seq<T>>, matches: seq<int>, n: nat)
    requires TableFits(chunks, matches) && n <= |chunks|
    ensures |Spliced(chunks, matches, n)| == TableSize(matches, n)
  {
    SizeOfPieces(Slices(chunks, matches), matches, n);
  }

  /** Nothing is lost or added by splicing: token `x` of the slice of shard `k` sits right after the
      tokens of the slices before it. */
  lemma SplicedAt<T>(chunks: seq<seq<T>>, matches: seq<int>, n: nat, k: nat, x: nat)
    requires TableFits(chunks, matches) && k < n <= |chunks|
    requires x < matches[2 * k] - matches[2 * k + 1]
    ensures EntryFits(chunks, matches, k)
    ensures TableSize(matches, k) + x < |Spliced(chunks, matches, n)|
    ensures Spliced(chunks, matches, n)[TableSize(matches, k) + x] == chunks[k][|chunks[k]| - matches[2 * k] + x]
  {
    var ps := Slices(chunks, matches);
    assert EntryFits(chunks, matches, k);
    SplicedSize(chunks, matches, k);
    SliceAt(chunks[k], matches[2 * k], matches[2 * k + 1], x);
    assert ps[k] == SliceOf(chunks, matches, k);
    ConcatAt(ps, n, k, x);
  }

  lemma SliceAt<T>(c: seq<T>, l: int, r: int, x: nat)
    requires InBuffer(|c|, l, r) && x < l - r
    ensures Slice(c, l, r)[x] == c[|c| - l + x]
  {
  }

  /** Every shard's column, with `f` applied to each token. */
  function MapShards<A, B>(f: A -> B, chunks: seq<seq<A>>): (r: seq<seq<B>>)
    ensures |r| == |chunks| && forall i {:trigger r[i]} :: 0 <= i < |r| ==> r[i] == MapSeq(f, chunks[i])
  {
    seq(|chunks|, i requires 0 <= i < |chunks| => MapSeq(f, chunks[i]))
  }

  lemma MapShardsFits<A, B>(f: A -> B, chunks: seq<seq<A>>, matches: seq<int>)
    requires TableFits(chunks, matches)
    ensures TableFits(MapShards(f, chunks), matches)
  {
    forall i | 0 <= i < |chunks|
      ensures EntryFits(MapShards(f, chunks), matches, i)
    {
      assert EntryFits(chunks, matches, i);
    }
  }

  /** Columns that are spliced with one table stay aligned: splicing a column that is derived token by
      token from another one gives the column derived from the other's splice. */
  lemma SplicedMap<A, B>(f: A -> B, chunks: seq<seq<A>>, matches: seq<int>, n: nat)
    requires TableFits(chunks, matches) && n <= |chunks|
    ensures TableFits(MapShards(f, chunks), matches)
    ensures Spliced(MapShards(f, chunks), matches, n) == MapSeq(f, Spliced(chunks, matches, n))
  {
    MapShardsFits(f, chunks, matches);
    var ps, qs := Slices(chunks, matches), Slices(MapShards(f, chunks), matches);
    forall k | 0 <= k < n
      ensures qs[k] == MapSeq(f, ps[k])
    {
      assert ps[k] == SliceOf(chunks, matches, k);
      SliceMap(f, chunks[k], matches[2 * k], matches[2 * k + 1]);
    }
    ConcatMap(f, ps, qs, n);
  }

  lemma SliceMap<A, B>(f: A -> B, c: seq<A>, l: int, r: int)
    requires InBuffer(|c|, l, r)
    ensures Slice(MapSeq(f, c), l, r) == MapSeq(f, Slice(c, l, r))
  {
  }
}
