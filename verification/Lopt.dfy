/** benchmarks/run_lopt.py, `ParallelTokenizer.check_overlap`: cut the text, tokenise every window,
    match neighbouring shards, splice. Stated here: when the result is the serial tokenisation. */
module Lopt {
  import opened Common
  import opened Chunking
  import opened MatchMerge
  import opened Tokenizers

  // ---- the splice table --------------------------------------------------------------------------

  /** Seams are pairs of suffix counts, one for each pair of neighbours. */
  function Flatten(seams: seq<(int, int)>): (r: seq<int>)
    ensures |r| == 2 * |seams|
    ensures forall k :: 0 <= k < |seams| ==> r[2 * k] == seams[k].0 && r[2 * k + 1] == seams[k].1
  {
    if seams == [] then [] else Flatten(seams[..|seams| - 1]) + [seams[|seams| - 1].0, seams[|seams| - 1].1]
  }

  function Table(firstSize: nat, seams: seq<(int, int)>): (r: seq<int>)
    ensures |r| == 2 * |seams| + 2
    ensures r[0] == firstSize && r[2 * |seams| + 1] == 0
    ensures forall k :: 0 <= k < |seams| ==> r[2 * k + 1] == seams[k].0 && r[2 * (k + 1)] == seams[k].1
  {
    var r := [firstSize] + Flatten(seams) + [0];
    assert forall k :: 0 <= k < |seams| ==> r[2 * k + 1] == Flatten(seams)[2 * k];
    assert forall k :: 0 <= k < |seams| ==> r[2 * (k + 1)] == Flatten(seams)[2 * k + 1];
    r
  }

  // ---- one run of the pipeline -------------------------------------------------------------------

  function Starts(ts: seq<Token>): (r: seq<int>)
    ensures |r| == |ts| && forall i :: 0 <= i < |r| ==> r[i] == ts[i].start
  {
    seq(|ts|, i requires 0 <= i < |ts| => ts[i].start)
  }

  function Ids(ts: seq<Token>): (r: seq<int>)
    ensures |r| == |ts| && forall i {:trigger r[i]} :: 0 <= i < |r| ==> r[i] == ts[i].id
  {
    MapSeq(IdOf, ts)
  }

  function IdOf(t: Token): int {
    t.id
  }

  /** The `input_ids` column of every shard. */
  function IdShards(shards: seq<seq<Token>>): (r: seq<seq<int>>)
    ensures |r| == |shards| && forall k {:trigger r[k]} :: 0 <= k < |r| ==> r[k] == Ids(shards[k])
  {
    MapShards(IdOf, shards)
  }

  /** The tokens of one shard, with offsets into the whole text. */
  function Shifted(ts: seq<Token>, d: int): (r: seq<Token>)
    ensures |r| == |ts|
    ensures forall i {:trigger r[i]} :: 0 <= i < |r| ==> r[i] == Token(ts[i].start + d, ts[i].end + d, ts[i].id)
  {
    seq(|ts|, i requires 0 <= i < |ts| => Token(ts[i].start + d, ts[i].end + d, ts[i].id))
  }

  /** Text, windows, shards and the run that was matched between each pair of neighbours. */
  datatype Attempt = Attempt(text: string, chunkSize: nat, overlap: nat, thres: nat,
                             cks: seq<string>, shards: seq<seq<Token>>, runs: seq<Run>)
  {
    /** Two or more windows, all of them tokenised by `T`, and a match for every pair. */
    ghost predicate Valid(T: string -> seq<Token>) {
      && chunkSize >= 1 && IsChunking(text, chunkSize, overlap, cks)
      && |cks| >= 2 && |shards| == |cks| && |runs| == |cks| - 1
      && (forall k :: 0 <= k < |cks| ==> Shard(T, k))
      && (forall k :: 0 <= k < |runs| ==> Matched(k))
    }

    ghost predicate Shard(T: string -> seq<Token>, k: nat)
      requires k < |cks| && |shards| == |cks|
    {
      shards[k] == T(cks[k])
    }

    ghost predicate Matched(k: nat)
      requires k < |runs| && |shards| == |runs| + 1
    {
      IsRun(Starts(shards[k]), Starts(shards[k + 1]), chunkSize, runs[k]) && runs[k].size >= thres + 2
    }

    /** Where shard `k` is cut on its right: at the second-to-last token of the matched run. */
    ghost function RightCut(k: nat): int
      requires k < |shards| == |runs| + 1
    {
      if k < |runs| then runs[k].i + runs[k].size - 2 else |shards[k]|
    }

    /** Where shard `k` is cut on its left. */
    ghost function LeftCut(k: nat): int
      requires k < |shards| == |runs| + 1
    {
      if k > 0 then runs[k - 1].j + runs[k - 1].size - 2 else 0
    }

    ghost function Seams(): (r: seq<(int, int)>)
      requires |shards| == |runs| + 1
      ensures |r| == |runs|
    {
      seq(|runs|, k requires 0 <= k < |runs| =>
        (|shards[k]| - RightCut(k), |shards[k + 1]| - LeftCut(k + 1)))
    }

    ghost function SpliceTable(): (r: seq<int>)
      requires |shards| == |runs| + 1
    {
      Table(|shards[0]|, Seams())
    }

    lemma TableEntry(k: nat)
      requires k < |shards| == |runs| + 1
      ensures |SpliceTable()| == 2 * |shards|
      ensures SpliceTable()[2 * k] == |shards[k]| - LeftCut(k)
      ensures SpliceTable()[2 * k + 1] == |shards[k]| - RightCut(k)
    {
      if k > 0 {
        assert SpliceTable()[2 * (k - 1 + 1)] == Seams()[k - 1].1;
      }
    }

    /** Shard `k` covers its window, and the window is where it should be in the text. */
    ghost predicate Part(k: nat)
      requires k < |shards| == |cks|
    {
      && cks[k] != "" && Tiles(shards[k], 0, |cks[k]|)
      && IsPartOf(text, cks[k], Offset(chunkSize, k))
      && (k + 1 < |cks| ==> |cks[k]| <= chunkSize + overlap)
      && (k + 1 == |cks| ==> Offset(chunkSize, k) + |cks[k]| == |text|)
      && (Offset(chunkSize, k) + |cks[k]| == |text| || |cks[k]| == chunkSize + overlap)
    }

    ghost predicate Sewn() {
      && |shards| == |cks| == |runs| + 1 && |runs| >= 1
      && (forall k :: 0 <= k < |shards| ==> Part(k))
      && (forall k :: 0 <= k < |runs| ==> Matched(k))
    }

    lemma ValidIsSewn(T: string -> seq<Token>)
      requires Valid(T) && Covers(T)
      ensures Sewn()
    {
      forall k | 0 <= k < |shards|
        ensures Part(k)
      {
        assert Shard(T, k) && CoversText(T, cks[k]);
        WindowShape(text, chunkSize, overlap, cks, k);
      }
    }

    /** A seam lies within the overlap of its two windows, and the two shards agree on it. */
    lemma SeamFacts(k: nat)
      requires Sewn() && k < |runs|
      ensures 0 <= runs[k].i <= RightCut(k) < |shards[k]| && 0 <= runs[k].j <= LeftCut(k + 1) < |shards[k + 1]|
      ensures shards[k][RightCut(k)].start == shards[k + 1][LeftCut(k + 1)].start + chunkSize
      ensures chunkSize <= shards[k][runs[k].i].start
      ensures 0 <= shards[k + 1][LeftCut(k + 1)].start < overlap - 1
    {
      assert Part(k) && Part(k + 1) && Matched(k);
      SeamOfParts(k);
    }

    lemma SeamOfParts(k: nat)
      requires k < |runs| && |shards| == |cks| == |runs| + 1 && Part(k) && Part(k + 1) && Matched(k)
      ensures 0 <= runs[k].i <= RightCut(k) < |shards[k]| && 0 <= runs[k].j <= LeftCut(k + 1) < |shards[k + 1]|
      ensures shards[k][RightCut(k)].start == shards[k + 1][LeftCut(k + 1)].start + chunkSize
      ensures chunkSize <= shards[k][runs[k].i].start
      ensures 0 <= shards[k + 1][LeftCut(k + 1)].start < overlap - 1
    {
      assert LeftCut(k + 1) == runs[k].j + runs[k].size - 2;
      PairSeam(shards[k], |cks[k]|, shards[k + 1], |cks[k + 1]|, chunkSize, runs[k]);
    }

    /** Every cut lies within its shard. */
    ghost predicate CutsFit() {
      |shards| == |runs| + 1 && forall k {:trigger CutFits(k)} :: 0 <= k < |shards| ==> CutFits(k)
    }

    ghost predicate CutFits(k: nat)
      requires k < |shards| == |runs| + 1
    {
      0 <= LeftCut(k) < |shards[k]| && 0 <= RightCut(k) <= |shards[k]|
    }

    lemma AllCutsFit()
      requires Sewn()
      ensures CutsFit()
    {
      forall k | 0 <= k < |shards|
        ensures CutFits(k)
      {
        assert Part(k);
        if k > 0 {
          SeamFacts(k - 1);
        }
        if k < |runs| {
          SeamFacts(k);
        }
      }
    }

    /** No shard is cut further left on its right side than on its left side. */
    ghost predicate CutsInOrder() {
      |shards| == |runs| + 1 && forall k {:trigger CutInOrder(k)} :: 0 <= k < |shards| ==> CutInOrder(k)
    }

    ghost predicate CutInOrder(k: nat)
      requires k < |shards| == |runs| + 1
    {
      LeftCut(k) <= RightCut(k)
    }

    /** A left cut lies within the overlap, and not on the last character but one; a right cut lies at
        least the threshold beyond the chunk. So an overlap that exceeds the chunk by no more than the
        threshold and two keeps them in order, and one that is shorter still keeps them apart. */
    lemma CutsApart(k: nat)
      requires Sewn() && overlap <= chunkSize + thres + 2 && k < |shards|
      ensures LeftCut(k) <= RightCut(k)
      ensures overlap <= chunkSize + thres + 1 ==> LeftCut(k) < RightCut(k)
    {
      assert Part(k);
      if k > 0 {
        SeamFacts(k - 1);
      }
      if k < |runs| {
        SeamFacts(k);
        assert Matched(k);
        TilesOrder(shards[k], 0, |cks[k]|, runs[k].i, RightCut(k));
        StartsOrder(shards[k], 0, |cks[k]|, RightCut(k), LeftCut(k));
      }
    }

    lemma AllCutsInOrder()
      requires Sewn() && overlap <= chunkSize + thres + 2
      ensures CutsInOrder()
    {
      forall k | 0 <= k < |shards|
        ensures CutInOrder(k)
      {
        CutsApart(k);
      }
    }

    /** The tokens that the splice takes from shard `k`, with offsets into the whole text: none if its
        cuts are out of order. */
    ghost function Piece(k: nat): (r: seq<Token>)
      requires CutsFit() && k < |shards|
    {
      assert CutFits(k);
      if CutInOrder(k) then Shifted(shards[k], Offset(chunkSize, k))[LeftCut(k)..RightCut(k)] else []
    }

    lemma PieceSize(k: nat)
      requires CutsFit() && CutsInOrder() && k < |shards|
      ensures 0 <= LeftCut(k) <= RightCut(k) <= |shards[k]|
      ensures Piece(k) == Shifted(shards[k], Offset(chunkSize, k))[LeftCut(k)..RightCut(k)]
      ensures |Piece(k)| == RightCut(k) - LeftCut(k)
    {
      assert CutFits(k) && CutInOrder(k);
    }

    ghost function Pieces(): (ps: seq<seq<Token>>)
      requires CutsFit()
      ensures |ps| == |shards| && forall k {:trigger ps[k]} :: 0 <= k < |ps| ==> ps[k] == Piece(k)
    {
      seq(|shards|, k requires 0 <= k < |shards| => Piece(k))
    }

    /** The tokens taken from the first `n` shards. */
    ghost function Taken(n: nat): (r: seq<Token>)
      requires CutsFit() && n <= |shards|
    {
      Concat(Pieces(), n)
    }

    lemma TakenStep(n: nat)
      requires CutsFit() && n < |shards|
      ensures Taken(n + 1) == Taken(n) + Piece(n)
    {
    }

    /** Where in the text the tokens of shard `k` take over. */
    ghost function Seam(k: nat): int
      requires CutsFit() && k <= |shards|
    {
      assert k < |shards| ==> CutFits(k);
      if k < |shards| then shards[k][LeftCut(k)].start + Offset(chunkSize, k) else |text|
    }

    lemma PieceIds(k: nat)
      requires CutsFit() && k < |shards|
      ensures EntryFits(IdShards(shards), SpliceTable(), k)
      ensures SliceOf(IdShards(shards), SpliceTable(), k) == Ids(Piece(k))
    {
      assert CutFits(k);
      TableEntry(k);
      SliceIds(shards[k], Offset(chunkSize, k), LeftCut(k), RightCut(k));
      EntryOf(IdShards(shards), SpliceTable(), k, Ids(shards[k]), |shards[k]| - LeftCut(k), |shards[k]| - RightCut(k));
    }

    lemma TableFitsIds()
      requires CutsFit()
      ensures TableFits(IdShards(shards), SpliceTable())
    {
      forall k | 0 <= k < |shards|
        ensures EntryFits(IdShards(shards), SpliceTable(), k)
      {
        PieceIds(k);
      }
    }

    /** The splice of the shards' ids is the ids of `Taken`. */
    lemma SpliceIsTaken(n: nat)
      requires CutsFit() && n <= |shards|
      ensures TableFits(IdShards(shards), SpliceTable())
      ensures Spliced(IdShards(shards), SpliceTable(), n) == Ids(Taken(n))
    {
      TableFitsIds();
      var ps, qs := Pieces(), Slices(IdShards(shards), SpliceTable());
      forall k | 0 <= k < n
        ensures qs[k] == MapSeq(IdOf, ps[k])
      {
        PieceIds(k);
      }
      ConcatMap(IdOf, ps, qs, n);
    }

    /** Where the shards take over, and the end of the text. */
    ghost function Places(): (r: seq<int>)
      requires CutsFit()
      ensures |r| == |shards| + 1 && forall k {:trigger r[k]} :: 0 <= k < |r| ==> r[k] == Seam(k)
    {
      seq(|shards| + 1, k requires 0 <= k <= |shards| => Seam(k))
    }

    lemma FirstSeam()
      requires Sewn() && CutsFit()
      ensures Seam(0) == 0
    {
      assert Part(0) && CutFits(0);
    }

    /** The next seam is at the right cut. */
    lemma NextSeam(k: nat)
      requires Sewn() && CutsFit() && k < |shards|
      ensures CutFits(k)
      ensures var a, d := shards[k], Offset(chunkSize, k);
              Seam(k + 1) == if RightCut(k) < |a| then a[RightCut(k)].start + d else |cks[k]| + d
    {
      assert Part(k) && CutFits(k);
      if k < |runs| {
        SeamFacts(k);
      }
    }

    lemma ShiftedPiece(k: nat)
      requires Sewn() && CutsFit() && k < |shards|
      ensures if CutInOrder(k) then Tiles(Piece(k), Seam(k), Seam(k + 1)) else Piece(k) == [] && Seam(k + 1) < Seam(k)
    {
      assert Part(k) && CutFits(k);
      NextSeam(k);
      CutTiles(shards[k], |cks[k]|, Offset(chunkSize, k), LeftCut(k), RightCut(k));
    }

    /** Text conservation, whatever the tokenizer did inside the overlaps: with the cuts in order, the
        tokens taken cover the text, with no gap and no overlap. */
    lemma TakenTiles()
      requires Sewn() && CutsFit() && CutsInOrder()
      ensures Tiles(Taken(|shards|), 0, |text|)
    {
      FirstSeam();
      var ps, places := Pieces(), Places();
      forall k | 0 <= k < |ps|
        ensures Tiles(ps[k], places[k], places[k + 1])
      {
        assert CutInOrder(k);
        ShiftedPiece(k);
      }
      ConcatTiles(ps, places, |ps|);
    }

    lemma TakenWithin()
      requires Sewn() && CutsFit()
      ensures forall t :: t in Taken(|shards|) ==> 0 <= t.start <= t.end <= |text|
    {
      var ps := Pieces();
      forall k | 0 <= k < |ps|
        ensures AllWithin(ps[k], |text|)
      {
        PieceWithin(k);
      }
      ConcatWithin(ps, |ps|, |text|);
    }

    lemma PieceWithin(k: nat)
      requires Sewn() && CutsFit() && k < |shards|
      ensures AllWithin(Piece(k), |text|)
    {
      assert Part(k) && CutFits(k);
      forall i | 0 <= i < |shards[k]|
        ensures 0 <= shards[k][i].start <= shards[k][i].end <= |cks[k]|
      {
        TilesOrder(shards[k], 0, |cks[k]|, i, i);
      }
    }

    /** Once some cuts are out of order, the tokens taken are longer than the text: some of it occurs
        twice. */
    lemma TakenTooLong(x: nat)
      requires Sewn() && CutsFit() && x < |shards| && !CutInOrder(x)
      ensures Extent(Taken(|shards|)) > |text|
    {
      FirstSeam();
      var ps, places := Pieces(), Places();
      forall k | 0 <= k < |ps|
        ensures Extent(ps[k]) >= places[k + 1] - places[k]
        ensures k == x ==> Extent(ps[k]) > places[k + 1] - places[k]
      {
        PieceExtent(k);
      }
      ConcatExtent(ps, places, |ps|, x);
    }

    lemma PieceExtent(k: nat)
      requires Sewn() && CutsFit() && k < |shards|
      ensures Extent(Piece(k)) >= Seam(k + 1) - Seam(k)
      ensures !CutInOrder(k) ==> Extent(Piece(k)) > Seam(k + 1) - Seam(k)
    {
      ShiftedPiece(k);
      if CutInOrder(k) {
        TilesSize(Piece(k), Seam(k), Seam(k + 1));
      }
    }
  }

  // ---- pieces in a row -----------------------------------------------------------------------------

  lemma {:induction false} ConcatTiles(ps: seq<seq<Token>>, places: seq<int>, n: nat)
    requires |places| == |ps| + 1 && n <= |ps|
    requires forall k {:trigger ps[k]} :: 0 <= k < n ==> Tiles(ps[k], places[k], places[k + 1])
    ensures Tiles(Concat(ps, n), places[0], places[n])
  {
    if n > 0 {
      ConcatTiles(ps, places, n - 1);
      AppendTiles(Concat(ps, n - 1), ps[n - 1], Concat(ps, n), places[0], places[n - 1], places[n]);
    }
  }

  ghost predicate AllWithin(ts: seq<Token>, size: int) {
    forall t :: t in ts ==> 0 <= t.start <= t.end <= size
  }

  lemma {:induction false} ConcatWithin(ps: seq<seq<Token>>, n: nat, size: int)
    requires n <= |ps| && forall k :: 0 <= k < n ==> AllWithin(ps[k], size)
    ensures AllWithin(Concat(ps, n), size)
  {
    if n > 0 {
      ConcatWithin(ps, n - 1, size);
    }
  }

  /** Pieces that are each as long as the way from place to place, and piece `x` longer. */
  lemma {:induction false} ConcatExtent(ps: seq<seq<Token>>, places: seq<int>, n: nat, x: nat)
    requires |places| == |ps| + 1 && n <= |ps|
    requires forall k {:trigger ps[k]} :: 0 <= k < n ==> Extent(ps[k]) >= places[k + 1] - places[k]
    requires x < n ==> Extent(ps[x]) > places[x + 1] - places[x]
    ensures Extent(Concat(ps, n)) >= places[n] - places[0]
    ensures x < n ==> Extent(Concat(ps, n)) > places[n] - places[0]
  {
    if n > 0 {
      ConcatExtent(ps, places, n - 1, x);
      ExtentOfConcat(Concat(ps, n - 1), ps[n - 1]);
    }
  }

  lemma EntryOf(chunks: seq<seq<int>>, matches: seq<int>, k: nat, c: seq<int>, l: int, r: int)
    requires k < |chunks| && |matches| == 2 * |chunks| && InBuffer(|c|, l, r)
    requires chunks[k] == c && matches[2 * k] == l && matches[2 * k + 1] == r
    ensures EntryFits(chunks, matches, k) && SliceOf(chunks, matches, k) == Slice(c, l, r)
  {
  }

  lemma SliceIds(ts: seq<Token>, d: int, l: int, r: int)
    requires 0 <= l <= |ts| && 0 <= r <= |ts|
    ensures InBuffer(|ts|, |ts| - l, |ts| - r)
    ensures Slice(Ids(ts), |ts| - l, |ts| - r) == Ids(if l <= r then Shifted(ts, d)[l..r] else [])
  {
  }

  /** A shard between two cuts. */
  lemma CutTiles(a: seq<Token>, size: int, d: int, l: int, r: int)
    requires Tiles(a, 0, size) && 0 <= l < |a| && 0 <= r <= |a|
    ensures var hi := if r < |a| then a[r].start else size;
            if l <= r then Tiles(Shifted(a, d)[l..r], a[l].start + d, hi + d) else hi < a[l].start
  {
    if l < r {
      ShiftTiles(a, 0, size, d);
      SliceTiles(Shifted(a, d), d, size + d, l, r);
    } else if r < l {
      StartsOrder(a, 0, size, r, l);
    }
  }

  /** Characters in all the tokens together. */
  function Extent(ts: seq<Token>): (n: int) {
    if ts == [] then 0 else Extent(ts[..|ts| - 1]) + ts[|ts| - 1].end - ts[|ts| - 1].start
  }

  lemma {:induction false} ExtentOfConcat(ts: seq<Token>, ts': seq<Token>)
    ensures Extent(ts + ts') == Extent(ts) + Extent(ts')
  {
    if ts' == [] {
      assert ts + ts' == ts;
    } else {
      var n := |ts'| - 1;
      ExtentOfConcat(ts, ts'[..n]);
      assert (ts + ts')[..|ts| + n] == ts + ts'[..n];
    }
  }

  lemma {:induction false} TilesSize(ts: seq<Token>, lo: int, hi: int)
    requires Tiles(ts, lo, hi)
    ensures Extent(ts) == hi - lo
    decreases |ts|
  {
    if |ts| == 1 {
      assert ts[..0] == [];
    } else if ts != [] {
      var n := |ts| - 1;
      SliceTiles(ts, lo, hi, 0, n);
      assert ts[..n] == ts[0..n];
      TilesSize(ts[..n], lo, ts[n].start);
    }
  }

  lemma ShiftTiles(ts: seq<Token>, lo: int, hi: int, d: int)
    requires Tiles(ts, lo, hi)
    ensures Tiles(Shifted(ts, d), lo + d, hi + d)
  {
    forall i | 0 <= i < |ts|
      ensures Meets(Shifted(ts, d), i)
    {
      assert Meets(ts, i);
    }
  }

  /** Later starts belong to later tokens. */
  lemma StartsOrder(ts: seq<Token>, lo: int, hi: int, i: int, j: int)
    requires Tiles(ts, lo, hi) && 0 <= i < |ts| && 0 <= j < |ts|
    ensures lo <= ts[i].start < hi
    ensures ts[i].start < ts[j].start <==> i < j
  {
    TilesOrder(ts, lo, hi, i, i);
    if i < j {
      TilesOrder(ts, lo, hi, i, j);
    } else {
      TilesOrder(ts, lo, hi, j, i);
    }
  }

  /** What a run of aligned starts says about the tokens of the two shards, at token `x` of the run. */
  lemma RunOnStarts(a: seq<Token>, aSize: int, b: seq<Token>, bSize: int, shift: int, r: Run, x: int)
    requires Tiles(a, 0, aSize) && Tiles(b, 0, bSize)
    requires IsRun(Starts(a), Starts(b), shift, r) && 0 <= x < r.size
    ensures a[r.i + x].start == b[r.j + x].start + shift
    ensures shift <= a[r.i + x].start <= aSize - (r.size - x)
  {
    assert Starts(a)[r.i + x] == Starts(b)[r.i + x - r.i + r.j] + shift;
    TilesOrder(a, 0, aSize, r.i + x, r.i + r.size - 1);
    TilesOrder(b, 0, bSize, r.j + x, r.j + x);
  }

  /** The second-to-last pair of a run, and its first. */
  lemma PairSeam(a: seq<Token>, aSize: int, b: seq<Token>, bSize: int, shift: int, r: Run)
    requires Tiles(a, 0, aSize) && Tiles(b, 0, bSize) && IsRun(Starts(a), Starts(b), shift, r) && r.size >= 2
    ensures a[r.i + r.size - 2].start == b[r.j + r.size - 2].start + shift
    ensures shift <= a[r.i].start
    ensures 0 <= b[r.j + r.size - 2].start < aSize - shift - 1
  {
    RunOnStarts(a, aSize, b, bSize, shift, r, 0);
    RunOnStarts(a, aSize, b, bSize, shift, r, r.size - 2);
    TilesOrder(b, 0, bSize, r.j + r.size - 2, r.j + r.size - 2);
  }

  // ---- following the serial tokenizer through a shard ----------------------------------------------

  /** The window of the whole text at a token of the shard is also the shard's window: enough text
      follows within the shard, or the shard ends where the text ends. */
  predicate SeesEnough(size: int, atEnd: bool, start: int, w: nat) {
    start + w <= size || atEnd
  }

  /** The text `c` occurs in `s` at position `o`. */
  predicate IsPartOf(s: string, c: string, o: nat) {
    o + |c| <= |s| && forall x {:trigger c[x]} :: 0 <= x < |c| ==> c[x] == s[o + x]
  }

  lemma SubWindow(s: string, c: string, o: nat, p: int, q: int)
    requires IsPartOf(s, c, o) && 0 <= p <= q <= |c|
    ensures c[p..q] == s[p + o..q + o]
  {
    assert forall x :: 0 <= x < q - p ==> c[p..q][x] == s[p + o..q + o][x];
  }

  lemma SameWindow(s: string, c: string, o: nat, p: int, w: nat)
    requires IsPartOf(s, c, o) && 0 <= p <= |c|
    requires SeesEnough(|c|, o + |c| == |s|, p, w)
    ensures Window(s, p + o, w) == Window(c, p, w)
  {
    var e := Min(p + w, |c|);
    assert Min(p + o + w, |s|) == o + e;
    SubWindow(s, c, o, p, e);
  }

  lemma SameText(s: string, c: string, o: nat, t: Token, t': Token)
    requires IsPartOf(s, c, o) && 0 <= t.start <= t.end <= |c|
    requires t'.start == t.start + o && t'.end == t.end + o
    ensures Text(s, t') == Text(c, t)
  {
    SubWindow(s, c, o, t.start, t.end);
  }

  /** Where token `i` of the shard of `c` starts at the same place as token `m` of the whole text, and
      sees enough text, they are the same token. */
  lemma SameToken(T: string -> seq<Token>, w: nat, s: string, c: string, o: nat, i: nat, m: nat)
    requires Lawful(T, w) && IsPartOf(s, c, o) && i < |T(c)| && m < |T(s)|
    requires T(s)[m].start == T(c)[i].start + o
    requires SeesEnough(|c|, o + |c| == |s|, T(c)[i].start, w)
    ensures T(s)[m] == Token(T(c)[i].start + o, T(c)[i].end + o, T(c)[i].id)
  {
    var t, t' := T(c)[i], T(s)[m];
    assert CoversText(T, c);
    TilesOrder(T(c), 0, |c|, i, i);
    SameWindow(s, c, o, t.start, w);
    assert SameWindowSameSize(T, w, s, c, m, i);
    SameText(s, c, o, t, t');
    assert SameTextSameId(T, s, c, m, i);
  }

  lemma NextStart(T: string -> seq<Token>, s: string, m: nat)
    requires Covers(T) && m < |T(s)|
    ensures if m + 1 < |T(s)| then T(s)[m].end == T(s)[m + 1].start && T(s)[m].end < |s| else T(s)[m].end == |s|
  {
    assert CoversText(T, s) && Meets(T(s), m);
    if m + 1 < |T(s)| {
      TilesOrder(T(s), 0, |s|, m + 1, m + 1);
    }
  }

  function Moved(t: Token, d: int): Token {
    Token(t.start + d, t.end + d, t.id)
  }

  /** From token `m` on, `s` holds the tokens p to q of `ts`, moved by `d`. */
  ghost predicate Agrees(s: seq<Token>, m: int, ts: seq<Token>, d: int, p: int, q: int) {
    && 0 <= p <= q <= |ts| && 0 <= m && m + (q - p) <= |s|
    && forall y {:trigger ts[y]} :: p <= y < q ==> s[m + (y - p)] == Moved(ts[y], d)
  }

  lemma AgreesJoined(s: seq<Token>, m: int, ts: seq<Token>, d: int, p: int, q: int, r: int)
    requires Agrees(s, m, ts, d, p, q) && Agrees(s, m + (q - p), ts, d, q, r)
    ensures Agrees(s, m, ts, d, p, r)
  {
  }

  lemma AgreesSlice(s: seq<Token>, m: int, ts: seq<Token>, d: int, p: int, q: int)
    requires Agrees(s, m, ts, d, p, q)
    ensures s[m..m + (q - p)] == Shifted(ts, d)[p..q]
  {
    var g, h := s[m..m + (q - p)], Shifted(ts, d)[p..q];
    forall x | 0 <= x < q - p
      ensures g[x] == h[x]
    {
      assert h[x] == Moved(ts[p + x], d);
    }
  }

  /** From a common start on, the shard keeps producing the tokens of the whole text. */
  lemma {:induction false} Follow(T: string -> seq<Token>, w: nat, s: string, c: string, o: nat, p: nat, q: nat, m: nat)
    requires Lawful(T, w) && IsPartOf(s, c, o) && p < |T(c)| && p <= q <= |T(c)| && m < |T(s)|
    requires T(s)[m].start == T(c)[p].start + o
    requires forall i :: p <= i < q ==> SeesEnough(|c|, o + |c| == |s|, T(c)[i].start, w)
    ensures Agrees(T(s), m, T(c), o, p, q)
    ensures q < |T(c)| ==> m + (q - p) < |T(s)| && T(s)[m + (q - p)].start == T(c)[q].start + o
    ensures q == |T(c)| && o + |c| == |s| ==> m + (q - p) == |T(s)|
    decreases q
  {
    if p < q {
      Follow(T, w, s, c, o, p, q - 1, m);
      var m' := m + (q - 1 - p);
      SameToken(T, w, s, c, o, q - 1, m');
      NextStart(T, s, m');
      NextStart(T, c, q - 1);
    }
  }

  // ---- losslessness ------------------------------------------------------------------------------

  /** Shard `k` is right up to the matched run of seam `k`: every token before the run sees `w`
      characters within the window, or the window ends where the text ends. */
  ghost predicate SafeRun(A: Attempt, w: nat, k: nat)
    requires k < |A.runs| && |A.shards| == |A.cks| == |A.runs| + 1
  {
    var i := A.runs[k].i;
    && 0 <= i < |A.shards[k]|
    && (i > 0 ==> SeesEnough(|A.cks[k]|, Offset(A.chunkSize, k) + |A.cks[k]| == |A.text|, A.shards[k][i - 1].start, w))
  }

  ghost predicate Setting(T: string -> seq<Token>, w: nat, A: Attempt) {
    && Lawful(T, w) && A.Valid(T) && A.Sewn() && A.CutsFit() && A.CutsInOrder()
    && w <= A.chunkSize + 3
  }

  /** The left shard is right up to the start of the matched run. */
  lemma UpToRun(T: string -> seq<Token>, w: nat, A: Attempt, k: nat, m: nat)
    requires Setting(T, w, A) && k < |A.runs| && SafeRun(A, w, k) && 0 <= A.LeftCut(k) <= A.runs[k].i
    requires m < |T(A.text)| && T(A.text)[m].start == A.Seam(k)
    ensures var n := A.runs[k].i - A.LeftCut(k); var d := Offset(A.chunkSize, k);
            && m + n < |T(A.text)|
            && Agrees(T(A.text), m, A.shards[k], d, A.LeftCut(k), A.runs[k].i)
            && T(A.text)[m + n].start == A.shards[k][A.runs[k].i].start + d
  {
    assert A.CutFits(k);
    forall x | A.LeftCut(k) <= x < A.runs[k].i
      ensures ShardSees(A, w, k, x)
    {
      SeesBeforeRun(A, w, k, x);
    }
    FollowShard(T, w, A, k, A.LeftCut(k), A.runs[k].i, m);
  }

  ghost predicate ShardSees(A: Attempt, w: nat, k: nat, x: nat)
    requires k < |A.shards| == |A.cks| && x < |A.shards[k]|
  {
    SeesEnough(|A.cks[k]|, Offset(A.chunkSize, k) + |A.cks[k]| == |A.text|, A.shards[k][x].start, w)
  }

  /** From a serial token start on, shard `k` is right for as long as its tokens see enough. */
  lemma FollowShard(T: string -> seq<Token>, w: nat, A: Attempt, k: nat, p: nat, q: nat, m: nat)
    requires Lawful(T, w) && A.Valid(T) && A.Sewn() && k < |A.shards| && p < |A.shards[k]| && p <= q <= |A.shards[k]|
    requires m < |T(A.text)| && T(A.text)[m].start == A.shards[k][p].start + Offset(A.chunkSize, k)
    requires forall x :: p <= x < q ==> ShardSees(A, w, k, x)
    ensures Agrees(T(A.text), m, A.shards[k], Offset(A.chunkSize, k), p, q)
    ensures q < |A.shards[k]| ==>
              && m + (q - p) < |T(A.text)|
              && T(A.text)[m + (q - p)].start == A.shards[k][q].start + Offset(A.chunkSize, k)
    ensures q == |A.shards[k]| && k == |A.shards| - 1 ==> m + (q - p) == |T(A.text)|
  {
    assert A.Shard(T, k) && A.Part(k);
    var c, d := A.cks[k], Offset(A.chunkSize, k);
    forall x | p <= x < q
      ensures SeesEnough(|c|, d + |c| == |A.text|, T(c)[x].start, w)
    {
      assert ShardSees(A, w, k, x);
    }
    Follow(T, w, A.text, c, d, p, q, m);
  }

  lemma SeesBeforeRun(A: Attempt, w: nat, k: nat, x: int)
    requires A.Sewn() && k < |A.runs| && SafeRun(A, w, k) && 0 <= x < A.runs[k].i
    ensures ShardSees(A, w, k, x)
  {
    assert A.Part(k);
    StartsOrder(A.shards[k], 0, |A.cks[k]|, x, A.runs[k].i - 1);
  }

  /** Up to its left cut the right window sees enough text: it is longer than the overlap by a chunk, or
      it ends where the text ends. */
  lemma SeesInOverlap(A: Attempt, w: nat, k: nat, x: int)
    requires A.Sewn() && w <= A.chunkSize + 3 && k < |A.runs|
    requires 0 <= x < A.LeftCut(k + 1)
    ensures A.LeftCut(k + 1) < |A.shards[k + 1]|
    ensures ShardSees(A, w, k + 1, x)
  {
    A.SeamFacts(k);
    assert A.Part(k + 1);
    StartsOrder(A.shards[k + 1], 0, |A.cks[k + 1]|, x, A.LeftCut(k + 1));
  }

  /** The right shard is right from token `x` of the matched run on, if that starts at a serial token
      start. */
  lemma FromRun(T: string -> seq<Token>, w: nat, A: Attempt, k: nat, x: nat, m: nat)
    requires Setting(T, w, A) && k < |A.runs| && x + 2 <= A.runs[k].size
    requires 0 <= A.runs[k].i + x < |A.shards[k]|
    requires m < |T(A.text)| && T(A.text)[m].start == A.shards[k][A.runs[k].i + x].start + Offset(A.chunkSize, k)
    ensures 0 <= A.runs[k].j + x <= A.LeftCut(k + 1) < |A.shards[k + 1]|
    ensures var n := A.LeftCut(k + 1) - A.runs[k].j - x; var d := Offset(A.chunkSize, k + 1);
            && m + n < |T(A.text)|
            && Agrees(T(A.text), m, A.shards[k + 1], d, A.runs[k].j + x, A.LeftCut(k + 1))
            && T(A.text)[m + n].start == A.Seam(k + 1)
  {
    A.SeamFacts(k);
    RunTokensTogether(A, k, x);
    var j, k' := A.runs[k].j + x, k + 1;
    forall y | j <= y < A.LeftCut(k')
      ensures ShardSees(A, w, k', y)
    {
      SeesInOverlap(A, w, k, y);
    }
    FollowShard(T, w, A, k', j, A.LeftCut(k'), m);
  }

  /** A token inside a run, but not its last one, has the same extent in both shards. */
  lemma RunTokensTogether(A: Attempt, k: nat, x: nat)
    requires A.Sewn() && k < |A.runs| && x + 1 < A.runs[k].size
    ensures 0 <= A.runs[k].i + x < |A.shards[k]| && 0 <= A.runs[k].j + x < |A.shards[k + 1]|
    ensures var d, d' := Offset(A.chunkSize, k), Offset(A.chunkSize, k + 1);
            var t, t' := A.shards[k][A.runs[k].i + x], A.shards[k + 1][A.runs[k].j + x];
            && t.start + d == t'.start + d' && t.end + d == t'.end + d'
            && 0 <= t.start <= t.end <= |A.cks[k]|
  {
    assert A.Part(k) && A.Part(k + 1) && A.Matched(k);
    var a, b, r := A.shards[k], A.shards[k + 1], A.runs[k];
    RunOnStarts(a, |A.cks[k]|, b, |A.cks[k + 1]|, A.chunkSize, r, x);
    RunOnStarts(a, |A.cks[k]|, b, |A.cks[k + 1]|, A.chunkSize, r, x + 1);
    assert Meets(a, r.i + x) && Meets(b, r.j + x);
  }

  /** Within the run, up to the cut, the left shard's tokens are the right shard's. */
  lemma RunTokens(T: string -> seq<Token>, w: nat, A: Attempt, k: nat, m: nat, x: nat)
    requires Setting(T, w, A) && k < |A.runs| && x + 1 < A.runs[k].size
    requires 0 <= A.runs[k].i + x < |A.shards[k]| && 0 <= A.runs[k].j + x < |A.shards[k + 1]|
    requires m < |T(A.text)|
    requires T(A.text)[m] == Moved(A.shards[k + 1][A.runs[k].j + x], Offset(A.chunkSize, k + 1))
    ensures T(A.text)[m] == Moved(A.shards[k][A.runs[k].i + x], Offset(A.chunkSize, k))
  {
    RunTokensTogether(A, k, x);
    assert A.Shard(T, k);
    assert A.Part(k);
    var i := A.runs[k].i + x;
    SameText(A.text, A.cks[k], Offset(A.chunkSize, k), A.shards[k][i], T(A.text)[m]);
    assert SameTextSameId(T, A.text, A.cks[k], m, i);
  }

  /** The serial tokens in the run, from its token `x` on, are also what the left shard has there, up to
      its cut. */
  lemma RunPiece(T: string -> seq<Token>, w: nat, A: Attempt, k: nat, x: nat, m: nat)
    requires Setting(T, w, A) && k < |A.runs| && x + 2 <= A.runs[k].size
    requires 0 <= A.runs[k].i + x <= A.RightCut(k) < |A.shards[k]|
    requires Agrees(T(A.text), m, A.shards[k + 1], Offset(A.chunkSize, k + 1), A.runs[k].j + x, A.LeftCut(k + 1))
    ensures Agrees(T(A.text), m, A.shards[k], Offset(A.chunkSize, k), A.runs[k].i + x, A.RightCut(k))
  {
    var i, j := A.runs[k].i + x, A.runs[k].j + x;
    assert A.RightCut(k) - i == A.LeftCut(k + 1) - j == A.runs[k].size - 2 - x;
    forall y | i <= y < A.RightCut(k)
      ensures T(A.text)[m + (y - i)] == Moved(A.shards[k][y], Offset(A.chunkSize, k))
    {
      var z := y - i;
      assert T(A.text)[m + z] == Moved(A.shards[k + 1][j + z], Offset(A.chunkSize, k + 1));
      RunTokens(T, w, A, k, m + z, x + z);
    }
  }

  /** From token `x` of the matched run to the cut the left shard is right too, if that starts at a
      serial token start, and the right shard takes over at a serial token start. */
  lemma RunToCut(T: string -> seq<Token>, w: nat, A: Attempt, k: nat, x: nat, m: nat)
    requires Setting(T, w, A) && k < |A.runs| && x + 2 <= A.runs[k].size && 0 <= A.runs[k].i + x < |A.shards[k]|
    requires m < |T(A.text)| && T(A.text)[m].start == A.shards[k][A.runs[k].i + x].start + Offset(A.chunkSize, k)
    ensures 0 <= A.runs[k].i + x <= A.RightCut(k) < |A.shards[k]|
    ensures var n := A.RightCut(k) - A.runs[k].i - x;
            && m + n < |T(A.text)|
            && Agrees(T(A.text), m, A.shards[k], Offset(A.chunkSize, k), A.runs[k].i + x, A.RightCut(k))
            && T(A.text)[m + n].start == A.Seam(k + 1)
  {
    A.SeamFacts(k);
    FromRun(T, w, A, k, x, m);
    assert A.LeftCut(k + 1) == A.runs[k].j + A.runs[k].size - 2;
    RunPiece(T, w, A, k, x, m);
  }

  /** From a serial token start before the matched run on, the left shard is right up to its cut. */
  lemma UpToCut(T: string -> seq<Token>, w: nat, A: Attempt, k: nat, m: nat)
    requires Setting(T, w, A) && k < |A.runs| && SafeRun(A, w, k) && 0 <= A.LeftCut(k) <= A.runs[k].i
    requires m < |T(A.text)| && T(A.text)[m].start == A.Seam(k)
    ensures A.LeftCut(k) <= A.RightCut(k) < |A.shards[k]|
    ensures var n := A.RightCut(k) - A.LeftCut(k);
            && m + n < |T(A.text)|
            && Agrees(T(A.text), m, A.shards[k], Offset(A.chunkSize, k), A.LeftCut(k), A.RightCut(k))
            && T(A.text)[m + n].start == A.Seam(k + 1)
  {
    A.SeamFacts(k);
    assert A.Matched(k);
    UpToRun(T, w, A, k, m);
    var i, l, c := A.runs[k].i, A.LeftCut(k), A.RightCut(k);
    RunToCut(T, w, A, k, 0, m + (i - l));
    AgreesJoined(T(A.text), m, A.shards[k], Offset(A.chunkSize, k), l, i, c);
  }

  /** The same from a serial token start inside the matched run on. */
  lemma WithinRun(T: string -> seq<Token>, w: nat, A: Attempt, k: nat, m: nat)
    requires Setting(T, w, A) && k < |A.runs| && A.runs[k].i < A.LeftCut(k)
    requires m < |T(A.text)| && T(A.text)[m].start == A.Seam(k)
    ensures 0 <= A.LeftCut(k) <= A.RightCut(k) < |A.shards[k]|
    ensures var n := A.RightCut(k) - A.LeftCut(k);
            && m + n < |T(A.text)|
            && Agrees(T(A.text), m, A.shards[k], Offset(A.chunkSize, k), A.LeftCut(k), A.RightCut(k))
            && T(A.text)[m + n].start == A.Seam(k + 1)
  {
    A.SeamFacts(k);
    A.PieceSize(k);
    RunToCut(T, w, A, k, A.LeftCut(k) - A.runs[k].i, m);
  }

  /** One seam: if shard `k` takes over at a serial token start, what is taken from it is serial, and
      shard `k + 1` takes over at a serial token start again. It may take over inside the matched run
      if the overlap is longer than the chunk. */
  lemma AcrossSeam(T: string -> seq<Token>, w: nat, A: Attempt, k: nat, m: nat)
    requires Setting(T, w, A) && k < |A.runs| && SafeRun(A, w, k)
    requires m < |T(A.text)| && T(A.text)[m].start == A.Seam(k)
    ensures var n := |A.Piece(k)|;
            && m + n < |T(A.text)| && T(A.text)[m..m + n] == A.Piece(k)
            && T(A.text)[m + n].start == A.Seam(k + 1)
  {
    A.PieceSize(k);
    if A.LeftCut(k) <= A.runs[k].i {
      UpToCut(T, w, A, k, m);
    } else {
      WithinRun(T, w, A, k, m);
    }
    AgreesSlice(T(A.text), m, A.shards[k], Offset(A.chunkSize, k), A.LeftCut(k), A.RightCut(k));
  }

  lemma PrefixGrows<A>(s: seq<A>, p: seq<A>, q: seq<A>)
    requires |p| + |q| <= |s| && p == s[..|p|] && q == s[|p|..|p| + |q|]
    ensures p + q == s[..|p| + |q|]
  {
  }

  lemma SerialStart(T: string -> seq<Token>, w: nat, A: Attempt)
    requires Setting(T, w, A)
    ensures |T(A.text)| > 0 && T(A.text)[0].start == A.Seam(0)
  {
    assert CoversText(T, A.text) && A.Part(0);
    A.FirstSeam();
  }

  lemma {:induction false} SerialSoFar(T: string -> seq<Token>, w: nat, A: Attempt, n: nat)
    requires Setting(T, w, A) && n < |A.shards|
    requires forall k :: 0 <= k < |A.runs| ==> SafeRun(A, w, k)
    ensures var m := |A.Taken(n)|;
            m < |T(A.text)| && A.Taken(n) == T(A.text)[..m] && T(A.text)[m].start == A.Seam(n)
  {
    if n == 0 {
      SerialStart(T, w, A);
    } else {
      SerialSoFar(T, w, A, n - 1);
      assert SafeRun(A, w, n - 1);
      SerialStep(T, w, A, n - 1);
    }
  }

  lemma SerialStep(T: string -> seq<Token>, w: nat, A: Attempt, n: nat)
    requires Setting(T, w, A) && n < |A.runs| && SafeRun(A, w, n)
    requires var m := |A.Taken(n)|;
             m < |T(A.text)| && A.Taken(n) == T(A.text)[..m] && T(A.text)[m].start == A.Seam(n)
    ensures var m := |A.Taken(n + 1)|;
            m < |T(A.text)| && A.Taken(n + 1) == T(A.text)[..m] && T(A.text)[m].start == A.Seam(n + 1)
  {
    var p, q := A.Taken(n), A.Piece(n);
    AcrossSeam(T, w, A, n, |p|);
    A.TakenStep(n);
    PrefixGrows(T(A.text), p, q);
  }

  /** From a serial token start on, the last shard is right to the end of the text. */
  lemma LastPiece(T: string -> seq<Token>, w: nat, A: Attempt, m: nat)
    requires Setting(T, w, A) && m < |T(A.text)| && T(A.text)[m].start == A.Seam(|A.shards| - 1)
    ensures T(A.text)[m..] == A.Piece(|A.shards| - 1)
  {
    var n := |A.shards| - 1;
    assert A.Part(n) && A.CutFits(n);
    A.PieceSize(n);
    forall x | A.LeftCut(n) <= x < |A.shards[n]|
      ensures ShardSees(A, w, n, x)
    {
    }
    FollowShard(T, w, A, n, A.LeftCut(n), |A.shards[n]|, m);
    AgreesSlice(T(A.text), m, A.shards[n], Offset(A.chunkSize, n), A.LeftCut(n), |A.shards[n]|);
  }

  /** Losslessness: when every token before a matched run sees as much of its window as the tokenizer
      looks at, and the cuts are in order, the spliced tokens are the serial tokens of the whole text,
      for any number of windows. */
  lemma InOrderIsLossless(T: string -> seq<Token>, w: nat, A: Attempt)
    requires Setting(T, w, A)
    requires forall k :: 0 <= k < |A.runs| ==> SafeRun(A, w, k)
    ensures A.Taken(|A.shards|) == T(A.text)
  {
    var n := |A.shards| - 1;
    SerialSoFar(T, w, A, n);
    var p, q := A.Taken(n), A.Piece(n);
    LastPiece(T, w, A, |p|);
    A.TakenStep(n);
    assert T(A.text)[..|p|] + T(A.text)[|p|..] == T(A.text);
  }

  /** For any overlap: such a run is lossless if and only if its cuts are in order. */
  lemma Lossless(T: string -> seq<Token>, w: nat, A: Attempt)
    requires Lawful(T, w) && A.Valid(T) && w <= A.chunkSize + 3
    requires forall k :: 0 <= k < |A.runs| ==> SafeRun(A, w, k)
    ensures A.CutsFit() && (A.Taken(|A.shards|) == T(A.text) <==> A.CutsInOrder())
  {
    A.ValidIsSewn(T);
    A.AllCutsFit();
    if A.CutsInOrder() {
      InOrderIsLossless(T, w, A);
    } else {
      var k :| 0 <= k < |A.shards| && !A.CutInOrder(k);
      A.TakenTooLong(k);
      assert CoversText(T, A.text);
      TilesSize(T(A.text), 0, |A.text|);
    }
  }

  /** A run lies within the overlap, so it is not longer than that. */
  lemma RunFitsOverlap(A: Attempt, k: nat)
    requires A.Sewn() && k < |A.runs|
    ensures var r, a := A.runs[k], A.shards[k];
            && 0 <= r.i < r.i + r.size <= |a| && A.chunkSize <= a[r.i].start
            && a[r.i].start + r.size <= |A.cks[k]| <= A.chunkSize + A.overlap
            && A.thres + 2 <= r.size <= A.overlap
  {
    assert A.Part(k) && A.Part(k + 1) && A.Matched(k);
    var a, b, r := A.shards[k], A.shards[k + 1], A.runs[k];
    RunOnStarts(a, |A.cks[k]|, b, |A.cks[k + 1]|, A.chunkSize, r, 0);
    StartsOrder(a, 0, |A.cks[k]|, r.i, r.i + r.size - 1);
    TilesOrder(a, 0, |A.cks[k]|, r.i, r.i + r.size - 1);
  }

  /** A run of `n` starts ends `n` characters after it begins at the earliest, so a threshold that
      covers the lookahead makes every successful match safe. */
  lemma LongRunIsSafe(A: Attempt, w: nat, k: nat)
    requires A.Sewn() && k < |A.runs| && w <= A.thres + 3
    ensures SafeRun(A, w, k)
  {
    RunFitsOverlap(A, k);
    assert A.Part(k);
    var i := A.runs[k].i;
    if i > 0 {
      StartsOrder(A.shards[k], 0, |A.cks[k]|, i - 1, i);
    }
  }

  lemma LosslessByThreshold(T: string -> seq<Token>, w: nat, A: Attempt)
    requires Lawful(T, w) && A.Valid(T) && A.overlap <= A.chunkSize + 2
    requires w <= A.thres + 3
    ensures A.CutsFit() && A.Taken(|A.shards|) == T(A.text)
  {
    A.ValidIsSewn(T);
    A.AllCutsInOrder();
    RunFitsOverlap(A, 0);
    forall k | 0 <= k < |A.runs|
      ensures SafeRun(A, w, k)
    {
      LongRunIsSafe(A, w, k);
    }
    Lossless(T, w, A);
  }

  // ---- conservation of the text ------------------------------------------------------------------

  /** The texts of the tokens, one after the other. */
  function Joined(s: string, ts: seq<Token>): (r: string) {
    if ts == [] then "" else Joined(s, ts[..|ts| - 1]) + Text(s, ts[|ts| - 1])
  }

  lemma {:induction false} TilesRebuild(s: string, ts: seq<Token>, hi: int)
    requires Tiles(ts, 0, hi) && 0 <= hi <= |s|
    ensures Joined(s, ts) == s[..hi]
    decreases |ts|
  {
    if ts != [] {
      var n := |ts| - 1;
      TilesOrder(ts, 0, hi, n, n);
      if n > 0 {
        SliceTiles(ts, 0, hi, 0, n);
        TilesOrder(ts, 0, hi, 0, n);
      }
      assert ts[..n] == ts[0..n];
      TilesRebuild(s, ts[..n], ts[n].start);
      assert s[..hi] == s[..ts[n].start] + s[ts[n].start..hi];
    }
  }

  lemma {:induction false} JoinedSize(s: string, ts: seq<Token>)
    requires forall t :: t in ts ==> 0 <= t.start <= t.end <= |s|
    ensures |Joined(s, ts)| == Extent(ts)
  {
    if ts != [] {
      JoinedSize(s, ts[..|ts| - 1]);
    }
  }

  /** Whatever the tokenizer does at the edges of its windows, and for any overlap: the spliced tokens
      cover the text, and their texts joined together are the text, if and only if the cuts are in order. */
  lemma TextConservedIff(T: string -> seq<Token>, A: Attempt)
    requires A.Valid(T) && Covers(T)
    ensures A.CutsFit() && (Tiles(A.Taken(|A.shards|), 0, |A.text|) <==> A.CutsInOrder())
    ensures Joined(A.text, A.Taken(|A.shards|)) == A.text <==> A.CutsInOrder()
  {
    A.ValidIsSewn(T);
    A.AllCutsFit();
    if A.CutsInOrder() {
      A.TakenTiles();
      TilesRebuild(A.text, A.Taken(|A.shards|), |A.text|);
      assert A.text[..|A.text|] == A.text;
    } else {
      var k :| 0 <= k < |A.shards| && !A.CutInOrder(k);
      A.TakenTooLong(k);
      A.TakenWithin();
      JoinedSize(A.text, A.Taken(|A.shards|));
      if Tiles(A.Taken(|A.shards|), 0, |A.text|) {
        TilesSize(A.Taken(|A.shards|), 0, |A.text|);
      }
    }
  }

  lemma InOrderForOverlap(T: string -> seq<Token>, A: Attempt)
    requires A.Valid(T) && Covers(T)
    ensures A.overlap <= A.chunkSize + A.thres + 2 ==> A.CutsInOrder()
  {
    A.ValidIsSewn(T);
    if A.overlap <= A.chunkSize + A.thres + 2 {
      A.AllCutsInOrder();
    }
  }

  /** An overlap that exceeds the chunk by no more than the threshold and two conserves the text. */
  lemma TextConserved(T: string -> seq<Token>, A: Attempt)
    requires A.Valid(T) && Covers(T) && A.overlap <= A.chunkSize + A.thres + 2
    ensures A.CutsFit() && Tiles(A.Taken(|A.shards|), 0, |A.text|)
    ensures Joined(A.text, A.Taken(|A.shards|)) == A.text
  {
    InOrderForOverlap(T, A);
    TextConservedIff(T, A);
  }
}
