/** benchmarks/run_lopt.py, `check_overlap`: the pipeline itself, with the serial tokenizer as a
    parameter. */
module ParallelTokenizer {
  import opened Common
  import opened Chunking
  import opened MatchMerge
  import opened Tokenizers
  import opened Lopt

  /** The threshold that the wrapper around `match` passes for every pair. */
  const MISMATCH_THRES: nat := 2

  /** A text that yields a single window ends in the lookup of a timing that is not recorded yet. */
  datatype Outcome = Merged(ids: seq<int>) | MatchFailed | TimingKeyError

  /** Some pair of neighbours whose shards share no aligned run of more than three tokens. */
  ghost predicate SomePairUnmatched(T: string -> seq<Token>, chunkSize: nat, cks: seq<string>) {
    exists k :: 0 <= k < |cks| - 1 && PairUnmatched(T, chunkSize, cks, k)
  }

  ghost predicate PairUnmatched(T: string -> seq<Token>, chunkSize: nat, cks: seq<string>, k: nat)
    requires k + 1 < |cks|
  {
    RunsAtMost(Starts(T(cks[k])), Starts(T(cks[k + 1])), chunkSize, MISMATCH_THRES + 1)
  }

  /** Every pair was matched where `match` says: at its rightmost longest run. */
  ghost predicate Chosen(A: Attempt) {
    |A.shards| == |A.runs| + 1 && forall k :: 0 <= k < |A.runs| ==> ChosenAt(A, k)
  }

  ghost predicate ChosenAt(A: Attempt, k: nat)
    requires k < |A.runs| && |A.shards| == |A.runs| + 1
  {
    IsRightmostLongest(Starts(A.shards[k]), Starts(A.shards[k + 1]), A.chunkSize, A.runs[k])
  }

  /** Offsets of a tokenizer that covers its text are strictly increasing. */
  lemma StartsIncrease(ts: seq<Token>, lo: int, hi: int)
    requires Tiles(ts, lo, hi)
    ensures Increasing(Starts(ts))
  {
    forall i, j | 0 <= i < j < |ts|
      ensures Starts(ts)[i] < Starts(ts)[j]
    {
      TilesOrder(ts, lo, hi, i, j);
    }
  }

  /** One call of `match`, as the pipeline sees it. */
  method MatchPair(T: string -> seq<Token>, chunkSize: nat, left: string, right: string)
    returns (seam: Option<(int, int)>, ghost run: Run)
    ensures seam.Some? ==> IsCut(Starts(T(left)), Starts(T(right)), chunkSize, MISMATCH_THRES, run,
                                 seam.value.0, seam.value.1)
    ensures Covers(T) ==>
              (seam.None? <==> RunsAtMost(Starts(T(left)), Starts(T(right)), chunkSize, MISMATCH_THRES + 1))
    ensures Covers(T) && seam.Some? ==> IsRightmostLongest(Starts(T(left)), Starts(T(right)), chunkSize, run)
  {
    var sa, sb;
    sa, sb, run := Match(Starts(T(left)), Starts(T(right)), chunkSize, MISMATCH_THRES);
    if Covers(T) {
      assert CoversText(T, left) && CoversText(T, right);
      StartsIncrease(T(left), 0, |left|);
      StartsIncrease(T(right), 0, |right|);
    }
    seam := if sa < 0 then None else Some((sa, sb));
  }

  /** The table of a complete set of matches stays within the shards, whatever the tokenizer does. */
  lemma TableFitsAlways(T: string -> seq<Token>, A: Attempt)
    requires A.Valid(T)
    ensures TableFits(IdShards(A.shards), A.SpliceTable())
  {
    forall k | 0 <= k < |A.shards|
      ensures EntryFits(IdShards(A.shards), A.SpliceTable(), k)
    {
      A.TableEntry(k);
      assert k < |A.runs| ==> A.Matched(k);
      assert k > 0 ==> A.Matched(k - 1);
    }
  }

  /** What the caller of a successful run has: valid matches, and the ids spliced accordingly. */
  ghost predicate IsMergeOf(T: string -> seq<Token>, A: Attempt, ids: seq<int>) {
    && A.Valid(T)
    && TableFits(IdShards(A.shards), A.SpliceTable())
    && ids == Spliced(IdShards(A.shards), A.SpliceTable(), |A.shards|)
  }

  /** The seams of the first pairs, each reported by `match` for its pair. */
  ghost predicate SeamsSoFar(A: Attempt, seams: seq<(int, int)>) {
    && |A.shards| >= |A.runs| + 1 && |seams| == |A.runs|
    && forall k :: 0 <= k < |seams| ==> SeamAt(A, seams, k)
  }

  ghost predicate SeamAt(A: Attempt, seams: seq<(int, int)>, k: nat)
    requires k < |A.runs| == |seams| && |A.runs| < |A.shards|
  {
    IsCut(Starts(A.shards[k]), Starts(A.shards[k + 1]), A.chunkSize, MISMATCH_THRES, A.runs[k], seams[k].0, seams[k].1)
  }

  lemma SeamsComplete(A: Attempt, seams: seq<(int, int)>)
    requires SeamsSoFar(A, seams) && |A.shards| == |A.runs| + 1
    ensures seams == A.Seams()
  {
    forall k | 0 <= k < |seams|
      ensures seams[k] == A.Seams()[k]
    {
      assert SeamAt(A, seams, k);
    }
  }

  /** Match every pair of neighbours, and give up at the first that has no match. */
  method MatchAll(T: string -> seq<Token>, text: string, chunkSize: nat, overlap: nat, cks: seq<string>)
    returns (seams: Option<seq<(int, int)>>, ghost A: Attempt)
    requires chunkSize >= 1 && IsChunking(text, chunkSize, overlap, cks) && |cks| >= 2
    ensures A.text == text && A.chunkSize == chunkSize && A.overlap == overlap && A.thres == MISMATCH_THRES
    ensures A.cks == cks && A.shards == MapSeq(T, cks)
    ensures seams.Some? ==> A.Valid(T) && seams.value == A.Seams()
    ensures seams.Some? && Covers(T) ==> Chosen(A)
    ensures Covers(T) ==> (seams.None? <==> SomePairUnmatched(T, chunkSize, cks))
  {
    var found := [];
    A := Attempt(text, chunkSize, overlap, MISMATCH_THRES, cks, MapSeq(T, cks), []);
    for k := 0 to |cks| - 1
      invariant A == Attempt(text, chunkSize, overlap, MISMATCH_THRES, cks, MapSeq(T, cks), A.runs)
      invariant |A.runs| == k && SeamsSoFar(A, found)
      invariant Covers(T) ==> forall x :: 0 <= x < k ==>
                  IsRightmostLongest(Starts(A.shards[x]), Starts(A.shards[x + 1]), chunkSize, A.runs[x])
    {
      var seam;
      ghost var run;
      seam, run := MatchPair(T, chunkSize, cks[k], cks[k + 1]);
      if seam == None {
        assert Covers(T) ==> PairUnmatched(T, chunkSize, cks, k);
        return None, A;
      }
      ghost var B, before := A, found;
      found := found + [seam.value];
      A := A.(runs := A.runs + [run]);
      forall x | 0 <= x <= k
        ensures SeamAt(A, found, x)
      {
        assert x < k ==> SeamAt(B, before, x);
      }
    }
    SeamsComplete(A, found);
    forall k | 0 <= k < |A.runs|
      ensures A.Matched(k)
    {
      assert SeamAt(A, found, k);
    }
    forall k | 0 <= k < |cks|
      ensures A.Shard(T, k)
      ensures k < |cks| - 1 ==> !PairUnmatched(T, chunkSize, cks, k)
    {
      if k < |cks| - 1 {
        assert A.Matched(k);
        var r := A.runs[k];
        RunIsCounted(Starts(A.shards[k]), Starts(A.shards[k + 1]), chunkSize, r.i, r.j, r.size);
      }
    }
    if Covers(T) {
      forall k | 0 <= k < |A.runs|
        ensures ChosenAt(A, k)
      {
      }
    }
    seams := Some(found);
  }

  /** Cut, tokenise, match, splice. A failure means that some pair of neighbours has no aligned run of
      more than three tokens. On success the ids are those of tokens that cover the text; and they are
      the serial ids for every tokenizer that looks at most five characters ahead. */
  method CheckOverlap(T: string -> seq<Token>, prompt: string, overlap: nat, chunkSize: nat)
    returns (r: Outcome, ghost A: Attempt)
    requires chunkSize >= 1
    ensures r.TimingKeyError? <==> WindowCount(|prompt|, chunkSize) == 1
    ensures IsChunking(prompt, chunkSize, overlap, A.cks)
    ensures Covers(T) ==> (r.MatchFailed? <==> SomePairUnmatched(T, chunkSize, A.cks))
    ensures r.Merged? ==> A.text == prompt && A.chunkSize == chunkSize && A.overlap == overlap
    ensures r.Merged? ==> A.thres == MISMATCH_THRES && IsMergeOf(T, A, r.ids)
    ensures r.Merged? && Covers(T) ==> Chosen(A)
    ensures r.Merged? && Covers(T) ==>
              && A.CutsFit() && r.ids == Ids(A.Taken(|A.shards|))
              && (Tiles(A.Taken(|A.shards|), 0, |prompt|) <==> A.CutsInOrder())
              && (overlap <= chunkSize + MISMATCH_THRES + 2 ==> A.CutsInOrder())
    ensures r.Merged? && overlap <= chunkSize + 2 ==>
              forall w: nat :: Lawful(T, w) && w <= MISMATCH_THRES + 3 ==> r.ids == Ids(T(prompt))
  {
    var cks := ChunkText(prompt, chunkSize, overlap);
    var shards := MapSeq(T, cks);
    if |shards| == 1 {
      A := Attempt(prompt, chunkSize, overlap, MISMATCH_THRES, cks, shards, []);
      return TimingKeyError, A;
    }
    var seams;
    seams, A := MatchAll(T, prompt, chunkSize, overlap, cks);
    if seams == None {
      return MatchFailed, A;
    }
    var matches := Table(|shards[0]|, seams.value);
    TableFitsAlways(T, A);
    var merged := Merge(IdShards(shards), matches);
    assert matches == A.SpliceTable();
    r := Merged(merged.value);
    if Covers(T) {
      TextConservedIff(T, A);
      InOrderForOverlap(T, A);
      A.SpliceIsTaken(|A.shards|);
    }
    forall w: nat | Lawful(T, w) && w <= MISMATCH_THRES + 3 && overlap <= chunkSize + 2
      ensures r.ids == Ids(T(prompt))
    {
      LosslessByThreshold(T, w, A);
    }
  }
}
