/** How far may a tokenizer look ahead before the splice can differ from the serial result? For every
    chunk size, overlap and threshold the answer is exact: up to `thres + 3` characters, and one more
    where the overlap has `thres + 3` characters. */
module LookaheadThreshold {
  import opened Common
  import opened Chunking
  import opened MatchMerge
  import opened Tokenizers
  import opened Lopt
  import opened ParallelTokenizer
  import opened Misalignment

  /** A successful run of the pipeline on some text. */
  ghost predicate Succeeds(T: string -> seq<Token>, A: Attempt, chunkSize: nat, overlap: nat, thres: nat) {
    && A.Valid(T) && Chosen(A)
    && A.chunkSize == chunkSize && A.overlap == overlap && A.thres == thres
  }

  ghost predicate GivesSerialIds(T: string -> seq<Token>, A: Attempt)
    requires |A.shards| == |A.runs| + 1
  {
    && TableFits(IdShards(A.shards), A.SpliceTable())
    && Spliced(IdShards(A.shards), A.SpliceTable(), |A.shards|) == Ids(T(A.text))
  }

  /** A lawful tokenizer and a successful run whose ids are not the serial ones. */
  ghost predicate Loses(T: string -> seq<Token>, A: Attempt, w: nat, chunkSize: nat, overlap: nat, thres: nat) {
    Lawful(T, w) && Succeeds(T, A, chunkSize, overlap, thres) && !GivesSerialIds(T, A)
  }

  /** Every successful run, on every text, with every tokenizer that looks at most `w` ahead. */
  ghost predicate AlwaysLossless(w: nat, chunkSize: nat, overlap: nat, thres: nat) {
    forall T, A :: !Loses(T, A, w, chunkSize, overlap, thres)
  }

  /** The longest lookahead that is harmless. */
  function Harmless(overlap: nat, thres: nat): nat {
    if overlap == thres + 3 then thres + 4 else thres + 3
  }

  /** The pipeline is lossless in all its successful runs if and only if the tokenizer does not look
      further than that, or the overlap is too short for a match to succeed. */
  lemma Exact(w: nat, chunkSize: nat, overlap: nat, thres: nat)
    requires chunkSize >= 1 && overlap <= chunkSize + 2
    ensures AlwaysLossless(w, chunkSize, overlap, thres) <==> overlap < thres + 2 || w <= Harmless(overlap, thres)
  {
    if overlap < thres + 2 || w <= Harmless(overlap, thres) {
      Sufficient(w, chunkSize, overlap, thres);
    } else {
      Necessary(w, chunkSize, overlap, thres);
    }
  }

  // ---- sufficient --------------------------------------------------------------------------------

  lemma Sufficient(w: nat, chunkSize: nat, overlap: nat, thres: nat)
    requires overlap <= chunkSize + 2 && (overlap < thres + 2 || w <= Harmless(overlap, thres))
    ensures AlwaysLossless(w, chunkSize, overlap, thres)
  {
    forall T, A
      ensures !Loses(T, A, w, chunkSize, overlap, thres)
    {
      if Lawful(T, w) && Succeeds(T, A, chunkSize, overlap, thres) {
        SuccessIsLossless(T, w, A);
        A.SpliceIsTaken(|A.shards|);
      }
    }
  }

  lemma SuccessIsLossless(T: string -> seq<Token>, w: nat, A: Attempt)
    requires Lawful(T, w) && A.Valid(T) && Chosen(A) && A.overlap <= A.chunkSize + 2
    requires A.overlap < A.thres + 2 || w <= Harmless(A.overlap, A.thres)
    ensures A.CutsFit() && A.Taken(|A.shards|) == T(A.text)
  {
    A.ValidIsSewn(T);
    A.AllCutsInOrder();
    RunFitsOverlap(A, 0);
    forall k | 0 <= k < |A.runs|
      ensures SafeRun(A, w, k)
    {
      if w <= A.thres + 3 {
        LongRunIsSafe(A, w, k);
      } else {
        TightRunIsSafe(A, w, k);
      }
    }
    Lossless(T, w, A);
  }

  /** In an overlap of `thres + 3` characters a run leaves at most one of them out on its left. */
  lemma TightRunIsSafe(A: Attempt, w: nat, k: nat)
    requires A.Sewn() && Chosen(A) && k < |A.runs| && A.overlap == A.thres + 3 && w <= A.thres + 4
    ensures SafeRun(A, w, k)
  {
    RunFitsOverlap(A, k);
    assert A.Part(k) && A.Part(k + 1) && ChosenAt(A, k);
    if A.runs[k].i > 0 {
      LeftOutBeforeWindow(A.shards[k], |A.cks[k]|, A.shards[k + 1], |A.cks[k + 1]|, A.chunkSize, A.runs[k]);
    }
  }

  /** The token before such a run starts outside the right window: had both windows a token at the
      start of the right one, the run would be longer by it. */
  lemma LeftOutBeforeWindow(a: seq<Token>, aSize: int, b: seq<Token>, bSize: int, shift: int, r: Run)
    requires Tiles(a, 0, aSize) && Tiles(b, 0, bSize) && IsRightmostLongest(Starts(a), Starts(b), shift, r)
    requires 0 < r.i < |a| && r.size > 0 && a[r.i].start <= shift + 1
    ensures a[r.i - 1].start < shift
  {
    RunOnStarts(a, aSize, b, bSize, shift, r, 0);
    StartsOrder(a, 0, aSize, r.i - 1, r.i);
    if r.j > 0 {
      StartsOrder(b, 0, bSize, r.j - 1, r.j);
      RunIsNotLonger(Starts(a), Starts(b), shift, r);
    }
  }

  /** A rightmost longest run that does not start either list has no aligned pair before it. */
  lemma RunIsNotLonger(a: seq<int>, b: seq<int>, shift: int, r: Run)
    requires IsRightmostLongest(a, b, shift, r) && r.size >= 0 && r.i > 0 && r.j > 0
    ensures a[r.i - 1] != b[r.j - 1] + shift
  {
    if a[r.i - 1] == b[r.j - 1] + shift {
      RunIsCounted(a, b, shift, r.i - 1, r.j - 1, r.size + 1);
    }
  }

  // ---- necessary ---------------------------------------------------------------------------------

  /** Where the last token of two characters has to start. */
  function SceneFor(chunkSize: nat, overlap: nat, thres: nat): (s: Scene)
    requires chunkSize >= 1 && thres + 2 <= overlap <= chunkSize + 2
    ensures s.Valid() && s.q == chunkSize && s.overlap == overlap
    ensures s.Look() == Harmless(overlap, thres) + 1 && s.RunSize() >= thres + 2
  {
    Scene(chunkSize, overlap, chunkSize + overlap - Harmless(overlap, thres))
  }

  /** A tokenizer that looks just one character too far, and a run that it spoils. */
  lemma FindLoss(chunkSize: nat, overlap: nat, thres: nat) returns (T: string -> seq<Token>, A: Attempt)
    requires chunkSize >= 1 && thres + 2 <= overlap <= chunkSize + 2
    ensures Loses(T, A, Harmless(overlap, thres) + 1, chunkSize, overlap, thres)
  {
    var s := SceneFor(chunkSize, overlap, thres);
    T := s.Tokenizer();
    A := s.Loses(thres);
    s.IsLawful();
  }

  lemma Necessary(w: nat, chunkSize: nat, overlap: nat, thres: nat)
    requires chunkSize >= 1 && thres + 2 <= overlap <= chunkSize + 2 && w > Harmless(overlap, thres)
    ensures exists T, A :: Loses(T, A, w, chunkSize, overlap, thres)
  {
    var T, A := FindLoss(chunkSize, overlap, thres);
    LooksFurther(T, Harmless(overlap, thres) + 1, w);
    assert Loses(T, A, w, chunkSize, overlap, thres);
  }

  lemma WindowPrefix(s: string, p: nat, w: nat, w': nat)
    requires p <= |s| && w <= w'
    ensures Window(s, p, w) == Window(s, p, w')[..Min(w, |Window(s, p, w')|)]
  {
    var v := Window(s, p, w');
    assert Min(p + w, |s|) == p + Min(w, |v|);
    assert forall x :: 0 <= x < Min(w, |v|) ==> s[p..p + Min(w, |v|)][x] == v[x];
  }

  /** A tokenizer that looks at `w` characters also looks at no more than `w'`. */
  lemma LooksFurther(T: string -> seq<Token>, w: nat, w': nat)
    requires Lawful(T, w) && w <= w'
    ensures Lawful(T, w')
  {
    forall s, t, i, j
      ensures SameWindowSameSize(T, w', s, t, i, j)
    {
      if 0 <= i < |T(s)| && 0 <= j < |T(t)| && Window(s, T(s)[i].start, w') == Window(t, T(t)[j].start, w') {
        assert CoversText(T, s) && CoversText(T, t);
        TilesOrder(T(s), 0, |s|, i, i);
        TilesOrder(T(t), 0, |t|, j, j);
        var p, q := T(s)[i].start, T(t)[j].start;
        WindowPrefix(s, p, w, w');
        WindowPrefix(t, q, w, w');
        assert SameWindowSameSize(T, w, s, t, i, j);
      }
    }
  }
}
