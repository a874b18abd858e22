/** How far may the overlap exceed the chunk before the splice can repeat text? Exactly by the threshold
    and two characters. */
module OverlapBound {
  import opened Common
  import opened Chunking
  import opened MatchMerge
  import opened Tokenizers
  import opened Lopt
  import opened ParallelTokenizer

  /** A tokenizer that covers its texts, and a successful run whose tokens do not cover the text. */
  ghost predicate Repeats(T: string -> seq<Token>, A: Attempt, chunkSize: nat, overlap: nat, thres: nat) {
    && Covers(T) && A.Valid(T) && Chosen(A) && A.CutsFit()
    && A.chunkSize == chunkSize && A.overlap == overlap && A.thres == thres
    && !Tiles(A.Taken(|A.shards|), 0, |A.text|)
  }

  /** Every successful run, on every text, with every tokenizer that covers its texts. */
  ghost predicate AlwaysConserved(chunkSize: nat, overlap: nat, thres: nat) {
    forall T, A :: !Repeats(T, A, chunkSize, overlap, thres)
  }

  /** For every threshold below the size of a last window, among them the one that the pipeline uses. */
  lemma ConservedIff(chunkSize: nat, overlap: nat, thres: nat)
    requires chunkSize >= 1 && thres + 2 < chunkSize + MIN_REST
    ensures AlwaysConserved(chunkSize, overlap, thres) <==> overlap <= chunkSize + thres + 2
  {
    if overlap <= chunkSize + thres + 2 {
      forall T, A
        ensures !Repeats(T, A, chunkSize, overlap, thres)
      {
        if Covers(T) && A.Valid(T) && A.chunkSize == chunkSize && A.overlap == overlap && A.thres == thres {
          TextConserved(T, A);
        }
      }
    } else {
      var s := Scene(chunkSize, overlap, thres);
      var A := s.Repeats();
      assert Repeats(s.Tokenizer(), A, chunkSize, overlap, thres);
    }
  }

  /** With the threshold of the pipeline: up to four characters more than the chunk. */
  lemma PipelineConservedIff(chunkSize: nat, overlap: nat)
    requires chunkSize >= 1
    ensures AlwaysConserved(chunkSize, overlap, MISMATCH_THRES) <==> overlap <= chunkSize + 4
  {
    ConservedIff(chunkSize, overlap, MISMATCH_THRES);
  }

  // ---- two kinds of shards -----------------------------------------------------------------------

  /** One token of `x` characters, and then single characters. */
  function LongFirst(n: nat, x: nat): (ts: seq<Token>)
    requires 1 <= x <= n
  {
    seq(n - x + 1, i requires 0 <= i < n - x + 1 => if i == 0 then Token(0, x, 0) else Token(x + i - 1, x + i, 0))
  }

  /** Single characters up to `y`, and then one token of all the others. */
  function LongLast(n: nat, y: nat): (ts: seq<Token>)
    requires y < n
  {
    seq(y + 1, i requires 0 <= i < y + 1 => Token(i, if i < y then i + 1 else n, 0))
  }

  lemma LongFirstTiles(n: nat, x: nat)
    requires 1 <= x <= n
    ensures Tiles(LongFirst(n, x), 0, n)
  {
    forall i | 0 <= i < n - x + 1
      ensures Meets(LongFirst(n, x), i)
    {
    }
  }

  lemma LongLastTiles(n: nat, y: nat)
    requires y < n
    ensures Tiles(LongLast(n, y), 0, n)
  {
    forall i | 0 <= i < y + 1
      ensures Meets(LongLast(n, y), i)
    {
    }
  }

  /** Three windows: the first is tokenised to single characters at its end only, the second everywhere,
      and the third at its start only. So the second is matched with the first late in its text, and with
      the third early. */
  datatype Scene = Scene(q: nat, overlap: nat, thres: nat) {
    predicate Valid() {
      q >= 1 && thres + 2 < q + MIN_REST && overlap > q + thres + 2
    }

    function Size(): nat {
      3 * q + MIN_REST
    }

    /** The first character of a window tells which one it is. */
    function Text(): (s: string)
      requires q >= 1
      ensures |s| == Size() && s[0] == 'a' && s[q] == 'b' && s[2 * q] == 'c'
    {
      seq(Size(), x => if x == 0 then 'a' else if x == q then 'b' else 'c')
    }

    function Tokens(s: string): (ts: seq<Token>) {
      if s == "" then []
      else if s[0] == 'a' && |s| > thres + 2 then LongFirst(|s|, |s| - (thres + 2))
      else if s[0] == 'c' && |s| > thres + 1 then LongLast(|s|, thres + 1)
      else LongLast(|s|, |s| - 1)
    }

    function Tokenizer(): (T: string -> seq<Token>) {
      (s: string) => Tokens(s)
    }

    lemma TokenizerCovers()
      ensures Covers(Tokenizer())
    {
      forall s
        ensures CoversText(Tokenizer(), s)
      {
        if s == "" {
        } else if s[0] == 'a' && |s| > thres + 2 {
          LongFirstTiles(|s|, |s| - (thres + 2));
        } else if s[0] == 'c' && |s| > thres + 1 {
          LongLastTiles(|s|, thres + 1);
        } else {
          LongLastTiles(|s|, |s| - 1);
        }
      }
    }

    /** Where the first window ends. */
    function End(): (e: nat)
      requires Valid()
      ensures 2 * q + thres + 2 < e <= Size() && e <= q + overlap
    {
      Min(q + overlap, Size())
    }

    function First(): (c: string)
      requires Valid()
      ensures |c| == End() && c[0] == 'a'
    {
      Text()[..End()]
    }

    function Second(): (c: string)
      requires Valid()
      ensures |c| == Min(q + overlap, Size() - q) && c[0] == 'b'
    {
      Text()[q..Min(2 * q + overlap, Size())]
    }

    function Third(): (c: string)
      requires Valid()
      ensures |c| == q + MIN_REST && c[0] == 'c'
    {
      Text()[2 * q..]
    }

    function Run(): (A: Attempt)
      requires Valid()
    {
      Attempt(Text(), q, overlap, thres, [First(), Second(), Third()],
              [Tokens(First()), Tokens(Second()), Tokens(Third())],
              [MatchMerge.Run(1, End() - thres - 2 - q, thres + 2), MatchMerge.Run(q, 0, thres + 2)])
    }

    lemma IsChunked()
      requires Valid()
      ensures IsChunking(Text(), q, overlap, Run().cks)
    {
      var A := Run();
      assert WindowCount(q + MIN_REST, q) == 1;
      assert WindowCount(2 * q + MIN_REST, q) == 2;
      assert WindowCount(Size(), q) == 3;
      assert Offset(q, 1) == q && Offset(q, 2) == 2 * q;
      assert IsWindow(A.text, q, overlap, 0, A.cks[0]);
      assert IsWindow(A.text, q, overlap, 1, A.cks[1]);
      assert IsWindow(A.text, q, overlap, 2, A.cks[2]);
    }

    /** The first two windows are matched at the end of the first. */
    lemma LateRun()
      requires Valid()
      ensures IsRightmostLongest(Starts(Tokens(First())), Starts(Tokens(Second())), q, Run().runs[0])
    {
      var a, b, r := Starts(Tokens(First())), Starts(Tokens(Second())), Run().runs[0];
      forall i, j | 0 <= i <= |a| && 0 <= j <= |b|
        ensures RunLength(a, b, q, i, j) <= r.size
        ensures j > r.j ==> RunLength(a, b, q, i, j) < r.size
      {
        if RunLength(a, b, q, i, j) > 0 {
          assert a[i] == b[j] + q;
        }
      }
    }

    /** The last two windows are matched at the start of the last. */
    lemma EarlyRun()
      requires Valid()
      ensures IsRightmostLongest(Starts(Tokens(Second())), Starts(Tokens(Third())), q, Run().runs[1])
    {
      var a, b, r := Starts(Tokens(Second())), Starts(Tokens(Third())), Run().runs[1];
      forall i, j | 0 <= i <= |a| && 0 <= j <= |b|
        ensures RunLength(a, b, q, i, j) <= r.size
        ensures j > r.j ==> RunLength(a, b, q, i, j) < r.size
      {
      }
    }

    lemma Repeats() returns (A: Attempt)
      requires Valid()
      ensures Covers(Tokenizer()) && A.Valid(Tokenizer()) && Chosen(A) && A.CutsFit()
      ensures A.chunkSize == q && A.overlap == overlap && A.thres == thres
      ensures !Tiles(A.Taken(|A.shards|), 0, |A.text|)
    {
      A := Run();
      TokenizerCovers();
      RunIsValid();
      OutOfOrder();
      TextConservedIff(Tokenizer(), A);
    }

    lemma RunIsValid()
      requires Valid()
      ensures Run().Valid(Tokenizer()) && Chosen(Run())
    {
      var A := Run();
      IsChunked();
      RunIsChosen();
      forall k | 0 <= k < 3
        ensures A.Shard(Tokenizer(), k)
      {
        WindowIsShard(k);
      }
    }

    lemma WindowIsShard(k: nat)
      requires Valid() && k < 3
      ensures Run().Shard(Tokenizer(), k)
    {
    }

    lemma RunIsChosen()
      requires Valid()
      ensures Chosen(Run()) && Run().Matched(0) && Run().Matched(1)
    {
      LateRun();
      EarlyRun();
      assert ChosenAt(Run(), 0) && ChosenAt(Run(), 1);
    }

    /** The second window is cut further left on its right side. */
    lemma OutOfOrder()
      requires Valid()
      ensures !Run().CutsInOrder()
    {
      assert !Run().CutInOrder(1);
    }
  }
}
