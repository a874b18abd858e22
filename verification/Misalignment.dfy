/** A text on which the pipeline gives other ids than the serial tokenizer, although the match succeeds:
    the left window ends just before the tokenizer can see that two characters make one token, and the
    right window keeps out of step with the left one until that token is over. */
module Misalignment {
  import opened Common
  import opened Chunking
  import opened MatchMerge
  import opened Tokenizers
  import opened Lopt
  import opened ParallelTokenizer

  lemma EndIsStart(ts: seq<Token>, lo: int, hi: int, i: nat)
    requires Tiles(ts, lo, hi) && 0 < i < |ts|
    ensures ts[i - 1].end == ts[i].start
  {
    assert Meets(ts, i - 1);
  }

  /** From some token on, every token before character `x` ends at or before it: `x` starts a token. */
  lemma {:induction false} StartReached(ts: seq<Token>, lo: int, hi: int, x: int, i: nat) returns (k: nat)
    requires Tiles(ts, lo, hi) && i < |ts| && ts[i].start <= x < hi
    requires forall j :: i <= j < |ts| && ts[j].start < x ==> ts[j].end <= x
    ensures i <= k < |ts| && ts[k].start == x
    decreases |ts| - i
  {
    k := i;
    if ts[i].start < x {
      assert Meets(ts, i) && i + 1 < |ts|;
      k := StartReached(ts, lo, hi, x, i + 1);
    }
  }

  /** Where all tokens from `i` on have one character, they count the characters. */
  lemma {:induction false} Singles(ts: seq<Token>, lo: int, hi: int, i: nat)
    requires Tiles(ts, lo, hi) && i < |ts| && forall j :: i <= j < |ts| ==> ts[j].end == ts[j].start + 1
    ensures |ts| - i == hi - ts[i].start
    ensures forall k :: i <= k < |ts| ==> ts[k].start == ts[i].start + (k - i)
    decreases |ts| - i
  {
    if i + 1 < |ts| {
      assert Meets(ts, i);
      Singles(ts, lo, hi, i + 1);
    }
  }

  predicate Odd(n: int) {
    n % 2 == 1
  }

  lemma Parity(n: int)
    ensures Odd(n - 1) <==> !Odd(n)
    ensures Odd(n - 2) <==> Odd(n)
  {
  }

  /** The splice begins with the first shard's tokens, up to its cut. */
  lemma SpliceBegins(A: Attempt, n: nat)
    requires A.Sewn() && A.overlap <= A.chunkSize + A.thres + 2 && |A.shards| == 2
    requires n < |A.shards[0]| && n < A.RightCut(0)
    ensures TableFits(IdShards(A.shards), A.SpliceTable())
    ensures var ids := Spliced(IdShards(A.shards), A.SpliceTable(), 2); n < |ids| && ids[n] == A.shards[0][n].id
  {
    A.AllCutsFit();
    A.AllCutsInOrder();
    A.PieceSize(0);
    A.SpliceIsTaken(2);
    A.TakenStep(0);
    A.TakenStep(1);
    assert A.Piece(0)[n] == Shifted(A.shards[0], 0)[n];
    assert Ids(A.Taken(2))[n] == A.Taken(2)[n].id;
  }

  /** What one character says about the token that starts with it. */
  function CharSize(c: char): (n: nat)
    ensures 1 <= n <= 3
  {
    if c == '3' then 3 else if c == '2' then 2 else 1
  }

  /** The next token has as many characters as its first one says, if enough text follows. */
  function DigitRule(w: nat): (r: Rule) {
    Rule((v: string) => if |v| == w && w >= 4 then CharSize(v[0]) else 1, (t: string) => |t|)
  }

  lemma DigitLength(w: nat, s: string, x: nat)
    requires w >= 4 && x < |s|
    ensures DigitRule(w).Length(Window(s, x, w)) == if x + w <= |s| then CharSize(s[x]) else 1
  {
    assert Window(s, x, w)[0] == s[x];
  }

  /** The right window starts at `q`; the last token of two characters starts at `p`. */
  datatype Scene = Scene(q: nat, overlap: nat, p: nat) {
    predicate Valid() {
      1 <= q && 1 <= overlap <= q + 2 && (p + 1 == q || p > q) && p + 3 <= q + overlap
    }

    /** How far the tokenizer looks: from `p` one character further than the left window reaches. */
    function Look(): (w: nat)
      requires Valid()
      ensures w >= 4 && p + w == q + overlap + 1
    {
      q + overlap + 1 - p
    }

    /** Characters after the token at `p - 1` or `p`, up to the end of the left window. */
    function RunSize(): (n: nat)
      requires Valid()
      ensures n == Look() - 2
    {
      q + overlap - 1 - p
    }

    function TailSize(): nat {
      Max(MIN_REST + 1, overlap + 1)
    }

    /** Tokens of two characters up to `p`, in step with `p`: the one that straddles `q` has two
        characters or three, whichever makes it so. */
    function Want(x: int): (c: char) {
      if Odd(p - q) then
        if q - 1 <= x <= p then '2' else '1'
      else
        if x == q - 1 then '3' else if q < x <= p then '2' else '1'
    }

    function Text(): (s: string)
      ensures |s| == q + TailSize() && forall x :: 0 <= x < |s| ==> s[x] == Want(x)
    {
      seq(q + TailSize(), x => Want(x))
    }

    function Left(): (c: string)
      requires Valid()
      ensures |c| == q + overlap && c == Text()[..q + overlap]
      ensures forall x :: 0 <= x < |c| ==> c[x] == Want(x)
    {
      Text()[..q + overlap]
    }

    function Right(): (c: string)
      ensures |c| == TailSize() && c == Text()[q..]
      ensures forall x :: 0 <= x < |c| ==> c[x] == Want(q + x)
    {
      Text()[q..]
    }

    function Tokenizer(): (T: string -> seq<Token>)
      requires Valid()
    {
      DigitRule(Look()).Tokenizer(Look())
    }

    lemma IsLawful()
      requires Valid()
      ensures Lawful(Tokenizer(), Look())
    {
      DigitRule(Look()).RuleIsLawful(Look());
    }

    /** Token `i` of a text: as many characters as its first one says, if enough text follows. */
    lemma TokenAt(s: string, i: nat)
      requires Valid() && i < |Tokenizer()(s)|
      ensures var t := Tokenizer()(s)[i];
              && 0 <= t.start < |s| && t.end <= |s|
              && t.end == t.start + (if t.start + Look() <= |s| then CharSize(s[t.start]) else 1)
              && t.id == t.end - t.start
    {
      var t := Tokenizer()(s)[i];
      DigitRule(Look()).FromToken(s, 0, Look(), i);
      DigitLength(Look(), s, t.start);
      DigitRule(Look()).FromTiles(s, 0, Look());
      TilesOrder(Tokenizer()(s), 0, |s|, i, i);
    }

    lemma Covered(s: string)
      requires Valid()
      ensures Tiles(Tokenizer()(s), 0, |s|)
    {
      DigitRule(Look()).FromTiles(s, 0, Look());
    }

    // ---- the left window -------------------------------------------------------------------------

    /** Where the left window's tokens may start. */
    predicate LeftOk(x: int) {
      x < q || (q < x <= p && !Odd(p - x)) || p < x
    }

    lemma LeftStep(x: int, e: int)
      requires Valid() && 0 <= x && LeftOk(x)
      requires e == x + (if x + Look() <= q + overlap then CharSize(Want(x)) else 1)
      ensures LeftOk(e)
      ensures if x < p then e <= p && x + Look() <= q + overlap else e == x + 1
    {
      Parity(p - x);
      Parity(p - q);
    }

    lemma LeftNext(i: nat)
      requires Valid() && i < |Tokenizer()(Left())| && LeftOk(Tokenizer()(Left())[i].start)
      ensures var t := Tokenizer()(Left())[i];
              && LeftOk(t.end)
              && (if t.start < p then t.end <= p && t.start + Look() <= |Left()| else t.end == t.start + 1 && t.id == 1)
    {
      var t := Tokenizer()(Left())[i];
      TokenAt(Left(), i);
      LeftStep(t.start, t.end);
    }

    lemma {:induction false} LeftStartsOf(ts: seq<Token>, hi: int, i: nat)
      requires Valid() && Tiles(ts, 0, hi) && i < |ts|
      requires forall k :: 0 <= k < |ts| && LeftOk(ts[k].start) ==> LeftOk(ts[k].end)
      ensures LeftOk(ts[i].start)
    {
      if i > 0 {
        LeftStartsOf(ts, hi, i - 1);
        EndIsStart(ts, 0, hi, i);
      }
    }

    lemma LeftStarts(i: nat)
      requires Valid() && i < |Tokenizer()(Left())|
      ensures LeftOk(Tokenizer()(Left())[i].start)
    {
      var ts := Tokenizer()(Left());
      Covered(Left());
      forall k | 0 <= k < |ts| && LeftOk(ts[k].start)
        ensures LeftOk(ts[k].end)
      {
        LeftNext(k);
      }
      LeftStartsOf(ts, |Left()|, i);
    }

    lemma LeftToken(i: nat)
      requires Valid() && i < |Tokenizer()(Left())|
      ensures var t := Tokenizer()(Left())[i];
              && (t.start < p ==> t.end <= p && t.start + Look() <= |Left()|)
              && (t.start >= p ==> t.end == t.start + 1 && t.id == 1)
    {
      LeftStarts(i);
      LeftNext(i);
    }

    /** Token `n` of the left window starts at `p`, and from there on it has single characters. */
    lemma LeftShape() returns (n: nat)
      requires Valid()
      ensures var ts := Tokenizer()(Left());
              && n < |ts| == n + 1 + RunSize() && ts[n].id == 1
              && (forall i :: 0 <= i < n ==> ts[i].start < p && ts[i].start + Look() <= |Left()|)
              && (forall i :: n <= i < |ts| ==> ts[i].start == p + (i - n))
    {
      var ts := Tokenizer()(Left());
      Covered(Left());
      forall i | 0 <= i < |ts|
        ensures ts[i].start < p ==> ts[i].end <= p && ts[i].start + Look() <= |Left()|
        ensures ts[i].start >= p ==> ts[i].end == ts[i].start + 1 && ts[i].id == 1
      {
        LeftToken(i);
      }
      n := StartReached(ts, 0, |Left()|, p, 0);
      forall i | 0 <= i < |ts|
        ensures i < n <==> ts[i].start < p
      {
        StartsOrder(ts, 0, |Left()|, i, n);
      }
      Singles(ts, 0, |Left()|, n);
    }

    // ---- the right window ------------------------------------------------------------------------

    /** Where the right window's tokens may start: out of step with `p`. */
    predicate RightOk(x: int) {
      x == 0 || (0 < x && q + x < p && Odd(p - q - x)) || p < q + x
    }

    lemma RightStep(x: int, e: int)
      requires Valid() && 0 <= x && RightOk(x)
      requires e == x + (if x + Look() <= TailSize() then CharSize(Want(q + x)) else 1)
      ensures RightOk(e) && q + x != p
      ensures if q + x < p then q + e <= p + 1 else e == x + 1
    {
      Parity(p - q - x);
    }

    lemma RightNext(i: nat)
      requires Valid() && i < |Tokenizer()(Right())| && RightOk(Tokenizer()(Right())[i].start)
      ensures var t := Tokenizer()(Right())[i];
              && RightOk(t.end)
              && (if q + t.start <= p then q + t.end <= p + 1 else t.end == t.start + 1)
    {
      var t := Tokenizer()(Right())[i];
      TokenAt(Right(), i);
      RightStep(t.start, t.end);
    }

    lemma {:induction false} RightStartsOf(ts: seq<Token>, hi: int, i: nat)
      requires Valid() && Tiles(ts, 0, hi) && i < |ts|
      requires forall k :: 0 <= k < |ts| && RightOk(ts[k].start) ==> RightOk(ts[k].end)
      ensures RightOk(ts[i].start)
    {
      if i > 0 {
        RightStartsOf(ts, hi, i - 1);
        EndIsStart(ts, 0, hi, i);
      }
    }

    lemma RightStarts(i: nat)
      requires Valid() && i < |Tokenizer()(Right())|
      ensures RightOk(Tokenizer()(Right())[i].start)
    {
      var ts := Tokenizer()(Right());
      Covered(Right());
      forall k | 0 <= k < |ts| && RightOk(ts[k].start)
        ensures RightOk(ts[k].end)
      {
        RightNext(k);
      }
      RightStartsOf(ts, |Right()|, i);
    }

    lemma RightToken(i: nat)
      requires Valid() && i < |Tokenizer()(Right())|
      ensures var t := Tokenizer()(Right())[i];
              && (q + t.start <= p ==> q + t.end <= p + 1)
              && (q + t.start > p ==> t.end == t.start + 1)
    {
      RightStarts(i);
      RightNext(i);
    }

    /** Token `m` of the right window starts after `p`, and from there on it has single characters. */
    lemma RightShape() returns (m: nat)
      requires Valid()
      ensures var ts := Tokenizer()(Right());
              && m + RunSize() <= |ts|
              && (forall i :: m <= i < |ts| ==> q + ts[i].start == p + 1 + (i - m))
    {
      var ts := Tokenizer()(Right());
      Covered(Right());
      forall i | 0 <= i < |ts|
        ensures q + ts[i].start <= p ==> q + ts[i].end <= p + 1
        ensures q + ts[i].start > p ==> ts[i].end == ts[i].start + 1
      {
        RightToken(i);
      }
      m := StartReached(ts, 0, |Right()|, p + 1 - q, 0);
      forall i | m <= i < |ts|
        ensures ts[i].end == ts[i].start + 1
      {
        StartsOrder(ts, 0, |Right()|, m, i);
      }
      Singles(ts, 0, |Right()|, m);
    }

    // ---- the run of the pipeline -----------------------------------------------------------------

    function Run(thres: nat, n: nat, m: nat): (A: Attempt)
      requires Valid()
    {
      Attempt(Text(), q, overlap, thres, [Left(), Right()], [Tokenizer()(Left()), Tokenizer()(Right())],
              [MatchMerge.Run(n + 1, m, RunSize())])
    }

    /** Up to `p` the two windows have no token start in common. */
    lemma OutOfStep(i: nat, j: nat)
      requires Valid() && i < |Tokenizer()(Left())| && j < |Tokenizer()(Right())|
      ensures Tokenizer()(Left())[i].start == Tokenizer()(Right())[j].start + q ==> Tokenizer()(Left())[i].start > p
    {
      LeftStarts(i);
      RightStarts(j);
      TokenAt(Right(), j);
    }

    lemma InStepAfter(n: nat, m: nat, i: nat, j: nat)
      requires Valid() && n + 1 < |Tokenizer()(Left())| && m < |Tokenizer()(Right())|
      requires Tokenizer()(Left())[n].start == p && Tokenizer()(Left())[n + 1].start == p + 1
      requires q + Tokenizer()(Right())[m].start == p + 1
      requires i < |Tokenizer()(Left())| && j < |Tokenizer()(Right())|
      requires Tokenizer()(Left())[i].start == Tokenizer()(Right())[j].start + q
      ensures i > n && (j > m ==> i > n + 1)
    {
      Covered(Left());
      Covered(Right());
      OutOfStep(i, j);
      StartsOrder(Tokenizer()(Left()), 0, |Left()|, n, i);
      StartsOrder(Tokenizer()(Left()), 0, |Left()|, n + 1, i);
      StartsOrder(Tokenizer()(Right()), 0, |Right()|, m, j);
    }

    lemma RunIsChosen(n: nat, m: nat)
      requires Valid()
      requires var ts := Tokenizer()(Left()); n < |ts| == n + 1 + RunSize()
      requires var ts := Tokenizer()(Left()); forall i :: n <= i < |ts| ==> ts[i].start == p + (i - n)
      requires var ts := Tokenizer()(Right()); m + RunSize() <= |ts|
      requires var ts := Tokenizer()(Right()); forall i :: m <= i < |ts| ==> q + ts[i].start == p + 1 + (i - m)
      ensures IsRightmostLongest(Starts(Tokenizer()(Left())), Starts(Tokenizer()(Right())), q,
                                 MatchMerge.Run(n + 1, m, RunSize()))
    {
      var a, b := Starts(Tokenizer()(Left())), Starts(Tokenizer()(Right()));
      forall i, j | 0 <= i <= |a| && 0 <= j <= |b|
        ensures RunLength(a, b, q, i, j) <= RunSize()
        ensures j > m ==> RunLength(a, b, q, i, j) < RunSize()
      {
        if RunLength(a, b, q, i, j) > 0 {
          assert a[i] == b[j] + q;
          InStepAfter(n, m, i, j);
        }
      }
    }

    lemma RunIsValid(thres: nat, n: nat, m: nat)
      requires Valid() && thres + 2 <= RunSize()
      requires IsRightmostLongest(Starts(Tokenizer()(Left())), Starts(Tokenizer()(Right())), q,
                                  MatchMerge.Run(n + 1, m, RunSize()))
      ensures Run(thres, n, m).Valid(Tokenizer()) && Chosen(Run(thres, n, m))
    {
      var A := Run(thres, n, m);
      assert |A.text| - q == TailSize();
      assert WindowCount(TailSize(), q) == 1;
      assert WindowCount(|A.text|, q) == 2;
      assert Offset(q, 1) == q;
      assert IsWindow(A.text, q, overlap, 0, A.cks[0]);
      assert IsWindow(A.text, q, overlap, 1, A.cks[1]);
      assert A.Shard(Tokenizer(), 0) && A.Shard(Tokenizer(), 1);
      assert ChosenAt(A, 0) && A.Matched(0);
    }

    /** Up to token `n` the left window's tokens are the serial ones. */
    lemma SerialReaches(n: nat)
      requires Valid() && n < |Tokenizer()(Left())| && Tokenizer()(Left())[n].start == p
      requires forall i :: 0 <= i < n ==> Tokenizer()(Left())[i].start + Look() <= |Left()|
      ensures n < |Tokenizer()(Text())| && Tokenizer()(Text())[n].start == p
    {
      var T, w, s, c := Tokenizer(), Look(), Text(), Left();
      IsLawful();
      Covered(s);
      Covered(c);
      forall i | 0 <= i < n
        ensures SeesEnough(|c|, |c| == |s|, T(c)[i].start, w)
      {
      }
      Follow(T, w, s, c, 0, 0, n, 0);
    }

    /** Token `n` of the left window has one character, but serially that token has two. */
    lemma SerialDiffers(n: nat)
      requires Valid() && n < |Tokenizer()(Text())| && Tokenizer()(Text())[n].start == p
      ensures Tokenizer()(Text())[n].id == 2
    {
      TokenAt(Text(), n);
    }

    /** The ids of the splice differ from the serial ids. */
    lemma RunLoses(thres: nat, n: nat, m: nat)
      requires Valid() && thres + 2 <= RunSize() && Run(thres, n, m).Valid(Tokenizer())
      requires n < |Tokenizer()(Left())| && Tokenizer()(Left())[n].id == 1
      requires n < |Tokenizer()(Text())| && Tokenizer()(Text())[n].id == 2
      ensures var A := Run(thres, n, m);
              && TableFits(IdShards(A.shards), A.SpliceTable())
              && Spliced(IdShards(A.shards), A.SpliceTable(), 2) != Ids(Tokenizer()(Text()))
    {
      var A := Run(thres, n, m);
      IsLawful();
      A.ValidIsSewn(Tokenizer());
      SpliceBegins(A, n);
      assert Ids(Tokenizer()(Text()))[n] == 2;
    }

    lemma Loses(thres: nat) returns (A: Attempt)
      requires Valid() && thres + 2 <= RunSize()
      ensures A.Valid(Tokenizer()) && Chosen(A)
      ensures A.chunkSize == q && A.overlap == overlap && A.thres == thres && A.text == Text()
      ensures TableFits(IdShards(A.shards), A.SpliceTable())
      ensures Spliced(IdShards(A.shards), A.SpliceTable(), |A.shards|) != Ids(Tokenizer()(A.text))
    {
      var n := LeftShape();
      var m := RightShape();
      A := Run(thres, n, m);
      RunIsChosen(n, m);
      RunIsValid(thres, n, m);
      SerialReaches(n);
      SerialDiffers(n);
      RunLoses(thres, n, m);
    }
  }
}
