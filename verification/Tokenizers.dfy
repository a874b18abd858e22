/** What the parallel tokenizer assumes about the serial tokenizer it runs on every window
    (benchmarks/run_lopt.py, `_tokenize_chunk`): a function from texts to tokens with offsets. */
module Tokenizers {
  import opened Common

  /** A token: its offsets into the text that was tokenised, and its id. */
  datatype Token = Token(start: int, end: int, id: int)

  /** The tokens are non-empty and cover [lo, hi) from left to right, with no gap and no overlap. */
  ghost predicate Tiles(ts: seq<Token>, lo: int, hi: int) {
    if ts == [] then lo == hi
    else
      && ts[0].start == lo && ts[|ts| - 1].end == hi
      && (forall i {:trigger Meets(ts, i)} :: 0 <= i < |ts| ==> Meets(ts, i))
  }

  /** Token `i` is not empty, and ends where the next one starts. */
  ghost predicate Meets(ts: seq<Token>, i: int)
    requires 0 <= i < |ts|
  {
    ts[i].start < ts[i].end && (i + 1 < |ts| ==> ts[i].end == ts[i + 1].start)
  }

  ghost predicate Covers(T: string -> seq<Token>) {
    forall s :: CoversText(T, s)
  }

  ghost predicate CoversText(T: string -> seq<Token>, s: string) {
    Tiles(T(s), 0, |s|)
  }

  /** The text of a token, for a token that lies within the text. */
  function Text(s: string, t: Token): (r: string) {
    if 0 <= t.start <= t.end <= |s| then s[t.start..t.end] else ""
  }

  /** The `w` characters from position `p` on, or fewer at the end of the text. */
  function Window(s: string, p: int, w: nat): (r: string) {
    if 0 <= p <= |s| then s[p..Min(p + w, |s|)] else ""
  }

  /** Tokens with the same text have the same id, wherever they occur. */
  ghost predicate IdsFromText(T: string -> seq<Token>) {
    forall s, t, i, j :: SameTextSameId(T, s, t, i, j)
  }

  ghost predicate SameTextSameId(T: string -> seq<Token>, s: string, t: string, i: int, j: int) {
    0 <= i < |T(s)| && 0 <= j < |T(t)| && Text(s, T(s)[i]) == Text(t, T(t)[j]) ==> T(s)[i].id == T(t)[j].id
  }

  /** Left to right with bounded lookahead: where a token ends depends on nothing but the next `w`
      characters, counted from where it starts. */
  ghost predicate LooksAhead(T: string -> seq<Token>, w: nat) {
    forall s, t, i, j :: SameWindowSameSize(T, w, s, t, i, j)
  }

  ghost predicate SameWindowSameSize(T: string -> seq<Token>, w: nat, s: string, t: string, i: int, j: int) {
    0 <= i < |T(s)| && 0 <= j < |T(t)| && Window(s, T(s)[i].start, w) == Window(t, T(t)[j].start, w) ==>
      T(s)[i].end - T(s)[i].start == T(t)[j].end - T(t)[j].start
  }

  ghost predicate Lawful(T: string -> seq<Token>, w: nat) {
    Covers(T) && IdsFromText(T) && LooksAhead(T, w)
  }

  lemma TilesOrder(ts: seq<Token>, lo: int, hi: int, i: int, j: int)
    requires Tiles(ts, lo, hi) && 0 <= i <= j < |ts|
    ensures lo <= ts[i].start && ts[j].end <= hi
    ensures i < j ==> ts[i].end <= ts[j].start
    ensures ts[i].start + (j - i) <= ts[j].start
    ensures ts[i].start < ts[i].end && ts[j].start < ts[j].end
  {
    assert Meets(ts, i) && Meets(ts, j);
    TilesLow(ts, lo, hi, i);
    TilesHigh(ts, lo, hi, j);
    if i < j {
      TilesStep(ts, lo, hi, i, j);
    }
  }

  lemma {:induction false} TilesLow(ts: seq<Token>, lo: int, hi: int, i: int)
    requires Tiles(ts, lo, hi) && 0 <= i < |ts|
    ensures lo <= ts[i].start
  {
    if i > 0 {
      TilesLow(ts, lo, hi, i - 1);
      assert Meets(ts, i - 1);
    }
  }

  lemma {:induction false} TilesHigh(ts: seq<Token>, lo: int, hi: int, j: int)
    requires Tiles(ts, lo, hi) && 0 <= j < |ts|
    ensures ts[j].end <= hi
    decreases |ts| - j
  {
    if j + 1 < |ts| {
      TilesHigh(ts, lo, hi, j + 1);
      assert Meets(ts, j) && Meets(ts, j + 1);
    }
  }

  lemma {:induction false} TilesStep(ts: seq<Token>, lo: int, hi: int, i: int, j: int)
    requires Tiles(ts, lo, hi) && 0 <= i < j < |ts|
    ensures ts[i].end <= ts[j].start
    ensures ts[i].start + (j - i) <= ts[j].start
    decreases j - i
  {
    assert Meets(ts, j - 1) && Meets(ts, i);
    if i < j - 1 {
      TilesStep(ts, lo, hi, i, j - 1);
    }
  }

  /** The laws are not vacuous: any rule that cuts the next token off by looking at `w` characters
      makes a lawful tokenizer. */
  datatype Rule = Rule(cut: string -> nat, id: string -> int) {
    /** Length of the token that starts with window `v`. */
    function Length(v: string): (n: nat)
      requires v != ""
      ensures 1 <= n <= |v|
    {
      if 1 <= cut(v) <= |v| then cut(v) else 1
    }

    function From(s: string, p: nat, w: nat): (ts: seq<Token>)
      requires p <= |s| && w >= 1
      decreases |s| - p
    {
      if p == |s| then []
      else
        var q := p + Length(Window(s, p, w));
        [Token(p, q, id(s[p..q]))] + From(s, q, w)
    }

    lemma {:induction false} FromTiles(s: string, p: nat, w: nat)
      requires p <= |s| && w >= 1
      ensures Tiles(From(s, p, w), p, |s|)
      decreases |s| - p
    {
      if p < |s| {
        var q := p + Length(Window(s, p, w));
        var rest := From(s, q, w);
        FromTiles(s, q, w);
        PrependTiles(Token(p, q, id(s[p..q])), rest, From(s, p, w), |s|);
      }
    }

    lemma {:induction false} FromToken(s: string, p: nat, w: nat, i: nat)
      requires p <= |s| && w >= 1 && i < |From(s, p, w)|
      ensures var t := From(s, p, w)[i];
              && 0 <= t.start < |s|
              && t.end == t.start + Length(Window(s, t.start, w)) && t.id == id(Text(s, t))
      decreases |s| - p
    {
      var q := p + Length(Window(s, p, w));
      var rest := From(s, q, w);
      assert From(s, p, w) == [Token(p, q, id(s[p..q]))] + rest;
      if i > 0 {
        FromToken(s, q, w, i - 1);
      }
    }

    function Tokenizer(w: nat): (T: string -> seq<Token>)
      requires w >= 1
    {
      (s: string) => From(s, 0, w)
    }

    lemma RuleIsLawful(w: nat)
      requires w >= 1
      ensures Lawful(Tokenizer(w), w)
    {
      var T := Tokenizer(w);
      forall s
        ensures CoversText(T, s)
      {
        FromTiles(s, 0, w);
      }
      forall s, t, i, j
        ensures SameTextSameId(T, s, t, i, j) && SameWindowSameSize(T, w, s, t, i, j)
      {
        if 0 <= i < |T(s)| && 0 <= j < |T(t)| {
          FromToken(s, 0, w, i);
          FromToken(t, 0, w, j);
        }
      }
    }
  }

  lemma PrependTiles(t: Token, ts: seq<Token>, all: seq<Token>, hi: int)
    requires t.start < t.end && Tiles(ts, t.end, hi) && all == [t] + ts
    ensures Tiles(all, t.start, hi)
  {
    forall i | 0 <= i < |all|
      ensures Meets(all, i)
    {
      assert i > 0 ==> Meets(ts, i - 1);
    }
  }

  lemma AppendTiles(ts: seq<Token>, ts': seq<Token>, all: seq<Token>, lo: int, mid: int, hi: int)
    requires Tiles(ts, lo, mid) && Tiles(ts', mid, hi) && all == ts + ts'
    ensures Tiles(all, lo, hi)
  {
    forall i | 0 <= i < |all|
      ensures Meets(all, i)
    {
      assert if i < |ts| then Meets(ts, i) else Meets(ts', i - |ts|);
    }
  }

  lemma SliceTiles(ts: seq<Token>, lo: int, hi: int, i: int, j: int)
    requires Tiles(ts, lo, hi) && 0 <= i < j <= |ts|
    ensures Tiles(ts[i..j], ts[i].start, if j < |ts| then ts[j].start else hi)
  {
    var part := ts[i..j];
    forall k | 0 <= k < |part|
      ensures Meets(part, k)
    {
      assert Meets(ts, i + k);
    }
    assert Meets(ts, j - 1);
  }
}
