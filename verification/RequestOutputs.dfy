/** vllm/vllm/outputs.py, `RequestOutput.add`: outputs that arrive in pieces are merged into one. The
    completions are values here; that Python shares the objects is not modelled. */
module RequestOutputs {
  import opened Common

  /** `Position` stands for the logprobs of one position. */
  datatype Completion<Position> = Completion(
    index: int,
    text: string,
    tokenIds: seq<int>,
    cumulativeLogprob: Option<real>,
    logprobs: Option<seq<Position>>,
    finishReason: Option<string>,
    stopReason: Option<string>,
    loraRequest: Option<string>)

  /** Non-empty logprobs arrive for a completion that has none: the assertion in `add` fails. */
  predicate Clashes<P>(c: Completion<P>, n: Completion<P>) {
    n.logprobs.Some? && n.logprobs.value != [] && c.logprobs.None?
  }

  /** The completion with the next piece appended. */
  function Merged<P>(c: Completion<P>, n: Completion<P>): (r: Completion<P>) {
    c.(text := c.text + n.text, tokenIds := c.tokenIds + n.tokenIds,
       logprobs := if c.logprobs.Some? && n.logprobs.Some? then Some(c.logprobs.value + n.logprobs.value)
                   else c.logprobs,
       cumulativeLogprob := n.cumulativeLogprob, finishReason := n.finishReason, stopReason := n.stopReason)
  }

  /** Position of the first completion with an index, or the number of completions. */
  function Find<P>(outs: seq<Completion<P>>, index: int): (k: nat)
    ensures k <= |outs| && (k < |outs| ==> outs[k].index == index)
    ensures forall i :: 0 <= i < k ==> outs[i].index != index
  {
    if outs == [] then 0 else if outs[0].index == index then 0 else 1 + Find(outs[1..], index)
  }

  predicate Has<P>(outs: seq<Completion<P>>, index: int) {
    Find(outs, index) < |outs|
  }

  function Put<P>(outs: seq<Completion<P>>, n: Completion<P>, aggregate: bool): (r: seq<Completion<P>>) {
    var k := Find(outs, n.index);
    if k < |outs| then outs[k := if aggregate then Merged(outs[k], n) else n] else outs + [n]
  }

  function Fold<P>(outs: seq<Completion<P>>, s: seq<Completion<P>>, aggregate: bool): (r: seq<Completion<P>>)
    decreases |s|
  {
    if s == [] then outs else Fold(Put(outs, s[0], aggregate), s[1..], aggregate)
  }

  /** Some piece of the stream clashes with what was merged before it. */
  predicate FoldClashes<P>(outs: seq<Completion<P>>, s: seq<Completion<P>>)
    decreases |s|
  {
    s != [] && (PutClashes(outs, s[0]) || FoldClashes(Put(outs, s[0], true), s[1..]))
  }

  predicate PutClashes<P>(outs: seq<Completion<P>>, n: Completion<P>) {
    var k := Find(outs, n.index);
    k < |outs| && Clashes(outs[k], n)
  }

  /** The first of the pieces that are left. */
  lemma FoldStep<P>(outs: seq<Completion<P>>, s: seq<Completion<P>>, x: nat, aggregate: bool)
    requires x < |s|
    ensures Fold(outs, s[x..], aggregate) == Fold(Put(outs, s[x], aggregate), s[x + 1..], aggregate)
    ensures FoldClashes(outs, s[x..]) <==>
              PutClashes(outs, s[x]) || FoldClashes(Put(outs, s[x], true), s[x + 1..])
  {
    assert s[x..][0] == s[x] && s[x..][1..] == s[x + 1..];
  }

  class RequestOutput<P> {
    var outputs: seq<Completion<P>>
    var finished: bool
    var kvTransferParams: Option<string>

    constructor (outputs: seq<Completion<P>>, finished: bool, kvTransferParams: Option<string>)
      ensures this.outputs == outputs && this.finished == finished && this.kvTransferParams == kvTransferParams
    {
      this.outputs, this.finished, this.kvTransferParams := outputs, finished, kvTransferParams;
    }

    /** Appending one piece. False stands for the failed assertion. */
    static method MergePiece(c: Completion<P>, next: Completion<P>) returns (completion: Completion<P>, ok: bool)
      ensures ok <==> !Clashes(c, next)
      ensures ok ==> completion == Merged(c, next)
    {
      completion := c.(text := c.text + next.text);
      completion := completion.(tokenIds := completion.tokenIds + next.tokenIds);
      if next.logprobs.Some? && |next.logprobs.value| > 0 {
        if completion.logprobs.None? {
          return completion, false;
        }
        completion := completion.(logprobs := Some(completion.logprobs.value + next.logprobs.value));
      } else if next.logprobs.Some? && completion.logprobs.Some? {
        assert completion.logprobs.value + next.logprobs.value == completion.logprobs.value;
      }
      completion := completion.(cumulativeLogprob := next.cumulativeLogprob,
                                finishReason := next.finishReason,
                                stopReason := next.stopReason);
      ok := true;
    }

    /** The inner loop of `add`: one piece is merged into the completion with its index, replaces it, or
        is appended. */
    static method AddOne(outs: seq<Completion<P>>, next: Completion<P>, aggregate: bool)
      returns (r: seq<Completion<P>>, ok: bool)
      ensures ok <==> !(aggregate && PutClashes(outs, next))
      ensures ok ==> r == Put(outs, next, aggregate)
    {
      var k := 0;
      while k < |outs| && outs[k].index != next.index
        invariant 0 <= k <= |outs|
        invariant forall i :: 0 <= i < k ==> outs[i].index != next.index
      {
        k := k + 1;
      }
      assert k == Find(outs, next.index);
      if k == |outs| {
        return outs + [next], true;
      } else if aggregate {
        var merged, fine := MergePiece(outs[k], next);
        return outs[k := merged], fine;
      } else {
        return outs[k := next], true;
      }
    }

    /** `add`. False stands for the failed assertion, which leaves the merge half done. */
    method Add(next: RequestOutput<P>, aggregate: bool) returns (ok: bool)
      requires next != this
      modifies this
      ensures finished == (old(finished) || next.finished) && kvTransferParams == next.kvTransferParams
      ensures ok <==> !(aggregate && FoldClashes(old(outputs), next.outputs))
      ensures ok ==> outputs == Fold(old(outputs), next.outputs, aggregate)
    {
      finished := finished || next.finished;
      kvTransferParams := next.kvTransferParams;
      ghost var s, before := next.outputs, outputs;
      assert s[0..] == s;
      for x := 0 to |next.outputs|
        invariant next.outputs == s
        invariant finished == (old(finished) || next.finished) && kvTransferParams == next.kvTransferParams
        invariant Fold(outputs, s[x..], aggregate) == Fold(before, s, aggregate)
        invariant aggregate ==> (FoldClashes(outputs, s[x..]) <==> FoldClashes(before, s))
      {
        FoldStep(outputs, s, x, aggregate);
        var fine;
        outputs, fine := AddOne(outputs, next.outputs[x], aggregate);
        if !fine {
          return false;
        }
      }
      ok := true;
    }
  }

  // ---- what a stream of pieces adds up to --------------------------------------------------------

  function Indices<P>(outs: seq<Completion<P>>): (r: seq<int>)
    ensures |r| == |outs| && forall i :: 0 <= i < |r| ==> r[i] == outs[i].index
  {
    seq(|outs|, i requires 0 <= i < |outs| => outs[i].index)
  }

  /** The indices of a stream in the order in which they first appear, after those in `seen`. */
  function FirstAppearances<P>(seen: seq<int>, s: seq<Completion<P>>): (r: seq<int>)
    decreases |s|
  {
    if s == [] then seen
    else FirstAppearances(if s[0].index in seen then seen else seen + [s[0].index], s[1..])
  }

  ghost predicate Unique<P>(outs: seq<Completion<P>>) {
    forall i, j :: 0 <= i < j < |outs| ==> outs[i].index != outs[j].index
  }

  /** What a stream says under one index. */
  datatype Content<P> = Content(text: string, tokenIds: seq<int>, positions: seq<P>)

  function Join<P>(a: Content<P>, b: Content<P>): Content<P> {
    Content(a.text + b.text, a.tokenIds + b.tokenIds, a.positions + b.positions)
  }

  function PieceContent<P>(n: Completion<P>, index: int): Content<P> {
    if n.index == index then Content(n.text, n.tokenIds, if n.logprobs.Some? then n.logprobs.value else [])
    else Content("", [], [])
  }

  /** The texts, tokens and logprobs of all pieces with that index, in order. */
  function ContentOf<P>(s: seq<Completion<P>>, index: int): Content<P> {
    if s == [] then Content("", [], []) else Join(ContentOf(s[..|s| - 1], index), PieceContent(s[|s| - 1], index))
  }

  lemma JoinAssociates<P>(a: Content<P>, b: Content<P>, c: Content<P>)
    ensures Join(Join(a, b), c) == Join(a, Join(b, c))
  {
    assert a.text + b.text + c.text == a.text + (b.text + c.text);
    assert a.tokenIds + b.tokenIds + c.tokenIds == a.tokenIds + (b.tokenIds + c.tokenIds);
    assert a.positions + b.positions + c.positions == a.positions + (b.positions + c.positions);
  }

  lemma JoinNothing<P>(a: Content<P>)
    ensures Join(a, Content("", [], [])) == a
  {
  }

  lemma {:induction false} NoContentElsewhere<P>(s: seq<Completion<P>>, k: nat, n: nat, index: int)
    requires k <= n <= |s| && forall i :: k <= i < n ==> s[i].index != index
    ensures ContentOf(s[..n], index) == ContentOf(s[..k], index)
  {
    if k < n {
      NoContentElsewhere(s, k, n - 1, index);
      assert s[..n][..n - 1] == s[..n - 1];
      JoinNothing(ContentOf(s[..n - 1], index));
    }
  }

  lemma ContentSplit<P>(s: seq<Completion<P>>, n: nat, index: int)
    requires 0 < n <= |s|
    ensures ContentOf(s[..n], index) == Join(ContentOf(s[..n - 1], index), PieceContent(s[n - 1], index))
  {
    assert s[..n][..n - 1] == s[..n - 1];
  }

  lemma {:induction false} SameContentFrom<P>(s: seq<Completion<P>>, t: seq<Completion<P>>, k: nat, n: nat, index: int)
    requires k <= n <= |s| && |s| == |t| && forall i :: k <= i < n ==> s[i] == t[i]
    requires ContentOf(s[..k], index) == ContentOf(t[..k], index)
    ensures ContentOf(s[..n], index) == ContentOf(t[..n], index)
  {
    if k < n {
      SameContentFrom(s, t, k, n - 1, index);
      ContentSplit(s, n, index);
      ContentSplit(t, n, index);
    }
  }

  lemma MergedContent<P>(c: Completion<P>, n: Completion<P>, index: int)
    requires c.index == n.index && !Clashes(c, n)
    ensures PieceContent(Merged(c, n), index) == Join(PieceContent(c, index), PieceContent(n, index))
  {
  }

  lemma UpdateContentSame<P>(outs: seq<Completion<P>>, k: nat, n: Completion<P>)
    requires Unique(outs) && k < |outs| && outs[k].index == n.index && !Clashes(outs[k], n)
    ensures ContentOf(outs[k := Merged(outs[k], n)], n.index)
         == Join(ContentOf(outs, n.index), PieceContent(n, n.index))
  {
    var r, index := outs[k := Merged(outs[k], n)], n.index;
    assert outs[..k + 1][..k] == outs[..k] && r[..k + 1][..k] == outs[..k];
    assert outs[..|outs|] == outs && r[..|r|] == r;
    MergedContent(outs[k], n, index);
    JoinAssociates(ContentOf(outs[..k], index), PieceContent(outs[k], index), PieceContent(n, index));
    NoContentElsewhere(outs, k + 1, |outs|, index);
    NoContentElsewhere(r, k + 1, |r|, index);
  }

  lemma UpdateContentOther<P>(outs: seq<Completion<P>>, k: nat, c: Completion<P>, index: int)
    requires k < |outs| && outs[k].index == c.index != index
    ensures ContentOf(outs[k := c], index) == ContentOf(outs, index)
  {
    var r := outs[k := c];
    assert outs[..k + 1][..k] == outs[..k] && r[..k + 1][..k] == outs[..k];
    assert outs[..|outs|] == outs && r[..|r|] == r;
    SameContentFrom(r, outs, k + 1, |outs|, index);
  }

  /** One piece adds its content under its own index, at the end, and leaves the others alone. */
  lemma PutContent<P>(outs: seq<Completion<P>>, n: Completion<P>, index: int)
    requires Unique(outs) && !PutClashes(outs, n)
    ensures ContentOf(Put(outs, n, true), index) == Join(ContentOf(outs, index), PieceContent(n, index))
  {
    var k := Find(outs, n.index);
    if k == |outs| {
      assert (outs + [n])[..|outs|] == outs;
    } else if index == n.index {
      UpdateContentSame(outs, k, n);
    } else {
      UpdateContentOther(outs, k, Merged(outs[k], n), index);
      JoinNothing(ContentOf(outs, index));
    }
  }

  lemma PutShape<P>(outs: seq<Completion<P>>, n: Completion<P>, aggregate: bool)
    requires Unique(outs)
    ensures Unique(Put(outs, n, aggregate))
    ensures Indices(Put(outs, n, aggregate))
         == if n.index in Indices(outs) then Indices(outs) else Indices(outs) + [n.index]
  {
    var k := Find(outs, n.index);
    if k < |outs| {
      assert Indices(outs)[k] == n.index;
    }
  }

  /** In either mode the indices stay unique and in the order of their first appearance. */
  lemma {:induction false} FoldKeepsOrder<P>(outs: seq<Completion<P>>, s: seq<Completion<P>>, aggregate: bool)
    requires Unique(outs)
    ensures Unique(Fold(outs, s, aggregate)) && Indices(Fold(outs, s, aggregate)) == FirstAppearances(Indices(outs), s)
    decreases |s|
  {
    if s != [] {
      PutShape(outs, s[0], aggregate);
      FoldKeepsOrder(Put(outs, s[0], aggregate), s[1..], aggregate);
    }
  }

  // ---- replacing ---------------------------------------------------------------------------------

  ghost predicate NoPiece<P>(s: seq<Completion<P>>, index: int) {
    forall k :: 0 <= k < |s| ==> s[k].index != index
  }

  /** `c` is the last piece of the stream with its index. */
  ghost predicate IsLastPiece<P>(s: seq<Completion<P>>, c: Completion<P>) {
    exists k :: 0 <= k < |s| && s[k] == c && NoPiece(s[k + 1..], c.index)
  }

  lemma LastPieceOfRest<P>(s: seq<Completion<P>>, c: Completion<P>)
    requires s != []
    ensures IsLastPiece(s, c) <==> IsLastPiece(s[1..], c) || (c == s[0] && NoPiece(s[1..], c.index))
    ensures NoPiece(s, c.index) <==> s[0].index != c.index && NoPiece(s[1..], c.index)
  {
    var t := s[1..];
    if k :| 0 <= k < |s| && s[k] == c && NoPiece(s[k + 1..], c.index) {
      if k > 0 {
        assert t[k - 1] == c && t[k - 1 + 1..] == s[k + 1..];
      }
    }
    if k :| 0 <= k < |t| && t[k] == c && NoPiece(t[k + 1..], c.index) {
      assert s[k + 1] == c && s[k + 1 + 1..] == t[k + 1..];
    }
    if c == s[0] && NoPiece(t, c.index) {
      assert s[0 + 1..] == t;
    }
    if s[0].index != c.index && NoPiece(t, c.index) {
      forall k | 0 <= k < |s|
        ensures s[k].index != c.index
      {
        assert k > 0 ==> s[k] == t[k - 1];
      }
    }
    if NoPiece(s, c.index) {
      assert forall k :: 0 <= k < |t| ==> t[k] == s[k + 1];
    }
  }

  lemma PutReplaces<P>(outs: seq<Completion<P>>, n: Completion<P>, c: Completion<P>)
    requires Unique(outs)
    ensures c in Put(outs, n, false) <==> c == n || (c in outs && c.index != n.index)
  {
    var k, r := Find(outs, n.index), Put(outs, n, false);
    if k < |outs| {
      if i :| 0 <= i < |outs| && outs[i] == c && c.index != n.index {
        assert r[i] == c;
      }
      assert r[k] == n;
    } else {
      assert r == outs + [n];
    }
  }

  /** Without aggregation the result holds exactly the last piece of every index in the stream, whole, and
      those completions whose index does not occur in the stream, as they were. */
  lemma {:induction false} FoldReplaces<P>(outs: seq<Completion<P>>, s: seq<Completion<P>>, c: Completion<P>)
    requires Unique(outs)
    ensures c in Fold(outs, s, false) <==> IsLastPiece(s, c) || (c in outs && NoPiece(s, c.index))
    decreases |s|
  {
    if s != [] {
      PutShape(outs, s[0], false);
      PutReplaces(outs, s[0], c);
      FoldReplaces(Put(outs, s[0], false), s[1..], c);
      LastPieceOfRest(s, c);
    }
  }

  // ---- aggregating -------------------------------------------------------------------------------

  /** Whenever the assertion in `add` holds, each index ends up with what was there before followed by
      the texts, tokens and logprobs of its pieces. */
  lemma {:induction false} FoldAddsUp<P>(outs: seq<Completion<P>>, s: seq<Completion<P>>, index: int)
    requires Unique(outs) && !FoldClashes(outs, s)
    ensures ContentOf(Fold(outs, s, true), index) == Join(ContentOf(outs, index), ContentOf(s, index))
    decreases |s|
  {
    if s == [] {
      JoinNothing(ContentOf(outs, index));
    } else {
      PutShape(outs, s[0], true);
      PutContent(outs, s[0], index);
      FoldAddsUp(Put(outs, s[0], true), s[1..], index);
      HeadContent(s, index);
      JoinAssociates(ContentOf(outs, index), PieceContent(s[0], index), ContentOf(s[1..], index));
    }
  }

  /** The same, of the fields of each completion in the result. */
  lemma CompletionsAddUp<P>(outs: seq<Completion<P>>, s: seq<Completion<P>>, k: nat)
    requires Unique(outs) && !FoldClashes(outs, s) && k < |Fold(outs, s, true)|
    ensures var c := Fold(outs, s, true)[k];
            PieceContent(c, c.index) == Join(ContentOf(outs, c.index), ContentOf(s, c.index))
  {
    var r := Fold(outs, s, true);
    FoldKeepsOrder(outs, s, true);
    FoldAddsUp(outs, s, r[k].index);
    ContentOfOne(r, k);
  }

  lemma {:induction false} HeadContent<P>(s: seq<Completion<P>>, index: int)
    requires s != []
    ensures ContentOf(s, index) == Join(PieceContent(s[0], index), ContentOf(s[1..], index))
  {
    if |s| == 1 {
      JoinNothing(PieceContent(s[0], index));
      assert Join(Content("", [], []), PieceContent(s[0], index)) == PieceContent(s[0], index);
    } else {
      var n := |s| - 1;
      HeadContent(s[..n], index);
      assert s[..n][1..] == s[1..][..n - 1] && s[1..][n - 1] == s[n];
      JoinAssociates(PieceContent(s[0], index), ContentOf(s[1..][..n - 1], index), PieceContent(s[n], index));
    }
  }

  /** In a list with unique indices, an index has the content of its one completion. */
  lemma ContentOfOne<P>(outs: seq<Completion<P>>, k: nat)
    requires Unique(outs) && k < |outs|
    ensures ContentOf(outs, outs[k].index) == PieceContent(outs[k], outs[k].index)
  {
    ContentOfOnly(outs, k, outs[k].index);
  }

  lemma ContentOfOnly<P>(outs: seq<Completion<P>>, k: nat, index: int)
    requires k < |outs| && forall i :: 0 <= i < |outs| && i != k ==> outs[i].index != index
    ensures ContentOf(outs, index) == PieceContent(outs[k], index)
  {
    NoContentElsewhere(outs, 0, k, index);
    ContentSplit(outs, k + 1, index);
    NothingJoin(PieceContent(outs[k], index));
    NoContentElsewhere(outs, k + 1, |outs|, index);
    assert outs[..|outs|] == outs;
  }

  lemma NothingJoin<P>(a: Content<P>)
    ensures Join(Content("", [], []), a) == a
  {
  }

  // ---- grouping ----------------------------------------------------------------------------------

  lemma {:induction false} FoldConcat<P>(outs: seq<Completion<P>>, s: seq<Completion<P>>, t: seq<Completion<P>>,
                                         aggregate: bool)
    ensures Fold(outs, s + t, aggregate) == Fold(Fold(outs, s, aggregate), t, aggregate)
    decreases |s|
  {
    if s == [] {
      assert s + t == t;
    } else {
      assert (s + t)[1..] == s[1..] + t;
      FoldConcat(Put(outs, s[0], aggregate), s[1..], t, aggregate);
    }
  }

  lemma MergedAssociates<P>(c: Completion<P>, n: Completion<P>, m: Completion<P>)
    requires !Clashes(c, n) && !Clashes(c, m) && !Clashes(n, m)
    ensures Merged(Merged(c, n), m) == Merged(c, Merged(n, m))
  {
    assert c.text + n.text + m.text == c.text + (n.text + m.text);
    assert c.tokenIds + n.tokenIds + m.tokenIds == c.tokenIds + (n.tokenIds + m.tokenIds);
    if c.logprobs.Some? && m.logprobs.Some? {
      var a, d := c.logprobs.value, m.logprobs.value;
      if n.logprobs.Some? {
        assert a + n.logprobs.value + d == a + (n.logprobs.value + d);
      } else {
        assert a + d == a;
      }
    }
  }

  lemma {:induction false} FindUpdated<P>(outs: seq<Completion<P>>, k: nat, c: Completion<P>, index: int)
    requires k < |outs| && c.index == outs[k].index
    ensures Find(outs[k := c], index) == Find(outs, index)
  {
    if k > 0 {
      assert outs[k := c][1..] == outs[1..][k - 1 := c];
      FindUpdated(outs[1..], k - 1, c, index);
    }
  }

  lemma {:induction false} FindAppended<P>(outs: seq<Completion<P>>, c: Completion<P>, index: int)
    ensures Find(outs + [c], index)
         == if Find(outs, index) < |outs| || c.index == index then Find(outs, index) else |outs| + 1
  {
    if outs != [] {
      assert (outs + [c])[1..] == outs[1..] + [c];
      FindAppended(outs[1..], c, index);
    }
  }

  /** Two pieces with one index can be merged first. */
  lemma PutTwice<P>(outs: seq<Completion<P>>, n: Completion<P>, m: Completion<P>)
    requires n.index == m.index && !Clashes(n, m) && !PutClashes(outs, n) && !PutClashes(outs, m)
    ensures Put(Put(outs, n, true), m, true) == Put(outs, Merged(n, m), true)
  {
    var k := Find(outs, n.index);
    if k < |outs| {
      FindUpdated(outs, k, Merged(outs[k], n), n.index);
      MergedAssociates(outs[k], n, m);
    } else {
      FindAppended(outs, n, n.index);
    }
  }

  /** A piece for an index that is there already can change places with a piece for another index. */
  lemma PutCommutes<P>(outs: seq<Completion<P>>, n: Completion<P>, m: Completion<P>)
    requires n.index != m.index && Has(outs, n.index)
    ensures Put(Put(outs, n, true), m, true) == Put(Put(outs, m, true), n, true)
    ensures Has(Put(outs, m, true), n.index)
  {
    var k, l := Find(outs, n.index), Find(outs, m.index);
    FindUpdated(outs, k, Merged(outs[k], n), m.index);
    if l < |outs| {
      FindUpdated(outs, l, Merged(outs[l], m), n.index);
    } else {
      FindAppended(outs, m, n.index);
    }
  }

  lemma {:induction false} PutCommutesWithFold<P>(outs: seq<Completion<P>>, n: Completion<P>, s: seq<Completion<P>>)
    requires Has(outs, n.index) && forall i :: 0 <= i < |s| ==> s[i].index != n.index
    ensures Fold(Put(outs, n, true), s, true) == Put(Fold(outs, s, true), n, true)
    decreases |s|
  {
    if s != [] {
      PutCommutes(outs, n, s[0]);
      PutCommutesWithFold(Put(outs, s[0], true), n, s[1..]);
    }
  }

  lemma HasAfterPut<P>(outs: seq<Completion<P>>, n: Completion<P>)
    ensures Has(Put(outs, n, true), n.index)
  {
    var k := Find(outs, n.index);
    if k < |outs| {
      FindUpdated(outs, k, Merged(outs[k], n), n.index);
    } else {
      FindAppended(outs, n, n.index);
    }
  }

  /** How things stood when a piece was made. */
  datatype Progress = Progress(
    cumulativeLogprob: Option<real>,
    finishReason: Option<string>,
    stopReason: Option<string>)

  function ProgressOf<P>(n: Completion<P>): Progress {
    Progress(n.cumulativeLogprob, n.finishReason, n.stopReason)
  }

  /** What the last piece with that index says, or else what `before` says. */
  function Latest<P>(s: seq<Completion<P>>, index: int, before: Option<Progress>): (r: Option<Progress>)
    decreases |s|
  {
    if s == [] then before
    else Latest(s[1..], index, if s[0].index == index then Some(ProgressOf(s[0])) else before)
  }

  function Current<P>(outs: seq<Completion<P>>, index: int): (r: Option<Progress>) {
    var k := Find(outs, index);
    if k < |outs| then Some(ProgressOf(outs[k])) else None
  }

  lemma PutCurrent<P>(outs: seq<Completion<P>>, n: Completion<P>, index: int, aggregate: bool)
    ensures Current(Put(outs, n, aggregate), index)
         == if n.index == index then Some(ProgressOf(n)) else Current(outs, index)
  {
    var k := Find(outs, n.index);
    if k < |outs| {
      FindUpdated(outs, k, if aggregate then Merged(outs[k], n) else n, index);
    } else {
      FindAppended(outs, n, index);
    }
  }

  /** Aggregated or not, each index ends up with the finish and stop reasons and the cumulative logprob
      of its last piece. */
  lemma {:induction false} FoldIsCurrent<P>(outs: seq<Completion<P>>, s: seq<Completion<P>>, index: int,
                                            aggregate: bool)
    ensures Current(Fold(outs, s, aggregate), index) == Latest(s, index, Current(outs, index))
    decreases |s|
  {
    if s != [] {
      PutCurrent(outs, s[0], index, aggregate);
      FoldIsCurrent(Put(outs, s[0], aggregate), s[1..], index, aggregate);
    }
  }

  // ---- when the assertion fails ------------------------------------------------------------------

  /** Whether the completion that pieces with that index are merged into carries logprobs, if there is
      such a completion. */
  function Carries<P>(outs: seq<Completion<P>>, index: int): (r: Option<bool>) {
    var k := Find(outs, index);
    if k < |outs| then Some(outs[k].logprobs.Some?) else None
  }

  predicate HasLogprobs<P>(n: Completion<P>) {
    n.logprobs.Some? && n.logprobs.value != []
  }

  /** Merging does not change who carries logprobs. */
  lemma PutCarries<P>(outs: seq<Completion<P>>, n: Completion<P>, index: int)
    ensures Carries(Put(outs, n, true), index)
         == if Carries(outs, index) == None && n.index == index then Some(n.logprobs.Some?) else Carries(outs, index)
    ensures Carries(outs + [n], index) == Carries(Put(outs, n, true), index)
  {
    var k := Find(outs, n.index);
    FindAppended(outs, n, index);
    if k < |outs| {
      FindUpdated(outs, k, Merged(outs[k], n), index);
    }
  }

  lemma {:induction false} FoldCarries<P>(outs: seq<Completion<P>>, s: seq<Completion<P>>, index: int)
    ensures Carries(Fold(outs, s, true), index)
         == if Carries(outs, index) == None then Carries(s, index) else Carries(outs, index)
    decreases |s|
  {
    if s != [] {
      PutCarries(outs, s[0], index);
      FoldCarries(Put(outs, s[0], true), s[1..], index);
    }
  }

  lemma {:induction false} CarriesConcat<P>(outs: seq<Completion<P>>, s: seq<Completion<P>>, index: int)
    ensures Carries(outs + s, index) == if Carries(outs, index) == None then Carries(s, index) else Carries(outs, index)
  {
    if outs == [] {
      assert outs + s == s;
    } else {
      assert (outs + s)[1..] == outs[1..] + s;
      CarriesConcat(outs[1..], s, index);
    }
  }

  lemma {:induction false} FoldClashesConcat<P>(outs: seq<Completion<P>>, s: seq<Completion<P>>, t: seq<Completion<P>>)
    ensures FoldClashes(outs, s + t) <==> FoldClashes(outs, s) || FoldClashes(Fold(outs, s, true), t)
    decreases |s|
  {
    if s == [] {
      assert s + t == t;
    } else {
      assert (s + t)[1..] == s[1..] + t;
      FoldClashesConcat(Put(outs, s[0], true), s[1..], t);
    }
  }

  lemma FoldClashesOne<P>(outs: seq<Completion<P>>, n: Completion<P>)
    ensures Fold(outs, [n], true) == Put(outs, n, true)
    ensures FoldClashes(outs, [n]) <==> PutClashes(outs, n)
  {
    assert Fold(outs, [n], true) == Fold(Put(outs, n, true), [], true);
    assert [n][1..] == [];
    assert !FoldClashes(Put(outs, n, true), []);
  }

  /** Pieces i and j of `t`: i is the first with its index and has no logprobs, and j brings some. */
  ghost predicate LateLogprobs<P>(t: seq<Completion<P>>, i: int, j: int) {
    && 0 <= i < j < |t| && t[i].index == t[j].index && (forall x :: 0 <= x < i ==> t[x].index != t[j].index)
    && t[i].logprobs.None? && HasLogprobs(t[j])
  }

  lemma PutClashesIff<P>(outs: seq<Completion<P>>, n: Completion<P>)
    ensures PutClashes(outs, n) <==> HasLogprobs(n) && Carries(outs, n.index) == Some(false)
    ensures PutClashes(outs, n) <==> exists i :: LateLogprobs(outs + [n], i, |outs|)
  {
    var t, k := outs + [n], Find(outs, n.index);
    if PutClashes(outs, n) {
      assert LateLogprobs(t, k, |outs|);
    }
    if i :| LateLogprobs(t, i, |outs|) {
      assert t[i] == outs[i] && t[|outs|] == n;
      assert forall x :: 0 <= x < i ==> outs[x] == t[x];
      assert k == i;
    }
  }

  /** The assertion fails exactly when an index begins without logprobs and a later piece brings some. */
  lemma {:induction false} FoldClashesIff<P>(outs: seq<Completion<P>>, s: seq<Completion<P>>)
    ensures FoldClashes(outs, s) <==> exists i, j :: |outs| <= j && LateLogprobs(outs + s, i, j)
    decreases |s|
  {
    if s != [] {
      var n := |s| - 1;
      var t, x := s[..n], s[n];
      assert s == t + [x];
      FoldClashesConcat(outs, t, [x]);
      FoldClashesOne(Fold(outs, t, true), x);
      FoldCarries(outs, t, x.index);
      CarriesConcat(outs, t, x.index);
      PutClashesIff(Fold(outs, t, true), x);
      PutClashesIff(outs + t, x);
      FoldClashesIff(outs, t);
      assert outs + s == outs + t + [x];
      LatePrefix(outs + t, x);
      OneMoreLate(outs + t, x, |outs|);
    }
  }

  lemma LatePrefix<P>(t: seq<Completion<P>>, n: Completion<P>)
    ensures forall i, j :: j < |t| ==> (LateLogprobs(t + [n], i, j) <==> LateLogprobs(t, i, j))
  {
    var u := t + [n];
    assert forall k :: 0 <= k < |t| ==> t[k] == u[k];
    forall i, j | j < |t|
      ensures LateLogprobs(u, i, j) <==> LateLogprobs(t, i, j)
    {
      if LateLogprobs(u, i, j) {
        assert forall k :: 0 <= k < i ==> u[k] == t[k];
      }
    }
  }

  lemma OneMoreLate<P>(t: seq<Completion<P>>, x: Completion<P>, lo: int)
    requires lo <= |t|
    ensures (exists i, j :: lo <= j && LateLogprobs(t + [x], i, j))
       <==> (exists i, j :: lo <= j && LateLogprobs(t, i, j)) || exists i :: LateLogprobs(t + [x], i, |t|)
  {
    LatePrefix(t, x);
  }

  // ---- grouping ----------------------------------------------------------------------------------

  /** Clashes depend on nothing but who carries logprobs. */
  lemma {:induction false} SameCarriesSameClashes<P>(o: seq<Completion<P>>, o': seq<Completion<P>>,
                                                     s: seq<Completion<P>>)
    requires forall index :: Carries(o, index) == Carries(o', index)
    ensures FoldClashes(o, s) <==> FoldClashes(o', s)
    decreases |s|
  {
    if s != [] {
      PutClashesIff(o, s[0]);
      PutClashesIff(o', s[0]);
      forall index
        ensures Carries(Put(o, s[0], true), index) == Carries(Put(o', s[0], true), index)
      {
        PutCarries(o, s[0], index);
        PutCarries(o', s[0], index);
      }
      SameCarriesSameClashes(Put(o, s[0], true), Put(o', s[0], true), s[1..]);
    }
  }

  /** Two pieces with one index clash together where one of them clashes. */
  lemma MergedClashes<P>(o: seq<Completion<P>>, c: Completion<P>, n: Completion<P>)
    requires c.index == n.index && !Clashes(c, n)
    ensures PutClashes(o, Merged(c, n)) <==> PutClashes(o, c) || PutClashes(Put(o, c, true), n)
    ensures forall index :: Carries(Put(o, Merged(c, n), true), index) == Carries(Put(o, c, true), index)
  {
    PutClashesIff(o, c);
    PutClashesIff(o, Merged(c, n));
    PutClashesIff(Put(o, c, true), n);
    PutCarries(o, c, n.index);
    forall index
      ensures Carries(Put(o, Merged(c, n), true), index) == Carries(Put(o, c, true), index)
    {
      PutCarries(o, c, index);
      PutCarries(o, Merged(c, n), index);
    }
  }

  lemma CarriesBehind<P>(o: seq<Completion<P>>, b: seq<Completion<P>>, index: int)
    requires Has(o, index)
    ensures Carries(Fold(o, b, true), index) == Carries(o, index)
  {
    FoldCarries(o, b, index);
  }

  /** Merging a piece into the front of a group, and what the group then makes of `o`. */
  lemma MergeIntoFirst<P>(o: seq<Completion<P>>, c: Completion<P>, b: seq<Completion<P>>, n: Completion<P>)
    requires c.index == n.index && !Clashes(c, n) && forall i :: 0 <= i < |b| ==> b[i].index != n.index
    ensures FoldClashes(o, [Merged(c, n)] + b)
       <==> FoldClashes(o, [c] + b) || PutClashes(Fold(o, [c] + b, true), n)
    ensures !FoldClashes(o, [Merged(c, n)] + b) ==>
              Fold(o, [Merged(c, n)] + b, true) == Put(Fold(o, [c] + b, true), n, true)
  {
    var m := Merged(c, n);
    FoldFront(o, c, b);
    FoldFront(o, m, b);
    MergedClashes(o, c, n);
    SameCarriesSameClashes(Put(o, m, true), Put(o, c, true), b);
    HasAfterPut(o, c);
    CarriesBehind(Put(o, c, true), b, n.index);
    PutClashesIff(Put(o, c, true), n);
    PutClashesIff(Fold(Put(o, c, true), b, true), n);
    if !FoldClashes(o, [m] + b) {
      ClashesOnceCarried(o, c, n);
      PutTwice(o, c, n);
      PutCommutesWithFold(Put(o, c, true), n, b);
    }
  }

  lemma FoldFront<P>(o: seq<Completion<P>>, c: Completion<P>, b: seq<Completion<P>>)
    ensures Fold(o, [c] + b, true) == Fold(Put(o, c, true), b, true)
    ensures FoldClashes(o, [c] + b) <==> PutClashes(o, c) || FoldClashes(Put(o, c, true), b)
  {
    assert ([c] + b)[1..] == b;
  }

  lemma ClashesOnceCarried<P>(o: seq<Completion<P>>, c: Completion<P>, n: Completion<P>)
    requires c.index == n.index && !PutClashes(Put(o, c, true), n)
    ensures !PutClashes(o, n)
  {
    PutClashesIff(o, n);
    PutClashesIff(Put(o, c, true), n);
    PutCarries(o, c, n.index);
  }

  /** The LoRA request of the first completion with that index, if there is one. */
  function Lora<P>(outs: seq<Completion<P>>, index: int): (r: Option<Option<string>>) {
    var k := Find(outs, index);
    if k < |outs| then Some(outs[k].loraRequest) else None
  }

  /** Aggregation leaves each index the LoRA request that it began with. */
  lemma {:induction false} FoldKeepsLora<P>(outs: seq<Completion<P>>, s: seq<Completion<P>>, index: int)
    ensures Lora(Fold(outs, s, true), index)
         == if Lora(outs, index) == None then Lora(s, index) else Lora(outs, index)
    decreases |s|
  {
    if s != [] {
      var k := Find(outs, s[0].index);
      FindAppended(outs, s[0], index);
      if k < |outs| {
        FindUpdated(outs, k, Merged(outs[k], s[0]), index);
      }
      FoldKeepsLora(Put(outs, s[0], true), s[1..], index);
    }
  }

  /** Merging a piece into a group and then folding the group is folding the group and then the piece. */
  lemma FoldOfPut<P>(outs: seq<Completion<P>>, g: seq<Completion<P>>, n: Completion<P>)
    requires Unique(g) && !PutClashes(g, n)
    ensures FoldClashes(outs, Put(g, n, true)) <==> FoldClashes(outs, g) || PutClashes(Fold(outs, g, true), n)
    ensures !FoldClashes(outs, Put(g, n, true)) ==>
              Fold(outs, Put(g, n, true), true) == Put(Fold(outs, g, true), n, true)
  {
    var k := Find(g, n.index);
    if k == |g| {
      FoldSnoc(outs, g, n);
    } else {
      Split(g, k, Merged(g[k], n));
      MergeIntoMember(outs, g[..k], g[k], g[k + 1..], n);
    }
  }

  lemma Split<T>(s: seq<T>, k: nat, x: T)
    requires k < |s|
    ensures s == s[..k] + ([s[k]] + s[k + 1..])
    ensures s[k := x] == s[..k] + ([x] + s[k + 1..])
  {
  }

  lemma MergeIntoMember<P>(outs: seq<Completion<P>>, a: seq<Completion<P>>, c: Completion<P>,
                           b: seq<Completion<P>>, n: Completion<P>)
    requires c.index == n.index && !Clashes(c, n) && forall i :: 0 <= i < |b| ==> b[i].index != n.index
    ensures FoldClashes(outs, a + ([Merged(c, n)] + b))
       <==> FoldClashes(outs, a + ([c] + b)) || PutClashes(Fold(outs, a + ([c] + b), true), n)
    ensures !FoldClashes(outs, a + ([Merged(c, n)] + b)) ==>
              Fold(outs, a + ([Merged(c, n)] + b), true) == Put(Fold(outs, a + ([c] + b), true), n, true)
  {
    FoldBehind(outs, a, [c] + b);
    FoldBehind(outs, a, [Merged(c, n)] + b);
    MergeIntoFirst(Fold(outs, a, true), c, b, n);
  }

  lemma FoldBehind<P>(outs: seq<Completion<P>>, a: seq<Completion<P>>, b: seq<Completion<P>>)
    ensures Fold(outs, a + b, true) == Fold(Fold(outs, a, true), b, true)
    ensures FoldClashes(outs, a + b) <==> FoldClashes(outs, a) || FoldClashes(Fold(outs, a, true), b)
  {
    FoldConcat(outs, a, b, true);
    FoldClashesConcat(outs, a, b);
  }

  lemma FoldSnoc<P>(outs: seq<Completion<P>>, s: seq<Completion<P>>, n: Completion<P>)
    ensures Fold(outs, s + [n], true) == Put(Fold(outs, s, true), n, true)
    ensures FoldClashes(outs, s + [n]) <==> FoldClashes(outs, s) || PutClashes(Fold(outs, s, true), n)
  {
    FoldBehind(outs, s, [n]);
    FoldClashesOne(Fold(outs, s, true), n);
  }

  /** A group that can be merged at all behaves like its pieces: it clashes where they do, and gives the
      same result. */
  lemma {:induction false} GroupActsAsPieces<P>(outs: seq<Completion<P>>, s: seq<Completion<P>>)
    requires !FoldClashes([], s)
    ensures FoldClashes(outs, Fold([], s, true)) <==> FoldClashes(outs, s)
    ensures !FoldClashes(outs, s) ==> Fold(outs, Fold([], s, true), true) == Fold(outs, s, true)
    decreases |s|
  {
    if s != [] {
      var n := |s| - 1;
      var t, x := s[..n], s[n];
      assert s == t + [x];
      FoldSnoc([], t, x);
      FoldSnoc(outs, t, x);
      GroupActsAsPieces(outs, t);
      FoldKeepsOrder([], t, true);
      FoldOfPut(outs, Fold([], t, true), x);
    }
  }

  /** The pieces of `s` can be merged among themselves first, and that makes no difference. */
  ghost predicate Groups<P>(outs: seq<Completion<P>>, s: seq<Completion<P>>) {
    var g := Fold([], s, true);
    !FoldClashes([], s) && !FoldClashes(outs, g) && Fold(outs, g, true) == Fold(outs, s, true)
  }

  /** Grouping does not matter to a stream that can be merged piece by piece, exactly if no index of the
      stream begins without logprobs and gets some later. */
  lemma GroupsIff<P>(outs: seq<Completion<P>>, s: seq<Completion<P>>)
    requires !FoldClashes(outs, s)
    ensures Groups(outs, s) <==> !exists i, j :: LateLogprobs(s, i, j)
  {
    FoldClashesIff([], s);
    assert [] + s == s;
    if !FoldClashes([], s) {
      GroupActsAsPieces(outs, s);
    }
  }

  /** The pieces of all groups, in order. */
  function Flat<P>(gs: seq<seq<Completion<P>>>): (s: seq<Completion<P>>) {
    if gs == [] then [] else gs[0] + Flat(gs[1..])
  }

  /** Every group is merged by itself first, and then into `outs`; None stands for a failed assertion. */
  ghost function FoldGroups<P>(outs: seq<Completion<P>>, gs: seq<seq<Completion<P>>>): (r: Option<seq<Completion<P>>>)
    decreases |gs|
  {
    if gs == [] then Some(outs)
    else
      var g := Fold([], gs[0], true);
      if FoldClashes([], gs[0]) || FoldClashes(outs, g) then None else FoldGroups(Fold(outs, g, true), gs[1..])
  }

  ghost predicate BringsLate<P>(g: seq<Completion<P>>) {
    exists i, j :: LateLogprobs(g, i, j)
  }

  lemma BringsLateIff<P>(g: seq<Completion<P>>)
    ensures FoldClashes([], g) <==> BringsLate(g)
  {
    FoldClashesIff([], g);
    assert [] + g == g;
  }

  /** Any grouping: it succeeds exactly if the stream can be merged piece by piece and in no group an
      index begins without logprobs and gets some later. Then the result is the same. */
  lemma {:induction false} AnyGrouping<P>(outs: seq<Completion<P>>, gs: seq<seq<Completion<P>>>)
    ensures FoldGroups(outs, gs)
         == if FoldClashes(outs, Flat(gs)) || exists g :: g in gs && BringsLate(g) then None
            else Some(Fold(outs, Flat(gs), true))
    decreases |gs|
  {
    if gs != [] {
      var g, rest := gs[0], gs[1..];
      BringsLateIff(g);
      if !FoldClashes([], g) {
        GroupActsAsPieces(outs, g);
        FoldBehind(outs, g, Flat(rest));
        AnyGrouping(Fold(outs, g, true), rest);
        assert gs == [g] + rest;
      }
    }
  }

  /** There are streams for which it does matter: two pieces that can be merged into a completion with
      logprobs one by one cannot be merged among themselves first. */
  lemma MixedPiecesDoNotGroup<P>(p: P)
    ensures exists outs: seq<Completion<P>>, s: seq<Completion<P>> ::
              Unique(outs) && !FoldClashes(outs, s) && FoldClashes([], s)
  {
    var a := Completion(0, "", [], None, Some([p]), None, None, None);
    var b: Completion<P> := a.(logprobs := None);
    FoldFront([a], b, [a]);
    FoldClashesOne([Merged(a, b)], a);
    assert [b] + [a] == [b, a] && Put([a], b, true) == [Merged(a, b)];
    FoldFront([], b, [a]);
    FoldClashesOne([b], a);
    assert Put<P>([], b, true) == [b] && Find([b], 0) == 0;
    assert !FoldClashes([a], [b, a]) && FoldClashes([], [b, a]);
  }
}
