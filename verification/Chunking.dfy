/** benchmarks/utils.py: `chunks`, which cuts a text (or a batch of texts) into overlapping windows. */
module Chunking {
  import opened Common

  /** A text is cut again only while more than this many characters would be left over. */
  const MIN_REST := 100

  /** Where window `k` starts: at `k * chunkSize`, see `OffsetIsProduct`. */
  function Offset(chunkSize: nat, k: nat): (p: nat) {
    if k == 0 then 0 else Offset(chunkSize, k - 1) + chunkSize
  }

  lemma {:induction false} OffsetIsProduct(chunkSize: nat, k: nat)
    ensures Offset(chunkSize, k) == k * chunkSize
  {
    if k > 0 {
      OffsetIsProduct(chunkSize, k - 1);
    }
  }

  /** Number of windows a text of length `len` is cut into. */
  function WindowCount(len: nat, chunkSize: nat): (n: nat)
    requires chunkSize >= 1
    ensures n >= 1
    decreases len
  {
    if len - chunkSize > MIN_REST then 1 + WindowCount(len - chunkSize, chunkSize) else 1
  }

  /** Where window `k` ends: it overlaps the next one, and the last one takes all that is left. */
  function WindowEnd(len: nat, chunkSize: nat, overlap: nat, k: nat): (e: nat)
    requires chunkSize >= 1
  {
    if k + 1 < WindowCount(len, chunkSize) then Min(Offset(chunkSize, k) + chunkSize + overlap, len) else len
  }

  /** `cks` are the windows of `s`, the k-th of which starts at `Offset(chunkSize, k)`. */
  ghost predicate IsChunking<T>(s: seq<T>, chunkSize: nat, overlap: nat, cks: seq<seq<T>>)
    requires chunkSize >= 1
  {
    && |cks| == WindowCount(|s|, chunkSize)
    && forall k :: 0 <= k < |cks| ==> IsWindow(s, chunkSize, overlap, k, cks[k])
  }

  ghost predicate IsWindow<T>(s: seq<T>, chunkSize: nat, overlap: nat, k: nat, c: seq<T>)
    requires chunkSize >= 1
  {
    && Offset(chunkSize, k) <= WindowEnd(|s|, chunkSize, overlap, k) <= |s|
    && c == s[Offset(chunkSize, k)..WindowEnd(|s|, chunkSize, overlap, k)]
  }

  /** How much of the text is left when window `k` is cut: more than `chunkSize + 100` characters
      before the last window, at most that many for the last. */
  lemma {:induction false} WindowRest(len: nat, chunkSize: nat, k: nat)
    requires chunkSize >= 1 && k < WindowCount(len, chunkSize)
    ensures Offset(chunkSize, k) <= len
    ensures WindowCount(len, chunkSize) == k + WindowCount(len - Offset(chunkSize, k), chunkSize)
    ensures k + 1 < WindowCount(len, chunkSize) <==> len - Offset(chunkSize, k) > chunkSize + 100
  {
    if k > 0 {
      WindowRest(len - chunkSize, chunkSize, k - 1);
    }
  }

  /** The string branch. */
  method ChunkText<T>(sentence: seq<T>, chunkSize: nat, overlap: nat) returns (cks: seq<seq<T>>)
    requires chunkSize >= 1
    ensures IsChunking(sentence, chunkSize, overlap, cks)
    ensures forall k :: 0 <= k < |cks| ==> Offset(chunkSize, k) == k * chunkSize
  {
    forall k: nat
      ensures Offset(chunkSize, k) == k * chunkSize
    {
      OffsetIsProduct(chunkSize, k);
    }
    var rest := sentence;
    cks := [];
    while |rest| - chunkSize > MIN_REST
      invariant Offset(chunkSize, |cks|) <= |sentence|
      invariant rest == sentence[Offset(chunkSize, |cks|)..]
      invariant |cks| + WindowCount(|rest|, chunkSize) == WindowCount(|sentence|, chunkSize)
      invariant forall k :: 0 <= k < |cks| ==> IsWindow(sentence, chunkSize, overlap, k, cks[k])
      decreases |rest|
    {
      ghost var n := |cks|;
      cks := cks + [rest[..Min(overlap + chunkSize, |rest|)]];
      assert IsWindow(sentence, chunkSize, overlap, n, cks[n]);
      rest := rest[chunkSize..];
    }
    cks := cks + [rest];
    assert IsWindow(sentence, chunkSize, overlap, |cks| - 1, cks[|cks| - 1]);
  }

  /** Extent of a window: it starts where the chunk starts and reaches `overlap` beyond its end, unless
      the text ends before. Only the last window is certain to reach the end of the text. */
  lemma WindowShape<T>(s: seq<T>, chunkSize: nat, overlap: nat, cks: seq<seq<T>>, k: nat)
    requires chunkSize >= 1 && IsChunking(s, chunkSize, overlap, cks) && k < |cks|
    ensures Offset(chunkSize, k) + |cks[k]| <= |s|
    ensures cks[k] == s[Offset(chunkSize, k)..Offset(chunkSize, k) + |cks[k]|]
    ensures |cks| >= 2 ==> |cks[k]| > 0
    ensures k + 1 < |cks| ==> |cks[k]| <= chunkSize + overlap && (overlap > 0 ==> chunkSize < |cks[k]|)
    ensures k + 1 < |cks| ==> Offset(chunkSize, k) + |cks[k]| == |s| || |cks[k]| == chunkSize + overlap
    ensures k + 1 == |cks| ==> Offset(chunkSize, k) + |cks[k]| == |s|
  {
    assert IsWindow(s, chunkSize, overlap, k, cks[k]);
    WindowRest(|s|, chunkSize, k);
    if k > 0 {
      WindowRest(|s|, chunkSize, k - 1);
    }
  }

  /** Neighbouring windows really overlap: they share `overlap` characters, or all that is left beyond
      the chunk, which is more than 100. The shared text ends the one and starts the other. */
  lemma NeighboursShare<T>(s: seq<T>, chunkSize: nat, overlap: nat, cks: seq<seq<T>>, k: nat)
    requires chunkSize >= 1 && IsChunking(s, chunkSize, overlap, cks) && k + 1 < |cks|
    ensures |cks[k]| - chunkSize >= Min(overlap, 101)
    ensures |cks[k]| - chunkSize <= |cks[k + 1]|
    ensures forall x :: chunkSize <= x < |cks[k]| ==> cks[k][x] == cks[k + 1][x - chunkSize]
  {
    assert IsWindow(s, chunkSize, overlap, k, cks[k]) && IsWindow(s, chunkSize, overlap, k + 1, cks[k + 1]);
    WindowRest(|s|, chunkSize, k);
    WindowRest(|s|, chunkSize, k + 1);
  }

  /** The windows without their overlaps, one after the other. */
  function Stripped<T>(cks: seq<seq<T>>, chunkSize: nat): (s: seq<T>)
  {
    if cks == [] then []
    else if |cks| == 1 then cks[0]
    else cks[0][..Min(chunkSize, |cks[0]|)] + Stripped(cks[1..], chunkSize)
  }

  /** Round trip: stripping the overlaps rebuilds the text. */
  lemma StrippedIsText<T>(s: seq<T>, chunkSize: nat, overlap: nat, cks: seq<seq<T>>)
    requires chunkSize >= 1 && IsChunking(s, chunkSize, overlap, cks)
    ensures Stripped(cks, chunkSize) == s
  {
    StrippedFrom(s, chunkSize, overlap, cks, 0);
    assert cks[0..] == cks && s[0..] == s;
  }

  lemma {:induction false} StrippedFrom<T>(s: seq<T>, chunkSize: nat, overlap: nat, cks: seq<seq<T>>, k: nat)
    requires chunkSize >= 1 && IsChunking(s, chunkSize, overlap, cks) && k < |cks|
    ensures Offset(chunkSize, k) <= |s| && Stripped(cks[k..], chunkSize) == s[Offset(chunkSize, k)..]
    decreases |cks| - k
  {
    assert IsWindow(s, chunkSize, overlap, k, cks[k]);
    WindowRest(|s|, chunkSize, k);
    if k + 1 < |cks| {
      StrippedFrom(s, chunkSize, overlap, cks, k + 1);
      assert cks[k..][1..] == cks[k + 1..];
    }
  }

  // ---- the batch branch --------------------------------------------------------------------------

  /** One lane's window in one round. */
  function LaneWindow<T>(s: seq<T>, chunkSize: nat, overlap: nat): (w: seq<T>) {
    if |s| - chunkSize > MIN_REST then s[..Min(overlap + chunkSize, |s|)] else s
  }

  function LaneRest<T>(s: seq<T>, chunkSize: nat): (rest: seq<T>) {
    if |s| - chunkSize > MIN_REST then s[chunkSize..] else []
  }

  function Windows<T>(ss: seq<seq<T>>, chunkSize: nat, overlap: nat): (ws: seq<seq<T>>)
    ensures |ws| == |ss|
  {
    seq(|ss|, i requires 0 <= i < |ss| => LaneWindow(ss[i], chunkSize, overlap))
  }

  function Rests<T>(ss: seq<seq<T>>, chunkSize: nat): (rs: seq<seq<T>>)
    ensures |rs| == |ss|
  {
    seq(|ss|, i requires 0 <= i < |ss| => LaneRest(ss[i], chunkSize))
  }

  /** What lane `s` should show in round `r`: its own window, and the empty text once it is done. */
  ghost predicate IsLaneRound<T>(s: seq<T>, chunkSize: nat, overlap: nat, r: nat, w: seq<T>)
    requires chunkSize >= 1
  {
    if s != [] && r < WindowCount(|s|, chunkSize) then IsWindow(s, chunkSize, overlap, r, w) else w == []
  }

  /** What is left of lane `s` before round `r`. */
  ghost predicate IsLaneRest<T>(s: seq<T>, chunkSize: nat, r: nat, rest: seq<T>)
    requires chunkSize >= 1
  {
    if s != [] && r < WindowCount(|s|, chunkSize)
    then Offset(chunkSize, r) < |s| && rest == s[Offset(chunkSize, r)..]
    else rest == []
  }

  lemma LaneStep<T>(s: seq<T>, chunkSize: nat, overlap: nat, r: nat, rest: seq<T>)
    requires chunkSize >= 1 && IsLaneRest(s, chunkSize, r, rest)
    ensures IsLaneRound(s, chunkSize, overlap, r, LaneWindow(rest, chunkSize, overlap))
    ensures IsLaneRest(s, chunkSize, r + 1, LaneRest(rest, chunkSize))
  {
    if s != [] && r < WindowCount(|s|, chunkSize) {
      WindowRest(|s|, chunkSize, r);
    }
  }

  predicate AnyText<T>(ss: seq<seq<T>>) {
    exists i :: 0 <= i < |ss| && |ss[i]| > 0
  }

  /** Characters still to come in all lanes together. */
  function TotalSize<T>(ss: seq<seq<T>>): (n: nat) {
    if ss == [] then 0 else |ss[0]| + TotalSize(ss[1..])
  }

  lemma {:induction false} RestsAreSmaller<T>(ss: seq<seq<T>>, chunkSize: nat)
    requires chunkSize >= 1
    ensures TotalSize(Rests(ss, chunkSize)) <= TotalSize(ss)
    ensures AnyText(ss) ==> TotalSize(Rests(ss, chunkSize)) < TotalSize(ss)
  {
    if ss != [] {
      RestsAreSmaller(ss[1..], chunkSize);
      assert Rests(ss, chunkSize)[1..] == Rests(ss[1..], chunkSize);
      assert forall i :: 1 <= i < |ss| ==> ss[i] == ss[1..][i - 1];
    }
  }

  /** The rounds show each lane's windows, and each round shows at least one. */
  ghost predicate ShowsLanes<T>(sentence: seq<seq<T>>, chunkSize: nat, overlap: nat, rounds: seq<seq<seq<T>>>)
    requires chunkSize >= 1
  {
    && (forall r :: 0 <= r < |rounds| ==> |rounds[r]| == |sentence|)
    && (forall r, i :: 0 <= r < |rounds| && 0 <= i < |sentence| ==>
          IsLaneRound(sentence[i], chunkSize, overlap, r, rounds[r][i]))
    && (forall r :: 0 <= r < |rounds| ==> HasRound(sentence, chunkSize, r))
  }

  /** Some lane has a window to show in round `r`. */
  ghost predicate HasRound<T>(sentence: seq<seq<T>>, chunkSize: nat, r: nat)
    requires chunkSize >= 1
  {
    exists i :: 0 <= i < |sentence| && sentence[i] != [] && r < WindowCount(|sentence[i]|, chunkSize)
  }

  ghost predicate AreRests<T>(sentence: seq<seq<T>>, chunkSize: nat, r: nat, rest: seq<seq<T>>)
    requires chunkSize >= 1
  {
    |rest| == |sentence| && forall i :: 0 <= i < |sentence| ==> IsLaneRest(sentence[i], chunkSize, r, rest[i])
  }

  lemma RestsStep<T>(sentence: seq<seq<T>>, chunkSize: nat, r: nat, rest: seq<seq<T>>)
    requires chunkSize >= 1 && AreRests(sentence, chunkSize, r, rest)
    ensures AreRests(sentence, chunkSize, r + 1, Rests(rest, chunkSize))
  {
    forall i | 0 <= i < |sentence|
      ensures IsLaneRest(sentence[i], chunkSize, r + 1, Rests(rest, chunkSize)[i])
    {
      LaneStep(sentence[i], chunkSize, 0, r, rest[i]);
    }
  }

  lemma RestsShow<T>(sentence: seq<seq<T>>, chunkSize: nat, r: nat, rest: seq<seq<T>>)
    requires chunkSize >= 1 && AreRests(sentence, chunkSize, r, rest)
    ensures AnyText(rest) <==> HasRound(sentence, chunkSize, r)
  {
    assert forall i :: 0 <= i < |sentence| ==> IsLaneRest(sentence[i], chunkSize, r, rest[i]);
  }

  lemma BatchStep<T>(sentence: seq<seq<T>>, chunkSize: nat, overlap: nat, rounds: seq<seq<seq<T>>>, rest: seq<seq<T>>)
    requires chunkSize >= 1 && ShowsLanes(sentence, chunkSize, overlap, rounds)
    requires AreRests(sentence, chunkSize, |rounds|, rest) && AnyText(rest)
    ensures ShowsLanes(sentence, chunkSize, overlap, rounds + [Windows(rest, chunkSize, overlap)])
  {
    var rounds' := rounds + [Windows(rest, chunkSize, overlap)];
    RestsShow(sentence, chunkSize, |rounds|, rest);
    forall r, i | 0 <= r < |rounds'| && 0 <= i < |sentence|
      ensures IsLaneRound(sentence[i], chunkSize, overlap, r, rounds'[r][i])
    {
      if r == |rounds| {
        LaneStep(sentence[i], chunkSize, overlap, r, rest[i]);
      }
    }
  }

  /** Each non-empty lane of the batch branch shows exactly the windows that the string branch cuts,
      and then empty texts; the batch goes on for as long as some lane has a window to show. */
  method ChunkBatch<T>(sentence: seq<seq<T>>, chunkSize: nat, overlap: nat) returns (rounds: seq<seq<seq<T>>>)
    requires chunkSize >= 1 && sentence != []
    ensures ShowsLanes(sentence, chunkSize, overlap, rounds)
    ensures !HasRound(sentence, chunkSize, |rounds|)
  {
    var rest := sentence;
    rounds := [];
    assert forall i :: 0 <= i < |sentence| ==> IsLaneRest(sentence[i], chunkSize, 0, sentence[i]);
    while AnyText(rest)
      invariant AreRests(sentence, chunkSize, |rounds|, rest)
      invariant ShowsLanes(sentence, chunkSize, overlap, rounds)
      decreases TotalSize(rest)
    {
      BatchStep(sentence, chunkSize, overlap, rounds, rest);
      RestsStep(sentence, chunkSize, |rounds|, rest);
      RestsAreSmaller(rest, chunkSize);
      rounds := rounds + [Windows(rest, chunkSize, overlap)];
      rest := Rests(rest, chunkSize);
    }
    RestsShow(sentence, chunkSize, |rounds|, rest);
  }
}
