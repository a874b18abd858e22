/** vllm/vllm/logits_process.py, `NoBadWordsLogitsProcessor`: before each token is sampled, the tokens
    that would complete a bad word are ruled out. Logits are reals or minus infinity; rounding,
    overflow and NaN are not modelled. */
module BadWords {
  import opened Common

  datatype Logit = NegInf | Finite(value: real)

  method Plus(a: Logit, b: Logit) returns (r: Logit)
    ensures r.NegInf? <==> a.NegInf? || b.NegInf?
    ensures r.Finite? ==> r.value == a.value + b.value
  {
    r := if a.NegInf? || b.NegInf? then NegInf else Finite(a.value + b.value);
  }

  type Word = seq<int>

  /** Sampling `v` after `past` would complete the word. */
  predicate Completes(word: Word, past: seq<int>, v: int) {
    0 < |word| <= |past| + 1 && word == past[|past| + 1 - |word|..] + [v]
  }

  predicate Blocked(words: seq<Word>, past: seq<int>, v: int) {
    exists k :: 0 <= k < |words| && Completes(words[k], past, v)
  }

  /** What the processor makes of one logit. */
  function Processed(words: seq<Word>, past: seq<int>, logits: seq<Logit>, v: nat): (r: Logit)
    requires v < |logits|
  {
    if Blocked(words, past, v) then NegInf else logits[v]
  }

  predicate InVocabulary(words: seq<Word>, vocabSize: nat) {
    forall k, i :: 0 <= k < |words| && 0 <= i < |words[k]| ==> 0 <= words[k][i] < vocabSize
  }

  class NoBadWordsLogitsProcessor {
    const badWordsIds: seq<Word>
    var wordBias: Option<seq<Logit>>

    constructor (badWordsIds: seq<Word>)
      ensures this.badWordsIds == badWordsIds && wordBias == None && Valid()
    {
      this.badWordsIds, wordBias := badWordsIds, None;
    }

    /** Once there is a bias, it rules out exactly the one-token words, and all ids are in range. */
    ghost predicate Valid()
      reads this
    {
      wordBias.Some? ==>
        && InVocabulary(badWordsIds, |wordBias.value|)
        && forall v :: 0 <= v < |wordBias.value| ==>
             wordBias.value[v] == if [v] in badWordsIds then NegInf else Finite(0.0)
    }

    /** None stands for the ValueError about ids that are out of range. */
    method InitWordBias(vocabSize: nat) returns (ok: bool)
      requires wordBias == None
      modifies this
      ensures Valid() && (ok <==> InVocabulary(badWordsIds, vocabSize))
      ensures if ok then wordBias.Some? && |wordBias.value| == vocabSize else wordBias == None
    {
      ok := CheckTokenIdsBounds(vocabSize);
      if !ok {
        return;
      }
      var bias := new Logit[vocabSize](_ => Finite(0.0));
      for k := 0 to |badWordsIds|
        invariant forall v :: 0 <= v < vocabSize ==>
                    bias[v] == if [v] in badWordsIds[..k] then NegInf else Finite(0.0)
      {
        var word := badWordsIds[k];
        assert badWordsIds[..k + 1] == badWordsIds[..k] + [word];
        if |word| == 1 {
          assert word == [word[0]];
          bias[word[0]] := NegInf;
        }
      }
      assert badWordsIds[..|badWordsIds|] == badWordsIds;
      wordBias := Some(bias[..]);
    }

    method CheckTokenIdsBounds(vocabSize: nat) returns (ok: bool)
      ensures ok <==> InVocabulary(badWordsIds, vocabSize)
    {
      var invalid := [];
      for k := 0 to |badWordsIds|
        invariant invalid == [] <==> InVocabulary(badWordsIds[..k], vocabSize)
      {
        var word := badWordsIds[k];
        ghost var before := invalid;
        for i := 0 to |word|
          invariant invalid == [] <==> before == [] && forall x :: 0 <= x < i ==> 0 <= word[x] < vocabSize
        {
          if word[i] < 0 || word[i] >= vocabSize {
            invalid := invalid + [word[i]];
          }
        }
        ghost var words := badWordsIds[..k + 1];
        assert words == badWordsIds[..k] + [word];
        assert words[k] == word;
      }
      assert badWordsIds[..|badWordsIds|] == badWordsIds;
      ok := invalid == [];
    }

    /** The loop of `__call__` over the words of more than one token. None is the failed lookup of the
        last token of an empty word. */
    method LastTokenBias(past: seq<int>, vocabSize: nat) returns (r: Option<seq<Logit>>)
      requires InVocabulary(badWordsIds, vocabSize)
      ensures r.None? <==> [] in badWordsIds
      ensures r.Some? ==>
                && |r.value| == vocabSize
                && forall v :: 0 <= v < vocabSize ==>
                     r.value[v] == if BlockedLong(badWordsIds, |badWordsIds|, past, v) then NegInf else Finite(0.0)
    {
      var bias := new Logit[vocabSize](_ => Finite(0.0));
      for k := 0 to |badWordsIds|
        invariant [] !in badWordsIds[..k]
        invariant IsBias(badWordsIds, k, past, bias[..])
      {
        var word := badWordsIds[k];
        ghost var before := bias[..];
        assert badWordsIds[..k + 1] == badWordsIds[..k] + [word];
        if |word| == 1 || |word| > |past| + 1 {
          BiasUnchanged(badWordsIds, k, past, before);
          continue;
        }
        if word == [] {
          assert word in badWordsIds;
          return None;
        }
        var prefixLength := |word| - 1;
        var lastTokenId := word[|word| - 1];
        var actualPrefix := past[|past| - prefixLength..];
        var expectedPrefix := word[..prefixLength];
        var isMatch := actualPrefix == expectedPrefix;
        var sum := Plus(bias[lastTokenId], if isMatch then NegInf else Finite(0.0));
        bias[lastTokenId] := sum;
        BiasUpdated(badWordsIds, k, past, before, sum);
        assert bias[..] == before[lastTokenId := sum];
      }
      assert badWordsIds[..|badWordsIds|] == badWordsIds;
      r := Some(bias[..]);
    }

    /** One call. None is an error: ids out of range when the bias is made, or an empty bad word. */
    method Call(past: seq<int>, logits: seq<Logit>) returns (r: Option<seq<Logit>>)
      requires Valid()
      requires wordBias.Some? ==> |wordBias.value| == |logits|
      modifies this
      ensures Valid()
      ensures r.None? <==> !InVocabulary(badWordsIds, |logits|) || [] in badWordsIds
      ensures r.Some? ==> wordBias.Some? && |wordBias.value| == |logits|
      ensures r.Some? ==>
                && |r.value| == |logits|
                && forall v :: 0 <= v < |logits| ==> r.value[v] == Processed(badWordsIds, past, logits, v)
      ensures r.Some? ==>
                forall v :: 0 <= v < |logits| ==>
                  && (r.value[v] == NegInf <==>
                        || logits[v] == NegInf
                        || exists k :: 0 <= k < |badWordsIds| && OccursAt(badWordsIds[k], past + [v], |past| + 1))
                  && (r.value[v] != NegInf ==> r.value[v] == logits[v])
    {
      if wordBias == None {
        var ok := InitWordBias(|logits|);
        if !ok {
          return None;
        }
      }
      var lastTokenBias := LastTokenBias(past, |logits|);
      if lastTokenBias == None {
        return None;
      }
      forall v
        ensures Blocked(badWordsIds, past, v) <==>
                  [v] in badWordsIds || BlockedLong(badWordsIds, |badWordsIds|, past, v)
      {
        BlockedSplit(badWordsIds, past, v);
      }
      var sum := AddAll(logits, wordBias.value);
      sum := AddAll(sum, lastTokenBias.value);
      r := Some(sum);
      forall v | 0 <= v < |logits|
        ensures Blocked(badWordsIds, past, v) <==>
                  exists k :: 0 <= k < |badWordsIds| && OccursAt(badWordsIds[k], past + [v], |past| + 1)
      {
        BlockedIsOccurrence(badWordsIds, past, v);
      }
    }
  }

  /** Elementwise sum of two tensors of one shape. */
  method AddAll(a: seq<Logit>, b: seq<Logit>) returns (r: seq<Logit>)
    requires |a| == |b|
    ensures |r| == |a| && forall v :: 0 <= v < |r| ==>
              && (r[v].NegInf? <==> a[v].NegInf? || b[v].NegInf?)
              && (r[v].Finite? ==> r[v].value == a[v].value + b[v].value)
  {
    r := [];
    for v := 0 to |a|
      invariant |r| == v && forall x :: 0 <= x < v ==>
                  && (r[x].NegInf? <==> a[x].NegInf? || b[x].NegInf?)
                  && (r[x].Finite? ==> r[x].value == a[x].value + b[x].value)
    {
      var sum := Plus(a[v], b[v]);
      r := r + [sum];
    }
  }

  /** One of the first `k` words has two tokens or more, and `v` would complete it. */
  predicate BlockedLong(words: seq<Word>, k: nat, past: seq<int>, v: int)
    requires k <= |words|
  {
    k > 0 && (BlockedLong(words, k - 1, past, v) || (|words[k - 1]| >= 2 && Completes(words[k - 1], past, v)))
  }

  /** What the first `k` words add to each logit. */
  ghost predicate IsBias(words: seq<Word>, k: nat, past: seq<int>, bias: seq<Logit>)
    requires k <= |words|
  {
    forall v :: 0 <= v < |bias| ==> bias[v] == if BlockedLong(words, k, past, v) then NegInf else Finite(0.0)
  }

  lemma BiasUnchanged(words: seq<Word>, k: nat, past: seq<int>, bias: seq<Logit>)
    requires k < |words| && (|words[k]| == 1 || |words[k]| > |past| + 1) && IsBias(words, k, past, bias)
    ensures IsBias(words, k + 1, past, bias)
  {
  }

  lemma BiasUpdated(words: seq<Word>, k: nat, past: seq<int>, bias: seq<Logit>, sum: Logit)
    requires k < |words| && 2 <= |words[k]| <= |past| + 1 && IsBias(words, k, past, bias)
    requires var word := words[k]; var n := |word| - 1;
             && 0 <= word[n] < |bias|
             && sum == if past[|past| - n..] == word[..n] then NegInf else bias[word[n]]
    ensures IsBias(words, k + 1, past, bias[words[k][|words[k]| - 1] := sum])
  {
    var bias' := bias[words[k][|words[k]| - 1] := sum];
    forall v | 0 <= v < |bias|
      ensures bias'[v] == if BlockedLong(words, k + 1, past, v) then NegInf else Finite(0.0)
    {
      CompletesBySplit(words[k], past, v);
    }
  }

  /** The comparison of prefixes is the right one, for the word's last token and no other. */
  lemma CompletesBySplit(word: Word, past: seq<int>, v: int)
    requires 2 <= |word| <= |past| + 1
    ensures Completes(word, past, v) <==>
              v == word[|word| - 1] && past[|past| - (|word| - 1)..] == word[..|word| - 1]
  {
    var n := |word| - 1;
    var w := past[|past| - n..] + [v];
    assert word == word[..n] + [word[n]];
    assert w[..n] == past[|past| - n..] && w[n] == v;
  }

  lemma {:induction false} BlockedLongIff(words: seq<Word>, k: nat, past: seq<int>, v: int)
    requires k <= |words|
    ensures BlockedLong(words, k, past, v) <==>
              exists i :: 0 <= i < k && |words[i]| >= 2 && Completes(words[i], past, v)
  {
    if k > 0 {
      BlockedLongIff(words, k - 1, past, v);
    }
  }

  lemma BlockedSplit(words: seq<Word>, past: seq<int>, v: int)
    ensures Blocked(words, past, v) <==> [v] in words || BlockedLong(words, |words|, past, v)
  {
    BlockedLongIff(words, |words|, past, v);
    assert past[|past|..] == [];
    if [v] in words {
      var k :| 0 <= k < |words| && words[k] == [v];
      assert Completes(words[k], past, v);
    }
    if Blocked(words, past, v) {
      var k :| 0 <= k < |words| && Completes(words[k], past, v);
      assert |words[k]| == 1 ==> words[k] == [v];
    }
  }

  // ---- whole generations -------------------------------------------------------------------------

  /** The word occurs in `tokens`, ending just before position `end`. */
  predicate OccursAt(word: Word, tokens: seq<int>, end: int) {
    0 < |word| <= end <= |tokens| && tokens[end - |word|..end] == word
  }

  /** No occurrence of a bad word ends after the first `start` tokens. */
  ghost predicate CleanAfter(words: seq<Word>, tokens: seq<int>, start: nat) {
    forall k, end :: 0 <= k < |words| && start < end <= |tokens| ==> !OccursAt(words[k], tokens, end)
  }

  /** From position `start` on, every token was picked while its processed logit was finite. `logits[k]`
      is what the model proposes for position `k`. */
  ghost predicate Picked(words: seq<Word>, tokens: seq<int>, logits: seq<seq<Logit>>, start: nat) {
    && |logits| == |tokens|
    && forall k :: start <= k < |tokens| ==>
         0 <= tokens[k] < |logits[k]| && Processed(words, tokens[..k], logits[k], tokens[k]) != NegInf
  }

  lemma CompletesIsOccurrence(word: Word, tokens: seq<int>, k: nat)
    requires k < |tokens|
    ensures Completes(word, tokens[..k], tokens[k]) <==> OccursAt(word, tokens, k + 1)
  {
    if 0 < |word| <= k + 1 {
      assert tokens[k + 1 - |word|..k + 1] == tokens[..k][k + 1 - |word|..] + [tokens[k]];
    }
  }

  lemma BlockedIsOccurrence(words: seq<Word>, past: seq<int>, v: int)
    ensures Blocked(words, past, v) <==>
              exists k :: 0 <= k < |words| && OccursAt(words[k], past + [v], |past| + 1)
  {
    var tokens := past + [v];
    assert tokens[..|past|] == past;
    forall k | 0 <= k < |words|
      ensures Completes(words[k], past, v) <==> OccursAt(words[k], tokens, |past| + 1)
    {
      CompletesIsOccurrence(words[k], tokens, |past|);
    }
  }

  /** Safety over runs, and no more than that: a generation that never picks a ruled-out token never
      contains a bad word (one that ends in the generated part), and a generation without bad words is
      never ruled out, whatever finite logits the model proposes. */
  lemma PickedIffClean(words: seq<Word>, tokens: seq<int>, logits: seq<seq<Logit>>, start: nat)
    requires |logits| == |tokens| && start <= |tokens|
    requires forall k :: start <= k < |tokens| ==> 0 <= tokens[k] < |logits[k]|
    requires forall k :: start <= k < |tokens| ==> logits[k][tokens[k]] != NegInf
    ensures Picked(words, tokens, logits, start) <==> CleanAfter(words, tokens, start)
  {
    if Picked(words, tokens, logits, start) {
      forall k, end | 0 <= k < |words| && start < end <= |tokens|
        ensures !OccursAt(words[k], tokens, end)
      {
        CompletesIsOccurrence(words[k], tokens, end - 1);
        assert Processed(words, tokens[..end - 1], logits[end - 1], tokens[end - 1]) != NegInf;
      }
    }
    if CleanAfter(words, tokens, start) {
      forall k | start <= k < |tokens|
        ensures Processed(words, tokens[..k], logits[k], tokens[k]) != NegInf
      {
        forall w | 0 <= w < |words|
          ensures !Completes(words[w], tokens[..k], tokens[k])
        {
          CompletesIsOccurrence(words[w], tokens, k);
        }
      }
    }
  }

  /** Starting from an empty output, no bad word occurs anywhere. */
  lemma NoBadWords(words: seq<Word>, tokens: seq<int>, logits: seq<seq<Logit>>, k: nat, i: nat)
    requires Picked(words, tokens, logits, 0) && k < |words| && words[k] != [] && i + |words[k]| <= |tokens|
    ensures tokens[i..i + |words[k]|] != words[k]
  {
    var end := i + |words[k]|;
    CompletesIsOccurrence(words[k], tokens, end - 1);
    assert Processed(words, tokens[..end - 1], logits[end - 1], tokens[end - 1]) != NegInf;
  }

  // ---- what is left of the model's preferences ---------------------------------------------------

  /** `v` may be sampled after `past`: the model does not rule it out, and it ends no bad word. */
  ghost predicate Allowed(words: seq<Word>, past: seq<int>, logits: seq<Logit>, v: nat)
    requires v < |logits|
  {
    logits[v] != NegInf && forall k :: 0 <= k < |words| ==> !OccursAt(words[k], past + [v], |past| + 1)
  }

  lemma AllowedIff(words: seq<Word>, past: seq<int>, logits: seq<Logit>, v: nat)
    requires v < |logits|
    ensures Allowed(words, past, logits, v) <==> Processed(words, past, logits, v) != NegInf
    ensures Allowed(words, past, logits, v) ==> Processed(words, past, logits, v) == logits[v]
  {
    BlockedIsOccurrence(words, past, v);
  }

  /** Differences between the tokens that are left stay as they are. */
  lemma DifferencesStay(words: seq<Word>, past: seq<int>, logits: seq<Logit>, v: nat, w: nat)
    requires v < |logits| && w < |logits| && Allowed(words, past, logits, v) && Allowed(words, past, logits, w)
    ensures var a, b := Processed(words, past, logits, v), Processed(words, past, logits, w);
            a.Finite? && b.Finite? && a.value - b.value == logits[v].value - logits[w].value
  {
    AllowedIff(words, past, logits, v);
    AllowedIff(words, past, logits, w);
  }

  /** No token with a finite processed logit has a higher one than `v`. */
  ghost predicate Highest(words: seq<Word>, past: seq<int>, logits: seq<Logit>, v: nat)
    requires v < |logits|
  {
    && Processed(words, past, logits, v).Finite?
    && forall w :: 0 <= w < |logits| && Processed(words, past, logits, w).Finite? ==>
         Processed(words, past, logits, w).value <= Processed(words, past, logits, v).value
  }

  /** Of the allowed tokens the model prefers none to `v`. */
  ghost predicate MostPreferred(words: seq<Word>, past: seq<int>, logits: seq<Logit>, v: nat)
    requires v < |logits|
  {
    && Allowed(words, past, logits, v)
    && forall w :: 0 <= w < |logits| && Allowed(words, past, logits, w) ==> logits[w].value <= logits[v].value
  }

  /** Greedy generation: picking the highest processed logit at every position is picking the token that
      the model itself prefers among those that end no bad word. */
  lemma GreedyRun(words: seq<Word>, tokens: seq<int>, logits: seq<seq<Logit>>, start: nat)
    requires |logits| == |tokens| && start <= |tokens|
    requires forall k :: start <= k < |tokens| ==> 0 <= tokens[k] < |logits[k]|
    ensures (forall k :: start <= k < |tokens| ==> Highest(words, tokens[..k], logits[k], tokens[k]))
       <==> (forall k :: start <= k < |tokens| ==> MostPreferred(words, tokens[..k], logits[k], tokens[k]))
  {
    forall k | start <= k < |tokens|
      ensures Highest(words, tokens[..k], logits[k], tokens[k])
              <==> MostPreferred(words, tokens[..k], logits[k], tokens[k])
    {
      forall w | 0 <= w < |logits[k]|
        ensures Allowed(words, tokens[..k], logits[k], w) <==> Processed(words, tokens[..k], logits[k], w).Finite?
        ensures Allowed(words, tokens[..k], logits[k], w) ==>
                  Processed(words, tokens[..k], logits[k], w) == logits[k][w]
      {
        AllowedIff(words, tokens[..k], logits[k], w);
      }
    }
  }
}
