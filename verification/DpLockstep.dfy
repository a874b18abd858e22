/** vllm/vllm/forward_context.py: how many tokens every rank works on in each round of a chunked
    forward pass, so that all ranks take part in every round. */
module DpLockstep {
  import opened Common
  import opened Bits

  function Repeat(x: nat, n: nat): (s: seq<nat>)
    ensures |s| == n && forall i :: 0 <= i < n ==> s[i] == x
  {
    seq(n, _ => x)
  }

  /** `_compute_sp_num_tokens`: each rank's tokens, rounded up to equal shards, one for each of its
      `sp` slots. */
  function SpNumTokens(nums: seq<nat>, sp: nat): (r: seq<nat>)
    requires sp >= 1
  {
    if nums == [] then [] else SpNumTokens(nums[..|nums| - 1], sp) + Repeat(CeilDiv(nums[|nums| - 1], sp), sp)
  }

  lemma {:induction false} SumRepeat(x: nat, n: nat)
    ensures Sum(Repeat(x, n)) == x * n
  {
    if n > 0 {
      SumRepeat(x, n - 1);
      assert Repeat(x, n)[..n - 1] == Repeat(x, n - 1);
      assert x * n == x * (n - 1) + x;
    }
  }

  lemma {:induction false} SpSize(nums: seq<nat>, sp: nat)
    requires sp >= 1
    ensures |SpNumTokens(nums, sp)| == |nums| * sp
  {
    if nums != [] {
      var m := |nums| - 1;
      SpSize(nums[..m], sp);
      assert |nums| * sp == m * sp + sp;
    }
  }

  /** Slot `j` of DP rank `r` holds the rank's count divided by `sp`, rounded up. */
  lemma {:induction false} SpSlot(nums: seq<nat>, sp: nat, r: nat, j: nat)
    requires sp >= 1 && r < |nums| && j < sp
    ensures r * sp + j < |SpNumTokens(nums, sp)| == |nums| * sp
    ensures SpNumTokens(nums, sp)[r * sp + j] == CeilDiv(nums[r], sp)
    decreases |nums|
  {
    var m := |nums| - 1;
    SpSize(nums, sp);
    SpSize(nums[..m], sp);
    if r < m {
      SpSlot(nums[..m], sp, r, j);
    }
  }

  /** The slots of a DP rank take all of its tokens, and fewer than `sp` too many. */
  lemma SlotsCoverRank(nums: seq<nat>, sp: nat, r: nat)
    requires sp >= 1 && r < |nums|
    ensures (r + 1) * sp <= |SpNumTokens(nums, sp)| && r * sp <= (r + 1) * sp
    ensures nums[r] <= Sum(SpNumTokens(nums, sp)[r * sp..(r + 1) * sp]) <= nums[r] + sp - 1
  {
    var s := SpNumTokens(nums, sp);
    SpSize(nums, sp);
    MulMonotone(r + 1, |nums|, sp);
    assert (r + 1) * sp == r * sp + sp;
    var slots := s[r * sp..(r + 1) * sp];
    forall j | 0 <= j < sp
      ensures slots[j] == CeilDiv(nums[r], sp)
    {
      SpSlot(nums, sp, r, j);
    }
    assert slots == Repeat(CeilDiv(nums[r], sp), sp);
    SumRepeat(CeilDiv(nums[r], sp), sp);
    CeilDivBounds(nums[r], sp);
  }

  /** `cu_tokens_across_sp`: the running totals over all slots. */
  method CuTokensAcrossSp(nums: seq<nat>, sp: nat) returns (cu: seq<nat>)
    requires sp >= 1
    ensures |cu| == |SpNumTokens(nums, sp)|
    ensures forall i :: 0 <= i < |cu| ==> cu[i] == Sum(SpNumTokens(nums, sp)[..i + 1])
  {
    var tokens := SpNumTokens(nums, sp);
    cu := [];
    var total := 0;
    for i := 0 to |tokens|
      invariant |cu| == i && total == Sum(tokens[..i])
      invariant forall x :: 0 <= x < i ==> cu[x] == Sum(tokens[..x + 1])
    {
      assert tokens[..i + 1][..i] == tokens[..i];
      total := total + tokens[i];
      cu := cu + [total];
    }
  }

  // ---- rounds ------------------------------------------------------------------------------------

  /** One rank's share of round `chunk`; a rank that is done still takes one token. */
  function LocalSize(tokens: nat, maxTokens: nat, chunk: nat): (n: int) {
    var size := Min(maxTokens, tokens - maxTokens * chunk);
    if size <= 0 then 1 else size
  }

  /** `_compute_chunked_local_num_tokens`. */
  method ChunkedLocalNumTokens(nums: seq<nat>, sp: nat, maxTokens: nat, chunk: nat) returns (r: seq<int>)
    requires sp >= 1
    ensures var tokens := SpNumTokens(nums, sp);
            |r| == |tokens| && forall i :: 0 <= i < |r| ==> r[i] == LocalSize(tokens[i], maxTokens, chunk)
  {
    var spTokens := SpNumTokens(nums, sp);
    var localSize := new int[|spTokens|](_ => -1);
    for i := 0 to |spTokens|
      invariant forall x :: 0 <= x < i ==> localSize[x] == LocalSize(spTokens[x], maxTokens, chunk)
    {
      localSize[i] := Min(maxTokens, spTokens[i] - maxTokens * chunk);
      if localSize[i] <= 0 {
        localSize[i] := 1;
      }
    }
    r := localSize[..];
  }

  /** What a rank works on in the first `k` rounds. */
  function RoundsTotal(tokens: nat, maxTokens: nat, k: nat): (n: int) {
    if k == 0 then 0 else RoundsTotal(tokens, maxTokens, k - 1) + LocalSize(tokens, maxTokens, k - 1)
  }

  /** Rounds, among the first `k`, that find the rank done. */
  function IdleRounds(tokens: nat, maxTokens: nat, k: nat): (n: nat) {
    if k == 0 then 0 else IdleRounds(tokens, maxTokens, k - 1) + (if tokens <= maxTokens * (k - 1) then 1 else 0)
  }

  lemma {:induction false} RoundsSoFar(tokens: nat, maxTokens: nat, k: nat)
    requires maxTokens >= 1
    ensures RoundsTotal(tokens, maxTokens, k) == Min(tokens, maxTokens * k) + IdleRounds(tokens, maxTokens, k)
  {
    if k > 0 {
      RoundsSoFar(tokens, maxTokens, k - 1);
      assert maxTokens * k == maxTokens * (k - 1) + maxTokens;
    } else {
      assert maxTokens * 0 == 0;
    }
  }

  /** Lockstep: in every round every slot works on at least one and at most `maxTokens` tokens. In as
      many rounds as the largest shard takes, each slot works off its tokens exactly, with one dummy
      token for every round that finds it done. */
  lemma Lockstep(tokens: seq<nat>, maxTokens: nat, largest: nat, i: nat)
    requires maxTokens >= 1 && i < |tokens| && forall x :: 0 <= x < |tokens| ==> tokens[x] <= largest
    ensures forall c: nat :: 1 <= LocalSize(tokens[i], maxTokens, c) <= maxTokens
    ensures var k := CeilDiv(largest, maxTokens);
            RoundsTotal(tokens[i], maxTokens, k) == tokens[i] + IdleRounds(tokens[i], maxTokens, k)
  {
    var k := CeilDiv(largest, maxTokens);
    RoundsSoFar(tokens[i], maxTokens, k);
    CeilDivBounds(largest, maxTokens);
  }

  /** `local_sizes` holds the sizes of a round inside its context, and nothing outside. */
  class DPMetadata {
    const numTokensAcrossDp: seq<nat>
    var localSizes: Option<seq<int>>

    constructor (numTokensAcrossDp: seq<nat>)
      ensures this.numTokensAcrossDp == numTokensAcrossDp && localSizes == None
    {
      this.numTokensAcrossDp, localSizes := numTokensAcrossDp, None;
    }

    method EnterChunkedSizes(sp: nat, maxTokens: nat, chunk: nat)
      requires sp >= 1
      modifies this
      ensures localSizes.Some?
      ensures var tokens := SpNumTokens(numTokensAcrossDp, sp);
              && |localSizes.value| == |tokens|
              && forall i :: 0 <= i < |tokens| ==> localSizes.value[i] == LocalSize(tokens[i], maxTokens, chunk)
    {
      var sizes := ChunkedLocalNumTokens(numTokensAcrossDp, sp, maxTokens, chunk);
      localSizes := Some(sizes);
    }

    method ExitContext()
      modifies this
      ensures localSizes == None
    {
      localSizes := None;
    }

    /** Chunked execution: as many rounds as the largest shard takes, each in a context of its own, add up
        to every slot's tokens and one dummy for each round that finds it done. */
    method WorkOff(sp: nat, maxTokens: nat, largest: nat) returns (totals: seq<int>)
      requires sp >= 1 && maxTokens >= 1
      requires var tokens := SpNumTokens(numTokensAcrossDp, sp);
               forall x :: 0 <= x < |tokens| ==> tokens[x] <= largest
      modifies this
      ensures localSizes == None
      ensures var tokens := SpNumTokens(numTokensAcrossDp, sp);
              && |totals| == |tokens|
              && forall i :: 0 <= i < |tokens| ==>
                   totals[i] == tokens[i] + IdleRounds(tokens[i], maxTokens, CeilDiv(largest, maxTokens))
    {
      ghost var tokens := SpNumTokens(numTokensAcrossDp, sp);
      var slots := SpNumTokens(numTokensAcrossDp, sp);
      totals := seq(|slots|, _ => 0);
      localSizes := None;
      var rounds := CeilDiv(largest, maxTokens);
      for chunk := 0 to rounds
        invariant localSizes == None && |totals| == |tokens|
        invariant forall i :: 0 <= i < |tokens| ==> totals[i] == RoundsTotal(tokens[i], maxTokens, chunk)
      {
        EnterChunkedSizes(sp, maxTokens, chunk);
        var sizes := localSizes.value;
        totals := seq(|totals|, i requires 0 <= i < |totals| && |sizes| == |totals| => totals[i] + sizes[i]);
        ExitContext();
      }
      forall i | 0 <= i < |tokens|
        ensures RoundsTotal(tokens[i], maxTokens, rounds) == tokens[i] + IdleRounds(tokens[i], maxTokens, rounds)
      {
        Lockstep(tokens, maxTokens, largest, i);
      }
    }
  }
}
