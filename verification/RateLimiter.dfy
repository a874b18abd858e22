/** vllm/benchmarks/disagg_benchmarks/rate_limiter.py: a limiter that refills all its tokens once more
    than a second has passed since the last refill. Callers take the lock one after the other, so a run
    is the sequence of the clock readings in their critical sections, whoever makes them. Times and
    tokens are reals; the rate need not be an integer. */
module RateLimiter {
  import opened Bits

  datatype State = State(tokens: real, lastRefill: real)

  /** Refill, then take a token if there is one. */
  function Refilled(rate: real, s: State, now: real): (s': State) {
    if now - s.lastRefill > 1.0 then State(rate, now) else s
  }

  predicate Granted(rate: real, s: State, now: real) {
    Refilled(rate, s, now).tokens > 0.0
  }

  function Next(rate: real, s: State, now: real): (s': State) {
    var r := Refilled(rate, s, now);
    if r.tokens > 0.0 then State(r.tokens - 1.0, r.lastRefill) else r
  }

  class Limiter {
    const rateLimit: real
    var numAvailableTokens: real
    var lastRefill: real

    function Current(): State
      reads this
    {
      State(numAvailableTokens, lastRefill)
    }

    constructor (rateLimit: real, now: real)
      ensures this.rateLimit == rateLimit && Current() == State(rateLimit, now)
    {
      this.rateLimit, numAvailableTokens, lastRefill := rateLimit, rateLimit, now;
    }

    /** The critical section of `acquire`: a grant, or how long to sleep before the next attempt. The
        sleep is never negative, except when a limiter with no tokens to give has just refilled. */
    method TryAcquire(now: real) returns (granted: bool, waitTime: real)
      modifies this
      ensures var refilled := now - old(lastRefill) > 1.0;
              && granted == ((if refilled then rateLimit else old(numAvailableTokens)) > 0.0)
              && lastRefill == if refilled then now else old(lastRefill)
      ensures granted == Granted(rateLimit, old(Current()), now)
      ensures Current() == Next(rateLimit, old(Current()), now)
      ensures !granted ==> waitTime == 1.0 - (now - old(lastRefill))
      ensures !granted ==> (waitTime < 0.0 <==> rateLimit <= 0.0 && now - old(lastRefill) > 1.0)
    {
      waitTime := 0.0;
      var elapsed := now - lastRefill;
      if elapsed > 1.0 {
        numAvailableTokens := rateLimit;
        lastRefill := now;
      }
      if numAvailableTokens > 0.0 {
        numAvailableTokens := numAvailableTokens - 1.0;
        return true, waitTime;
      }
      waitTime := 1.0 - elapsed;
      granted := false;
    }
  }

  // ---- runs --------------------------------------------------------------------------------------

  ghost predicate NonDecreasing(times: seq<real>) {
    forall i, j :: 0 <= i < j < |times| ==> times[i] <= times[j]
  }

  /** The state after the critical sections at `times`. */
  function After(rate: real, s: State, times: seq<real>): (s': State)
    decreases |times|
  {
    if times == [] then s else After(rate, Next(rate, s, times[0]), times[1..])
  }

  /** Grants at times in [lo, hi]. */
  function GrantsIn(rate: real, s: State, times: seq<real>, lo: real, hi: real): (n: nat)
    decreases |times|
  {
    if times == [] then 0
    else (if lo <= times[0] <= hi && Granted(rate, s, times[0]) then 1 else 0)
         + GrantsIn(rate, Next(rate, s, times[0]), times[1..], lo, hi)
  }

  /** Refills at times up to `hi`. */
  function RefillsBy(rate: real, s: State, times: seq<real>, hi: real): (n: nat)
    decreases |times|
  {
    if times == [] then 0
    else (if times[0] <= hi && times[0] - s.lastRefill > 1.0 then 1 else 0)
         + RefillsBy(rate, Next(rate, s, times[0]), times[1..], hi)
  }

  function Ceil(x: real): (n: int)
    ensures n as real - 1.0 < x <= n as real
  {
    -(-x).Floor
  }

  /** Grants that `tokens` are good for: a fraction of a token still grants once. */
  function Budget(tokens: real): (n: nat) {
    if tokens > 0.0 then Ceil(tokens) else 0
  }

  lemma BudgetStep(tokens: real)
    requires tokens > 0.0
    ensures Budget(tokens) == Budget(tokens - 1.0) + 1
  {
    var a, b := Ceil(tokens), Ceil(tokens - 1.0);
    assert b == a - 1;
  }

  lemma BudgetGrows(x: real, y: real)
    requires x <= y
    ensures Budget(x) <= Budget(y)
  {
  }

  /** Every run: the tokens stay above -1 and never exceed the rate, and for an integer rate they are a
      whole number that is not negative. */
  lemma {:induction false} TokensInRange(rate: real, s: State, times: seq<real>)
    requires rate > 0.0 && -1.0 < s.tokens <= rate
    ensures -1.0 < After(rate, s, times).tokens <= rate
    ensures rate.Floor as real == rate && s.tokens.Floor as real == s.tokens ==>
              After(rate, s, times).tokens.Floor as real == After(rate, s, times).tokens >= 0.0
    decreases |times|
  {
    if times != [] {
      var s' := Next(rate, s, times[0]);
      assert Refilled(rate, s, times[0]).tokens.Floor as real == Refilled(rate, s, times[0]).tokens ==>
          (Refilled(rate, s, times[0]).tokens - 1.0).Floor == Refilled(rate, s, times[0]).tokens.Floor - 1;
      TokensInRange(rate, s', times[1..]);
    }
  }

  /** Refills are more than a second apart. */
  lemma {:induction false} RefillsApart(rate: real, s: State, times: seq<real>, hi: real)
    ensures RefillsBy(rate, s, times, hi) > 0 ==> s.lastRefill + RefillsBy(rate, s, times, hi) as real < hi
    decreases |times|
  {
    if times != [] {
      RefillsApart(rate, Next(rate, s, times[0]), times[1..], hi);
    }
  }

  /** From a state on, the grants up to `hi` come from the tokens at hand and from the refills. */
  lemma {:induction false} GrantsFromRefills(rate: real, s: State, times: seq<real>, lo: real, hi: real)
    requires s.tokens <= rate && NonDecreasing(times)
    ensures GrantsIn(rate, s, times, lo, hi) <= Budget(s.tokens) + Budget(rate) * RefillsBy(rate, s, times, hi)
    decreases |times|
  {
    if times != [] {
      var t, s' := times[0], Next(rate, s, times[0]);
      GrantsFromRefills(rate, s', times[1..], lo, hi);
      var g, k := GrantsIn(rate, s', times[1..], lo, hi), RefillsBy(rate, s', times[1..], hi);
      if t > hi {
        NothingAfter(rate, s, times, lo, hi);
      } else {
        var r := Refilled(rate, s, t);
        if r.tokens > 0.0 {
          BudgetStep(r.tokens);
        }
        if t - s.lastRefill > 1.0 {
          assert Budget(rate) * (k + 1) == Budget(rate) * k + Budget(rate);
        }
      }
    }
  }

  lemma {:induction false} NothingAfter(rate: real, s: State, times: seq<real>, lo: real, hi: real)
    requires forall i :: 0 <= i < |times| ==> times[i] > hi
    ensures GrantsIn(rate, s, times, lo, hi) == 0 && RefillsBy(rate, s, times, hi) == 0
    decreases |times|
  {
    if times != [] {
      NothingAfter(rate, Next(rate, s, times[0]), times[1..], lo, hi);
    }
  }

  /** Rate bound over all runs: any window of positive length `w` holds at most `rate * (ceil(w) + 1)`
      grants, where a fractional rate counts as the next integer. */
  lemma {:induction false} WindowBound(rate: real, s: State, times: seq<real>, lo: real, w: real)
    requires s.tokens <= rate && NonDecreasing(times) && w > 0.0
    ensures GrantsIn(rate, s, times, lo, lo + w) <= Budget(rate) * (Ceil(w) + 1)
    decreases |times|
  {
    var hi := lo + w;
    if times == [] {
      MulMonotone(0, Ceil(w) + 1, Budget(rate));
    } else if times[0] < lo {
      WindowBound(rate, Next(rate, s, times[0]), times[1..], lo, w);
    } else {
      GrantsFromRefills(rate, s, times, lo, hi);
      BudgetGrows(s.tokens, rate);
      FewRefills(rate, s, times, lo, w);
      var b, k := Budget(rate), RefillsBy(rate, s, times, hi);
      MulMonotone(k + 1, Ceil(w) + 1, b);
      assert (k + 1) * b == b * k + b && (Ceil(w) + 1) * b == b * (Ceil(w) + 1);
    }
  }

  /** In a window, the first refill may come right at the start, and the others are a second apart. */
  lemma {:induction false} FewRefills(rate: real, s: State, times: seq<real>, lo: real, w: real)
    requires w > 0.0 && forall i :: 0 <= i < |times| ==> lo <= times[i]
    ensures RefillsBy(rate, s, times, lo + w) <= Ceil(w)
    decreases |times|
  {
    if times != [] {
      if times[0] <= lo + w && times[0] - s.lastRefill > 1.0 {
        var s' := Next(rate, s, times[0]);
        RefillsApart(rate, s', times[1..], lo + w);
      } else {
        FewRefills(rate, Next(rate, s, times[0]), times[1..], lo, w);
      }
    }
  }

  // ---- the bound is reached ----------------------------------------------------------------------

  function Burst(n: nat, t: real): (times: seq<real>) {
    if n == 0 then [] else [t] + Burst(n - 1, t)
  }

  /** `k` bursts of `n`, at t, t + d, t + 2d, ... */
  function Bursts(n: nat, t: real, d: real, k: nat): (times: seq<real>)
    decreases k
  {
    if k == 0 then [] else Burst(n, t) + Bursts(n, t + d, d, k - 1)
  }

  lemma {:induction false} BurstOrdered(n: nat, t: real)
    ensures forall i :: 0 <= i < |Burst(n, t)| ==> Burst(n, t)[i] == t
  {
    if n > 0 {
      BurstOrdered(n - 1, t);
    }
  }

  lemma {:induction false} BurstsOrdered(n: nat, t: real, d: real, k: nat)
    requires d >= 0.0
    ensures NonDecreasing(Bursts(n, t, d, k))
    ensures forall i :: 0 <= i < |Bursts(n, t, d, k)| ==> t <= Bursts(n, t, d, k)[i]
    decreases k
  {
    if k > 0 {
      BurstOrdered(n, t);
      BurstsOrdered(n, t + d, d, k - 1);
    }
  }

  /** Callers that find `x` tokens and no refill take all there are, the last one what is left. */
  lemma {:induction false} BurstTakes(rate: real, x: real, last: real, t: real, rest: seq<real>, lo: real, hi: real)
    requires t - last <= 1.0 && lo <= t <= hi
    ensures var m := Budget(x);
            GrantsIn(rate, State(x, last), Burst(m, t) + rest, lo, hi)
              == m + GrantsIn(rate, State(x - m as real, last), rest, lo, hi)
    decreases Budget(x)
  {
    var m := Budget(x);
    if m == 0 {
      assert Burst(0, t) + rest == rest;
    } else {
      var times := Burst(m, t) + rest;
      assert times[0] == t && times[1..] == Burst(m - 1, t) + rest;
      BudgetStep(x);
      BurstTakes(rate, x - 1.0, last, t, rest, lo, hi);
      assert (x - 1.0) - (m - 1) as real == x - m as real;
    }
  }

  /** The first of a burst refills, and then all of them are served. */
  lemma BurstRefills(rate: real, s: State, t: real, rest: seq<real>, lo: real, hi: real)
    requires rate > 0.0 && t - s.lastRefill > 1.0 && lo <= t <= hi
    ensures var n := Budget(rate);
            GrantsIn(rate, s, Burst(n, t) + rest, lo, hi)
              == n + GrantsIn(rate, State(rate - n as real, t), rest, lo, hi)
  {
    var n := Budget(rate);
    BudgetStep(rate);
    var times := Burst(n, t) + rest;
    assert times[0] == t && times[1..] == Burst(n - 1, t) + rest;
    assert Next(rate, s, t) == State(rate - 1.0, t);
    BurstTakes(rate, rate - 1.0, t, t, rest, lo, hi);
    assert (rate - 1.0) - (n - 1) as real == rate - n as real;
  }

  lemma {:induction false} BurstsServed(rate: real, s: State, t: real, d: real, k: nat, lo: real, hi: real)
    requires rate > 0.0 && d > 1.0 && t - s.lastRefill > 1.0 && lo <= t
    requires k == 0 || t + (k - 1) as real * d <= hi
    ensures GrantsIn(rate, s, Bursts(Budget(rate), t, d, k), lo, hi) == Budget(rate) * k
    decreases k
  {
    var n := Budget(rate);
    if k > 0 {
      assert (k - 1) as real * d >= 0.0;
      BurstRefills(rate, s, t, Bursts(n, t + d, d, k - 1), lo, hi);
      if k > 1 {
        assert (t + d) + (k - 2) as real * d == t + (k - 1) as real * d;
      }
      BurstsServed(rate, State(rate - n as real, t), t + d, d, k - 1, lo, hi);
      assert n * k == n + n * (k - 1);
    }
  }

  lemma QuotientAboveOne(x: real, k: real)
    requires x > k > 0.0
    ensures (x / k) * k == x && x / k > 1.0
  {
    assert (x / k) * k == x;
    AtMostOne(x / k, k);
  }

  lemma AtMostOne(q: real, k: real)
    requires k > 0.0
    ensures q <= 1.0 ==> q * k <= k
  {
    if q <= 1.0 {
      NonNegativeProduct(1.0 - q, k);
      assert (1.0 - q) * k == k - q * k;
    }
  }

  /** The bound is exact: for every positive rate and every window length some run reaches it. A limiter
      made at time 0 serves its first callers at time 1, still on its first tokens, and refills just
      after, so a rate of `n` per second does not keep any second to `n` grants. */
  lemma WindowBoundReached(rate: real, w: real) returns (times: seq<real>)
    requires rate > 0.0 && w > 0.0
    ensures NonDecreasing(times) && forall i :: 0 <= i < |times| ==> 0.0 <= times[i]
    ensures GrantsIn(rate, State(rate, 0.0), times, 1.0, 1.0 + w) == Budget(rate) * (Ceil(w) + 1)
  {
    var k := Ceil(w);
    var d := (1.0 + w) / k as real;
    QuotientAboveOne(1.0 + w, k as real);
    var n := Budget(rate);
    var rest := Bursts(n, d, d, k);
    times := Burst(n, 1.0) + rest;
    BurstOrdered(n, 1.0);
    BurstsOrdered(n, d, d, k);
    BurstsCount(rate, d, k, 1.0 + w);
  }

  /** A burst at time 1, and `k` more of them from time `d` on, until `hi`. */
  lemma BurstsCount(rate: real, d: real, k: nat, hi: real)
    requires rate > 0.0 && d > 1.0 && k >= 1 && d * k as real == hi && 1.0 <= hi
    ensures var n := Budget(rate);
            GrantsIn(rate, State(rate, 0.0), Burst(n, 1.0) + Bursts(n, d, d, k), 1.0, hi) == n * (k + 1)
  {
    var n := Budget(rate);
    BurstTakes(rate, rate, 0.0, 1.0, Bursts(n, d, d, k), 1.0, hi);
    OneMoreTime(d, k as real);
    BurstsServed(rate, State(rate - n as real, 0.0), d, d, k, 1.0, hi);
    assert n * (k + 1) == n + n * k;
  }

  lemma OneMoreTime(d: real, k: real)
    ensures d + (k - 1.0) * d == d * k
  {
  }
}
