/** vllm/tools/report_build_time_ninja.py, `SummarizeEntries`: a sweep over all start and stop times
    that splits every stretch of wall time evenly between the build steps that run in it. Times are
    reals: rounding is not modelled. */
module NinjaReport {
  import opened Bits

  class Target {
    const start: real
    const end: real
    var weightedDuration: real

    constructor (start: real, end: real)
      ensures this.start == start && this.end == end && weightedDuration == 0.0
    {
      this.start := start;
      this.end := end;
      weightedDuration := 0.0;
    }
  }

  ghost predicate Distinct<T>(s: seq<T>) {
    forall i, j :: 0 <= i < j < |s| ==> s[i] != s[j]
  }

  // ---- what the weighted durations mean ----------------------------------------------------------

  /** `t` runs throughout [lo, hi]. */
  predicate Runs(t: Target, lo: real, hi: real) {
    t.start <= lo && hi <= t.end
  }

  /** Number of steps that run throughout [lo, hi]. */
  function Running(ts: seq<Target>, lo: real, hi: real): (n: nat) {
    if ts == [] then 0
    else Running(ts[..|ts| - 1], lo, hi) + (if Runs(ts[|ts| - 1], lo, hi) then 1 else 0)
  }

  ghost predicate Ordered(ps: seq<real>) {
    forall i, j :: 0 <= i <= j < |ps| ==> ps[i] <= ps[j]
  }

  /** Points in time order, among them every start and every end: no step starts or stops inside a
      stretch between two neighbouring points. */
  ghost predicate IsGrid(ts: seq<Target>, ps: seq<real>) {
    Ordered(ps) && ps != [] && forall t :: t in ts ==> t.start in ps && t.end in ps
  }

  /** `ws[x]` is the part of stretch `x` that falls to each of the steps that run in it: as many such
      parts as there are running steps make up the stretch. */
  ghost predicate IsSplit(ts: seq<Target>, ps: seq<real>, ws: seq<real>) {
    |ps| == |ws| + 1 && forall x {:trigger SplitsAt(ts, ps, ws, x)} :: 0 <= x < |ws| ==> SplitsAt(ts, ps, ws, x)
  }

  ghost predicate SplitsAt(ts: seq<Target>, ps: seq<real>, ws: seq<real>, x: nat)
    requires x < |ws| && |ps| == |ws| + 1
  {
    var n := Running(ts, ps[x], ps[x + 1]);
    if n == 0 then ws[x] == 0.0 else (n as real) * ws[x] == ps[x + 1] - ps[x]
  }

  /** What falls to `t` in the first `n` stretches. */
  function Share(ps: seq<real>, ws: seq<real>, t: Target, n: nat): (w: real)
    requires n <= |ws| < |ps|
  {
    if n == 0 then 0.0 else Share(ps, ws, t, n - 1) + (if Runs(t, ps[n - 1], ps[n]) then ws[n - 1] else 0.0)
  }

  /** Measure of the union of the steps' intervals, within the first `n` stretches. */
  function Busy(ts: seq<Target>, ps: seq<real>, n: nat): (m: real)
    requires n < |ps|
  {
    if n == 0 then 0.0
    else Busy(ts, ps, n - 1) + (if Running(ts, ps[n - 1], ps[n]) > 0 then ps[n] - ps[n - 1] else 0.0)
  }

  function Idle(ts: seq<Target>, ps: seq<real>, n: nat): (m: real)
    requires n < |ps|
  {
    if n == 0 then 0.0
    else Idle(ts, ps, n - 1) + (if Running(ts, ps[n - 1], ps[n]) > 0 then 0.0 else ps[n] - ps[n - 1])
  }

  /** Sum of the shares of `ts`. */
  function Shares(ts: seq<Target>, ps: seq<real>, ws: seq<real>, n: nat): (w: real)
    requires n <= |ws| < |ps|
  {
    if ts == [] then 0.0 else Shares(ts[..|ts| - 1], ps, ws, n) + Share(ps, ws, ts[|ts| - 1], n)
  }

  lemma {:induction false} SharesStep(ts: seq<Target>, ps: seq<real>, ws: seq<real>, n: nat)
    requires 0 < n <= |ws| < |ps|
    ensures Shares(ts, ps, ws, n) == Shares(ts, ps, ws, n - 1) + (Running(ts, ps[n - 1], ps[n]) as real) * ws[n - 1]
  {
    if ts != [] {
      SharesStep(ts[..|ts| - 1], ps, ws, n);
      var r := Running(ts[..|ts| - 1], ps[n - 1], ps[n]);
      assert (r as real + 1.0) * ws[n - 1] == (r as real) * ws[n - 1] + ws[n - 1];
    }
  }

  lemma {:induction false} SharesAtStart(ts: seq<Target>, ps: seq<real>, ws: seq<real>)
    requires |ws| < |ps|
    ensures Shares(ts, ps, ws, 0) == 0.0
  {
    if ts != [] {
      SharesAtStart(ts[..|ts| - 1], ps, ws);
    }
  }

  /** Conservation: together the steps are given all of the time in which anything runs. */
  lemma {:induction false} SharesAreBusyTime(ts: seq<Target>, ps: seq<real>, ws: seq<real>, n: nat)
    requires IsSplit(ts, ps, ws) && n <= |ws|
    ensures Shares(ts, ps, ws, n) == Busy(ts, ps, n)
  {
    if n == 0 {
      SharesAtStart(ts, ps, ws);
    } else {
      SharesAreBusyTime(ts, ps, ws, n - 1);
      SharesStep(ts, ps, ws, n);
      assert SplitsAt(ts, ps, ws, n - 1);
    }
  }

  lemma PartIsSmaller(ts: seq<Target>, ps: seq<real>, ws: seq<real>, x: nat)
    requires IsSplit(ts, ps, ws) && Ordered(ps) && x < |ws|
    ensures 0.0 <= ws[x] <= ps[x + 1] - ps[x]
  {
    assert SplitsAt(ts, ps, ws, x);
    var n, w := Running(ts, ps[x], ps[x + 1]), ws[x];
    if n > 0 {
      NonNegativeFactor(n as real, w);
      NonNegativeProduct((n - 1) as real, w);
      assert (n - 1) as real * w == n as real * w - w;
    }
  }

  lemma NonNegativeFactor(n: real, w: real)
    requires n > 0.0 && n * w >= 0.0
    ensures w >= 0.0
  {
    assert w == (n * w) / n;
  }

  /** No step is given more time than it ran. */
  lemma {:induction false} ShareIsBounded(ts: seq<Target>, ps: seq<real>, ws: seq<real>, t: Target,
                                          n: nat, i: nat, j: nat)
    requires IsSplit(ts, ps, ws) && Ordered(ps) && n <= |ws|
    requires i <= j < |ps| && ps[i] == t.start && ps[j] == t.end
    ensures 0.0 <= Share(ps, ws, t, n)
    ensures Share(ps, ws, t, n) <= if n <= i then 0.0 else if n <= j then ps[n] - ps[i] else t.end - t.start
  {
    if n > 0 {
      ShareIsBounded(ts, ps, ws, t, n - 1, i, j);
      PartIsSmaller(ts, ps, ws, n - 1);
    }
  }

  lemma {:induction false} BusyPlusIdle(ts: seq<Target>, ps: seq<real>, n: nat)
    requires n < |ps| && Ordered(ps)
    ensures Busy(ts, ps, n) + Idle(ts, ps, n) == ps[n] - ps[0]
    ensures 0.0 <= Busy(ts, ps, n) && 0.0 <= Idle(ts, ps, n)
  {
    if n > 0 {
      BusyPlusIdle(ts, ps, n - 1);
    }
  }

  lemma {:induction false} RunningPositive(ts: seq<Target>, lo: real, hi: real)
    ensures Running(ts, lo, hi) > 0 <==> exists t :: t in ts && Runs(t, lo, hi)
  {
    if ts != [] {
      var n := |ts| - 1;
      RunningPositive(ts[..n], lo, hi);
      assert ts == ts[..n] + [ts[n]];
    }
  }

  /** `Busy` is a measure of the steps' intervals and not of the points chosen: one more point inside
      the range changes nothing. */
  lemma {:induction false} BusyIgnoresPoints(ts: seq<Target>, ps: seq<real>, x: nat, p: real, n: nat)
    requires IsGrid(ts, ps) && x + 1 <= n < |ps| && ps[x] <= p <= ps[x + 1]
    ensures Busy(ts, ps[..x + 1] + [p] + ps[x + 1..], n + 1) == Busy(ts, ps, n)
  {
    var qs := ps[..x + 1] + [p] + ps[x + 1..];
    if x + 1 < n {
      BusyIgnoresPoints(ts, ps, x, p, n - 1);
    } else {
      BusyPrefix(ts, ps, qs, x);
      RunningPositive(ts, ps[x], ps[x + 1]);
      RunningPositive(ts, ps[x], p);
      RunningPositive(ts, p, ps[x + 1]);
      forall t | t in ts
        ensures ps[x] < p && Runs(t, ps[x], p) ==> Runs(t, ps[x], ps[x + 1])
        ensures p < ps[x + 1] && Runs(t, p, ps[x + 1]) ==> Runs(t, ps[x], ps[x + 1])
        ensures Runs(t, ps[x], ps[x + 1]) ==> Runs(t, ps[x], p) && Runs(t, p, ps[x + 1])
      {
        NoEventInside(ts, ps, t, x);
      }
    }
  }

  /** `x` lies in stretch `i`, or is the last point. */
  ghost predicate InStretch(ps: seq<real>, i: nat, x: real) {
    i < |ps| && ps[i] <= x && (if i + 1 < |ps| then x <= ps[i + 1] else x == ps[i])
  }

  /** The measure up to a point `x` of stretch `i`. */
  ghost function BusyTo(ts: seq<Target>, ps: seq<real>, i: nat, x: real): (m: real)
    requires InStretch(ps, i, x)
  {
    Busy(ts, ps, i) + (if i + 1 < |ps| && Running(ts, ps[i], ps[i + 1]) > 0 then x - ps[i] else 0.0)
  }

  /** Within a stretch, a step that runs for a while runs throughout. */
  lemma RunsThroughout(ts: seq<Target>, ps: seq<real>, i: nat, y: real, x: real)
    requires IsGrid(ts, ps) && i + 1 < |ps| && ps[i] <= y < x <= ps[i + 1]
    ensures Running(ts, ps[i], ps[i + 1]) > 0 <==> Running(ts, y, x) > 0
  {
    RunningPositive(ts, ps[i], ps[i + 1]);
    RunningPositive(ts, y, x);
    forall t | t in ts
      ensures Runs(t, ps[i], ps[i + 1]) <==> Runs(t, y, x)
    {
      NoEventInside(ts, ps, t, i);
    }
  }

  /** Two grids with the same first point measure the same up to any point. */
  lemma {:induction false} SameBusyTo(ts: seq<Target>, ps: seq<real>, qs: seq<real>, i: nat, j: nat, x: real)
    requires IsGrid(ts, ps) && IsGrid(ts, qs) && ps[0] == qs[0]
    requires InStretch(ps, i, x) && InStretch(qs, j, x)
    ensures BusyTo(ts, ps, i, x) == BusyTo(ts, qs, j, x)
    decreases i + j
  {
    var y := if ps[i] < qs[j] then qs[j] else ps[i];
    if y < x {
      RunsThroughout(ts, ps, i, y, x);
      RunsThroughout(ts, qs, j, y, x);
    }
    if y == ps[i] && i > 0 {
      SameBusyTo(ts, ps, qs, i - 1, j, y);
    } else if j > 0 {
      SameBusyTo(ts, ps, qs, i, j - 1, y);
    }
  }

  /** Any two grids over the same range give the same measure. */
  lemma BusyIsMeasure(ts: seq<Target>, ps: seq<real>, qs: seq<real>)
    requires IsGrid(ts, ps) && IsGrid(ts, qs) && ps[0] == qs[0] && ps[|ps| - 1] == qs[|qs| - 1]
    ensures Busy(ts, ps, |ps| - 1) == Busy(ts, qs, |qs| - 1)
  {
    SameBusyTo(ts, ps, qs, |ps| - 1, |qs| - 1, ps[|ps| - 1]);
  }

  /** A start or an end is not strictly inside a stretch. */
  lemma NoEventInside(ts: seq<Target>, ps: seq<real>, t: Target, x: nat)
    requires IsGrid(ts, ps) && t in ts && x + 1 < |ps|
    ensures t.start <= ps[x] || ps[x + 1] <= t.start
    ensures t.end <= ps[x] || ps[x + 1] <= t.end
  {
    var i :| 0 <= i < |ps| && ps[i] == t.start;
    var j :| 0 <= j < |ps| && ps[j] == t.end;
  }

  lemma {:induction false} BusyPrefix(ts: seq<Target>, ps: seq<real>, qs: seq<real>, n: nat)
    requires n < |ps| && n < |qs| && ps[..n + 1] == qs[..n + 1]
    ensures Busy(ts, ps, n) == Busy(ts, qs, n)
  {
    assert forall i :: 0 <= i <= n ==> ps[i] == ps[..n + 1][i] == qs[i];
    if n > 0 {
      assert ps[..n] == ps[..n + 1][..n] && qs[..n] == qs[..n + 1][..n];
      BusyPrefix(ts, ps, qs, n - 1);
    }
  }

  // ---- the events, in time order -----------------------------------------------------------------

  datatype Event = Event(stop: bool, target: Target) {
    function Time(): real {
      if stop then target.end else target.start
    }

    /** The sort key is the time and then the action; "start" comes before "stop". */
    predicate NotAfter(e: Event) {
      Time() < e.Time() || (Time() == e.Time() && (!stop || e.stop))
    }
  }

  ghost predicate Sorted(es: seq<Event>) {
    forall i, j {:trigger es[i].NotAfter(es[j])} :: 0 <= i < j < |es| ==> es[i].NotAfter(es[j])
  }

  /** The same events, each as often as before if none occurs twice. */
  ghost predicate SameEvents(es: seq<Event>, es': seq<Event>) {
    && |es| == |es'|
    && (forall e :: e in es ==> e in es') && (forall e :: e in es' ==> e in es)
    && (Distinct(es) ==> Distinct(es'))
  }

  function Insert(e: Event, es: seq<Event>): (r: seq<Event>) {
    if es == [] then [e] else if e.NotAfter(es[0]) then [e] + es else [es[0]] + Insert(e, es[1..])
  }

  function SortEvents(es: seq<Event>): (r: seq<Event>) {
    if es == [] then [] else Insert(es[0], SortEvents(es[1..]))
  }

  lemma DistinctCons<T>(x: T, s: seq<T>)
    ensures Distinct([x] + s) <==> x !in s && Distinct(s)
  {
    var t := [x] + s;
    if Distinct(t) {
      forall i, j | 0 <= i < j < |s|
        ensures s[i] != s[j]
      {
        assert t[i + 1] != t[j + 1];
      }
      forall i | 0 <= i < |s|
        ensures s[i] != x
      {
        assert t[0] != t[i + 1];
      }
    }
  }

  lemma SortedCons(e: Event, es: seq<Event>)
    ensures Sorted([e] + es) <==> (forall x :: x in es ==> e.NotAfter(x)) && Sorted(es)
  {
    var r := [e] + es;
    if Sorted(r) {
      forall i, j | 0 <= i < j < |es|
        ensures es[i].NotAfter(es[j])
      {
        assert r[i + 1].NotAfter(r[j + 1]);
      }
      forall i | 0 <= i < |es|
        ensures e.NotAfter(es[i])
      {
        assert r[0].NotAfter(r[i + 1]);
      }
    } else {
      var i, j :| 0 <= i < j < |r| && !r[i].NotAfter(r[j]);
      assert r[j] == es[j - 1] && (i > 0 ==> r[i] == es[i - 1]);
    }
  }

  lemma {:induction false} InsertSorts(e: Event, es: seq<Event>)
    requires Sorted(es)
    ensures Sorted(Insert(e, es)) && SameEvents([e] + es, Insert(e, es))
  {
    if es == [] {
      assert [e] + es == [e];
    } else {
      assert es == [es[0]] + es[1..];
      SortedCons(es[0], es[1..]);
      SortedCons(e, es);
      if !e.NotAfter(es[0]) {
        var r := Insert(e, es[1..]);
        InsertSorts(e, es[1..]);
        SortedCons(es[0], r);
        DistinctCons(e, es);
        DistinctCons(es[0], es[1..]);
        DistinctCons(e, es[1..]);
        DistinctCons(es[0], r);
        assert es[0] in es;
      }
    }
  }

  lemma {:induction false} SortSorts(es: seq<Event>)
    ensures Sorted(SortEvents(es)) && SameEvents(es, SortEvents(es))
  {
    if es != [] {
      SortSorts(es[1..]);
      var r := SortEvents(es[1..]);
      InsertSorts(es[0], r);
      assert es == [es[0]] + es[1..];
      DistinctCons(es[0], es[1..]);
      DistinctCons(es[0], r);
    }
  }

  function EventsOf(ts: seq<Target>): (es: seq<Event>) {
    if ts == [] then []
    else EventsOf(ts[..|ts| - 1]) + [Event(false, ts[|ts| - 1]), Event(true, ts[|ts| - 1])]
  }

  lemma {:induction false} EventsOfAll(ts: seq<Target>)
    requires Distinct(ts)
    ensures Distinct(EventsOf(ts))
    ensures forall t :: t in ts ==> Event(false, t) in EventsOf(ts) && Event(true, t) in EventsOf(ts)
    ensures forall e :: e in EventsOf(ts) ==> e.target in ts
  {
    if ts != [] {
      var n := |ts| - 1;
      assert ts == ts[..n] + [ts[n]] && ts[n] !in ts[..n];
      EventsOfAll(ts[..n]);
      var es := EventsOf(ts[..n]);
      assert Event(false, ts[n]) !in es && Event(true, ts[n]) !in es;
    }
  }

  // ---- the sweep ---------------------------------------------------------------------------------

  /** `es` are the start and stop events of `ts`, in time order. */
  ghost predicate IsSchedule(ts: seq<Target>, es: seq<Event>) {
    && Distinct(ts) && Distinct(es) && Sorted(es) && es != []
    && (forall t {:trigger IsScheduled(es, t)} :: t in ts ==> IsScheduled(es, t))
    && (forall e :: e in es ==> e.target in ts)
  }

  ghost predicate IsScheduled(es: seq<Event>, t: Target) {
    t.start <= t.end && Event(false, t) in es && Event(true, t) in es
  }

  lemma SortedIsSchedule(ts: seq<Target>)
    requires Distinct(ts) && ts != [] && forall t :: t in ts ==> t.start <= t.end
    ensures IsSchedule(ts, SortEvents(EventsOf(ts)))
  {
    EventsOfAll(ts);
    SortSorts(EventsOf(ts));
    assert ts[0] in ts;
  }

  function Times(es: seq<Event>): (ps: seq<real>)
    ensures |ps| == |es| && forall i :: 0 <= i < |ps| ==> ps[i] == es[i].Time()
  {
    seq(|es|, i requires 0 <= i < |es| => es[i].Time())
  }

  lemma TimesOrdered(es: seq<Event>)
    requires Sorted(es)
    ensures Ordered(Times(es))
  {
    var ps := Times(es);
    forall i, j | 0 <= i <= j < |ps|
      ensures ps[i] <= ps[j]
    {
      assert i < j ==> es[i].NotAfter(es[j]);
    }
  }

  lemma ScheduleIsGrid(ts: seq<Target>, es: seq<Event>)
    requires IsSchedule(ts, es)
    ensures IsGrid(ts, Times(es))
  {
    TimesOrdered(es);
    forall t | t in ts
      ensures t.start in Times(es) && t.end in Times(es)
    {
      var i, j := EventIndices(ts, es, t);
      assert Times(es)[i] in Times(es) && Times(es)[j] in Times(es);
    }
  }

  /** A step's start comes before its stop, even when both happen at the same time. */
  lemma EventIndices(ts: seq<Target>, es: seq<Event>, t: Target) returns (i: nat, j: nat)
    requires IsSchedule(ts, es) && t in ts
    ensures i < j < |es| && es[i] == Event(false, t) && es[j] == Event(true, t)
    ensures Times(es)[i] == t.start && Times(es)[j] == t.end
  {
    assert IsScheduled(es, t);
    i :| 0 <= i < |es| && es[i] == Event(false, t);
    j :| 0 <= j < |es| && es[j] == Event(true, t);
    assert j < i ==> es[j].NotAfter(es[i]);
  }

  /** `t` has started and not stopped in the first `k` events. */
  ghost predicate InProgress(es: seq<Event>, k: nat, t: Target)
    requires k <= |es|
  {
    Event(false, t) in es[..k] && Event(true, t) !in es[..k]
  }

  lemma IndexInPrefix<T>(s: seq<T>, i: nat, k: nat)
    requires Distinct(s) && i < |s| && k <= |s|
    ensures s[i] in s[..k] <==> i < k
  {
  }

  /** Between two different times, the steps that have started and not stopped are the ones that run
      throughout the stretch. */
  lemma RunningNow(ts: seq<Target>, es: seq<Event>, k: nat, t: Target)
    requires IsSchedule(ts, es) && 0 < k < |es| && t in ts && es[k - 1].Time() < es[k].Time()
    ensures InProgress(es, k, t) <==> Runs(t, es[k - 1].Time(), es[k].Time())
  {
    var i, j := EventIndices(ts, es, t);
    IndexInPrefix(es, i, k);
    IndexInPrefix(es, j, k);
    assert i < k - 1 ==> es[i].NotAfter(es[k - 1]);
    assert j < k - 1 ==> es[j].NotAfter(es[k - 1]);
    assert k < i ==> es[k].NotAfter(es[i]);
    assert k < j ==> es[k].NotAfter(es[j]);
  }

  lemma {:induction false} CountRunning(ts: seq<Target>, lo: real, hi: real, r: set<Target>)
    requires Distinct(ts)
    requires forall t :: t in r <==> t in ts && Runs(t, lo, hi)
    ensures |r| == Running(ts, lo, hi)
  {
    if ts == [] {
      assert r == {};
    } else {
      var n := |ts| - 1;
      assert ts == ts[..n] + [ts[n]];
      assert ts[n] !in ts[..n];
      CountRunning(ts[..n], lo, hi, r - {ts[n]});
    }
  }

  /** The running total of the parts, up to point `n`. */
  function Weight(ws: seq<real>, n: nat): (w: real)
    requires n <= |ws|
  {
    if n == 0 then 0.0 else Weight(ws, n - 1) + ws[n - 1]
  }

  /** The total between a step's start and its stop is its share. */
  lemma {:induction false} ShareIsDifference(ts: seq<Target>, ps: seq<real>, ws: seq<real>, t: Target,
                                             i: nat, j: nat, n: nat)
    requires IsSplit(ts, ps, ws) && Ordered(ps) && i <= j <= |ws| && n <= |ws| && ps[i] == t.start && ps[j] == t.end
    ensures Share(ps, ws, t, n) == if n <= i then 0.0 else if n <= j then Weight(ws, n) - Weight(ws, i)
                                   else Weight(ws, j) - Weight(ws, i)
  {
    if n > 0 {
      ShareIsDifference(ts, ps, ws, t, i, j, n - 1);
      PartIsSmaller(ts, ps, ws, n - 1);
    }
  }

  /** Before event `k` the running steps are those in progress, each with the total at its start. */
  ghost predicate Tracks(ts: seq<Target>, es: seq<Event>, k: nat, running: map<Target, real>) {
    && k <= |es|
    && (forall t :: t in running ==> t in ts)
    && (forall t {:trigger InProgress(es, k, t)} :: t in ts ==> (t in running <==> InProgress(es, k, t)))
  }

  ghost predicate HasTotals(es: seq<Event>, k: nat, running: map<Target, real>, ws: seq<real>) {
    && k <= |es| && k <= |ws| + 1
    && forall i :: 0 <= i < k && es[i].target in running && !es[i].stop ==> running[es[i].target] == Weight(ws, i)
  }

  lemma ProgressStep(ts: seq<Target>, es: seq<Event>, k: nat, t: Target)
    requires IsSchedule(ts, es) && k < |es| && t in ts
    ensures InProgress(es, k + 1, t) <==> if t == es[k].target then !es[k].stop else InProgress(es, k, t)
    ensures t == es[k].target && es[k].stop ==> InProgress(es, k, t)
  {
    var i, j := EventIndices(ts, es, t);
    IndexInPrefix(es, i, k);
    IndexInPrefix(es, j, k);
    IndexInPrefix(es, i, k + 1);
    IndexInPrefix(es, j, k + 1);
    if t == es[k].target {
      assert k == if es[k].stop then j else i;
    } else {
      assert i != k && j != k;
    }
  }

  /** The stretch before event `k` is split between as many steps as run in it. */
  lemma CountInProgress(ts: seq<Target>, es: seq<Event>, k: nat, running: map<Target, real>)
    requires IsSchedule(ts, es) && 0 < k < |es| && Tracks(ts, es, k, running)
    ensures es[k - 1].Time() <= es[k].Time()
    ensures es[k - 1].Time() < es[k].Time() ==> |running| == Running(ts, es[k - 1].Time(), es[k].Time())
  {
    var lo, hi := es[k - 1].Time(), es[k].Time();
    assert es[k - 1].NotAfter(es[k]);
    if lo < hi {
      forall t | t in ts
        ensures t in running.Keys <==> Runs(t, lo, hi)
      {
        RunningNow(ts, es, k, t);
      }
      CountRunning(ts, lo, hi, running.Keys);
    }
  }

  lemma StartStep(ts: seq<Target>, es: seq<Event>, k: nat, running: map<Target, real>, w: real)
    requires IsSchedule(ts, es) && k < |es| && Tracks(ts, es, k, running) && !es[k].stop
    ensures Tracks(ts, es, k + 1, running[es[k].target := w])
  {
    forall t | t in ts
      ensures t in running || t == es[k].target <==> InProgress(es, k + 1, t)
    {
      ProgressStep(ts, es, k, t);
    }
  }

  lemma StopStep(ts: seq<Target>, es: seq<Event>, k: nat, running: map<Target, real>)
    requires IsSchedule(ts, es) && k < |es| && Tracks(ts, es, k, running) && es[k].stop
    ensures es[k].target in running
    ensures Tracks(ts, es, k + 1, running - {es[k].target})
  {
    ProgressStep(ts, es, k, es[k].target);
    forall t | t in ts
      ensures t in running && t != es[k].target <==> InProgress(es, k + 1, t)
    {
      ProgressStep(ts, es, k, t);
    }
  }

  lemma StartTotals(es: seq<Event>, k: nat, running: map<Target, real>, ws: seq<real>)
    requires Distinct(es) && k < |es| && k <= |ws| && HasTotals(es, k, running, ws) && !es[k].stop
    ensures HasTotals(es, k + 1, running[es[k].target := Weight(ws, k)], ws)
  {
    forall i | 0 <= i < k && !es[i].stop
      ensures es[i].target != es[k].target
    {
      assert es[i] != es[k];
    }
  }

  /** An even split exists for any steps and points. */
  lemma {:induction false} SplitExists(ts: seq<Target>, ps: seq<real>) returns (ws: seq<real>)
    requires ps != []
    ensures IsSplit(ts, ps, ws)
    decreases |ps|
  {
    if |ps| == 1 {
      ws := [];
    } else {
      var m := |ps| - 1;
      var before := SplitExists(ts, ps[..m]);
      var n := Running(ts, ps[m - 1], ps[m]);
      ws := before + [if n == 0 then 0.0 else (ps[m] - ps[m - 1]) / (n as real)];
      forall x | 0 <= x < |ws|
        ensures SplitsAt(ts, ps, ws, x)
      {
        if x < m - 1 {
          assert SplitsAt(ts, ps[..m], before, x);
        }
      }
    }
  }

  /** Dividing a stretch by the number of running steps gives its part. */
  lemma PartIsQuotient(ts: seq<Target>, ps: seq<real>, ws: seq<real>, x: nat, n: nat)
    requires IsSplit(ts, ps, ws) && x < |ws| && ps[x] <= ps[x + 1]
    requires ps[x] < ps[x + 1] ==> n == Running(ts, ps[x], ps[x + 1])
    ensures ws[x] == if n > 0 then (ps[x + 1] - ps[x]) / (n as real) else 0.0
  {
    assert SplitsAt(ts, ps, ws, x);
    QuotientCases(ps[x + 1] - ps[x], ws[x], Running(ts, ps[x], ps[x + 1]), n);
  }

  lemma QuotientCases(d: real, w: real, r: nat, n: nat)
    requires d >= 0.0 && (d > 0.0 ==> n == r)
    requires if r == 0 then w == 0.0 else (r as real) * w == d
    ensures w == if n > 0 then d / (n as real) else 0.0
  {
    if r > 0 {
      QuotientOfProduct(r as real, w);
    }
    if d == 0.0 {
      ZeroQuotient(r as real);
      ZeroQuotient(n as real);
    }
  }

  lemma QuotientOfProduct(n: real, w: real)
    requires n > 0.0
    ensures (n * w) / n == w
  {
  }

  lemma ZeroQuotient(n: real)
    ensures n > 0.0 ==> 0.0 / n == 0.0
  {
  }

  lemma NoneYet(ts: seq<Target>, es: seq<Event>, running: map<Target, real>)
    requires Tracks(ts, es, 0, running)
    ensures running == map[]
  {
    forall t | t in ts
      ensures t !in running
    {
      assert !InProgress(es, 0, t);
    }
    assert running.Keys == {};
  }

  /** The event that the stretch before event `k` starts at. */
  function Previous(k: nat): nat {
    if k == 0 then 0 else k - 1
  }

  /** The running total at event `k`, as the loop computes it. */
  lemma NextTotal(ts: seq<Target>, es: seq<Event>, ws: seq<real>, k: nat, running: map<Target, real>)
    requires IsSchedule(ts, es) && IsSplit(ts, Times(es), ws) && k < |es| && Tracks(ts, es, k, running)
    ensures |running| == 0 ==> Weight(ws, k) == Weight(ws, Previous(k))
    ensures |running| > 0 ==>
              Weight(ws, k) == Weight(ws, Previous(k)) + (es[k].Time() - es[Previous(k)].Time()) / (|running| as real)
  {
    if k > 0 {
      CountInProgress(ts, es, k, running);
      PartIsQuotient(ts, Times(es), ws, k - 1, |running|);
    } else {
      NoneYet(ts, es, running);
    }
  }

  lemma StopTotals(es: seq<Event>, k: nat, running: map<Target, real>, ws: seq<real>)
    requires k < |es| && k <= |ws| && HasTotals(es, k, running, ws) && es[k].stop
    ensures HasTotals(es, k + 1, running - {es[k].target}, ws)
  {
  }

  /** What a step is due, read off at its start and its stop. */
  lemma ShareOfStep(ts: seq<Target>, es: seq<Event>, ws: seq<real>, k: nat, running: map<Target, real>)
    requires IsSchedule(ts, es) && IsSplit(ts, Times(es), ws) && k < |es| && es[k].stop
    requires HasTotals(es, k, running, ws) && es[k].target in running
    ensures var t := es[k].target;
            && Weight(ws, k) - running[t] == Share(Times(es), ws, t, |ws|)
            && 0.0 <= Share(Times(es), ws, t, |ws|) <= t.end - t.start
  {
    var t := es[k].target;
    var i, j := EventIndices(ts, es, t);
    assert j == k;
    TimesOrdered(es);
    ShareIsDifference(ts, Times(es), ws, t, i, j, |ws|);
    ShareIsBounded(ts, Times(es), ws, t, |ws|, i, j);
  }

  /** Targets whose stop is among the first `k` events. */
  ghost function Done(es: seq<Event>, k: nat): (r: set<Target>)
    requires k <= |es|
  {
    if k == 0 then {}
    else if es[k - 1].stop then Done(es, k - 1) + {es[k - 1].target}
    else Done(es, k - 1)
  }

  lemma {:induction false} DoneMeansStopped(es: seq<Event>, k: nat, t: Target)
    requires k <= |es|
    ensures t in Done(es, k) <==> Event(true, t) in es[..k]
  {
    if k > 0 {
      DoneMeansStopped(es, k - 1, t);
      assert es[..k] == es[..k - 1] + [es[k - 1]];
    }
  }

  lemma StopsOnce(es: seq<Event>, k: nat)
    requires Distinct(es) && k < |es| && es[k].stop
    ensures es[k].target !in Done(es, k)
  {
    DoneMeansStopped(es, k, es[k].target);
    IndexInPrefix(es, k, k);
  }

  lemma AllDone(ts: seq<Target>, es: seq<Event>)
    requires IsSchedule(ts, es)
    ensures forall t :: t in ts ==> t in Done(es, |es|)
  {
    forall t | t in ts
      ensures t in Done(es, |es|)
    {
      DoneMeansStopped(es, |es|, t);
      assert IsScheduled(es, t);
      assert es[..|es|] == es;
    }
  }

  lemma NoneLeft(ts: seq<Target>, es: seq<Event>, running: map<Target, real>)
    requires IsSchedule(ts, es) && Tracks(ts, es, |es|, running)
    ensures running == map[]
  {
    assert es[..|es|] == es;
    forall t | t in ts
      ensures t !in running
    {
      assert IsScheduled(es, t);
      assert !InProgress(es, |es|, t);
    }
    assert running.Keys == {};
  }

  /** Sum of the final shares of those of `ts` that are done. */
  ghost function DoneShares(ts: seq<Target>, done: set<Target>, ps: seq<real>, ws: seq<real>): (w: real)
    requires |ws| < |ps|
  {
    if ts == [] then 0.0
    else DoneShares(ts[..|ts| - 1], done, ps, ws)
         + (if ts[|ts| - 1] in done then Share(ps, ws, ts[|ts| - 1], |ws|) else 0.0)
  }

  lemma {:induction false} AddDone(ts: seq<Target>, done: set<Target>, t: Target, ps: seq<real>, ws: seq<real>)
    requires |ws| < |ps| && Distinct(ts) && t !in done
    ensures DoneShares(ts, done + {t}, ps, ws)
         == DoneShares(ts, done, ps, ws) + if t in ts then Share(ps, ws, t, |ws|) else 0.0
  {
    if ts != [] {
      var n := |ts| - 1;
      assert ts == ts[..n] + [ts[n]] && ts[n] !in ts[..n];
      AddDone(ts[..n], done, t, ps, ws);
    }
  }

  lemma {:induction false} AllOrNoneDone(ts: seq<Target>, done: set<Target>, ps: seq<real>, ws: seq<real>)
    requires |ws| < |ps|
    ensures (forall t :: t in ts ==> t in done) ==> DoneShares(ts, done, ps, ws) == Shares(ts, ps, ws, |ws|)
    ensures DoneShares(ts, {}, ps, ws) == 0.0
  {
    if ts != [] {
      AllOrNoneDone(ts[..|ts| - 1], done, ps, ws);
    }
  }

  /** A stop finds its step running, and what has accumulated since its start is its share. */
  lemma AtStop(ts: seq<Target>, es: seq<Event>, ws: seq<real>, k: nat, running: map<Target, real>)
    requires IsSchedule(ts, es) && IsSplit(ts, Times(es), ws) && k < |es| && es[k].stop
    requires Tracks(ts, es, k, running) && HasTotals(es, k, running, ws)
    ensures var t, share := es[k].target, Share(Times(es), ws, es[k].target, |ws|);
            && t in ts && t in running && Weight(ws, k) - running[t] == share && 0.0 <= share <= t.end - t.start
            && Tracks(ts, es, k + 1, running - {t}) && HasTotals(es, k + 1, running - {t}, ws)
            && DoneShares(ts, Done(es, k + 1), Times(es), ws) == DoneShares(ts, Done(es, k), Times(es), ws) + share
  {
    assert es[k] in es;
    StopStep(ts, es, k, running);
    StopTotals(es, k, running, ws);
    ShareOfStep(ts, es, ws, k, running);
    StopsOnce(es, k);
    AddDone(ts, Done(es, k), es[k].target, Times(es), ws);
  }

  /** When all events are done, all steps are, and together they have been given the busy time. */
  lemma AtEnd(ts: seq<Target>, es: seq<Event>, ws: seq<real>)
    requires IsSchedule(ts, es) && IsSplit(ts, Times(es), ws)
    ensures forall t :: t in ts ==> t in Done(es, |es|)
    ensures DoneShares(ts, Done(es, |es|), Times(es), ws) == Busy(ts, Times(es), |ws|)
  {
    AllDone(ts, es);
    AllOrNoneDone(ts, Done(es, |es|), Times(es), ws);
    SharesAreBusyTime(ts, Times(es), ws, |ws|);
  }

  /** Every step's weighted duration is its share, and no longer than the step itself. */
  ghost predicate IsWeighted(t: Target, ps: seq<real>, ws: seq<real>)
    requires |ws| < |ps|
    reads t
  {
    t.weightedDuration == Share(ps, ws, t, |ws|) && 0.0 <= t.weightedDuration <= t.end - t.start
  }

  /** The step's share is recorded; those of the steps that are done stay as they are. */
  method SetWeightedDuration(target: Target, weightedDuration: real, ghost done: set<Target>,
                             ghost ps: seq<real>, ghost ws: seq<real>)
    requires |ws| < |ps| && forall t :: t in done ==> IsWeighted(t, ps, ws)
    requires weightedDuration == Share(ps, ws, target, |ws|) && 0.0 <= weightedDuration <= target.end - target.start
    modifies target
    ensures forall t :: t in done + {target} ==> IsWeighted(t, ps, ws)
  {
    target.weightedDuration := weightedDuration;
    forall t | t in done + {target}
      ensures IsWeighted(t, ps, ws)
    {
    }
  }

  /** The second loop. */
  method Sweep(entries: seq<Target>, es: seq<Event>) returns (weightedTotal: real, ghost ws: seq<real>)
    requires IsSchedule(entries, es)
    modifies entries
    ensures IsSplit(entries, Times(es), ws)
    ensures forall t :: t in entries ==> IsWeighted(t, Times(es), ws)
    ensures weightedTotal == Busy(entries, Times(es), |ws|)
  {
    weightedTotal := 0.0;
    var running: map<Target, real> := map[];
    var lastTime, lastWeightedTime := es[0].Time(), 0.0;
    ghost var ps := Times(es);
    ws := SplitExists(entries, ps);
    AllOrNoneDone(entries, {}, ps, ws);
    for k := 0 to |es|
      invariant Tracks(entries, es, k, running) && HasTotals(es, k, running, ws)
      invariant lastTime == es[Previous(k)].Time() && lastWeightedTime == Weight(ws, Previous(k))
      invariant forall t :: t in Done(es, k) ==> IsWeighted(t, ps, ws)
      invariant weightedTotal == DoneShares(entries, Done(es, k), ps, ws)
    {
      var time, target := es[k].Time(), es[k].target;
      var numRunning := |running|;
      NextTotal(entries, es, ws, k, running);
      if numRunning > 0 {
        lastWeightedTime := lastWeightedTime + (time - lastTime) / (numRunning as real);
      }
      assert lastWeightedTime == Weight(ws, k);
      if !es[k].stop {
        StartStep(entries, es, k, running, lastWeightedTime);
        StartTotals(es, k, running, ws);
        running := running[target := lastWeightedTime];
      } else {
        AtStop(entries, es, ws, k, running);
        var weightedDuration := lastWeightedTime - running[target];
        SetWeightedDuration(target, weightedDuration, Done(es, k), ps, ws);
        weightedTotal := weightedTotal + weightedDuration;
        running := running - {target};
      }
      lastTime := time;
    }
    NoneLeft(entries, es, running);
    assert |running| == 0;
    AtEnd(entries, es, ws);
  }

  // ---- the report's sums -------------------------------------------------------------------------

  /** `lo` is the least start and `hi` the greatest end. */
  ghost predicate IsSpan(ts: seq<Target>, lo: real, hi: real) {
    && (forall t :: t in ts ==> lo <= t.start && t.end <= hi)
    && (exists t :: t in ts && t.start == lo) && (exists t :: t in ts && t.end == hi)
  }

  /** The first loop: collect the events, and the span of the whole build. */
  method CollectEvents(entries: seq<Target>) returns (events: seq<Event>, earliest: real, latest: real)
    requires forall t :: t in entries ==> 0.0 <= t.start <= t.end
    ensures events == EventsOf(entries)
    ensures entries != [] ==> IsSpan(entries, earliest, latest)
  {
    events := [];
    earliest, latest := -1.0, 0.0;
    for n := 0 to |entries|
      invariant events == EventsOf(entries[..n])
      invariant if n == 0 then earliest == -1.0 && latest == 0.0 else IsSpan(entries[..n], earliest, latest)
    {
      var target := entries[n];
      assert entries[..n + 1] == entries[..n] + [target];
      if earliest < 0.0 || target.start < earliest {
        earliest := target.start;
      }
      if target.end > latest {
        latest := target.end;
      }
      events := events + [Event(false, target), Event(true, target)];
    }
    assert entries[..|entries|] == entries;
  }

  /** The first and the last event are the ends of the span. */
  lemma SpanOfGrid(ts: seq<Target>, es: seq<Event>, lo: real, hi: real)
    requires IsSchedule(ts, es) && IsSpan(ts, lo, hi)
    ensures Times(es)[0] == lo && Times(es)[|es| - 1] == hi
  {
    TimesOrdered(es);
    var ps := Times(es);
    var t :| t in ts && t.start == lo;
    var i, j := EventIndices(ts, es, t);
    var t' :| t' in ts && t'.end == hi;
    var i', j' := EventIndices(ts, es, t');
    assert ps[0] <= ps[i] && ps[j'] <= ps[|es| - 1];
    assert es[0] in es && es[|es| - 1] in es;
    assert IsScheduled(es, es[0].target) && IsScheduled(es, es[|es| - 1].target);
  }

  /** Every step is given its even share of the wall time, at most its own duration; together the
      shares are the measure of the time in which anything runs, which falls short of the length of the
      build by the time in which nothing does. A stop always finds its step running, and in the end
      none is left. */
  method SummarizeEntries(entries: seq<Target>)
    returns (length: real, weightedTotal: real, ghost ps: seq<real>, ghost ws: seq<real>)
    requires entries != [] && Distinct(entries)
    requires forall t :: t in entries ==> 0.0 <= t.start <= t.end
    modifies entries
    ensures IsGrid(entries, ps) && IsSplit(entries, ps, ws)
    ensures forall t :: t in entries ==> IsWeighted(t, ps, ws)
    ensures weightedTotal == Busy(entries, ps, |ws|)
    ensures IsSpan(entries, ps[0], ps[|ws|]) && length == ps[|ws|] - ps[0]
    ensures length == weightedTotal + Idle(entries, ps, |ws|)
  {
    var events, earliest, latest := CollectEvents(entries);
    length := latest - earliest;
    var sorted := SortEvents(events);
    SortedIsSchedule(entries);
    weightedTotal, ws := Sweep(entries, sorted);
    ps := Times(sorted);
    ScheduleIsGrid(entries, sorted);
    SpanOfGrid(entries, sorted, earliest, latest);
    BusyPlusIdle(entries, ps, |ws|);
  }
}
