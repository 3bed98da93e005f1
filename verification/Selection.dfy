/**
 Choosing a payload from a sink that keeps receiving: the newest batch with exactly the
 expected counts, otherwise the richest one, retried until a deadline.
 Models SelectMetricSet and its retry loop in common.go, and the two-pass selector with
 its two retry loops in metricassert.go. The environment is explicit: which batches arrive
 before each read of the sink, and how time passes at each use of the clock.
 */
module Selection {
  import opened Pdata

  /** The target metric and the counts asked for. */
  datatype Query = Query(target: string, wantResources: int, wantMetrics: int)

  predicate Contains(p: Batch, name: string) {
    exists n :: 0 <= n < MetricCount(p) && Flat(p)[n].name == name
  }

  predicate IsExact(p: Batch, q: Query) {
    Contains(p, q.target) && |p.resources| == q.wantResources && MetricCount(p) == q.wantMetrics
  }

  predicate HasExact(batches: seq<Batch>, q: Query) {
    exists h :: 0 <= h < |batches| && IsExact(batches[h], q)
  }

  /** `h` is the newest exact batch, or -1 when there is none. */
  ghost predicate IsNewestExact(batches: seq<Batch>, q: Query, h: int) {
    && -1 <= h < |batches|
    && (h >= 0 ==> IsExact(batches[h], q))
    && (forall k :: 0 <= k < |batches| && h < k ==> !IsExact(batches[k], q))
  }

  /** `h` is the batch with the target and the most metrics, the newest of them, or -1 when none has the target. */
  ghost predicate IsRichest(batches: seq<Batch>, target: string, h: int) {
    && -1 <= h < |batches|
    && (h >= 0 ==> Contains(batches[h], target))
    && (forall k :: 0 <= k < |batches| && Contains(batches[k], target) ==>
          h >= 0 && MetricCount(batches[k]) <= MetricCount(batches[h])
          && (MetricCount(batches[k]) == MetricCount(batches[h]) ==> k <= h))
  }

  /** What SelectMetricSet returns on a snapshot: its index and whether it is exact. */
  ghost predicate IsSelection(batches: seq<Batch>, q: Query, h: int, exact: bool) {
    if exact then h >= 0 && IsNewestExact(batches, q, h)
    else IsNewestExact(batches, q, -1) && IsRichest(batches, q.target, h)
  }

  /** The outcome is determined: the fused selector and the two passes can only agree. */
  lemma SelectionIsDetermined(batches: seq<Batch>, q: Query, h: int, exact: bool, newest: int, richest: int)
    requires IsSelection(batches, q, h, exact)
    requires IsNewestExact(batches, q, newest) && IsRichest(batches, q.target, richest)
    ensures exact <==> newest >= 0
    ensures h == if newest >= 0 then newest else richest
    ensures exact <==> HasExact(batches, q)
  {
    if !exact && h >= 0 && richest >= 0 {
      assert Contains(batches[h], q.target) && Contains(batches[richest], q.target);
    }
  }

  method ContainsMetric(p: Batch, name: string) returns (found: bool)
    ensures found <==> Contains(p, name)
  {
    ghost var n := 0;
    for i := 0 to |p.resources|
      invariant n == ResourceOffset(p.resources, i)
      invariant forall x :: 0 <= x < n && x < MetricCount(p) ==> Flat(p)[x].name != name
    {
      var scopes := p.resources[i].scopes;
      ghost var start := n;
      for j := 0 to |scopes|
        invariant n == start + ScopeOffset(scopes, j)
        invariant forall x :: 0 <= x < n && x < MetricCount(p) ==> Flat(p)[x].name != name
      {
        for k := 0 to |scopes[j].metrics|
          invariant n == start + ScopeOffset(scopes, j) + k
          invariant forall x :: 0 <= x < n && x < MetricCount(p) ==> Flat(p)[x].name != name
        {
          MetricAt(p, i, j, k);
          if scopes[j].metrics[k].name == name {
            return true;
          }
          n := n + 1;
        }
      }
      ScopesEnd(scopes);
    }
    ResourcesEnd(p.resources);
    return false;
  }

  /** The newest exact batch, or -1. */
  function Newest(batches: seq<Batch>, q: Query): int {
    if batches == [] then -1
    else if IsExact(batches[|batches| - 1], q) then |batches| - 1
    else Newest(batches[..|batches| - 1], q)
  }

  lemma {:induction false} NewestIs(batches: seq<Batch>, q: Query)
    ensures IsNewestExact(batches, q, Newest(batches, q))
  {
    if batches != [] {
      NewestIs(batches[..|batches| - 1], q);
    }
  }

  /** There is only one newest exact batch. */
  lemma NewestOnly(batches: seq<Batch>, q: Query, h: int)
    requires IsNewestExact(batches, q, h)
    ensures h == Newest(batches, q) && (h >= 0 <==> HasExact(batches, q))
  {
    NewestIs(batches, q);
  }

  lemma {:induction false} InSomeScope(scopes: seq<ScopeMetrics<MetricView>>, m: MetricView)
    requires m in ScopesFlat(scopes)
    ensures exists j, k :: 0 <= j < |scopes| && 0 <= k < |scopes[j].metrics| && scopes[j].metrics[k] == m
  {
    if m in scopes[0].metrics {
      var k :| 0 <= k < |scopes[0].metrics| && scopes[0].metrics[k] == m;
    } else {
      InSomeScope(scopes[1..], m);
      var j, k :| 0 <= j < |scopes[1..]| && 0 <= k < |scopes[1..][j].metrics| && scopes[1..][j].metrics[k] == m;
      assert scopes[j + 1] == scopes[1..][j];
    }
  }

  lemma {:induction false} InSomeResource(resources: seq<ResourceMetrics<MetricView>>, m: MetricView)
    requires m in ResourcesFlat(resources)
    ensures exists i, j, k :: 0 <= i < |resources| && 0 <= j < |resources[i].scopes| && 0 <= k < |resources[i].scopes[j].metrics|
              && resources[i].scopes[j].metrics[k] == m
  {
    if m in ScopesFlat(resources[0].scopes) {
      InSomeScope(resources[0].scopes, m);
    } else {
      InSomeResource(resources[1..], m);
      var i, j, k :| 0 <= i < |resources[1..]| && 0 <= j < |resources[1..][i].scopes| && 0 <= k < |resources[1..][i].scopes[j].metrics|
                     && resources[1..][i].scopes[j].metrics[k] == m;
      assert resources[i + 1] == resources[1..][i];
    }
  }

  /** Some metric of the tree has the name. */
  ghost predicate HasMetric(p: Batch, name: string) {
    exists i, j, k :: 0 <= i < |p.resources| && 0 <= j < |p.resources[i].scopes| && 0 <= k < |p.resources[i].scopes[j].metrics|
      && p.resources[i].scopes[j].metrics[k].name == name
  }

  /** An exact batch has the target somewhere in its tree, and both counts as asked for. */
  lemma ExactExactly(p: Batch, q: Query)
    ensures Contains(p, q.target) <==> HasMetric(p, q.target)
    ensures IsExact(p, q) <==>
              HasMetric(p, q.target) && |p.resources| == q.wantResources && MetricCount(p) == q.wantMetrics
    ensures MetricCount(p) == ResourceOffset(p.resources, |p.resources|)
  {
    if Contains(p, q.target) {
      var n :| 0 <= n < MetricCount(p) && Flat(p)[n].name == q.target;
      InSomeResource(p.resources, Flat(p)[n]);
    }
    if i, j, k :| 0 <= i < |p.resources| && 0 <= j < |p.resources[i].scopes| && 0 <= k < |p.resources[i].scopes[j].metrics|
                  && p.resources[i].scopes[j].metrics[k].name == q.target {
      MetricAt(p, i, j, k);
    }
    ResourcesEnd(p.resources);
  }

  // ---------- the sink ----------

  /** What the sink holds at each read, counted from 1: every interleaving of arrivals and reads is one such function. */
  type Contents = int -> seq<Batch>

  /** Batches only arrive. */
  ghost predicate Growing(held: Contents) {
    forall m, n :: m <= n ==> Extends(held, m, n)
  }

  predicate Extends(held: Contents, m: int, n: int) {
    held(m) <= held(n)
  }

  /** The read with which the single-pass selector's attempt number `i` begins, less one. */
  function AttemptAt(held: Contents, from: int, i: int): int {
    if i <= 1 then from else var r := AttemptAt(held, from, i - 1); r + 1 + |held(r + 1)|
  }

  /** The snapshot of attempt number `i`, counted from 1, when the earlier ones were misses. */
  function Snapshot(held: Contents, from: int, i: int): seq<Batch> {
    held(AttemptAt(held, from, i) + 1)
  }

  lemma ExactStays(s: seq<Batch>, t: seq<Batch>, q: Query)
    requires s <= t && HasExact(s, q)
    ensures HasExact(t, q)
  {
    var h :| 0 <= h < |s| && IsExact(s[h], q);
    assert t[h] == s[h];
  }

  /** The sink. `readCount` counts how often it was read. */
  class MetricsSink {
    const held: Contents
    var readCount: nat
    var batches: seq<Batch>

    ghost predicate Valid()
      reads this
    {
      batches == held(readCount)
    }

    constructor (held: Contents)
      ensures Valid() && this.held == held && readCount == 0
    {
      this.held, readCount, batches := held, 0, held(0);
    }

    method AllMetrics() returns (all: seq<Batch>)
      requires Valid()
      modifies this
      ensures Valid() && readCount == old(readCount) + 1 && all == batches
    {
      readCount := readCount + 1;
      batches := held(readCount);
      all := batches;
    }
  }

  // ---------- the clock ----------

  /** Time passes at each use of the clock: `delays` says how much, and a sleep lasts at least its interval, and some time. */
  class Clock {
    const delays: seq<nat>
    var steps: nat
    var time: int

    constructor (delays: seq<nat>)
      ensures this.delays == delays && steps == 0 && time == 0
    {
      this.delays, steps, time := delays, 0, 0;
    }

    method Now() returns (t: int)
      modifies this
      ensures steps == old(steps) + 1 && t == time == old(time) + Delay(delays, old(steps))
    {
      time := time + Delay(delays, steps);
      steps := steps + 1;
      t := time;
    }

    method Sleep(interval: int)
      modifies this
      ensures steps == old(steps) + 1 && time == old(time) + Pause(interval) + Delay(delays, old(steps))
    {
      time := time + Pause(interval) + Delay(delays, steps);
      steps := steps + 1;
    }

    ghost function PaceOf(timeout: int, interval: int): Pace
      reads this
    {
      Pace(delays, steps, time, timeout, interval)
    }
  }

  /** How much time passes at one use of the clock; after the script, none. */
  function Delay(delays: seq<nat>, n: int): nat {
    if 0 <= n < |delays| then delays[n] else 0
  }

  function Pause(interval: int): int {
    if interval > 0 then interval else 1
  }

  /** A retry loop started at this step and time: how time passes while it reads, tests and sleeps. */
  datatype Pace = Pace(delays: seq<nat>, step: nat, time: int, timeout: int, interval: int) {
    /** The clock at loop test number `i`; number 0 is the reading the deadline is set from. */
    function Test(i: int): int {
      if i <= 0 then time + Delay(delays, step)
      else if i == 1 then Test(0) + Delay(delays, step + 1)
      else Test(i - 1) + Pause(interval) + Delay(delays, step + 2 * i - 2) + Delay(delays, step + 2 * i - 1)
    }

    predicate InTime(i: int) {
      Test(i) < Test(0) + timeout
    }

    /** The clock at loop test number `i`. */
    function At(i: int): Pace {
      this.(step := if i < 0 then step else step + 2 * i, time := Test(i))
    }
  }

  /** Sets the deadline and reads the clock for the first test. */
  method StartLoop(clock: Clock, timeout: int, interval: int) returns (deadline: int, now: int)
    modifies clock
    ensures var pace := old(clock.PaceOf(timeout, interval));
            clock.PaceOf(timeout, interval) == pace.At(1) && now == pace.Test(1) && deadline == pace.Test(0) + timeout
  {
    ghost var pace := clock.PaceOf(timeout, interval);
    var start := clock.Now();
    deadline := start + timeout;
    now := clock.Now();
    assert pace.Test(1) == pace.Test(0) + Delay(pace.delays, pace.step + 1);
  }

  /** Sleeps and reads the clock for the next test. */
  method NextTest(clock: Clock, interval: int, ghost pace: Pace, ghost i: int) returns (now: int)
    requires i > 0 && clock.PaceOf(pace.timeout, interval) == pace.At(i)
    modifies clock
    ensures clock.PaceOf(pace.timeout, interval) == pace.At(i + 1) && now == pace.Test(i + 1) > old(clock.time)
  {
    clock.Sleep(interval);
    now := clock.Now();
  }

  /** Two tests are at least an interval apart, and never at the same time. */
  lemma TestsApart(pace: Pace, i: int)
    requires i >= 1
    ensures pace.Test(i + 1) > pace.Test(i) && pace.Test(i + 1) >= pace.Test(i) + pace.interval
  {
  }

  lemma {:induction false} TestsFarApart(pace: Pace, i: int)
    requires i >= 1
    ensures pace.Test(i) >= pace.Test(0) + (i - 1) * pace.interval
  {
    if i > 1 {
      TestsFarApart(pace, i - 1);
      TestsApart(pace, i - 1);
      assert (i - 1) * pace.interval == (i - 2) * pace.interval + pace.interval;
    }
  }

  /** A loop makes no more rounds in time than its intervals fit into the timeout. */
  lemma RoundsFitTimeout(miss: int -> bool, pace: Pace, n: int)
    requires AllMissed(miss, pace, n) && n >= 1
    ensures (n - 1) * pace.interval < pace.timeout
  {
    TestsFarApart(pace, n);
  }

  /** The first `n` rounds of a loop were made in time and missed. */
  ghost predicate AllMissed(miss: int -> bool, pace: Pace, n: int) {
    n <= 0 || (pace.InTime(n) && miss(n) && AllMissed(miss, pace, n - 1))
  }

  lemma AllMissedNext(miss: int -> bool, pace: Pace, n: int)
    requires AllMissed(miss, pace, n - 1) && pace.InTime(n) && miss(n)
    ensures AllMissed(miss, pace, n)
  {
  }

  lemma {:induction false} AllMissedOne(miss: int -> bool, pace: Pace, n: int, i: int)
    requires AllMissed(miss, pace, n) && 0 < i <= n
    ensures pace.InTime(i) && miss(i)
  {
    if i < n {
      AllMissedOne(miss, pace, n - 1, i);
    }
  }

  // ---------- one selection ----------

  /** `best` is the richest batch after index `h`, with `count` metrics; both are -1 when there is none. */
  ghost predicate IsRichestAbove(batches: seq<Batch>, target: string, h: int, best: int, count: int) {
    && -1 <= best < |batches| && (best == -1 ==> count == -1)
    && (best >= 0 ==> h < best && Contains(batches[best], target) && MetricCount(batches[best]) == count)
    && (forall k :: 0 <= k < |batches| && h < k && Contains(batches[k], target) ==>
          best >= 0 && MetricCount(batches[k]) <= count && (MetricCount(batches[k]) == count ==> k <= best))
  }

  /** The body of the single-pass loop: an exact batch, or the new fallback. */
  method ConsiderBatch(m: Batch, q: Query, h: int, fallback: int, fallbackCount: int) returns (exact: bool, best: int, count: int)
    ensures exact <==> IsExact(m, q)
    ensures !exact ==> (best, count) == if Contains(m, q.target) && MetricCount(m) > fallbackCount then (h, MetricCount(m)) else (fallback, fallbackCount)
  {
    exact, best, count := false, fallback, fallbackCount;
    var contains := ContainsMetric(m, q.target);
    if !contains {
      return;
    }
    if |m.resources| == q.wantResources && MetricCount(m) == q.wantMetrics {
      exact := true;
      return;
    }
    if MetricCount(m) > fallbackCount {
      best, count := h, MetricCount(m);
    }
  }

  /**
   The single-pass selector. It reads the sink once for the length and again for every index;
   the result is the one for the first of these reads, and arrivals during the scan do not show.
   */
  method SelectMetricSet(sink: MetricsSink, q: Query) returns (selected: int, exact: bool)
    requires Growing(sink.held)
    requires sink.Valid()
    modifies sink
    ensures sink.Valid()
    ensures var snapshot := sink.held(old(sink.readCount) + 1);
            && IsSelection(snapshot, q, selected, exact)
            && sink.readCount == old(sink.readCount) + 1 + |snapshot| - (if exact then selected else 0)
  {
    var fallback, fallbackCount: int := -1, -1;
    var all := sink.AllMetrics();
    ghost var snapshot := all;
    var h := |all| - 1;
    exact := false;
    while h >= 0
      invariant sink.Valid() && sink.readCount == old(sink.readCount) + 1 + (|snapshot| - 1 - h) && -1 <= h < |snapshot|
      invariant forall k :: h < k < |snapshot| ==> !IsExact(snapshot[k], q)
      invariant IsRichestAbove(snapshot, q.target, h, fallback, fallbackCount)
    {
      var now := sink.AllMetrics();
      assert Extends(sink.held, old(sink.readCount) + 1, sink.readCount);
      assert now[h] == snapshot[h];
      exact, fallback, fallbackCount := ConsiderBatch(now[h], q, h, fallback, fallbackCount);
      if exact {
        return h, true;
      }
      h := h - 1;
    }
    return fallback, false;
  }

  method SelectMetricSetByCounts(sink: MetricsSink, q: Query) returns (selected: int)
    requires sink.Valid()
    modifies sink
    ensures sink.Valid() && sink.readCount == old(sink.readCount) + 1
    ensures IsNewestExact(sink.held(sink.readCount), q, selected)
  {
    var metrics := sink.AllMetrics();
    var h := |metrics| - 1;
    while h >= 0
      invariant -1 <= h < |metrics| && metrics == sink.batches == sink.held(sink.readCount)
      invariant sink.readCount == old(sink.readCount) + 1
      invariant forall k :: h < k < |metrics| ==> !IsExact(metrics[k], q)
    {
      var contains := ContainsMetric(metrics[h], q.target);
      if contains && |metrics[h].resources| == q.wantResources && MetricCount(metrics[h]) == q.wantMetrics {
        return h;
      }
      h := h - 1;
    }
    return -1;
  }

  method RichestMetricSet(sink: MetricsSink, target: string) returns (selected: int)
    requires sink.Valid()
    modifies sink
    ensures sink.Valid() && sink.readCount == old(sink.readCount) + 1
    ensures IsRichest(sink.held(sink.readCount), target, selected)
  {
    var metrics := sink.AllMetrics();
    var bestIndex, bestCount: int := -1, -1;
    var h := |metrics| - 1;
    while h >= 0
      invariant -1 <= h < |metrics| && metrics == sink.batches == sink.held(sink.readCount)
      invariant sink.readCount == old(sink.readCount) + 1
      invariant IsRichestAbove(metrics, target, h, bestIndex, bestCount)
    {
      var contains := ContainsMetric(metrics[h], target);
      if contains && MetricCount(metrics[h]) > bestCount {
        bestIndex, bestCount := h, MetricCount(metrics[h]);
      }
      h := h - 1;
    }
    return bestIndex;
  }

  // ---------- retry with the single-pass selector ----------

  /** Attempt number `i` finds no exact batch. */
  ghost function AttemptMisses(held: Contents, from: int, q: Query): int -> bool {
    (i: int) => Newest(Snapshot(held, from, i), q) < 0
  }

  /**
   A run of SelectMetricSetWithTimeout with this many attempts, from the first read after `from`:
   every attempt but the last was made in time and missed; the last one decides, and is an exact
   match if it was made in time.
   */
  ghost predicate IsTimedSelection(held: Contents, from: int, pace: Pace, attempts: int, q: Query, selected: int, exact: bool) {
    && attempts > 0
    && AllMissed(AttemptMisses(held, from, q), pace, attempts - 1)
    && (pace.InTime(attempts) ==> exact)
    && IsSelection(Snapshot(held, from, attempts), q, selected, exact)
  }

  lemma SelectionFindsNewest(batches: seq<Batch>, q: Query, selected: int, exact: bool)
    requires IsSelection(batches, q, selected, exact)
    ensures exact <==> Newest(batches, q) >= 0
    ensures exact ==> selected == Newest(batches, q)
  {
    NewestOnly(batches, q, if exact then selected else -1);
  }

  /** The outcome of an attempt, and whether the snapshot held an exact batch. */
  lemma SelectionFindsExact(batches: seq<Batch>, q: Query, selected: int, exact: bool)
    requires IsSelection(batches, q, selected, exact)
    ensures exact <==> HasExact(batches, q)
  {
    if HasExact(batches, q) {
      var h :| 0 <= h < |batches| && IsExact(batches[h], q);
    }
  }

  /** Attempt number `i`, made in time: what it finds, and where it leaves the sink. */
  method Attempt(sink: MetricsSink, q: Query, ghost from: int, ghost i: int) returns (selected: int, exact: bool)
    requires Growing(sink.held)
    requires sink.Valid() && sink.readCount == AttemptAt(sink.held, from, i) && i > 0
    modifies sink
    ensures sink.Valid()
    ensures exact <==> Newest(Snapshot(sink.held, from, i), q) >= 0
    ensures exact ==> selected == Newest(Snapshot(sink.held, from, i), q)
    ensures sink.readCount == AttemptAt(sink.held, from, i + 1) - (if exact then selected else 0)
  {
    selected, exact := SelectMetricSet(sink, q);
    NewestOnly(Snapshot(sink.held, from, i), q, if exact then selected else -1);
  }

  /** The attempts before the deadline. */
  method AttemptInTime(sink: MetricsSink, clock: Clock, q: Query, timeout: int, interval: int)
    returns (selected: int, exact: bool, ghost attempts: int)
    requires Growing(sink.held)
    requires sink.Valid()
    modifies sink, clock
    ensures sink.Valid() && attempts > 0 && clock.PaceOf(timeout, interval) == old(clock.PaceOf(timeout, interval)).At(attempts)
    ensures AllMissed(AttemptMisses(sink.held, old(sink.readCount), q), old(clock.PaceOf(timeout, interval)), attempts - 1)
    ensures exact <==> old(clock.PaceOf(timeout, interval)).InTime(attempts)
    ensures exact ==> selected == Newest(Snapshot(sink.held, old(sink.readCount), attempts), q) >= 0
    ensures sink.readCount == if exact then AttemptAt(sink.held, old(sink.readCount), attempts + 1) - selected
                              else AttemptAt(sink.held, old(sink.readCount), attempts)
  {
    ghost var held, from, pace := sink.held, sink.readCount, clock.PaceOf(timeout, interval);
    var deadline, now := StartLoop(clock, timeout, interval);
    attempts, selected, exact := 1, -1, false;
    while now < deadline
      invariant attempts > 0 && clock.PaceOf(timeout, interval) == pace.At(attempts) && now == pace.Test(attempts) && !exact
      invariant sink.Valid() && sink.readCount == AttemptAt(held, from, attempts)
      invariant AllMissed(AttemptMisses(held, from, q), pace, attempts - 1)
      decreases deadline - now
    {
      selected, exact := Attempt(sink, q, from, attempts);
      if exact {
        break;
      }
      AllMissedNext(AttemptMisses(held, from, q), pace, attempts);
      now := NextTest(clock, interval, pace, attempts);
      attempts := attempts + 1;
    }
  }

  /** Attempt number `i`, made after the deadline. */
  method LastAttempt(sink: MetricsSink, q: Query, ghost from: int, ghost i: int) returns (selected: int, exact: bool)
    requires Growing(sink.held)
    requires sink.Valid() && sink.readCount == AttemptAt(sink.held, from, i) && i > 0
    modifies sink
    ensures sink.Valid() && IsSelection(Snapshot(sink.held, from, i), q, selected, exact)
    ensures sink.readCount == AttemptAt(sink.held, from, i + 1) - (if exact then selected else 0)
  {
    selected, exact := SelectMetricSet(sink, q);
  }

  /** The newest exact batch, found in time, is the outcome. */
  lemma EndsInTime(held: Contents, from: int, pace: Pace, attempts: int, q: Query)
    requires attempts > 0 && AllMissed(AttemptMisses(held, from, q), pace, attempts - 1)
    requires Newest(Snapshot(held, from, attempts), q) >= 0
    ensures IsTimedSelection(held, from, pace, attempts, q, Newest(Snapshot(held, from, attempts), q), true)
  {
    NewestIs(Snapshot(held, from, attempts), q);
  }

  /**
   Retries the single-pass selector, with a last attempt after the deadline. `selected` is -1
   where the program stops the test because no batch has the target.
   */
  method SelectMetricSetWithTimeout(sink: MetricsSink, clock: Clock, q: Query, timeout: int, interval: int)
    returns (selected: int, exact: bool, ghost attempts: int)
    requires Growing(sink.held)
    requires sink.Valid()
    modifies sink, clock
    ensures IsTimedSelection(sink.held, old(sink.readCount), old(clock.PaceOf(timeout, interval)), attempts, q, selected, exact)
    ensures clock.PaceOf(timeout, interval) == old(clock.PaceOf(timeout, interval)).At(attempts)
    ensures sink.Valid()
    ensures sink.readCount == AttemptAt(sink.held, old(sink.readCount), attempts + 1) - (if exact then selected else 0)
  {
    ghost var from := sink.readCount;
    selected, exact, attempts := AttemptInTime(sink, clock, q, timeout, interval);
    if exact {
      EndsInTime(sink.held, from, old(clock.PaceOf(timeout, interval)), attempts, q);
    } else {
      selected, exact := LastAttempt(sink, q, from, attempts);
    }
  }

  /**
   Over every run: an exact match is reported if and only if the deciding snapshot holds an exact
   batch. No match means that the deadline has passed, that no read before held an exact batch
   either, not even one made in the middle of a scan, and that the fallback is the richest batch.
   */
  lemma TimedSelectionIsHonest(held: Contents, from: int, pace: Pace, attempts: int, q: Query, selected: int, exact: bool)
    requires Growing(held) && IsTimedSelection(held, from, pace, attempts, q, selected, exact)
    ensures var last := Snapshot(held, from, attempts);
            && (exact <==> HasExact(last, q))
            && (exact ==> (0 <= selected < |last| && IsExact(last[selected], q)
                  && |last[selected].resources| == q.wantResources && MetricCount(last[selected]) == q.wantMetrics))
            && (!exact ==> !pace.InTime(attempts) && IsRichest(last, q.target, selected))
    ensures !exact ==> forall k :: from < k <= AttemptAt(held, from, attempts) + 1 ==> !HasExact(held(k), q)
  {
    var at := AttemptAt(held, from, attempts) + 1;
    SelectionFindsExact(held(at), q, selected, exact);
    forall k | from < k <= at && HasExact(held(k), q) ensures HasExact(held(at), q) {
      assert Extends(held, k, at);
      ExactStays(held(k), held(at), q);
    }
  }

  /** The run is determined by what arrives and how time passes. */
  lemma TimedSelectionIsDetermined(held: Contents, from: int, pace: Pace, q: Query,
    m: int, selectedM: int, exactM: bool, n: int, selectedN: int, exactN: bool)
    requires IsTimedSelection(held, from, pace, m, q, selectedM, exactM)
    requires IsTimedSelection(held, from, pace, n, q, selectedN, exactN)
    ensures m == n && selectedM == selectedN && exactM == exactN
  {
    SelectionFindsNewest(Snapshot(held, from, m), q, selectedM, exactM);
    SelectionFindsNewest(Snapshot(held, from, n), q, selectedN, exactN);
    if m < n {
      AllMissedOne(AttemptMisses(held, from, q), pace, n - 1, m);
    } else if n < m {
      AllMissedOne(AttemptMisses(held, from, q), pace, m - 1, n);
    }
    SameRichest(Snapshot(held, from, n), q.target, selectedM, selectedN);
  }

  lemma SameRichest(batches: seq<Batch>, target: string, g: int, h: int)
    ensures IsRichest(batches, target, g) && IsRichest(batches, target, h) ==> g == h
  {
    if IsRichest(batches, target, g) && IsRichest(batches, target, h) && g >= 0 && h >= 0 {
      assert Contains(batches[g], target) && Contains(batches[h], target);
    }
  }

  // ---------- retry with the two passes ----------

  /** Poll number `i` finds no exact batch. */
  ghost function PollMisses(held: Contents, from: int, q: Query): int -> bool {
    (i: int) => Newest(held(from + i), q) < 0
  }

  /**
   A run of selectMetricSetByCountsWithTimeout with this many reads after `from`: every read but
   the last was a poll made in time that found no exact batch. The last read is a poll that finds
   one if it was made in time, and else the fallback.
   */
  ghost predicate IsTimedByCounts(held: Contents, from: int, pace: Pace, rounds: int, q: Query, selected: int, exact: bool) {
    && rounds > 0
    && AllMissed(PollMisses(held, from, q), pace, rounds - 1)
    && (exact <==> pace.InTime(rounds))
    && if exact then selected >= 0 && IsNewestExact(held(from + rounds), q, selected)
       else IsRichest(held(from + rounds), q.target, selected)
  }

  /** Poll number `i` of that loop. */
  method PollCounts(sink: MetricsSink, q: Query, ghost from: int, ghost i: int) returns (selected: int)
    requires sink.Valid() && sink.readCount == from + i - 1
    modifies sink
    ensures sink.Valid() && sink.readCount == from + i
    ensures selected == Newest(sink.held(from + i), q)
  {
    selected := SelectMetricSetByCounts(sink, q);
    NewestOnly(sink.held(from + i), q, selected);
  }

  /** The polls of that loop. */
  method PollByCounts(sink: MetricsSink, clock: Clock, q: Query, timeout: int, interval: int)
    returns (selected: int, ghost rounds: int)
    requires sink.Valid()
    modifies sink, clock
    ensures sink.Valid() && rounds > 0 && clock.PaceOf(timeout, interval) == old(clock.PaceOf(timeout, interval)).At(rounds)
    ensures AllMissed(PollMisses(sink.held, old(sink.readCount), q), old(clock.PaceOf(timeout, interval)), rounds - 1)
    ensures selected >= 0 <==> old(clock.PaceOf(timeout, interval)).InTime(rounds)
    ensures selected >= 0 ==> selected == Newest(sink.held(old(sink.readCount) + rounds), q)
    ensures sink.readCount == old(sink.readCount) + rounds - if selected >= 0 then 0 else 1
  {
    ghost var held, from, pace := sink.held, sink.readCount, clock.PaceOf(timeout, interval);
    var deadline, now := StartLoop(clock, timeout, interval);
    rounds, selected := 1, -1;
    while now < deadline
      invariant rounds > 0 && clock.PaceOf(timeout, interval) == pace.At(rounds) && now == pace.Test(rounds) && selected < 0
      invariant sink.Valid() && sink.readCount == from + rounds - 1
      invariant AllMissed(PollMisses(held, from, q), pace, rounds - 1)
      decreases deadline - now
    {
      selected := PollCounts(sink, q, from, rounds);
      if selected >= 0 {
        break;
      }
      AllMissedNext(PollMisses(held, from, q), pace, rounds);
      now := NextTest(clock, interval, pace, rounds);
      rounds := rounds + 1;
    }
  }

  method SelectMetricSetByCountsWithTimeout(sink: MetricsSink, clock: Clock, q: Query, timeout: int, interval: int)
    returns (selected: int, exact: bool, ghost rounds: int)
    requires sink.Valid()
    modifies sink, clock
    ensures IsTimedByCounts(sink.held, old(sink.readCount), old(clock.PaceOf(timeout, interval)), rounds, q, selected, exact)
    ensures clock.PaceOf(timeout, interval) == old(clock.PaceOf(timeout, interval)).At(rounds)
    ensures sink.Valid() && sink.readCount == old(sink.readCount) + rounds
  {
    selected, rounds := PollByCounts(sink, clock, q, timeout, interval);
    NewestIs(sink.held(old(sink.readCount) + rounds), q);
    exact := selected >= 0;
    if !exact {
      selected := RichestMetricSet(sink, q.target);
    }
  }

  /**
   Over every run: an exact batch is reported only if a poll in time finds one. A fallback means
   that the deadline has passed and that no poll held an exact batch; it has at least as many
   metrics as any batch with the target in the final snapshot.
   */
  lemma TimedByCountsIsHonest(held: Contents, from: int, pace: Pace, rounds: int, q: Query, selected: int, exact: bool)
    requires Growing(held) && IsTimedByCounts(held, from, pace, rounds, q, selected, exact)
    ensures var last := held(from + rounds);
            && (exact ==> (0 <= selected < |last| && IsExact(last[selected], q) && pace.InTime(rounds)
                  && |last[selected].resources| == q.wantResources && MetricCount(last[selected]) == q.wantMetrics))
            && (!exact ==> !pace.InTime(rounds) && IsRichest(last, q.target, selected))
            && (HasExact(last, q) ==> selected >= 0 && q.wantMetrics <= MetricCount(last[selected]))
    ensures forall k :: from < k < from + rounds ==> !HasExact(held(k), q) && held(k) <= held(from + rounds)
  {
    var last := held(from + rounds);
    if HasExact(last, q) {
      var h :| 0 <= h < |last| && IsExact(last[h], q);
      assert Contains(last[h], q.target);
    }
    forall k | from < k < from + rounds ensures !HasExact(held(k), q) && held(k) <= last {
      AllMissedOne(PollMisses(held, from, q), pace, rounds - 1, k - from);
      NewestIs(held(k), q);
      assert Extends(held, k, from + rounds);
    }
  }

  /** The run is determined by what arrives and how time passes. */
  lemma TimedByCountsIsDetermined(held: Contents, from: int, pace: Pace, q: Query,
    m: int, selectedM: int, exactM: bool, n: int, selectedN: int, exactN: bool)
    requires IsTimedByCounts(held, from, pace, m, q, selectedM, exactM)
    requires IsTimedByCounts(held, from, pace, n, q, selectedN, exactN)
    ensures m == n && selectedM == selectedN && exactM == exactN
  {
    if exactM {
      NewestOnly(held(from + m), q, selectedM);
    }
    if exactN {
      NewestOnly(held(from + n), q, selectedN);
    }
    if m < n {
      AllMissedOne(PollMisses(held, from, q), pace, n - 1, m);
    } else if n < m {
      AllMissedOne(PollMisses(held, from, q), pace, m - 1, n);
    }
    SameRichest(held(from + n), q.target, selectedM, selectedN);
  }

  /**
   This loop makes no exact attempt after its deadline. A fallback passes over an exact batch of
   the final snapshot exactly when one arrived after the last poll.
   */
  lemma LateArrivalIsMissed(held: Contents, from: int, pace: Pace, rounds: int, q: Query, selected: int)
    requires Growing(held) && IsTimedByCounts(held, from, pace, rounds, q, selected, false)
    ensures var polled := if rounds == 1 then [] else held(from + rounds - 1);
            && polled <= held(from + rounds)
            && (HasExact(held(from + rounds), q) <==> HasExact(held(from + rounds)[|polled|..], q))
  {
    var last := held(from + rounds);
    var polled := if rounds == 1 then [] else held(from + rounds - 1);
    if rounds > 1 {
      NewestIs(polled, q);
    }
    assert Extends(held, from + rounds - 1, from + rounds);
    forall k | 0 <= k < |polled| ensures !IsExact(last[k], q) {
      assert last[k] == polled[k];
    }
    if HasExact(last, q) {
      var h :| 0 <= h < |last| && IsExact(last[h], q);
      assert last[|polled|..][h - |polled|] == last[h];
    }
  }

  /** A batch of one resource, one scope and the named metrics. */
  function SmallBatch(names: seq<string>): Batch {
    Payload([ResourceMetrics(map[], [ScopeMetrics(map[], seq(|names|, n requires 0 <= n < |names| => MetricView(names[n], Gauge, map[], [])))])])
  }

  /** Nothing before the first read; the exact batch and a larger one before the second. */
  function LateArrivals(): Contents {
    (n: int) => if n < 2 then [] else [SmallBatch(["m"]), SmallBatch(["m", "n"])]
  }

  /** A clock that moves only in sleeps, and a timeout of one interval. */
  function LatePace(): Pace {
    Pace([], 0, 0, 1, 1)
  }

  lemma LatePaceTests()
    ensures LatePace().InTime(1) && !LatePace().InTime(2)
  {
    var pace := LatePace();
    assert pace.Test(0) == 0 && pace.Test(1) == 0 && pace.Test(2) == 1;
  }

  lemma LateArrivalIsRun()
    ensures var q, last := Query("m", 1, 1), LateArrivals()(2);
            && Growing(LateArrivals()) && IsTimedByCounts(LateArrivals(), 0, LatePace(), 2, q, 1, false)
            && |last| == 2 && HasExact(last, q) && !IsExact(last[1], q)
  {
    var q, one, two := Query("m", 1, 1), SmallBatch(["m"]), SmallBatch(["m", "n"]);
    LatePaceTests();
    SmallFlat(["m"]);
    SmallFlat(["m", "n"]);
    assert Flat(one)[0].name == "m" && Flat(two)[0].name == "m";
    assert Contains(one, "m") && Contains(two, "m");
    assert IsExact([one, two][0], q);
    AllMissedNext(PollMisses(LateArrivals(), 0, q), LatePace(), 1);
  }

  /** With that sink and that clock no other run is possible. */
  lemma LateArrivalExample(rounds: int, selected: int, exact: bool)
    requires IsTimedByCounts(LateArrivals(), 0, LatePace(), rounds, Query("m", 1, 1), selected, exact)
    ensures rounds == 2 && selected == 1 && !exact
  {
    LateArrivalIsRun();
    TimedByCountsIsDetermined(LateArrivals(), 0, LatePace(), Query("m", 1, 1), rounds, selected, exact, 2, 1, false);
  }

  /** That run: the fallback is returned although the sink holds an exact batch. */
  method LateArrivalRun() returns (selected: int, exact: bool, held: seq<Batch>)
    ensures selected == 1 && !exact && |held| == 2
    ensures HasExact(held, Query("m", 1, 1)) && !IsExact(held[1], Query("m", 1, 1))
  {
    var sink := new MetricsSink(LateArrivals());
    var clock := new Clock(LatePace().delays);
    ghost var rounds;
    selected, exact, rounds := SelectMetricSetByCountsWithTimeout(sink, clock, Query("m", 1, 1), 1, 1);
    LateArrivalExample(rounds, selected, exact);
    LateArrivalIsRun();
    held := sink.batches;
  }

  lemma SmallFlat(names: seq<string>)
    ensures MetricCount(SmallBatch(names)) == |names|
    ensures forall n :: 0 <= n < |names| ==> Flat(SmallBatch(names))[n].name == names[n]
  {
    var p := SmallBatch(names);
    var scopes := p.resources[0].scopes;
    assert scopes[1..] == [] && p.resources[1..] == [];
    assert ScopesFlat(scopes) == scopes[0].metrics + ScopesFlat([]);
    assert Flat(p) == ScopesFlat(scopes) + ResourcesFlat([]);
  }

  // ---------- retry until an assertion accepts ----------

  /** How the assertion file judges a batch, once it is prepared. */
  type Judge = Batch -> bool

  /** The snapshot has no exact batch, or its newest one fails the assertion. */
  ghost predicate Rejected(batches: seq<Batch>, q: Query, judge: Judge) {
    forall h :: 0 <= h && IsNewestExact(batches, q, h) ==> !judge(batches[h])
  }

  /** The newest exact batch if the assertion accepts it, or -1. */
  function Accepted(batches: seq<Batch>, q: Query, judge: Judge): int {
    var h := Newest(batches, q);
    if 0 <= h < |batches| && judge(batches[h]) then h else -1
  }

  lemma AcceptedIs(batches: seq<Batch>, q: Query, judge: Judge)
    ensures var h := Accepted(batches, q, judge);
            if h >= 0 then IsAcceptedExact(batches, q, judge, h) else Rejected(batches, q, judge)
  {
    NewestIs(batches, q);
    forall h | 0 <= h && IsNewestExact(batches, q, h) ensures h == Newest(batches, q) {
      NewestOnly(batches, q, h);
    }
  }

  /** Poll number `i` is rejected. */
  ghost function PollIsRejected(held: Contents, from: int, q: Query, judge: Judge): int -> bool {
    (i: int) => Accepted(held(from + i), q, judge) < 0
  }

  /** The newest exact batch, which the assertion accepts. */
  ghost predicate IsAcceptedExact(batches: seq<Batch>, q: Query, judge: Judge, h: int) {
    h >= 0 && IsNewestExact(batches, q, h) && judge(batches[h])
  }

  /** The richest batch, and how the assertion judges it; with no batch there is nothing to judge. */
  ghost predicate IsFallback(batches: seq<Batch>, q: Query, judge: Judge, h: int, passed: bool) {
    IsRichest(batches, q.target, h) && (passed <==> h < 0 || judge(batches[h]))
  }

  /**
   A run of selectMetricSetByAssertionWithTimeout with this many reads after `from`; `polled`
   says whether a poll or the fallback decided.
   */
  ghost predicate IsTimedByAssertion(held: Contents, from: int, pace: Pace, rounds: int, q: Query, judge: Judge,
    selected: int, passed: bool, polled: bool)
  {
    && rounds > 0
    && AllMissed(PollIsRejected(held, from, q, judge), pace, rounds - 1)
    && (polled <==> pace.InTime(rounds))
    && var last := held(from + rounds);
       if polled then passed && IsAcceptedExact(last, q, judge, selected)
       else IsFallback(last, q, judge, selected, passed)
  }

  /** Poll number `i` of that loop. */
  method PollAssertion(sink: MetricsSink, q: Query, judge: Judge, ghost from: int, ghost i: int) returns (selected: int, passed: bool)
    requires sink.Valid() && sink.readCount == from + i - 1
    modifies sink
    ensures sink.Valid() && sink.readCount == from + i
    ensures passed <==> Accepted(sink.held(from + i), q, judge) >= 0
    ensures passed ==> selected == Accepted(sink.held(from + i), q, judge)
  {
    selected := SelectMetricSetByCounts(sink, q);
    NewestOnly(sink.batches, q, selected);
    passed := selected >= 0 && judge(sink.batches[selected]);
  }

  /** The polls of that loop. */
  method PollByAssertion(sink: MetricsSink, clock: Clock, q: Query, judge: Judge, timeout: int, interval: int)
     returns (selected: int, passed: bool, ghost rounds: int)
    requires sink.Valid()
    modifies sink, clock
    ensures sink.Valid() && rounds > 0 && clock.PaceOf(timeout, interval) == old(clock.PaceOf(timeout, interval)).At(rounds)
    ensures AllMissed(PollIsRejected(sink.held, old(sink.readCount), q, judge), old(clock.PaceOf(timeout, interval)), rounds - 1)
    ensures passed <==> old(clock.PaceOf(timeout, interval)).InTime(rounds)
    ensures passed ==> selected == Accepted(sink.held(old(sink.readCount) + rounds), q, judge) >= 0
    ensures sink.readCount == old(sink.readCount) + rounds - if passed then 0 else 1
  {
    ghost var held, from, pace := sink.held, sink.readCount, clock.PaceOf(timeout, interval);
    var deadline, now := StartLoop(clock, timeout, interval);
    rounds, selected, passed := 1, -1, false;
    while now < deadline
      invariant rounds > 0 && clock.PaceOf(timeout, interval) == pace.At(rounds) && now == pace.Test(rounds) && !passed
      invariant sink.Valid() && sink.readCount == from + rounds - 1
      invariant AllMissed(PollIsRejected(held, from, q, judge), pace, rounds - 1)
      decreases deadline - now
    {
      selected, passed := PollAssertion(sink, q, judge, from, rounds);
      if passed {
        break;
      }
      AllMissedNext(PollIsRejected(held, from, q, judge), pace, rounds);
      now := NextTest(clock, interval, pace, rounds);
      rounds := rounds + 1;
    }
  }

  /** The fallback after that loop. */
  method JudgeRichest(sink: MetricsSink, q: Query, judge: Judge) returns (selected: int, passed: bool)
    requires sink.Valid()
    modifies sink
    ensures sink.Valid() && sink.readCount == old(sink.readCount) + 1
    ensures IsFallback(sink.held(sink.readCount), q, judge, selected, passed)
  {
    selected := RichestMetricSet(sink, q.target);
    passed := selected < 0 || judge(sink.batches[selected]);
  }

  /** Retries until the newest exact batch passes the assertion, then falls back on the richest. */
  method SelectMetricSetByAssertionWithTimeout(sink: MetricsSink, clock: Clock, q: Query, judge: Judge, timeout: int, interval: int)
    returns (selected: int, passed: bool, ghost polled: bool, ghost rounds: int)
    requires sink.Valid()
    modifies sink, clock
    ensures IsTimedByAssertion(sink.held, old(sink.readCount), old(clock.PaceOf(timeout, interval)), rounds, q, judge,
                               selected, passed, polled)
    ensures clock.PaceOf(timeout, interval) == old(clock.PaceOf(timeout, interval)).At(rounds)
    ensures sink.Valid() && sink.readCount == old(sink.readCount) + rounds
  {
    selected, passed, rounds := PollByAssertion(sink, clock, q, judge, timeout, interval);
    AcceptedIs(sink.held(old(sink.readCount) + rounds), q, judge);
    polled := passed;
    if !passed {
      selected, passed := JudgeRichest(sink, q, judge);
    }
  }

  /**
   Over every run: it passes by a poll only with an exact batch the assertion accepts, in time. It
   falls back only after the deadline, and only if every poll was rejected: an exact batch it had
   seen either failed the assertion or had a newer exact one after it.
   */
  lemma TimedByAssertionIsHonest(held: Contents, from: int, pace: Pace, rounds: int, q: Query, judge: Judge,
    selected: int, passed: bool, polled: bool)
    requires IsTimedByAssertion(held, from, pace, rounds, q, judge, selected, passed, polled)
    ensures var last := held(from + rounds);
            && (polled ==> (passed && 0 <= selected < |last| && IsExact(last[selected], q) && pace.InTime(rounds)
                  && |last[selected].resources| == q.wantResources && MetricCount(last[selected]) == q.wantMetrics))
            && (passed && selected >= 0 ==> judge(last[selected]) && Contains(last[selected], q.target))
            && (!polled ==> !pace.InTime(rounds) && IsRichest(last, q.target, selected))
            && (!polled && selected >= 0 ==> (passed <==> judge(last[selected])))
            && (selected < 0 ==> passed && forall h :: 0 <= h < |last| ==> !Contains(last[h], q.target))
    ensures forall k, h :: from < k < from + rounds && 0 <= h < |held(k)| && IsExact(held(k)[h], q) ==>
              !judge(held(k)[h]) || exists g :: h < g < |held(k)| && IsExact(held(k)[g], q)
  {
    forall k, h | from < k < from + rounds && 0 <= h < |held(k)| && IsExact(held(k)[h], q)
                  && !exists g :: h < g < |held(k)| && IsExact(held(k)[g], q)
      ensures !judge(held(k)[h])
    {
      AllMissedOne(PollIsRejected(held, from, q, judge), pace, rounds - 1, k - from);
      AcceptedIs(held(k), q, judge);
      assert IsNewestExact(held(k), q, h);
    }
  }
}
