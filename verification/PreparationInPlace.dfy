/**
 The preparation stages as the program runs them: nested loops over a payload tree
 whose metric objects are sorted, filtered and truncated in place. `n` counts the
 metrics the loops have passed, so `flat[n]` is the metric they are at.
 */
module PreparationInPlace {
  import opened Ordering
  import opened Pdata
  import opened Preparation

  /** The first `n` metrics rewritten by `f`, the others as before. */
  function Progress(before: seq<MetricView>, n: int, f: MetricView -> MetricView): (r: seq<MetricView>)
    ensures |r| == |before|
  {
    seq(|before|, k requires 0 <= k < |before| => if k < n then f(before[k]) else before[k])
  }

  lemma ProgressStep(before: seq<MetricView>, n: int, f: MetricView -> MetricView)
    requires 0 <= n < |before|
    ensures Progress(before, n, f)[n] == before[n]
    ensures Progress(before, n, f)[n := f(before[n])] == Progress(before, n + 1, f)
  {
  }

  lemma ProgressEnds(before: seq<MetricView>, f: MetricView -> MetricView)
    ensures Progress(before, 0, f) == before
    ensures Progress(before, |before|, f) == Each(before, f)
  {
  }

  /** The deep copy of the library: the same tree around new metric objects. */
  method CopyTo(actual: Payload<Metric>) returns (copy: Payload<Metric>)
    ensures fresh(Flat(copy)) && Distinct(Flat(copy))
    ensures forall m :: m in Flat(actual) ==> m !in Flat(copy)
    ensures View(copy) == View(actual)
    ensures Contents(Flat(actual)) == old(Contents(Flat(actual)))
  {
    var flat := Flat(actual);
    var copies: seq<Metric> := [];
    assert allocated(flat);
    for n := 0 to |flat|
      invariant |copies| == n && fresh(copies) && Distinct(copies)
      invariant forall k :: 0 <= k < n ==> copies[k].View() == flat[k].View()
    {
      var view := flat[n].View();
      var m := new Metric(view);
      assert m.View() == view == flat[n].View();
      copies := copies + [m];
    }
    copy := WithMetrics(actual, copies);
    assert Contents(copies) == Contents(flat);
    WithMetricsTwice(actual, copies, Contents(flat));
  }

  /** What a payload of objects holds, read off the object in each place. */
  lemma ViewExactly(p: Payload<Metric>, i: nat, j: nat, k: nat)
    requires i < |p.resources| && j < |p.resources[i].scopes| && k < |p.resources[i].scopes[j].metrics|
    ensures var m, r := p.resources[i].scopes[j].metrics[k], View(p).resources;
            && i < |r| && j < |r[i].scopes| && k < |r[i].scopes[j].metrics|
            && r[i].scopes[j].metrics[k] == MetricView(m.name, m.kind, m.fields, m.datapoints)
            && r[i].attributes == p.resources[i].attributes && r[i].scopes[j].fields == p.resources[i].scopes[j].fields
  {
    WithMetricsShape(p, Contents(Flat(p)), i, j);
    WithMetricsAt(p, Contents(Flat(p)), i, j, k);
  }

  predicate NoneNamed(flat: seq<Metric>, n: nat, name: string) {
    n <= |flat| && forall x :: 0 <= x < n ==> flat[x].name != name
  }

  /** The first metric with this name in traversal order. */
  method GetMetric(p: Payload<Metric>, name: string) returns (found: Option<Metric>, ghost n: nat)
    ensures n == FirstNamed(Contents(Flat(p)), name)
    ensures found == if n < MetricCount(p) then Some(Flat(p)[n]) else None
  {
    n := 0;
    ghost var flat := Flat(p);
    for i := 0 to |p.resources|
      invariant n == ResourceOffset(p.resources, i) && NoneNamed(flat, n, name)
    {
      var scopes := p.resources[i].scopes;
      ghost var start := n;
      for j := 0 to |scopes|
        invariant n == start + ScopeOffset(scopes, j) && NoneNamed(flat, n, name)
      {
        var metrics := scopes[j].metrics;
        for k := 0 to |metrics|
          invariant n == start + ScopeOffset(scopes, j) + k && NoneNamed(flat, n, name)
        {
          MetricAt(p, i, j, k);
          if name == metrics[k].name {
            return Some(metrics[k]), n;
          }
          n := n + 1;
        }
      }
      ScopesEnd(scopes);
    }
    ResourcesEnd(p.resources);
    found := None;
  }

  /** The closure retainSelectedNumberDatapoint hands to RemoveIf. */
  method ShouldRemove(attributes: Attributes, wanted: map<string, string>) returns (remove: bool)
    ensures remove <==> !Wanted(attributes, wanted)
  {
    var keys := wanted.Keys;
    while keys != {}
      invariant keys <= wanted.Keys
      invariant forall key :: key in wanted && key !in keys ==> key in attributes && attributes[key] == Str(wanted[key])
      decreases keys
    {
      var key :| key in keys;
      if key !in attributes || !attributes[key].Str? || attributes[key].text != wanted[key] {
        return true;
      }
      keys := keys - {key};
    }
    return false;
  }

  lemma {:induction false} FilteredNext(dps: seq<Datapoint>, n: nat, wanted: map<string, string>)
    requires n < |dps|
    ensures Filtered(dps[..n + 1], wanted)
         == Filtered(dps[..n], wanted) + if Wanted(dps[n].attributes, wanted) then [dps[n]] else []
  {
    if n > 0 {
      FilteredNext(dps[1..], n - 1, wanted);
      assert dps[..n + 1][1..] == dps[1..][..n] && dps[..n][1..] == dps[1..][..n - 1];
    }
  }

  /** RemoveIf with that closure. */
  method RemoveUnwanted(dps: seq<Datapoint>, wanted: map<string, string>) returns (kept: seq<Datapoint>)
    ensures kept == Filtered(dps, wanted)
  {
    kept := [];
    for l := 0 to |dps|
      invariant kept == Filtered(dps[..l], wanted)
    {
      FilteredNext(dps, l, wanted);
      var remove := ShouldRemove(dps[l].attributes, wanted);
      if !remove {
        kept := kept + [dps[l]];
      }
    }
    assert dps[..|dps|] == dps;
  }

  method RetainSelectedNumberDatapoint(p: Payload<Metric>, name: string, wanted: map<string, string>)
    requires Distinct(Flat(p))
    modifies Flat(p)
    ensures Contents(Flat(p)) == Retained(old(Contents(Flat(p))), name, wanted)
  {
    ghost var before := Contents(Flat(p));
    var found, n := GetMetric(p, name);
    if found.None? {
      return;
    }
    var metric := found.value;
    match metric.kind {
      case Gauge | Sum =>
        var kept := RemoveUnwanted(metric.datapoints, wanted);
        metric.datapoints := kept;
      case _ =>
    }
    assert metric.View() == RetainedMetric(before[n], wanted);
    assert Contents(Flat(p)) == before[n := metric.View()];
  }

  /** Copies of the first datapoints. */
  method FirstDatapoints(dps: seq<Datapoint>, maxDPCount: int) returns (newDP: seq<Datapoint>)
    requires maxDPCount < |dps|
    ensures newDP == dps[..if maxDPCount < 0 then 0 else maxDPCount]
  {
    newDP := [];
    var l := 0;
    while l < maxDPCount
      invariant 0 <= l <= |dps| && (l <= maxDPCount || l == 0)
      invariant newDP == dps[..l]
    {
      newDP := newDP + [dps[l]];
      l := l + 1;
    }
  }

  /** Removes all datapoints, and copies these back one by one. */
  method Refill(metric: Metric, newDP: seq<Datapoint>)
    modifies metric
    ensures metric.datapoints == newDP
  {
    metric.datapoints := [];
    for l := 0 to |newDP|
      invariant metric.datapoints == newDP[..l]
    {
      metric.datapoints := metric.datapoints + [newDP[l]];
    }
  }

  method ReduceMetric(metric: Metric, maxDPCount: int, ghost flat: seq<Metric>, ghost n: int)
    requires Distinct(flat) && 0 <= n < |flat| && flat[n] == metric
    modifies metric
    ensures metric.View() == Truncator(maxDPCount)(old(metric.View()))
    ensures Contents(flat) == old(Contents(flat))[n := metric.View()]
  {
    match metric.kind {
      case Sum | Gauge | Histogram | Summary =>
        if |metric.datapoints| > maxDPCount {
          var newDP := FirstDatapoints(metric.datapoints, maxDPCount);
          Refill(metric, newDP);
        }
      case ExponentialHistogram | Untyped =>
    }
  }

  /** The innermost loop, over the metrics of one scope. */
  method ReduceScope(p: Payload<Metric>, i: nat, j: nat, maxDPCount: int, ghost before: seq<MetricView>, ghost from: int)
    returns (ghost n: int)
    requires Distinct(Flat(p)) && i < |p.resources| && j < |p.resources[i].scopes|
    requires from == ResourceOffset(p.resources, i) + ScopeOffset(p.resources[i].scopes, j)
    requires Contents(Flat(p)) == Progress(before, from, Truncator(maxDPCount))
    modifies Flat(p)
    ensures n == from + |p.resources[i].scopes[j].metrics|
    ensures Contents(Flat(p)) == Progress(before, n, Truncator(maxDPCount))
  {
    var metrics := p.resources[i].scopes[j].metrics;
    ghost var flat, f := Flat(p), Truncator(maxDPCount);
    n := from;
    for k := 0 to |metrics|
      invariant n == from + k && Contents(flat) == Progress(before, n, f)
    {
      MetricAt(p, i, j, k);
      ProgressStep(before, n, f);
      ReduceMetric(metrics[k], maxDPCount, flat, n);
      n := n + 1;
    }
  }

  method ReduceDatapoints(p: Payload<Metric>, maxDPCount: int)
    requires Distinct(Flat(p))
    modifies Flat(p)
    ensures Contents(Flat(p)) == Each(old(Contents(Flat(p))), Truncator(maxDPCount))
  {
    ghost var flat, before, n := Flat(p), Contents(Flat(p)), 0;
    ghost var f := Truncator(maxDPCount);
    ProgressEnds(before, f);
    for i := 0 to |p.resources|
      invariant n == ResourceOffset(p.resources, i) && Contents(flat) == Progress(before, n, f)
    {
      var scopes := p.resources[i].scopes;
      ghost var start := n;
      for j := 0 to |scopes|
        invariant n == start + ScopeOffset(scopes, j) && Contents(flat) == Progress(before, n, f)
      {
        n := ReduceScope(p, i, j, maxDPCount, before, n);
      }
      ScopesEnd(scopes);
    }
    ResourcesEnd(p.resources);
  }

  /** Masks a copy of the attributes, one flexible attribute at a time. */
  method SortableAttrs(attrs: Attributes, flexible: set<string>) returns (out: Attributes)
    ensures out == Masked(attrs, flexible)
  {
    out := attrs;
    var todo := flexible;
    while todo != {}
      invariant todo <= flexible && out == Masked(attrs, flexible - todo)
      decreases todo
    {
      var attr :| attr in todo;
      if attr in out {
        out := out[attr := Zeroed(out[attr])];
      }
      todo := todo - {attr};
    }
  }

  /** Sorts the datapoints and drops all but the first, with the counter the closure captures. */
  method KeepFirstDatapoint(metric: Metric, flexible: set<string>, hash: MapHash)
    modifies metric
    ensures metric.View() == FirstOnlyMetric(old(metric.View()), {metric.name}, flexible, hash)
  {
    ghost var before := metric.datapoints;
    match metric.kind {
      case Gauge | Sum | Histogram | ExponentialHistogram | Summary =>
        metric.datapoints := StableSort(metric.datapoints, DatapointLess(flexible, hash));
        if before != [] {
          SortedHeadIsFirstLeast(before, DatapointLess(flexible, hash));
        }
        var sorted, kept, n := metric.datapoints, [], 0;
        for l := 0 to |sorted|
          invariant n == l && kept == if l == 0 then [] else [sorted[0]]
        {
          n := n + 1;
          if !(n > 1) {
            kept := kept + [sorted[l]];
          }
        }
        metric.datapoints := kept;
      case Untyped =>
    }
  }

  /** The body of the loops of keepFirstDatapointOnly. */
  method KeepFirstIfNamed(metric: Metric, names: set<string>, flexible: set<string>, hash: MapHash,
    ghost flat: seq<Metric>, ghost n: int)
    requires Distinct(flat) && 0 <= n < |flat| && flat[n] == metric
    modifies metric
    ensures metric.View() == Firster(names, flexible, hash)(old(metric.View()))
    ensures Contents(flat) == old(Contents(flat))[n := metric.View()]
  {
    if metric.name !in names {
      return;
    }
    KeepFirstDatapoint(metric, flexible, hash);
  }

  /** The innermost loop, over the metrics of one scope. */
  method KeepFirstInScope(p: Payload<Metric>, i: nat, j: nat, names: set<string>, flexible: set<string>, hash: MapHash,
    ghost before: seq<MetricView>, ghost from: int) returns (ghost n: int)
    requires Distinct(Flat(p)) && i < |p.resources| && j < |p.resources[i].scopes|
    requires from == ResourceOffset(p.resources, i) + ScopeOffset(p.resources[i].scopes, j)
    requires Contents(Flat(p)) == Progress(before, from, Firster(names, flexible, hash))
    modifies Flat(p)
    ensures n == from + |p.resources[i].scopes[j].metrics|
    ensures Contents(Flat(p)) == Progress(before, n, Firster(names, flexible, hash))
  {
    var metrics := p.resources[i].scopes[j].metrics;
    ghost var flat, f := Flat(p), Firster(names, flexible, hash);
    n := from;
    for k := 0 to |metrics|
      invariant n == from + k && Contents(flat) == Progress(before, n, f)
    {
      MetricAt(p, i, j, k);
      ProgressStep(before, n, f);
      KeepFirstIfNamed(metrics[k], names, flexible, hash, flat, n);
      n := n + 1;
    }
  }

  method KeepFirstDatapointOnly(p: Payload<Metric>, metricNames: seq<string>, flexible: set<string>, hash: MapHash)
    requires Distinct(Flat(p))
    modifies Flat(p)
    ensures Contents(Flat(p)) == Each(old(Contents(Flat(p))), Firster((set m | m in metricNames), flexible, hash))
  {
    var names := set m | m in metricNames;
    ghost var flat, before, n := Flat(p), Contents(Flat(p)), 0;
    ghost var f := Firster(names, flexible, hash);
    ProgressEnds(before, f);
    if |metricNames| == 0 {
      assert Each(before, f) == before;
      return;
    }
    for i := 0 to |p.resources|
      invariant n == ResourceOffset(p.resources, i) && Contents(flat) == Progress(before, n, f)
    {
      var scopes := p.resources[i].scopes;
      ghost var start := n;
      for j := 0 to |scopes|
        invariant n == start + ScopeOffset(scopes, j) && Contents(flat) == Progress(before, n, f)
      {
        n := KeepFirstInScope(p, i, j, names, flexible, hash, before, n);
      }
      ScopesEnd(scopes);
    }
    ResourcesEnd(p.resources);
  }

  /** The three stages, in the program's order. */
  method PrepareInPlace(p: Payload<Metric>, cfg: Config, hash: MapHash)
    requires Distinct(Flat(p))
    modifies Flat(p)
    ensures Contents(Flat(p)) == PreparedMetrics(old(Contents(Flat(p))), cfg, hash)
  {
    RetainSelectedNumberDatapoint(p, cfg.selectedNumberMetric, cfg.selectedNumberDatapoint);
    ghost var retained := Contents(Flat(p));
    if cfg.maxDatapointsPerMetric > 0 {
      ReduceDatapoints(p, cfg.maxDatapointsPerMetric);
    }
    assert Contents(Flat(p)) == Each(retained, Reducer(cfg.maxDatapointsPerMetric));
    KeepFirstDatapointOnly(p, cfg.firstDatapointOnly, cfg.FlexibleAttrs(), hash);
  }

  /** Prepares a deep copy; the payload it is given stays as it was. */
  method PrepareMetricsAssertion(actual: Payload<Metric>, cfg: Config, hash: MapHash) returns (prepared: Payload<Metric>)
    ensures fresh(Flat(prepared)) && Distinct(Flat(prepared))
    ensures View(prepared) == Prepared(View(actual), cfg, hash)
    ensures Contents(Flat(actual)) == old(Contents(Flat(actual)))
  {
    var flat := Flat(actual);
    assert allocated(flat);
    ghost var original := View(actual);
    prepared := CopyTo(actual);
    PrepareInPlace(prepared, cfg, hash);
    forall k | 0 <= k < |flat| ensures flat[k].View() == Flat(original)[k] {
      assert flat[k] in flat;
    }
    assert Contents(flat) == Flat(original);
    WithMetricsTwice(prepared, Flat(original), Contents(Flat(prepared)));
  }
}
