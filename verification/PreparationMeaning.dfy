/**
 What preparing a payload does, with every condition written out: which metric is filtered and for
 what, which kinds are truncated, which metrics keep one datapoint and which one, and that all
 else stays. Models prepareMetricsAssertion and its helpers in metricassert.go and data_processing.go.
 */
module PreparationMeaning {
  import opened Ordering
  import opened Pdata
  import opened Preparation
  import opened StageStability

  // ---------- digests and masks ----------

  /** `bytes.Compare(a, b) < 0`: a proper prefix, or the smaller byte at the first difference. */
  lemma DigestOrderExactly(a: Digest, b: Digest)
    ensures DigestLess(a, b) <==> (|a| < |b| && a == b[..|a|]) || exists k :: DifferAt(a, b, k) && a[k] as int < b[k] as int
  {
    LexExactly(ByteLess, a, b);
  }

  /** Flexible scalars are set to their zero values; everything else stays. */
  lemma MaskedExactly(attributes: Attributes, flexible: set<string>)
    ensures Masked(attributes, flexible).Keys == attributes.Keys
    ensures forall key :: key in attributes ==>
              var v, r := attributes[key], Masked(attributes, flexible)[key];
              if key in flexible && v.Str? then r == Str("")
              else if key in flexible && v.Bool? then r == Bool(false)
              else if key in flexible && v.Int? then r == Int(0)
              else if key in flexible && v.Double? then r == Double(0.0)
              else r == v
  {
  }

  /** The datapoint at place `i` has a smaller digest than the one at place `k`. */
  predicate Below(dps: seq<Datapoint>, i: int, k: int, flexible: set<string>, hash: MapHash) {
    && 0 <= i < |dps| && 0 <= k < |dps|
    && DigestLess(hash(Masked(dps[i].attributes, flexible)), hash(Masked(dps[k].attributes, flexible)))
  }

  /** `dp` is the first datapoint that no other is below. */
  ghost predicate IsFirstLeast(dps: seq<Datapoint>, dp: Datapoint, flexible: set<string>, hash: MapHash) {
    exists n :: 0 <= n < |dps| && dps[n] == dp
      && (forall k :: 0 <= k < |dps| ==> !Below(dps, k, n, flexible, hash))
      && (forall k :: 0 <= k < n ==> Below(dps, n, k, flexible, hash))
  }

  lemma {:induction false} FirstLeastExactly(dps: seq<Datapoint>, less: (Datapoint, Datapoint) -> bool)
    requires dps != [] && StrictWeak(less)
    ensures var n := FirstLeast(dps, less);
            && (forall k :: 0 <= k < |dps| ==> !less(dps[k], dps[n]))
            && (forall k :: 0 <= k < n ==> less(dps[n], dps[k]))
  {
    LeastIsLeast(dps, less);
    if |dps| > 1 {
      FirstLeastExactly(dps[1..], less);
      var n, rest := FirstLeast(dps, less), FirstLeast(dps[1..], less);
      if n > 0 {
        forall k | 0 <= k < n ensures less(dps[n], dps[k]) {
          assert k > 0 ==> dps[k] == dps[1..][k - 1];
        }
      }
    }
  }

  lemma SurvivorExactly(dps: seq<Datapoint>, flexible: set<string>, hash: MapHash)
    requires dps != []
    ensures |Survivors(dps, flexible, hash)| == 1 && IsFirstLeast(dps, Survivors(dps, flexible, hash)[0], flexible, hash)
  {
    var less := DatapointLess(flexible, hash);
    DatapointOrderIsWeak(flexible, hash);
    FirstLeastExactly(dps, less);
    var n := FirstLeast(dps, less);
    assert forall i, k :: 0 <= i < |dps| && 0 <= k < |dps| ==> (Below(dps, i, k, flexible, hash) <==> less(dps[i], dps[k]));
    assert dps[n] == Survivors(dps, flexible, hash)[0];
  }

  // ---------- one metric ----------

  /** The first metric with the selected name, and a gauge or a sum. */
  ghost predicate IsSelected(ms: seq<MetricView>, cfg: Config, n: nat)
    requires n < |ms|
  {
    && ms[n].name == cfg.selectedNumberMetric && (ms[n].kind == Gauge || ms[n].kind == Sum)
    && forall k :: 0 <= k < n ==> ms[k].name != cfg.selectedNumberMetric
  }

  ghost function Selected(ms: seq<MetricView>, cfg: Config, n: nat): seq<Datapoint>
    requires n < |ms|
  {
    if IsSelected(ms, cfg, n) then Filtered(ms[n].datapoints, cfg.selectedNumberDatapoint) else ms[n].datapoints
  }

  /** No more than the maximum, when there is one and the metric is of one of four kinds. */
  function Limited(dps: seq<Datapoint>, kind: MetricType, max: int): seq<Datapoint> {
    if 0 < max < |dps| && (kind == Sum || kind == Gauge || kind == Histogram || kind == Summary) then dps[..max] else dps
  }

  lemma SelectedIsFiltered(ms: seq<MetricView>, cfg: Config, n: nat)
    requires n < |ms|
    ensures Filtered(ms[n].datapoints, WantedOf(ms, cfg, n)) == Selected(ms, cfg, n)
    ensures Retained(ms, cfg.selectedNumberMetric, cfg.selectedNumberDatapoint)[n] == ms[n].(datapoints := Selected(ms, cfg, n))
  {
    FilteringWanted(ms[n].datapoints, map[]);
    var first := FirstNamed(ms, cfg.selectedNumberMetric);
    assert IsSelected(ms, cfg, n) <==> n == first && IsNumber(ms[n].kind);
    assert ms[n] == ms[n].(datapoints := ms[n].datapoints);
  }

  lemma ReducedIsLimited(ms: seq<MetricView>, cfg: Config, n: nat)
    requires n < |ms|
    ensures var retained := Retained(ms, cfg.selectedNumberMetric, cfg.selectedNumberDatapoint);
            Reducer(cfg.maxDatapointsPerMetric)(retained[n])
            == ms[n].(datapoints := Limited(Selected(ms, cfg, n), ms[n].kind, cfg.maxDatapointsPerMetric))
  {
    SelectedIsFiltered(ms, cfg, n);
  }

  /**
   Every metric of a prepared payload: the one kept datapoint for a listed metric, and for any
   other exactly what filter and maximum leave; name, kind and fields stay.
   */
  lemma PreparedMetricExactly(ms: seq<MetricView>, cfg: Config, hash: MapHash, n: nat)
    requires n < |ms|
    ensures var m, r := ms[n], PreparedMetrics(ms, cfg, hash)[n];
            var left := Limited(Selected(ms, cfg, n), m.kind, cfg.maxDatapointsPerMetric);
            && r == m.(datapoints := r.datapoints)
            && (m.name !in cfg.firstDatapointOnly || m.kind == Untyped || left == [] ==> r.datapoints == left)
            && (m.name in cfg.firstDatapointOnly && m.kind != Untyped && left != [] ==>
                  |r.datapoints| == 1
                  && IsFirstLeast(left, r.datapoints[0], (set a | a in cfg.volatileAttrs) + cfg.regexAttrs.Keys, hash))
  {
    var names, flexible := (set n | n in cfg.firstDatapointOnly), (set a | a in cfg.volatileAttrs) + cfg.regexAttrs.Keys;
    var left := Limited(Selected(ms, cfg, n), ms[n].kind, cfg.maxDatapointsPerMetric);
    ReducedIsLimited(ms, cfg, n);
    if left != [] {
      SurvivorExactly(left, flexible, hash);
    }
    assert PreparedMetrics(ms, cfg, hash)[n] == Firster(names, flexible, hash)(ms[n].(datapoints := left));
  }

  /** A metric that is not listed holds what filter and maximum leave of it. */
  lemma UnlistedExactly(ms: seq<MetricView>, cfg: Config, hash: MapHash, n: nat)
    requires n < |ms| && ms[n].name !in cfg.firstDatapointOnly
    ensures PreparedMetrics(ms, cfg, hash)[n].datapoints
         == Cut(Filtered(ms[n].datapoints, WantedOf(ms, cfg, n)), MaxOf(ms[n].kind, cfg))
  {
    PreparedMetricExactly(ms, cfg, hash, n);
    SelectedIsFiltered(ms, cfg, n);
  }

  /** A metric that is not listed, not selected and not above the maximum is unchanged. */
  lemma UntouchedMetric(ms: seq<MetricView>, cfg: Config, hash: MapHash, n: nat)
    requires n < |ms| && ms[n].name !in cfg.firstDatapointOnly && ms[n].name != cfg.selectedNumberMetric
    requires cfg.maxDatapointsPerMetric <= 0 || |ms[n].datapoints| <= cfg.maxDatapointsPerMetric || ms[n].kind == ExponentialHistogram
    ensures PreparedMetrics(ms, cfg, hash)[n] == ms[n]
  {
    PreparedMetricExactly(ms, cfg, hash, n);
  }

  // ---------- the tree ----------

  /** Everything around the metrics stays. */
  lemma PreparedShape(p: Payload<MetricView>, cfg: Config, hash: MapHash, i: nat, j: nat)
    requires i < |p.resources| && j < |p.resources[i].scopes|
    ensures var r := Prepared(p, cfg, hash);
            && |r.resources| == |p.resources| && r.resources[i].attributes == p.resources[i].attributes
            && |r.resources[i].scopes| == |p.resources[i].scopes| && r.resources[i].scopes[j].fields == p.resources[i].scopes[j].fields
            && |r.resources[i].scopes[j].metrics| == |p.resources[i].scopes[j].metrics|
  {
    WithMetricsShape(p, PreparedMetrics(Flat(p), cfg, hash), i, j);
  }

  /** Each metric is prepared in its place. */
  lemma PreparedTreeExactly(p: Payload<MetricView>, cfg: Config, hash: MapHash, i: nat, j: nat, k: nat)
    requires i < |p.resources| && j < |p.resources[i].scopes| && k < |p.resources[i].scopes[j].metrics|
    ensures var n := ResourceOffset(p.resources, i) + ScopeOffset(p.resources[i].scopes, j) + k;
            var r := Prepared(p, cfg, hash);
            && i < |r.resources| && j < |r.resources[i].scopes| && k < |r.resources[i].scopes[j].metrics|
            && n < MetricCount(p) && Flat(p)[n] == p.resources[i].scopes[j].metrics[k]
            && r.resources[i].scopes[j].metrics[k] == PreparedMetrics(Flat(p), cfg, hash)[n]
  {
    WithMetricsAt(p, PreparedMetrics(Flat(p), cfg, hash), i, j, k);
  }
}
