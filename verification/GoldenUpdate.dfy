/**
 Refreshing a golden assertion file from a live payload, end to end: prepare, write the
 exact document, rewrite it, read its counts back, and assert the payload against it.
 Models AssertMetricsSnapshot and WriteMetricsAssertion of metricassert.go. What
 pmetricassert writes for a payload is an assumption, stated by `Written`: one node per
 resource, scope, metric and datapoint, with exact attribute entries.
 */
module GoldenUpdate {
  import opened Pdata
  import opened Preparation
  import opened Marking
  import opened AssertionDocument
  import opened Acceptance
  import opened DocumentAcceptance
  import Selection

  // ---------- the exact document of a payload ----------

  function WrittenDatapoint(dp: Datapoint): DatapointV {
    Present(DatapointNode(Present(dp.attributes)))
  }

  function WrittenDatapoints(s: seq<Datapoint>): (r: seq<DatapointV>)
    ensures |r| == |s| && forall l :: 0 <= l < |s| ==> r[l] == WrittenDatapoint(s[l])
  {
    seq(|s|, l requires 0 <= l < |s| => WrittenDatapoint(s[l]))
  }

  function WrittenMetric(m: MetricView): MetricV {
    Present(MetricNode(Described(m), Present(WrittenDatapoints(m.datapoints))))
  }

  function WrittenMetrics(s: seq<MetricView>): (r: seq<MetricV>)
    ensures |r| == |s| && forall k :: 0 <= k < |s| ==> r[k] == WrittenMetric(s[k])
  {
    seq(|s|, k requires 0 <= k < |s| => WrittenMetric(s[k]))
  }

  function WrittenScope(s: Scope): ScopeV {
    Present(ScopeNode(s.fields, Present(WrittenMetrics(s.metrics))))
  }

  function WrittenScopes(s: seq<Scope>): (r: seq<ScopeV>)
    ensures |r| == |s| && forall j :: 0 <= j < |s| ==> r[j] == WrittenScope(s[j])
  {
    seq(|s|, j requires 0 <= j < |s| => WrittenScope(s[j]))
  }

  function WrittenResource(r: Resource): ResourceV {
    Present(ResourceNode(Present(r.attributes), Present(WrittenScopes(r.scopes))))
  }

  function WrittenResources(s: seq<Resource>): (r: seq<ResourceV>)
    ensures |r| == |s| && forall i :: 0 <= i < |s| ==> r[i] == WrittenResource(s[i])
  {
    seq(|s|, i requires 0 <= i < |s| => WrittenResource(s[i]))
  }

  function Written(p: Batch): Document<Attributes> {
    Document(Present(WrittenResources(p.resources)))
  }

  // ---------- payloads whose attribute names are no matcher keys ----------

  predicate PlainDatapoints(s: seq<Datapoint>) {
    forall l :: 0 <= l < |s| ==> Plain(s[l].attributes)
  }

  predicate PlainScope(s: Scope) {
    Plain(s.fields) && forall k :: 0 <= k < |s.metrics| ==> PlainDatapoints(s.metrics[k].datapoints)
  }

  predicate PlainResource(r: Resource) {
    Plain(r.attributes) && forall j :: 0 <= j < |r.scopes| ==> PlainScope(r.scopes[j])
  }

  predicate PlainPayload(p: Batch) {
    forall i :: 0 <= i < |p.resources| ==> PlainResource(p.resources[i])
  }

  // ---------- the exact document accepts its payload ----------

  lemma OwnMetric(m: MetricView, rx: Regex)
    requires PlainDatapoints(m.datapoints)
    ensures AcceptsMetric(WrittenMetric(m), m, rx)
  {
    forall l | 0 <= l < |m.datapoints| ensures AcceptsDatapoint(WrittenDatapoint(m.datapoints[l]), m.datapoints[l], rx) {
      PlainAcceptsItself(m.datapoints[l].attributes, rx);
    }
    PairsInOrder(WrittenDatapoints(m.datapoints), m.datapoints, DatapointAcc(rx));
  }

  lemma OwnScope(s: Scope, rx: Regex)
    requires PlainScope(s)
    ensures AcceptsScope(WrittenScope(s), s, rx)
  {
    PlainAcceptsItself(s.fields, rx);
    forall k | 0 <= k < |s.metrics| ensures MetricAcc(rx)(WrittenMetrics(s.metrics)[k], s.metrics[k]) {
      OwnMetric(s.metrics[k], rx);
    }
    PairsInOrder(WrittenMetrics(s.metrics), s.metrics, MetricAcc(rx));
  }

  lemma OwnResource(r: Resource, rx: Regex)
    requires PlainResource(r)
    ensures AcceptsResource(WrittenResource(r), r, rx)
  {
    PlainAcceptsItself(r.attributes, rx);
    forall j | 0 <= j < |r.scopes| ensures ScopeAcc(rx)(WrittenScopes(r.scopes)[j], r.scopes[j]) {
      OwnScope(r.scopes[j], rx);
    }
    PairsInOrder(WrittenScopes(r.scopes), r.scopes, ScopeAcc(rx));
  }

  lemma WrittenAcceptsOwn(p: Batch, rx: Regex)
    requires PlainPayload(p)
    ensures AcceptsDocument(Written(p), p, rx)
  {
    forall i | 0 <= i < |p.resources| ensures ResourceAcc(rx)(WrittenResources(p.resources)[i], p.resources[i]) {
      OwnResource(p.resources[i], rx);
    }
    PairsInOrder(WrittenResources(p.resources), p.resources, ResourceAcc(rx));
  }

  // ---------- a payload the rewritten document accepts fits its patterns ----------

  lemma AttrsAcceptedFit(from: Attributes, attrs: Attributes, rule: Rule, rx: Regex)
    requires Plain(from) && KeepsMatchers(rule) && AcceptsMap(Marked(from, rule), attrs, rx)
    ensures PatternsFit(attrs, rule, rx)
  {
    PlainMarkedAcceptsExactly(from, attrs, rule, rx);
    forall key | key in attrs && rule(key).AsRegex? ensures rx(rule(key).pattern, attrs[key]) {
      assert StillAsked(from[key], rule(key), attrs[key], rx);
    }
  }

  lemma DatapointAcceptedFits(from: Datapoint, dp: Datapoint, o: Options, rx: Regex)
    requires Plain(from.attributes) && AcceptsDatapoint(MarkedDatapoint(WrittenDatapoint(from), o), dp, rx)
    ensures DatapointFits(WrittenDatapoint(dp), o, rx)
  {
    OptionsKeepMatchers(o);
    AttrsAcceptedFit(from.attributes, dp.attributes, o.DatapointRule(), rx);
  }

  lemma MetricAcceptedFits(from: MetricView, m: MetricView, o: Options, rx: Regex)
    requires PlainDatapoints(from.datapoints) && AcceptsMetric(MarkedMetric(WrittenMetric(from), o), m, rx)
    ensures MetricFits(WrittenMetric(m), o, rx)
  {
    var nodes := MarkedDatapoints(WrittenDatapoints(from.datapoints), o);
    forall l | 0 <= l < |m.datapoints| ensures DatapointFits(WrittenDatapoint(m.datapoints[l]), o, rx) {
      var i := PairsCover(nodes, m.datapoints, DatapointAcc(rx), l);
      DatapointAcceptedFits(from.datapoints[i], m.datapoints[l], o, rx);
    }
  }

  lemma VersionAcceptedFits(from: Attributes, fields: Attributes, pattern: string, rx: Regex)
    requires AcceptsMap(MarkedScopeFields(from, pattern), fields, rx)
    ensures VersionFits(fields, pattern, rx)
  {
    if pattern != "" {
      VersionKeys();
      assert EntryHolds(VERSION_REGEX, Str(pattern), fields, rx);
    }
  }

  lemma ScopeAcceptedFits(from: Scope, s: Scope, o: Options, rx: Regex)
    requires PlainScope(from) && AcceptsScope(MarkedScope(WrittenScope(from), o), s, rx)
    ensures ScopeFits(WrittenScope(s), o, rx)
  {
    VersionAcceptedFits(from.fields, s.fields, o.scopeVersionRegex, rx);
    var nodes := MarkedMetrics(WrittenMetrics(from.metrics), o);
    forall k | 0 <= k < |s.metrics| ensures MetricFits(WrittenMetric(s.metrics[k]), o, rx) {
      var i := PairsCover(nodes, s.metrics, MetricAcc(rx), k);
      MetricAcceptedFits(from.metrics[i], s.metrics[k], o, rx);
    }
  }

  lemma ResourceAcceptedFits(from: Resource, r: Resource, o: Options, rx: Regex)
    requires PlainResource(from) && AcceptsResource(MarkedResource(WrittenResource(from), o), r, rx)
    ensures ResourceFits(WrittenResource(r), o, rx)
  {
    OptionsKeepMatchers(o);
    AttrsAcceptedFit(from.attributes, r.attributes, o.ResourceRule(), rx);
    var nodes := MarkedScopes(WrittenScopes(from.scopes), o);
    forall j | 0 <= j < |r.scopes| ensures ScopeFits(WrittenScope(r.scopes[j]), o, rx) {
      var i := PairsCover(nodes, r.scopes, ScopeAcc(rx), j);
      ScopeAcceptedFits(from.scopes[i], r.scopes[j], o, rx);
    }
  }

  lemma AcceptedFits(from: Batch, p: Batch, o: Options, rx: Regex)
    requires PlainPayload(from) && AcceptsDocument(MarkedDocument(Written(from), o), p, rx)
    ensures DocumentFits(Written(p), o, rx)
  {
    var nodes := MarkedResources(WrittenResources(from.resources), o);
    forall i | 0 <= i < |p.resources| ensures ResourceFits(WrittenResource(p.resources[i]), o, rx) {
      var k := PairsCover(nodes, p.resources, ResourceAcc(rx), i);
      ResourceAcceptedFits(from.resources[k], p.resources[i], o, rx);
    }
  }

  /** Rewriting the document of a payload weakens it. */
  ghost predicate RewriteOnlyWeakens(p: Batch, o: Options, rx: Regex) {
    forall q: Batch :: AcceptsDocument(Written(p), q, rx) ==> AcceptsDocument(MarkedDocument(Written(p), o), q, rx)
  }

  /**
   Exactly when, for the whole tree: the rewrite of a written document only weakens it if and
   only if every pattern matches the value it replaces and, with a scope pattern, every
   `version` is present and matches.
   */
  lemma RewritingWeakensExactly(p: Batch, o: Options, rx: Regex)
    requires PlainPayload(p)
    ensures RewriteOnlyWeakens(p, o, rx) <==> DocumentFits(Written(p), o, rx)
  {
    if DocumentFits(Written(p), o, rx) {
      forall q: Batch | AcceptsDocument(Written(p), q, rx) ensures AcceptsDocument(MarkedDocument(Written(p), o), q, rx) {
        RewritingWeakens(Written(p), q, o, rx);
      }
    }
    if RewriteOnlyWeakens(p, o, rx) {
      WrittenAcceptsOwn(p, rx);
      AcceptedFits(p, p, o, rx);
    }
  }

  /** One resource with one scope, which names no version and holds nothing. */
  function VersionlessPayload(): Batch {
    Payload([ResourceMetrics(map[], [ScopeMetrics(map[], [])])])
  }

  function VersionOptions(): Options {
    Options({}, map[], ".*", None)
  }

  /** Such a rewrite: with a scope pattern and no version to replace it does not only weaken, whatever the pattern matches. */
  lemma MissingVersionExample(rx: Regex)
    ensures !RewriteOnlyWeakens(VersionlessPayload(), VersionOptions(), rx)
  {
    var p, o := VersionlessPayload(), VersionOptions();
    RewritingWeakensExactly(p, o, rx);
    var r := WrittenResources(p.resources)[0];
    assert !ScopeFits(r.value.scopes.value[0], o, rx);
    assert !ResourceFits(r, o, rx);
  }

  // ---------- the counts of a written document ----------

  lemma {:induction false} WrittenScopeCounts(s: seq<Scope>, n: nat)
    requires n <= |s|
    ensures MetricsInScopes(WrittenScopes(s), n) == ScopeOffset(s, n)
  {
    if n > 0 {
      WrittenScopeCounts(s, n - 1);
    }
  }

  lemma WrittenCountable(r: Resource)
    ensures CountableResource(WrittenResource(r))
    ensures MetricsInScopes(WrittenScopes(r.scopes), |r.scopes|) == |ScopesFlat(r.scopes)|
  {
    WrittenScopeCounts(r.scopes, |r.scopes|);
    ScopesEnd(r.scopes);
  }

  lemma {:induction false} WrittenResourceCounts(s: seq<Resource>, n: nat)
    requires n <= |s|
    ensures MetricsInResources(WrittenResources(s), n) == ResourceOffset(s, n)
  {
    if n > 0 {
      WrittenResourceCounts(s, n - 1);
      WrittenCountable(s[n - 1]);
    }
  }

  /** The counts read back from the document of a payload are those of the payload. */
  lemma WrittenCounts(p: Batch)
    requires MetricCount(p) > 0
    ensures ExpectedCounts(Written(p)) == Counts(|p.resources|, MetricCount(p))
  {
    forall i | 0 <= i < |p.resources| ensures CountableResource(WrittenResources(p.resources)[i]) {
      WrittenCountable(p.resources[i]);
    }
    WrittenResourceCounts(p.resources, |p.resources|);
    ResourcesEnd(p.resources);
  }

  // ---------- the refresh ----------

  function OptionsOf(cfg: Config): Options {
    Options((set a | a in cfg.volatileAttrs), cfg.regexAttrs, cfg.scopeVersionRegex, cfg.exactDatapointAttrs)
  }

  /** The document WriteMetricsAssertion leaves: it prepares what it is given, then writes and rewrites. */
  function Refreshed(actual: Batch, cfg: Config, hash: MapHash): Document<Attributes> {
    MarkedDocument(Written(Prepared(actual, cfg, hash)), OptionsOf(cfg))
  }

  lemma {:induction false} PreparedNames(ms: seq<MetricView>, cfg: Config, hash: MapHash, n: nat)
    requires n < |ms|
    ensures PreparedMetrics(ms, cfg, hash)[n].name == ms[n].name
  {
    PreparationConserves(ms, cfg, hash);
    assert Shrinks(ms[n], PreparedMetrics(ms, cfg, hash)[n]);
  }

  /** Preparing keeps every count and every metric name, so it does not change which batches are selected. */
  lemma PreparationKeepsSelection(p: Batch, cfg: Config, hash: MapHash, q: Selection.Query)
    ensures var r := Prepared(p, cfg, hash);
            |r.resources| == |p.resources| && MetricCount(r) == MetricCount(p)
            && (Selection.IsExact(r, q) <==> Selection.IsExact(p, q))
  {
    var ms := Flat(p);
    forall n | 0 <= n < |ms| { PreparedNames(ms, cfg, hash, n); }
  }

  /**
   After a refresh, the counts read from the file are those of the selected batch: the next run
   finds that batch to be an exact match.
   */
  lemma RefreshedBatchIsExact(selected: Batch, cfg: Config, hash: MapHash, target: string)
    requires Selection.Contains(selected, target)
    ensures var counts := ExpectedCounts(Refreshed(Prepared(selected, cfg, hash), cfg, hash));
            counts.Counts? && Selection.IsExact(selected, Selection.Query(target, counts.resources, counts.metrics))
  {
    var actual := Prepared(selected, cfg, hash);
    PreparationIsIdempotent(selected, cfg, hash);
    WrittenCounts(actual);
    RewritingKeepsCounts(Written(actual), OptionsOf(cfg));
  }
}
