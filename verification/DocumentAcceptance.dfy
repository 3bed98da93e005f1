/**
 Acceptance of a whole payload by a whole document, over resources, scopes, metrics and
 datapoints, and what rewriting does to it.
 */
module DocumentAcceptance {
  import opened Pdata
  import opened Marking
  import opened AssertionDocument
  import opened Acceptance
  import opened Text

  // ---------- lists match in some order ----------

  /** `p` and `q` are inverse permutations of the first `n` indices. */
  ghost predicate Pairing(p: seq<nat>, q: seq<nat>, n: nat) {
    && |p| == n && |q| == n
    && (forall i :: 0 <= i < n ==> p[i] < n && q[p[i]] == i)
    && (forall i :: 0 <= i < n ==> q[i] < n && p[q[i]] == i)
  }

  ghost predicate PairsBy<N, I>(nodes: seq<N>, items: seq<I>, acc: (N, I) -> bool, p: seq<nat>, q: seq<nat>) {
    && |nodes| == |items| && Pairing(p, q, |nodes|)
    && forall i :: 0 <= i < |nodes| ==> acc(nodes[i], items[p[i]])
  }

  ghost predicate Pairs<N, I>(nodes: seq<N>, items: seq<I>, acc: (N, I) -> bool) {
    exists p, q :: PairsBy(nodes, items, acc, p, q)
  }

  lemma PairsWeaken<N, I>(nodes: seq<N>, weaker: seq<N>, items: seq<I>, acc: (N, I) -> bool)
    requires Pairs(nodes, items, acc) && |weaker| == |nodes|
    requires forall i, k :: 0 <= i < |nodes| && 0 <= k < |items| && acc(nodes[i], items[k]) ==> acc(weaker[i], items[k])
    ensures Pairs(weaker, items, acc)
  {
    var p, q :| PairsBy(nodes, items, acc, p, q);
    assert PairsBy(weaker, items, acc, p, q);
  }

  lemma PairsCover<N, I>(nodes: seq<N>, items: seq<I>, acc: (N, I) -> bool, k: nat) returns (i: nat)
    requires Pairs(nodes, items, acc) && k < |items|
    ensures i < |nodes| && acc(nodes[i], items[k])
  {
    var p, q :| PairsBy(nodes, items, acc, p, q);
    i := q[k];
    assert acc(nodes[i], items[p[i]]);
  }

  lemma PairsInOrder<N, I>(nodes: seq<N>, items: seq<I>, acc: (N, I) -> bool)
    requires |nodes| == |items| && forall i :: 0 <= i < |nodes| ==> acc(nodes[i], items[i])
    ensures Pairs(nodes, items, acc)
  {
    var p := seq(|nodes|, i requires 0 <= i < |nodes| => i);
    assert PairsBy(nodes, items, acc, p, p);
  }

  // ---------- acceptance, level by level ----------

  type Scope = ScopeMetrics<MetricView>
  type Resource = ResourceMetrics<MetricView>

  function EntriesOf(f: Field<Attributes>): Attributes {
    if f.Present? then f.value else map[]
  }

  function DatapointsOf(n: MetricNode<Attributes>): seq<DatapointV> {
    if n.datapoints.Present? then n.datapoints.value else []
  }

  function KindName(kind: MetricType): string {
    match kind
    case Untyped => ""
    case Gauge => "gauge"
    case Sum => "sum"
    case Histogram => "histogram"
    case ExponentialHistogram => "exponential_histogram"
    case Summary => "summary"
  }

  /** The entries of a metric node besides its datapoints. */
  function Described(m: MetricView): Attributes {
    m.fields["name" := Str(m.name)]["type" := Str(KindName(m.kind))]
  }

  predicate AcceptsDatapoint(f: DatapointV, dp: Datapoint, rx: Regex) {
    f.Present? && !f.value.attributes.Mistyped? && AcceptsMap(EntriesOf(f.value.attributes), dp.attributes, rx)
  }

  ghost function DatapointAcc(rx: Regex): (DatapointV, Datapoint) -> bool {
    (f: DatapointV, dp: Datapoint) => AcceptsDatapoint(f, dp, rx)
  }

  ghost predicate AcceptsMetric(f: MetricV, m: MetricView, rx: Regex) {
    && f.Present? && !f.value.datapoints.Mistyped? && f.value.fields == Described(m)
    && Pairs(DatapointsOf(f.value), m.datapoints, DatapointAcc(rx))
  }

  ghost function MetricAcc(rx: Regex): (MetricV, MetricView) -> bool {
    (f: MetricV, m: MetricView) => AcceptsMetric(f, m, rx)
  }

  ghost predicate AcceptsScope(f: ScopeV, s: Scope, rx: Regex) {
    && f.Present? && f.value.metrics.Present? && AcceptsMap(f.value.fields, s.fields, rx)
    && Pairs(f.value.metrics.value, s.metrics, MetricAcc(rx))
  }

  ghost function ScopeAcc(rx: Regex): (ScopeV, Scope) -> bool {
    (f: ScopeV, s: Scope) => AcceptsScope(f, s, rx)
  }

  ghost predicate AcceptsResource(f: ResourceV, r: Resource, rx: Regex) {
    && f.Present? && !f.value.attributes.Mistyped? && AcceptsMap(EntriesOf(f.value.attributes), r.attributes, rx)
    && f.value.scopes.Present? && Pairs(f.value.scopes.value, r.scopes, ScopeAcc(rx))
  }

  ghost function ResourceAcc(rx: Regex): (ResourceV, Resource) -> bool {
    (f: ResourceV, r: Resource) => AcceptsResource(f, r, rx)
  }

  ghost predicate AcceptsDocument(d: Document<Attributes>, p: Batch, rx: Regex) {
    d.resources.Present? && Pairs(d.resources.value, p.resources, ResourceAcc(rx))
  }

  // ---------- the patterns of a document fit the values they replace ----------

  predicate DatapointFits(f: DatapointV, o: Options, rx: Regex) {
    f.Present? ==> PatternsFit(EntriesOf(f.value.attributes), o.DatapointRule(), rx)
  }

  predicate MetricFits(f: MetricV, o: Options, rx: Regex) {
    f.Present? ==> forall l :: 0 <= l < |DatapointsOf(f.value)| ==> DatapointFits(DatapointsOf(f.value)[l], o, rx)
  }

  /** With a scope pattern, `version` is present and matches it, or is already asked to. */
  predicate VersionFits(fields: Attributes, pattern: string, rx: Regex) {
    || pattern == ""
    || (VERSION in fields && rx(pattern, fields[VERSION]))
    || (VERSION_REGEX in fields && fields[VERSION_REGEX] == Str(pattern))
  }

  predicate ScopeFits(f: ScopeV, o: Options, rx: Regex) {
    f.Present? ==>
      && VersionFits(f.value.fields, o.scopeVersionRegex, rx)
      && (f.value.metrics.Present? ==>
            forall k :: 0 <= k < |f.value.metrics.value| ==> MetricFits(f.value.metrics.value[k], o, rx))
  }

  predicate ResourceFits(f: ResourceV, o: Options, rx: Regex) {
    f.Present? ==>
      && PatternsFit(EntriesOf(f.value.attributes), o.ResourceRule(), rx)
      && (f.value.scopes.Present? ==>
            forall j :: 0 <= j < |f.value.scopes.value| ==> ScopeFits(f.value.scopes.value[j], o, rx))
  }

  predicate DocumentFits(d: Document<Attributes>, o: Options, rx: Regex) {
    d.resources.Present? ==> forall i :: 0 <= i < |d.resources.value| ==> ResourceFits(d.resources.value[i], o, rx)
  }

  // ---------- rewriting weakens ----------

  /** The version rewrite is marking with a rule that speaks about `version` only. */
  function VersionRule(pattern: string): Rule {
    (key: string) => if key == VERSION && !Suffixed(key) then AsRegex(pattern) else Keep
  }

  lemma VersionKeys()
    ensures !Suffixed(VERSION) && VERSION_REGEX == VERSION + REGEX
    ensures HasSuffix(VERSION_REGEX, REGEX) && !HasSuffix(VERSION_REGEX, EXISTS) && Base(VERSION_REGEX) == VERSION
  {
    assert |VERSION| == 7 && |EXISTS| == 7 && |REGEX| == 6;
    assert VERSION[1] == 'e' && VERSION[0] == 'v' && EXISTS[0] == '/' && REGEX[0] == '/';
    assert VERSION[|VERSION| - |EXISTS|..][0] == VERSION[0];
    assert VERSION[|VERSION| - |REGEX|..][0] == VERSION[1];
    SuffixBase(VERSION, AsRegex(""));
  }

  lemma VersionMoved(fields: Attributes, pattern: string, t: string)
    requires VERSION in fields
    ensures KeepsMatchers(VersionRule(pattern)) && VersionRule(pattern)(VERSION) == AsRegex(pattern)
    ensures Moved(fields, VersionRule(pattern), t) <==> t == VERSION_REGEX
    ensures t != VERSION ==> VersionRule(pattern)(t) == Keep
  {
    VersionKeys();
  }

  lemma VersionIsMarking(fields: Attributes, pattern: string)
    requires pattern != "" && VERSION in fields
    ensures MarkedScopeFields(fields, pattern) == Marked(fields, VersionRule(pattern))
  {
    var a, b := MarkedScopeFields(fields, pattern), Marked(fields, VersionRule(pattern));
    VersionKeys();
    forall t ensures (t in a <==> t in b) && (t in a ==> a[t] == b[t]) {
      VersionMoved(fields, pattern, t);
      MarkedEntry(fields, VersionRule(pattern), t);
    }
  }

  /** The version a scope names matches the pattern, or was accepted by the same pattern. */
  lemma VersionMatches(fields: Attributes, actual: Attributes, pattern: string, rx: Regex)
    requires AcceptsMap(fields, actual, rx) && VersionFits(fields, pattern, rx) && pattern != "" && VERSION in fields
    ensures rx(pattern, fields[VERSION])
  {
    VersionKeys();
    assert EntryHolds(VERSION, fields[VERSION], actual, rx);
    assert VERSION_REGEX in fields ==> EntryHolds(VERSION_REGEX, fields[VERSION_REGEX], actual, rx);
  }

  lemma VersionPatternFits(fields: Attributes, pattern: string, rx: Regex)
    requires VERSION in fields && rx(pattern, fields[VERSION])
    ensures PatternsFit(fields, VersionRule(pattern), rx)
  {
  }

  lemma VersionWeakens(fields: Attributes, actual: Attributes, pattern: string, rx: Regex)
    requires AcceptsMap(fields, actual, rx) && VersionFits(fields, pattern, rx)
    ensures AcceptsMap(MarkedScopeFields(fields, pattern), actual, rx)
  {
    if pattern == "" {
    } else if VERSION in fields {
      VersionMatches(fields, actual, pattern, rx);
      VersionIsMarking(fields, pattern);
      VersionPatternFits(fields, pattern, rx);
      VersionMoved(fields, pattern, VERSION);
      MarkingWeakens(fields, actual, VersionRule(pattern), rx);
    } else {
      assert MarkedScopeFields(fields, pattern) == fields;
    }
  }

  lemma DatapointWeakens(f: DatapointV, dp: Datapoint, o: Options, rx: Regex)
    requires DatapointFits(f, o, rx) && AcceptsDatapoint(f, dp, rx)
    ensures AcceptsDatapoint(MarkedDatapoint(f, o), dp, rx)
  {
    OptionsKeepMatchers(o);
    if f.value.attributes.Present? {
      MarkingWeakens(f.value.attributes.value, dp.attributes, o.DatapointRule(), rx);
    }
  }

  lemma MetricWeakens(f: MetricV, m: MetricView, o: Options, rx: Regex)
    requires MetricFits(f, o, rx) && AcceptsMetric(f, m, rx)
    ensures AcceptsMetric(MarkedMetric(f, o), m, rx)
  {
    if f.value.datapoints.Present? {
      var s := f.value.datapoints.value;
      forall l, k | 0 <= l < |s| && 0 <= k < |m.datapoints| && DatapointAcc(rx)(s[l], m.datapoints[k])
        ensures DatapointAcc(rx)(MarkedDatapoints(s, o)[l], m.datapoints[k])
      {
        DatapointWeakens(s[l], m.datapoints[k], o, rx);
      }
      PairsWeaken(s, MarkedDatapoints(s, o), m.datapoints, DatapointAcc(rx));
    }
  }

  lemma ScopeWeakens(f: ScopeV, sc: Scope, o: Options, rx: Regex)
    requires ScopeFits(f, o, rx) && AcceptsScope(f, sc, rx)
    ensures AcceptsScope(MarkedScope(f, o), sc, rx)
  {
    VersionWeakens(f.value.fields, sc.fields, o.scopeVersionRegex, rx);
    var s := f.value.metrics.value;
    forall k, x | 0 <= k < |s| && 0 <= x < |sc.metrics| && MetricAcc(rx)(s[k], sc.metrics[x])
      ensures MetricAcc(rx)(MarkedMetrics(s, o)[k], sc.metrics[x])
    {
      MetricWeakens(s[k], sc.metrics[x], o, rx);
    }
    PairsWeaken(s, MarkedMetrics(s, o), sc.metrics, MetricAcc(rx));
  }

  lemma ResourceWeakens(f: ResourceV, r: Resource, o: Options, rx: Regex)
    requires ResourceFits(f, o, rx) && AcceptsResource(f, r, rx)
    ensures AcceptsResource(MarkedResource(f, o), r, rx)
  {
    OptionsKeepMatchers(o);
    if f.value.attributes.Present? {
      MarkingWeakens(f.value.attributes.value, r.attributes, o.ResourceRule(), rx);
    }
    var s := f.value.scopes.value;
    forall j, x | 0 <= j < |s| && 0 <= x < |r.scopes| && ScopeAcc(rx)(s[j], r.scopes[x])
      ensures ScopeAcc(rx)(MarkedScopes(s, o)[j], r.scopes[x])
    {
      ScopeWeakens(s[j], r.scopes[x], o, rx);
    }
    PairsWeaken(s, MarkedScopes(s, o), r.scopes, ScopeAcc(rx));
  }

  /** Every payload a document accepts, the rewritten document accepts too, when its patterns fit. */
  lemma RewritingWeakens(d: Document<Attributes>, p: Batch, o: Options, rx: Regex)
    requires DocumentFits(d, o, rx) && AcceptsDocument(d, p, rx)
    ensures AcceptsDocument(MarkedDocument(d, o), p, rx)
  {
    var s := d.resources.value;
    forall i, x | 0 <= i < |s| && 0 <= x < |p.resources| && ResourceAcc(rx)(s[i], p.resources[x])
      ensures ResourceAcc(rx)(MarkedResources(s, o)[i], p.resources[x])
    {
      ResourceWeakens(s[i], p.resources[x], o, rx);
    }
    PairsWeaken(s, MarkedResources(s, o), p.resources, ResourceAcc(rx));
  }
}
