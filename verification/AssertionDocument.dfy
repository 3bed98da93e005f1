/**
 The parsed assertion document and its two traversals: rewriting exact entries into
 matchers in place, and reading the expected counts.
 Models markFlexibleAttrs and assertionExpectedCounts of metricassert.go, from the parsed
 document on. A document is generic in its mutable maps: `Document<StringMap>` is the tree
 of map objects, `Document<Attributes>` what it holds.
 */
module AssertionDocument {
  import opened Pdata
  import opened Marking

  /** What a type assertion finds under a key or at a list index: nothing, another type, or the type asked for. */
  datatype Field<+T> = Missing | Mistyped | Present(value: T)

  datatype DatapointNode<A> = DatapointNode(attributes: Field<A>)
  datatype MetricNode<A> = MetricNode(fields: Attributes, datapoints: Field<seq<Field<DatapointNode<A>>>>)
  datatype ScopeNode<A> = ScopeNode(fields: A, metrics: Field<seq<Field<MetricNode<A>>>>)
  datatype ResourceNode<A> = ResourceNode(attributes: Field<A>, scopes: Field<seq<Field<ScopeNode<A>>>>)
  datatype Document<A> = Document(resources: Field<seq<Field<ResourceNode<A>>>>)

  datatype Options = Options(
    volatile: set<string>,
    regex: map<string, string>,
    scopeVersionRegex: string,
    exactDatapointAttrs: Option<set<string>>)
  {
    predicate NothingToDo() {
      volatile == {} && regex == map[] && scopeVersionRegex == "" && exactDatapointAttrs.None?
    }

    function ResourceRule(): Rule {
      FlexibleRule(volatile, regex)
    }

    function DatapointRule(): Rule {
      Marking.DatapointRule(volatile, regex, exactDatapointAttrs)
    }
  }

  const VERSION := "version"
  const VERSION_REGEX := "version/regex"

  // ---------- the documents a rewrite goes through without an error ----------

  predicate DatapointShaped<A>(f: Field<DatapointNode<A>>) {
    f.Present? && !f.value.attributes.Mistyped?
  }

  predicate MetricShaped<A>(f: Field<MetricNode<A>>) {
    && f.Present? && !f.value.datapoints.Mistyped?
    && (f.value.datapoints.Present? ==>
          forall l :: 0 <= l < |f.value.datapoints.value| ==> DatapointShaped(f.value.datapoints.value[l]))
  }

  predicate ScopeShaped<A>(f: Field<ScopeNode<A>>) {
    && f.Present? && f.value.metrics.Present?
    && forall k :: 0 <= k < |f.value.metrics.value| ==> MetricShaped(f.value.metrics.value[k])
  }

  predicate ResourceShaped<A>(f: Field<ResourceNode<A>>) {
    && f.Present? && !f.value.attributes.Mistyped? && f.value.scopes.Present?
    && forall j :: 0 <= j < |f.value.scopes.value| ==> ScopeShaped(f.value.scopes.value[j])
  }

  predicate Shaped<A>(d: Document<A>) {
    && d.resources.Present?
    && forall i :: 0 <= i < |d.resources.value| ==> ResourceShaped(d.resources.value[i])
  }

  // ---------- the rewritten document ----------

  type DatapointV = Field<DatapointNode<Attributes>>
  type MetricV = Field<MetricNode<Attributes>>
  type ScopeV = Field<ScopeNode<Attributes>>
  type ResourceV = Field<ResourceNode<Attributes>>

  function MarkedField(f: Field<Attributes>, rule: Rule): Field<Attributes> {
    if f.Present? then Present(Marked(f.value, rule)) else f
  }

  function MarkedDatapoint(f: DatapointV, o: Options): DatapointV {
    if f.Present? then Present(DatapointNode(MarkedField(f.value.attributes, o.DatapointRule()))) else f
  }

  function MarkedDatapoints(s: seq<DatapointV>, o: Options): (r: seq<DatapointV>)
    ensures |r| == |s| && forall l :: 0 <= l < |s| ==> r[l] == MarkedDatapoint(s[l], o)
  {
    seq(|s|, l requires 0 <= l < |s| => MarkedDatapoint(s[l], o))
  }

  function MarkedMetric(f: MetricV, o: Options): MetricV {
    if f.Present? && f.value.datapoints.Present? then
      Present(f.value.(datapoints := Present(MarkedDatapoints(f.value.datapoints.value, o))))
    else f
  }

  function MarkedMetrics(s: seq<MetricV>, o: Options): (r: seq<MetricV>)
    ensures |r| == |s| && forall k :: 0 <= k < |s| ==> r[k] == MarkedMetric(s[k], o)
  {
    seq(|s|, k requires 0 <= k < |s| => MarkedMetric(s[k], o))
  }

  function MarkedScopeFields(fields: Attributes, pattern: string): Attributes {
    if pattern == "" then fields else (fields - {VERSION})[VERSION_REGEX := Str(pattern)]
  }

  function MarkedScope(f: ScopeV, o: Options): ScopeV {
    if f.Present? && f.value.metrics.Present? then
      Present(ScopeNode(MarkedScopeFields(f.value.fields, o.scopeVersionRegex), Present(MarkedMetrics(f.value.metrics.value, o))))
    else f
  }

  function MarkedScopes(s: seq<ScopeV>, o: Options): (r: seq<ScopeV>)
    ensures |r| == |s| && forall j :: 0 <= j < |s| ==> r[j] == MarkedScope(s[j], o)
  {
    seq(|s|, j requires 0 <= j < |s| => MarkedScope(s[j], o))
  }

  function MarkedResource(f: ResourceV, o: Options): ResourceV {
    if f.Present? && f.value.scopes.Present? then
      Present(ResourceNode(MarkedField(f.value.attributes, o.ResourceRule()), Present(MarkedScopes(f.value.scopes.value, o))))
    else f
  }

  function MarkedResources(s: seq<ResourceV>, o: Options): (r: seq<ResourceV>)
    ensures |r| == |s| && forall i :: 0 <= i < |s| ==> r[i] == MarkedResource(s[i], o)
  {
    seq(|s|, i requires 0 <= i < |s| => MarkedResource(s[i], o))
  }

  /** What a successful rewrite leaves. */
  function MarkedDocument(d: Document<Attributes>, o: Options): Document<Attributes> {
    if d.resources.Present? then Document(Present(MarkedResources(d.resources.value, o))) else d
  }

  // ---------- rewriting twice ----------

  lemma MarkedFieldTwice(f: Field<Attributes>, rule: Rule)
    requires KeepsMatchers(rule)
    ensures MarkedField(MarkedField(f, rule), rule) == MarkedField(f, rule)
  {
    if f.Present? {
      MarkingTwice(f.value, rule);
    }
  }

  lemma OptionsKeepMatchers(o: Options)
    ensures KeepsMatchers(o.ResourceRule()) && KeepsMatchers(o.DatapointRule())
  {
    RulesKeepMatchers(o.volatile, o.regex, if o.exactDatapointAttrs.Some? then o.exactDatapointAttrs.value else {});
  }

  lemma MarkedMetricTwice(f: MetricV, o: Options)
    ensures MarkedMetric(MarkedMetric(f, o), o) == MarkedMetric(f, o)
  {
    OptionsKeepMatchers(o);
    if f.Present? && f.value.datapoints.Present? {
      var s := f.value.datapoints.value;
      forall l | 0 <= l < |s| ensures MarkedDatapoint(MarkedDatapoint(s[l], o), o) == MarkedDatapoint(s[l], o) {
        if s[l].Present? {
          MarkedFieldTwice(s[l].value.attributes, o.DatapointRule());
        }
      }
      assert MarkedDatapoints(MarkedDatapoints(s, o), o) == MarkedDatapoints(s, o);
    }
  }

  lemma MarkedScopeTwice(f: ScopeV, o: Options)
    ensures MarkedScope(MarkedScope(f, o), o) == MarkedScope(f, o)
  {
    if f.Present? && f.value.metrics.Present? {
      var s := f.value.metrics.value;
      forall k | 0 <= k < |s| { MarkedMetricTwice(s[k], o); }
      assert MarkedMetrics(MarkedMetrics(s, o), o) == MarkedMetrics(s, o);
      var fields := MarkedScopeFields(f.value.fields, o.scopeVersionRegex);
      assert MarkedScopeFields(fields, o.scopeVersionRegex) == fields;
    }
  }

  lemma MarkedResourceTwice(f: ResourceV, o: Options)
    ensures MarkedResource(MarkedResource(f, o), o) == MarkedResource(f, o)
  {
    OptionsKeepMatchers(o);
    if f.Present? && f.value.scopes.Present? {
      var s := f.value.scopes.value;
      forall j | 0 <= j < |s| { MarkedScopeTwice(s[j], o); }
      assert MarkedScopes(MarkedScopes(s, o), o) == MarkedScopes(s, o);
      MarkedFieldTwice(f.value.attributes, o.ResourceRule());
    }
  }

  /** Rewriting a rewritten document with the same options changes nothing. */
  lemma RewritingTwice(d: Document<Attributes>, o: Options)
    ensures MarkedDocument(MarkedDocument(d, o), o) == MarkedDocument(d, o)
  {
    if d.resources.Present? {
      var s := d.resources.value;
      forall i | 0 <= i < |s| { MarkedResourceTwice(s[i], o); }
      assert MarkedResources(MarkedResources(s, o), o) == MarkedResources(s, o);
    }
  }

  // ---------- rewriting without options ----------

  lemma KeepingIsIdentity(m: Attributes, rule: Rule)
    requires forall key :: rule(key) == Keep
    ensures Marked(m, rule) == m
  {
    forall t ensures (t in Marked(m, rule) <==> t in m) && (t in m ==> Marked(m, rule)[t] == m[t]) {
      MarkedEntry(m, rule, t);
    }
  }

  lemma NothingToDoRules(o: Options)
    requires o.NothingToDo()
    ensures forall key :: o.ResourceRule()(key) == Keep
    ensures forall key :: o.DatapointRule()(key) == Keep
  {
    forall key ensures o.DatapointRule()(key) == Keep {
      assert FlexibleRule(o.volatile, o.regex)(key) == Keep;
    }
  }

  lemma NothingToDoDatapoint(f: DatapointV, o: Options)
    requires o.NothingToDo()
    ensures MarkedDatapoint(f, o) == f
  {
    NothingToDoRules(o);
    if f.Present? && f.value.attributes.Present? {
      KeepingIsIdentity(f.value.attributes.value, o.DatapointRule());
    }
  }

  lemma NothingToDoMetric(f: MetricV, o: Options)
    requires o.NothingToDo()
    ensures MarkedMetric(f, o) == f
  {
    if f.Present? && f.value.datapoints.Present? {
      var s := f.value.datapoints.value;
      forall l | 0 <= l < |s| { NothingToDoDatapoint(s[l], o); }
      assert MarkedDatapoints(s, o) == s;
    }
  }

  lemma NothingToDoScope(f: ScopeV, o: Options)
    requires o.NothingToDo()
    ensures MarkedScope(f, o) == f
  {
    if f.Present? && f.value.metrics.Present? {
      var s := f.value.metrics.value;
      forall k | 0 <= k < |s| { NothingToDoMetric(s[k], o); }
      assert MarkedMetrics(s, o) == s;
    }
  }

  lemma NothingToDoResource(f: ResourceV, o: Options)
    requires o.NothingToDo()
    ensures MarkedResource(f, o) == f
  {
    NothingToDoRules(o);
    if f.Present? && f.value.scopes.Present? {
      var s := f.value.scopes.value;
      forall j | 0 <= j < |s| { NothingToDoScope(s[j], o); }
      assert MarkedScopes(s, o) == s;
      if f.value.attributes.Present? {
        KeepingIsIdentity(f.value.attributes.value, o.ResourceRule());
      }
    }
  }

  /** Without options there is nothing to rewrite, so returning early changes nothing. */
  lemma NothingToDoDocument(d: Document<Attributes>, o: Options)
    requires o.NothingToDo()
    ensures MarkedDocument(d, o) == d
  {
    if d.resources.Present? {
      var s := d.resources.value;
      forall i | 0 <= i < |s| { NothingToDoResource(s[i], o); }
      assert MarkedResources(s, o) == s;
    }
  }

  // ---------- the expected counts ----------

  datatype Counts = Counts(resources: nat, metrics: nat) | Malformed | NothingExpected

  /** The counts loop looks less deep than the rewrite: it does not enter metrics. */
  predicate CountableScope<A>(f: Field<ScopeNode<A>>) {
    f.Present? && f.value.metrics.Present?
  }

  predicate CountableResource<A>(f: Field<ResourceNode<A>>) {
    && f.Present? && f.value.scopes.Present?
    && forall j :: 0 <= j < |f.value.scopes.value| ==> CountableScope(f.value.scopes.value[j])
  }

  predicate Countable<A>(d: Document<A>) {
    && d.resources.Present?
    && forall i :: 0 <= i < |d.resources.value| ==> CountableResource(d.resources.value[i])
  }

  function MetricsInScopes<A>(s: seq<Field<ScopeNode<A>>>, n: nat): nat {
    if !(0 < n <= |s|) then 0
    else MetricsInScopes(s, n - 1) + if CountableScope(s[n - 1]) then |s[n - 1].value.metrics.value| else 0
  }

  function MetricsInResources<A>(s: seq<Field<ResourceNode<A>>>, n: nat): nat {
    if !(0 < n <= |s|) then 0
    else
      MetricsInResources(s, n - 1)
      + if CountableResource(s[n - 1]) then MetricsInScopes(s[n - 1].value.scopes.value, |s[n - 1].value.scopes.value|) else 0
  }

  function ExpectedCounts<A>(d: Document<A>): Counts {
    if !Countable(d) then Malformed
    else
      var resources, metrics := |d.resources.value|, MetricsInResources(d.resources.value, |d.resources.value|);
      if resources == 0 || metrics == 0 then NothingExpected else Counts(resources, metrics)
  }

  method AssertionExpectedCounts<A>(d: Document<A>) returns (r: Counts)
    ensures r == ExpectedCounts(d)
  {
    if !d.resources.Present? {
      return Malformed;
    }
    var res := d.resources.value;
    var metrics := 0;
    for i := 0 to |res|
      invariant metrics == MetricsInResources(res, i)
      invariant forall x :: 0 <= x < i ==> CountableResource(res[x])
    {
      if !res[i].Present? || !res[i].value.scopes.Present? {
        return Malformed;
      }
      var scopes := res[i].value.scopes.value;
      ghost var before := metrics;
      for j := 0 to |scopes|
        invariant metrics == before + MetricsInScopes(scopes, j)
        invariant forall y :: 0 <= y < j ==> CountableScope(scopes[y])
      {
        if !scopes[j].Present? || !scopes[j].value.metrics.Present? {
          return Malformed;
        }
        metrics := metrics + |scopes[j].value.metrics.value|;
      }
    }
    if |res| == 0 || metrics == 0 {
      return NothingExpected;
    }
    return Counts(|res|, metrics);
  }

  lemma {:induction false} MarkingKeepsScopeCounts(s: seq<ScopeV>, o: Options, n: nat)
    ensures MetricsInScopes(MarkedScopes(s, o), n) == MetricsInScopes(s, n)
  {
    if 0 < n <= |s| {
      MarkingKeepsScopeCounts(s, o, n - 1);
    }
  }

  lemma MarkingKeepsCountable(f: ResourceV, o: Options)
    ensures CountableResource(MarkedResource(f, o)) <==> CountableResource(f)
  {
    if f.Present? && f.value.scopes.Present? {
      var s := f.value.scopes.value;
      forall j | 0 <= j < |s| ensures CountableScope(MarkedScopes(s, o)[j]) <==> CountableScope(s[j]) {}
      assert MarkedResource(f, o).value.scopes.value == MarkedScopes(s, o);
    }
  }

  lemma {:induction false} MarkingKeepsResourceCounts(s: seq<ResourceV>, o: Options, n: nat)
    ensures MetricsInResources(MarkedResources(s, o), n) == MetricsInResources(s, n)
  {
    if 0 < n <= |s| {
      MarkingKeepsResourceCounts(s, o, n - 1);
      MarkingKeepsCountable(s[n - 1], o);
      if CountableResource(s[n - 1]) {
        var scopes := s[n - 1].value.scopes.value;
        MarkingKeepsScopeCounts(scopes, o, |scopes|);
      }
    }
  }

  /** Rewriting changes neither the counts nor whether they can be read. */
  lemma RewritingKeepsCounts(d: Document<Attributes>, o: Options)
    ensures ExpectedCounts(MarkedDocument(d, o)) == ExpectedCounts(d)
  {
    if d.resources.Present? {
      var s := d.resources.value;
      forall i | 0 <= i < |s| ensures CountableResource(MarkedResources(s, o)[i]) <==> CountableResource(s[i]) {
        MarkingKeepsCountable(s[i], o);
      }
      MarkingKeepsResourceCounts(s, o, |s|);
    }
  }

  /** A document that can be rewritten can be counted, unless it is empty. */
  lemma RewritableIsReadable<A>(d: Document<A>)
    requires Shaped(d)
    ensures ExpectedCounts(d) != Malformed
  {
    forall i | 0 <= i < |d.resources.value| ensures CountableResource(d.resources.value[i]) {
      assert ResourceShaped(d.resources.value[i]);
    }
  }
}
