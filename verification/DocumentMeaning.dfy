/**
 What the rewrite of an assertion document does to every attribute map and every scope of its
 tree, with keys, suffixes and priorities written out, and exactly which documents it and the
 count reader refuse. Models markFlexibleAttrs and assertionExpectedCounts of metricassert.go.
 */
module DocumentMeaning {
  import opened Pdata
  import opened Text
  import opened Marking
  import opened AssertionDocument
  import opened DocumentAcceptance
  import opened GoldenUpdate
  import opened Preparation

  // ---------- one attribute map ----------

  /** No matcher key: it ends neither in `/exists` nor in `/regex`. */
  ghost predicate IsExactKey(key: string) {
    !(exists a: string :: key == a + "/exists") && !(exists a: string :: key == a + "/regex")
  }

  lemma ExactKeys(key: string)
    ensures IsExactKey(key) <==> !Suffixed(key)
  {
    HasSuffixExactly(key, "/exists");
    HasSuffixExactly(key, "/regex");
  }

  /** An exact entry after the rewrite: a pattern comes first, then volatility, then being listed or no list at all. */
  ghost predicate IsMarkedEntry(m: Attributes, r: Attributes, key: string, volatile: set<string>, regex: map<string, string>, exact: Option<set<string>>)
    requires key in m
  {
    if key in regex then key !in r && key + "/regex" in r && r[key + "/regex"] == Str(regex[key])
    else if key in volatile || (exact.Some? && key !in exact.value) then
      key !in r && key + "/exists" in r && r[key + "/exists"] == Bool(true)
    else key in r && r[key] == m[key]
  }

  /** The whole map after the rewrite: the exact entries as said, matcher entries as they were unless one of those took their place, and no other. */
  ghost predicate IsMarked(m: Attributes, r: Attributes, volatile: set<string>, regex: map<string, string>, exact: Option<set<string>>) {
    && (forall key :: key in m && IsExactKey(key) ==> IsMarkedEntry(m, r, key, volatile, regex, exact))
    && (forall t :: t in m && !IsExactKey(t) ==>
          t in r && (r[t] == m[t] || exists key :: key in m && IsExactKey(key) && key !in r && (t == key + "/exists" || t == key + "/regex")))
    && (forall t :: t in r ==>
          t in m || exists key :: key in m && IsExactKey(key) && key !in r && (t == key + "/exists" || t == key + "/regex"))
  }

  lemma MarkedEntryExactly(m: Attributes, volatile: set<string>, regex: map<string, string>, exact: Option<set<string>>, key: string)
    requires key in m && IsExactKey(key)
    ensures IsMarkedEntry(m, Marked(m, Marking.DatapointRule(volatile, regex, exact)), key, volatile, regex, exact)
  {
    ExactKeys(key);
    MarkedByPriority(m, volatile, regex, exact, key);
  }

  /** An entry that is where it was not, or is other than it was, took the place of an exact entry. */
  lemma MovedExactly(m: Attributes, rule: Rule, t: string)
    requires KeepsMatchers(rule) && Moved(m, rule, t)
    ensures exists key :: key in m && IsExactKey(key) && key !in Marked(m, rule) && (t == key + "/exists" || t == key + "/regex")
  {
    var key := Base(t);
    SuffixBase(key, rule(key));
    ExactKeys(key);
    MarkedKey(m, rule, key);
    assert t == key + "/exists" || t == key + "/regex";
  }

  lemma MarkedExactly(m: Attributes, volatile: set<string>, regex: map<string, string>, exact: Option<set<string>>)
    ensures IsMarked(m, Marked(m, Marking.DatapointRule(volatile, regex, exact)), volatile, regex, exact)
  {
    var rule := Marking.DatapointRule(volatile, regex, exact);
    var r := Marked(m, rule);
    RulesKeepMatchers(volatile, regex, if exact.Some? then exact.value else {});
    forall key | key in m && IsExactKey(key) ensures IsMarkedEntry(m, r, key, volatile, regex, exact) {
      MarkedEntryExactly(m, volatile, regex, exact, key);
    }
    forall t | t in m && !IsExactKey(t)
      ensures t in r && (r[t] == m[t] || exists key :: key in m && IsExactKey(key) && key !in r && (t == key + "/exists" || t == key + "/regex"))
    {
      ExactKeys(t);
      MarkedEntry(m, rule, t);
      if Moved(m, rule, t) {
        MovedExactly(m, rule, t);
      }
    }
    forall t | t in r
      ensures t in m || exists key :: key in m && IsExactKey(key) && key !in r && (t == key + "/exists" || t == key + "/regex")
    {
      MarkedEntry(m, rule, t);
      if Moved(m, rule, t) {
        MovedExactly(m, rule, t);
      }
    }
  }

  lemma ResourceMarkedExactly(m: Attributes, volatile: set<string>, regex: map<string, string>)
    ensures IsMarked(m, Marked(m, FlexibleRule(volatile, regex)), volatile, regex, None)
  {
    MarkedExactly(m, volatile, regex, None);
    OnePass(m, volatile, regex);
  }

  /** The fields of a scope: with a pattern, `version` gives way to `version/regex`, and all else stays. */
  ghost predicate IsVersioned(m: Attributes, r: Attributes, pattern: string) {
    if pattern == "" then r == m
    else
      && "version" !in r && "version/regex" in r && r["version/regex"] == Str(pattern)
      && forall key :: key != "version" && key != "version/regex" ==> (key in r <==> key in m) && (key in m ==> r[key] == m[key])
  }

  // ---------- the tree ----------

  ghost predicate IsMarkedField(f: Field<Attributes>, g: Field<Attributes>, volatile: set<string>, regex: map<string, string>, exact: Option<set<string>>) {
    if f.Present? then g.Present? && IsMarked(f.value, g.value, volatile, regex, exact) else g == f
  }

  ghost predicate IsRewrittenMetric(f: MetricV, g: MetricV, volatile: set<string>, regex: map<string, string>, exact: Option<set<string>>)
    requires MetricShaped(f)
  {
    && MetricShaped(g) && g.value.fields == f.value.fields
    && var s, t := f.value.datapoints, g.value.datapoints;
       if s.Present? then
         && t.Present? && |t.value| == |s.value|
         && forall l :: 0 <= l < |s.value| ==> IsMarkedField(s.value[l].value.attributes, t.value[l].value.attributes, volatile, regex, exact)
       else t == s
  }

  ghost predicate IsRewrittenScope(f: ScopeV, g: ScopeV, volatile: set<string>, regex: map<string, string>, pattern: string, exact: Option<set<string>>)
    requires ScopeShaped(f)
  {
    && ScopeShaped(g) && IsVersioned(f.value.fields, g.value.fields, pattern)
    && |g.value.metrics.value| == |f.value.metrics.value|
    && forall k :: 0 <= k < |f.value.metrics.value| ==>
         IsRewrittenMetric(f.value.metrics.value[k], g.value.metrics.value[k], volatile, regex, exact)
  }

  /** A list of exact attributes is for datapoints only. */
  ghost predicate IsRewrittenResource(f: ResourceV, g: ResourceV, volatile: set<string>, regex: map<string, string>, pattern: string, exact: Option<set<string>>)
    requires ResourceShaped(f)
  {
    && ResourceShaped(g) && IsMarkedField(f.value.attributes, g.value.attributes, volatile, regex, None)
    && |g.value.scopes.value| == |f.value.scopes.value|
    && forall j :: 0 <= j < |f.value.scopes.value| ==>
         IsRewrittenScope(f.value.scopes.value[j], g.value.scopes.value[j], volatile, regex, pattern, exact)
  }

  ghost predicate IsRewritten(d: Document<Attributes>, e: Document<Attributes>, volatile: set<string>, regex: map<string, string>,
    pattern: string, exact: Option<set<string>>)
    requires Shaped(d)
  {
    && Shaped(e) && |e.resources.value| == |d.resources.value|
    && forall i :: 0 <= i < |d.resources.value| ==>
         IsRewrittenResource(d.resources.value[i], e.resources.value[i], volatile, regex, pattern, exact)
  }

  lemma DatapointRewritten(f: DatapointV, o: Options)
    requires DatapointShaped(f)
    ensures var g := MarkedDatapoint(f, o);
            && DatapointShaped(g)
            && IsMarkedField(f.value.attributes, g.value.attributes, o.volatile, o.regex, o.exactDatapointAttrs)
  {
    if f.value.attributes.Present? {
      MarkedExactly(f.value.attributes.value, o.volatile, o.regex, o.exactDatapointAttrs);
    }
  }

  lemma MetricRewritten(f: MetricV, o: Options)
    requires MetricShaped(f)
    ensures IsRewrittenMetric(f, MarkedMetric(f, o), o.volatile, o.regex, o.exactDatapointAttrs)
  {
    if f.value.datapoints.Present? {
      var s := f.value.datapoints.value;
      forall l | 0 <= l < |s|
        ensures DatapointShaped(MarkedDatapoints(s, o)[l])
        ensures IsMarkedField(s[l].value.attributes, MarkedDatapoints(s, o)[l].value.attributes, o.volatile, o.regex, o.exactDatapointAttrs)
      {
        DatapointRewritten(s[l], o);
      }
    }
  }

  lemma ScopeRewritten(f: ScopeV, o: Options)
    requires ScopeShaped(f)
    ensures IsRewrittenScope(f, MarkedScope(f, o), o.volatile, o.regex, o.scopeVersionRegex, o.exactDatapointAttrs)
  {
    var s := f.value.metrics.value;
    forall k | 0 <= k < |s|
      ensures IsRewrittenMetric(s[k], MarkedMetrics(s, o)[k], o.volatile, o.regex, o.exactDatapointAttrs)
    {
      MetricRewritten(s[k], o);
    }
    VersionedExactly(f.value.fields, o.scopeVersionRegex);
  }

  lemma VersionedExactly(fields: Attributes, pattern: string)
    ensures IsVersioned(fields, MarkedScopeFields(fields, pattern), pattern)
  {
    assert VERSION != VERSION_REGEX by { assert |VERSION| != |VERSION_REGEX|; }
  }

  lemma ResourceRewritten(f: ResourceV, o: Options)
    requires ResourceShaped(f)
    ensures IsRewrittenResource(f, MarkedResource(f, o), o.volatile, o.regex, o.scopeVersionRegex, o.exactDatapointAttrs)
  {
    var s := f.value.scopes.value;
    forall j | 0 <= j < |s|
      ensures IsRewrittenScope(s[j], MarkedScopes(s, o)[j], o.volatile, o.regex, o.scopeVersionRegex, o.exactDatapointAttrs)
    {
      ScopeRewritten(s[j], o);
    }
    if f.value.attributes.Present? {
      ResourceMarkedExactly(f.value.attributes.value, o.volatile, o.regex);
    }
  }

  /** The rewritten document, at every resource, scope, metric and datapoint, in terms of the options. */
  lemma RewrittenExactly(d: Document<Attributes>, o: Options)
    requires Shaped(d)
    ensures IsRewritten(d, MarkedDocument(d, o), o.volatile, o.regex, o.scopeVersionRegex, o.exactDatapointAttrs)
  {
    var s := d.resources.value;
    forall i | 0 <= i < |s|
      ensures IsRewrittenResource(s[i], MarkedResources(s, o)[i], o.volatile, o.regex, o.scopeVersionRegex, o.exactDatapointAttrs)
    {
      ResourceRewritten(s[i], o);
    }
  }

  // ---------- the refreshed document ----------

  lemma WrittenIsShaped(p: Batch)
    ensures Shaped(Written(p))
  {
    forall i | 0 <= i < |p.resources| ensures ResourceShaped(WrittenResources(p.resources)[i]) {
      var r := p.resources[i];
      forall j | 0 <= j < |r.scopes| ensures ScopeShaped(WrittenScopes(r.scopes)[j]) {
        var s := r.scopes[j];
        forall k | 0 <= k < |s.metrics| ensures MetricShaped(WrittenMetrics(s.metrics)[k]) {}
      }
    }
  }

  /** What a refresh leaves in the file, in terms of the configuration: the prepared payload, written and rewritten. */
  lemma RefreshedExactly(actual: Batch, cfg: Config, hash: MapHash)
    ensures Shaped(Written(Prepared(actual, cfg, hash)))
    ensures IsRewritten(Written(Prepared(actual, cfg, hash)), Refreshed(actual, cfg, hash),
                        (set a | a in cfg.volatileAttrs), cfg.regexAttrs, cfg.scopeVersionRegex, cfg.exactDatapointAttrs)
  {
    WrittenIsShaped(Prepared(actual, cfg, hash));
    RewrittenExactly(Written(Prepared(actual, cfg, hash)), OptionsOf(cfg));
  }

  // ---------- refused documents ----------

  /** The rewrite refuses exactly the documents with a node of the wrong type on the way; only attributes and datapoints may be missing. */
  lemma RefusedExactly(d: Document<Attributes>)
    ensures !Shaped(d) <==>
              || !d.resources.Present?
              || exists i :: 0 <= i < |d.resources.value| && RefusedResource(d.resources.value[i])
  {
    if d.resources.Present? {
      forall i | 0 <= i < |d.resources.value| ensures RefusedResource(d.resources.value[i]) <==> !ResourceShaped(d.resources.value[i]) {
        RefusedResourceExactly(d.resources.value[i]);
      }
    }
  }

  predicate RefusedDatapoint(f: DatapointV) {
    !f.Present? || f.value.attributes.Mistyped?
  }

  predicate RefusedMetric(f: MetricV) {
    || !f.Present? || f.value.datapoints.Mistyped?
    || (f.value.datapoints.Present? && exists l :: 0 <= l < |f.value.datapoints.value| && RefusedDatapoint(f.value.datapoints.value[l]))
  }

  predicate RefusedScope(f: ScopeV) {
    || !f.Present? || !f.value.metrics.Present?
    || exists k :: 0 <= k < |f.value.metrics.value| && RefusedMetric(f.value.metrics.value[k])
  }

  predicate RefusedResource(f: ResourceV) {
    || !f.Present? || f.value.attributes.Mistyped? || !f.value.scopes.Present?
    || exists j :: 0 <= j < |f.value.scopes.value| && RefusedScope(f.value.scopes.value[j])
  }

  lemma RefusedScopeExactly(f: ScopeV)
    ensures RefusedScope(f) <==> !ScopeShaped(f)
  {
    if f.Present? && f.value.metrics.Present? {
      var s := f.value.metrics.value;
      forall k | 0 <= k < |s| ensures RefusedMetric(s[k]) <==> !MetricShaped(s[k]) {}
    }
  }

  lemma RefusedResourceExactly(f: ResourceV)
    ensures RefusedResource(f) <==> !ResourceShaped(f)
  {
    if f.Present? && f.value.scopes.Present? {
      var s := f.value.scopes.value;
      forall j | 0 <= j < |s| ensures RefusedScope(s[j]) <==> !ScopeShaped(s[j]) {
        RefusedScopeExactly(s[j]);
      }
    }
  }

  /** The count reader refuses a document exactly when a resource or a scope is no map, or a list of them or of metrics is no list. */
  lemma UncountableExactly<A>(d: Document<A>)
    ensures ExpectedCounts(d) == Malformed <==>
              || !d.resources.Present?
              || exists i :: 0 <= i < |d.resources.value| && UncountableResource(d.resources.value[i])
  {
    if d.resources.Present? {
      forall i | 0 <= i < |d.resources.value|
        ensures UncountableResource(d.resources.value[i]) <==> !CountableResource(d.resources.value[i]) {}
    }
  }

  predicate EmptyScope<A>(f: Field<ScopeNode<A>>) {
    f.Present? && f.value.metrics.Present? && |f.value.metrics.value| == 0
  }

  predicate EmptyResource<A>(f: Field<ResourceNode<A>>) {
    && f.Present? && f.value.scopes.Present?
    && forall j :: 0 <= j < |f.value.scopes.value| ==> EmptyScope(f.value.scopes.value[j])
  }

  /** Nothing is expected exactly when every scope of every resource can be read and has no metrics. */
  lemma NothingExpectedExactly<A>(d: Document<A>)
    ensures ExpectedCounts(d) == NothingExpected <==>
              d.resources.Present? && forall i :: 0 <= i < |d.resources.value| ==> EmptyResource(d.resources.value[i])
  {
    if d.resources.Present? {
      var s := d.resources.value;
      if Countable(d) {
        NoMetricsInResources(s, |s|);
      } else {
        var i :| 0 <= i < |s| && !CountableResource(s[i]);
        assert !EmptyResource(s[i]);
      }
    }
  }

  lemma {:induction false} NoMetricsInScopes<A>(s: seq<Field<ScopeNode<A>>>, n: nat)
    requires n <= |s| && forall j :: 0 <= j < n ==> CountableScope(s[j])
    ensures MetricsInScopes(s, n) == 0 <==> forall j :: 0 <= j < n ==> EmptyScope(s[j])
  {
    if n > 0 {
      NoMetricsInScopes(s, n - 1);
    }
  }

  lemma {:induction false} NoMetricsInResources<A>(s: seq<Field<ResourceNode<A>>>, n: nat)
    requires n <= |s| && forall i :: 0 <= i < n ==> CountableResource(s[i])
    ensures MetricsInResources(s, n) == 0 <==> forall i :: 0 <= i < n ==> EmptyResource(s[i])
  {
    if n > 0 {
      var scopes := s[n - 1].value.scopes.value;
      NoMetricsInResources(s, n - 1);
      NoMetricsInScopes(scopes, |scopes|);
    }
  }

  predicate UncountableResource<A>(f: Field<ResourceNode<A>>) {
    || !f.Present? || !f.value.scopes.Present?
    || exists j :: 0 <= j < |f.value.scopes.value| && (!f.value.scopes.value[j].Present? || !f.value.scopes.value[j].value.metrics.Present?)
  }
}
