/**
 What a rewritten assertion document still pins: it accepts exactly the payloads that agree with
 the recorded one up to order and up to the values the options let vary.
 Models what markFlexibleAttrs and WriteMetricsAssertion in metricassert.go leave of a payload.
 */
module RewriteMeaning {
  import opened Pdata
  import opened Marking
  import opened AssertionDocument
  import opened Acceptance
  import opened DocumentAcceptance
  import opened GoldenUpdate
  import DocumentNames
  import opened Preparation

  // ---------- agreement up to flexible values ----------

  predicate AttrsAgree(m: Attributes, n: Attributes, rule: Rule, rx: Regex) {
    n.Keys == BaseNames(m) && forall key :: key in m ==> AskedAt(m, rule, key, n, rx)
  }

  /** With a scope pattern the version is there and matches; all other entries hold as they are. */
  predicate FieldsAgree(s: Attributes, t: Attributes, pattern: string, rx: Regex) {
    if pattern == "" then AcceptsMap(s, t, rx)
    else
      && t.Keys == BaseNames(s) + {VERSION} && rx(pattern, t[VERSION])
      && forall key :: key in s && key != VERSION && key != VERSION_REGEX ==> EntryHolds(key, s[key], t, rx)
  }

  ghost function DatapointsAgree(o: Options, rx: Regex): (Datapoint, Datapoint) -> bool {
    (a: Datapoint, b: Datapoint) => AttrsAgree(a.attributes, b.attributes, o.DatapointRule(), rx)
  }

  ghost predicate MetricAgrees(m: MetricView, n: MetricView, o: Options, rx: Regex) {
    Described(m) == Described(n) && Pairs(m.datapoints, n.datapoints, DatapointsAgree(o, rx))
  }

  ghost function MetricsAgree(o: Options, rx: Regex): (MetricView, MetricView) -> bool {
    (m: MetricView, n: MetricView) => MetricAgrees(m, n, o, rx)
  }

  ghost predicate ScopeAgrees(s: Scope, t: Scope, o: Options, rx: Regex) {
    FieldsAgree(s.fields, t.fields, o.scopeVersionRegex, rx) && Pairs(s.metrics, t.metrics, MetricsAgree(o, rx))
  }

  ghost function ScopesAgree(o: Options, rx: Regex): (Scope, Scope) -> bool {
    (s: Scope, t: Scope) => ScopeAgrees(s, t, o, rx)
  }

  ghost predicate ResourceAgrees(r: Resource, q: Resource, o: Options, rx: Regex) {
    AttrsAgree(r.attributes, q.attributes, o.ResourceRule(), rx) && Pairs(r.scopes, q.scopes, ScopesAgree(o, rx))
  }

  ghost function ResourcesAgree(o: Options, rx: Regex): (Resource, Resource) -> bool {
    (r: Resource, q: Resource) => ResourceAgrees(r, q, o, rx)
  }

  ghost predicate PayloadAgrees(p: Batch, q: Batch, o: Options, rx: Regex) {
    Pairs(p.resources, q.resources, ResourcesAgree(o, rx))
  }

  // ---------- level by level ----------

  /** Two lists that accept the same items, place by place, match the same lists of items. */
  lemma PairsSame<M, N, I>(a: seq<M>, b: seq<N>, items: seq<I>, accA: (M, I) -> bool, accB: (N, I) -> bool)
    requires |a| == |b|
    requires forall i, k :: 0 <= i < |a| && 0 <= k < |items| ==> (accA(a[i], items[k]) <==> accB(b[i], items[k]))
    ensures Pairs(a, items, accA) <==> Pairs(b, items, accB)
  {
    if Pairs(a, items, accA) {
      var p, q :| PairsBy(a, items, accA, p, q);
      assert PairsBy(b, items, accB, p, q);
    }
    if Pairs(b, items, accB) {
      var p, q :| PairsBy(b, items, accB, p, q);
      assert PairsBy(a, items, accA, p, q);
    }
  }

  /** In plain words, for attributes no name of which looks like a matcher key. */
  lemma PlainAttrsAgree(m: Attributes, n: Attributes, rule: Rule, rx: Regex)
    requires Plain(m) && KeepsMatchers(rule)
    ensures AttrsAgree(m, n, rule, rx) <==> m.Keys == n.Keys && forall key :: key in m ==> StillAsked(m[key], rule(key), n[key], rx)
  {
    MarkedAcceptsExactly(m, n, rule, rx);
    PlainMarkedAcceptsExactly(m, n, rule, rx);
  }

  lemma PlainFieldsAgree(m: Attributes, n: Attributes, pattern: string, rx: Regex)
    requires Plain(m)
    ensures pattern == "" ==> (FieldsAgree(m, n, pattern, rx) <==> m == n)
    ensures pattern != "" ==>
              (FieldsAgree(m, n, pattern, rx) <==>
                 && n.Keys == m.Keys + {VERSION} && rx(pattern, n[VERSION])
                 && forall key :: key in m && key != VERSION ==> n[key] == m[key])
  {
    PlainBaseNames(m);
    PlainEntries(m, n, rx);
    VersionKeys();
    if pattern == "" && AcceptsMap(m, n, rx) {
      forall key | key in m ensures n[key] == m[key] {
        assert EntryHolds(key, m[key], n, rx);
      }
    }
  }

  lemma PlainEntries(m: Attributes, n: Attributes, rx: Regex)
    requires Plain(m)
    ensures forall key :: key in m ==> (EntryHolds(key, m[key], n, rx) <==> key in n && n[key] == m[key])
  {
    forall key | key in m ensures EntryHolds(key, m[key], n, rx) <==> key in n && n[key] == m[key] {
      assert !Suffixed(key);
    }
  }

  lemma FieldsAcceptExactly(s: Attributes, t: Attributes, pattern: string, rx: Regex)
    ensures AcceptsMap(MarkedScopeFields(s, pattern), t, rx) <==> FieldsAgree(s, t, pattern, rx)
  {
    if pattern != "" {
      var after := MarkedScopeFields(s, pattern);
      VersionKeys();
      DocumentNames.VersionNames(s, pattern);
      assert EntryHolds(VERSION_REGEX, Str(pattern), t, rx) <==> VERSION in t && rx(pattern, t[VERSION]);
      assert forall key :: key in after <==> key == VERSION_REGEX || (key in s && key != VERSION);
      assert forall key :: key in s && key != VERSION && key != VERSION_REGEX ==> after[key] == s[key];
      if AcceptsMap(after, t, rx) {
        assert EntryHolds(VERSION_REGEX, after[VERSION_REGEX], t, rx);
      }
    }
  }

  lemma AttrsAcceptExactly(m: Attributes, n: Attributes, rule: Rule, rx: Regex)
    requires KeepsMatchers(rule)
    ensures AcceptsMap(Marked(m, rule), n, rx) <==> AttrsAgree(m, n, rule, rx)
  {
    MarkedAcceptsExactly(m, n, rule, rx);
  }

  lemma AcceptsPresent(entries: Attributes, b: Datapoint, rx: Regex)
    ensures AcceptsDatapoint(Present(DatapointNode(Present(entries))), b, rx) <==> AcceptsMap(entries, b.attributes, rx)
  {
  }

  lemma DatapointAcceptsExactly(a: Datapoint, b: Datapoint, o: Options, rx: Regex)
    ensures DatapointAcc(rx)(MarkedDatapoint(WrittenDatapoint(a), o), b) <==> DatapointsAgree(o, rx)(a, b)
  {
    OptionsKeepMatchers(o);
    var marked := Marked(a.attributes, o.DatapointRule());
    AttrsAcceptExactly(a.attributes, b.attributes, o.DatapointRule(), rx);
    assert MarkedDatapoint(WrittenDatapoint(a), o) == Present(DatapointNode(Present(marked)));
    AcceptsPresent(marked, b, rx);
  }

  lemma MetricAcceptsExactly(m: MetricView, n: MetricView, o: Options, rx: Regex)
    ensures MetricAcc(rx)(MarkedMetric(WrittenMetric(m), o), n) <==> MetricsAgree(o, rx)(m, n)
  {
    var nodes := MarkedDatapoints(WrittenDatapoints(m.datapoints), o);
    forall i, k | 0 <= i < |nodes| && 0 <= k < |n.datapoints|
      ensures DatapointAcc(rx)(nodes[i], n.datapoints[k]) <==> DatapointsAgree(o, rx)(m.datapoints[i], n.datapoints[k])
    {
      DatapointAcceptsExactly(m.datapoints[i], n.datapoints[k], o, rx);
    }
    PairsSame(nodes, m.datapoints, n.datapoints, DatapointAcc(rx), DatapointsAgree(o, rx));
  }

  lemma ScopeAcceptsExactly(s: Scope, t: Scope, o: Options, rx: Regex)
    ensures ScopeAcc(rx)(MarkedScope(WrittenScope(s), o), t) <==> ScopesAgree(o, rx)(s, t)
  {
    FieldsAcceptExactly(s.fields, t.fields, o.scopeVersionRegex, rx);
    var nodes := MarkedMetrics(WrittenMetrics(s.metrics), o);
    forall i, k | 0 <= i < |nodes| && 0 <= k < |t.metrics|
      ensures MetricAcc(rx)(nodes[i], t.metrics[k]) <==> MetricsAgree(o, rx)(s.metrics[i], t.metrics[k])
    {
      MetricAcceptsExactly(s.metrics[i], t.metrics[k], o, rx);
    }
    PairsSame(nodes, s.metrics, t.metrics, MetricAcc(rx), MetricsAgree(o, rx));
  }

  lemma ResourceAcceptsExactly(r: Resource, q: Resource, o: Options, rx: Regex)
    ensures ResourceAcc(rx)(MarkedResource(WrittenResource(r), o), q) <==> ResourcesAgree(o, rx)(r, q)
  {
    OptionsKeepMatchers(o);
    AttrsAcceptExactly(r.attributes, q.attributes, o.ResourceRule(), rx);
    var nodes := MarkedScopes(WrittenScopes(r.scopes), o);
    forall i, k | 0 <= i < |nodes| && 0 <= k < |q.scopes|
      ensures ScopeAcc(rx)(nodes[i], q.scopes[k]) <==> ScopesAgree(o, rx)(r.scopes[i], q.scopes[k])
    {
      ScopeAcceptsExactly(r.scopes[i], q.scopes[k], o, rx);
    }
    PairsSame(nodes, r.scopes, q.scopes, ScopeAcc(rx), ScopesAgree(o, rx));
  }

  /**
   The rewritten document of a payload accepts exactly the payloads that agree with it: the same
   tree up to order, the same names, equal values where nothing was asked for, and matching ones
   where a pattern was.
   */
  lemma RewrittenAcceptsExactly(p: Batch, q: Batch, o: Options, rx: Regex)
    ensures AcceptsDocument(MarkedDocument(Written(p), o), q, rx) <==> PayloadAgrees(p, q, o, rx)
  {
    var nodes := MarkedResources(WrittenResources(p.resources), o);
    forall i, k | 0 <= i < |nodes| && 0 <= k < |q.resources|
      ensures ResourceAcc(rx)(nodes[i], q.resources[k]) <==> ResourcesAgree(o, rx)(p.resources[i], q.resources[k])
    {
      ResourceAcceptsExactly(p.resources[i], q.resources[k], o, rx);
    }
    PairsSame(nodes, p.resources, q.resources, ResourceAcc(rx), ResourcesAgree(o, rx));
  }

  /**
   End to end: after a refresh from one batch, a later batch passes if and only if the two,
   once prepared, agree.
   */
  lemma RefreshedAcceptsExactly(selected: Batch, later: Batch, cfg: Config, hash: MapHash, rx: Regex)
    ensures AcceptsDocument(Refreshed(Prepared(selected, cfg, hash), cfg, hash), Prepared(later, cfg, hash), rx)
       <==> PayloadAgrees(Prepared(selected, cfg, hash), Prepared(later, cfg, hash), OptionsOf(cfg), rx)
  {
    PreparationIsIdempotent(selected, cfg, hash);
    RewrittenAcceptsExactly(Prepared(selected, cfg, hash), Prepared(later, cfg, hash), OptionsOf(cfg), rx);
  }

  // ---------- a payload and its own document ----------

  ghost function DatapointNames(s: seq<Datapoint>): (r: set<string>)
    ensures forall l :: 0 <= l < |s| ==> s[l].attributes.Keys <= r
  {
    set l, key | 0 <= l < |s| && key in s[l].attributes :: key
  }

  ghost function ScopeNames(s: Scope): (r: set<string>)
    ensures s.fields.Keys <= r && forall k :: 0 <= k < |s.metrics| ==> DatapointNames(s.metrics[k].datapoints) <= r
  {
    s.fields.Keys + set k, key | 0 <= k < |s.metrics| && key in DatapointNames(s.metrics[k].datapoints) :: key
  }

  ghost function ResourceNames(r: Resource): (names: set<string>)
    ensures r.attributes.Keys <= names && forall j :: 0 <= j < |r.scopes| ==> ScopeNames(r.scopes[j]) <= names
  {
    r.attributes.Keys + set j, key | 0 <= j < |r.scopes| && key in ScopeNames(r.scopes[j]) :: key
  }

  /** All attribute names of a payload. */
  ghost function PayloadNames(p: Batch): (names: set<string>)
    ensures forall i :: 0 <= i < |p.resources| ==> ResourceNames(p.resources[i]) <= names
  {
    set i, key | 0 <= i < |p.resources| && key in ResourceNames(p.resources[i]) :: key
  }

  lemma AttrsCovered(m: Attributes, n: Attributes, rule: Rule, rx: Regex)
    requires AttrsAgree(m, n, rule, rx)
    ensures Covered(m.Keys, n.Keys)
  {
    AcceptedIsCovered(m, n);
  }

  lemma DatapointCovered(a: Datapoint, b: Datapoint, o: Options, rx: Regex)
    requires DatapointsAgree(o, rx)(a, b)
    ensures Covered(a.attributes.Keys, b.attributes.Keys)
  {
    AttrsCovered(a.attributes, b.attributes, o.DatapointRule(), rx);
  }

  lemma DatapointsCovered(a: seq<Datapoint>, b: seq<Datapoint>, o: Options, rx: Regex)
    requires Pairs(a, b, DatapointsAgree(o, rx))
    ensures Covered(DatapointNames(a), DatapointNames(b))
  {
    forall k ensures CoveredName(DatapointNames(a), DatapointNames(b), k) {
      if k in DatapointNames(b) {
        var l :| 0 <= l < |b| && k in b[l].attributes;
        var i := PairsCover(a, b, DatapointsAgree(o, rx), l);
        DatapointCovered(a[i], b[l], o, rx);
        CoveredByMore(a[i].attributes.Keys, b[l].attributes.Keys, DatapointNames(a), DatapointNames(b), k);
      }
    }
  }

  lemma FieldsCovered(s: Attributes, t: Attributes, pattern: string, rx: Regex)
    requires FieldsAgree(s, t, pattern, rx)
    ensures Covered(s.Keys, t.Keys)
  {
    VersionKeys();
    AcceptedIsCovered(s, t);
  }

  lemma ScopesCovered(s: Scope, t: Scope, o: Options, rx: Regex)
    requires ScopeAgrees(s, t, o, rx)
    ensures Covered(ScopeNames(s), ScopeNames(t))
  {
    FieldsCovered(s.fields, t.fields, o.scopeVersionRegex, rx);
    forall k ensures CoveredName(ScopeNames(s), ScopeNames(t), k) {
      if k in t.fields.Keys {
        CoveredByMore(s.fields.Keys, t.fields.Keys, ScopeNames(s), ScopeNames(t), k);
      } else if k in ScopeNames(t) {
        var l :| 0 <= l < |t.metrics| && k in DatapointNames(t.metrics[l].datapoints);
        var i := PairsCover(s.metrics, t.metrics, MetricsAgree(o, rx), l);
        var a, b := s.metrics[i].datapoints, t.metrics[l].datapoints;
        DatapointsCovered(a, b, o, rx);
        CoveredByMore(DatapointNames(a), DatapointNames(b), ScopeNames(s), ScopeNames(t), k);
      }
    }
  }

  lemma ResourcesCovered(r: Resource, q: Resource, o: Options, rx: Regex)
    requires ResourceAgrees(r, q, o, rx)
    ensures Covered(ResourceNames(r), ResourceNames(q))
  {
    AttrsCovered(r.attributes, q.attributes, o.ResourceRule(), rx);
    forall k ensures CoveredName(ResourceNames(r), ResourceNames(q), k) {
      if k in q.attributes.Keys {
        CoveredByMore(r.attributes.Keys, q.attributes.Keys, ResourceNames(r), ResourceNames(q), k);
      } else if k in ResourceNames(q) {
        var l :| 0 <= l < |q.scopes| && k in ScopeNames(q.scopes[l]);
        var i := PairsCover(r.scopes, q.scopes, ScopesAgree(o, rx), l);
        ScopesCovered(r.scopes[i], q.scopes[l], o, rx);
        CoveredByMore(ScopeNames(r.scopes[i]), ScopeNames(q.scopes[l]), ResourceNames(r), ResourceNames(q), k);
      }
    }
  }

  lemma PayloadsCovered(p: Batch, q: Batch, o: Options, rx: Regex)
    requires PayloadAgrees(p, q, o, rx)
    ensures Covered(PayloadNames(p), PayloadNames(q))
  {
    forall k ensures CoveredName(PayloadNames(p), PayloadNames(q), k) {
      if k in PayloadNames(q) {
        var l :| 0 <= l < |q.resources| && k in ResourceNames(q.resources[l]);
        var i := PairsCover(p.resources, q.resources, ResourcesAgree(o, rx), l);
        ResourcesCovered(p.resources[i], q.resources[l], o, rx);
        CoveredByMore(ResourceNames(p.resources[i]), ResourceNames(q.resources[l]), PayloadNames(p), PayloadNames(q), k);
      }
    }
  }

  lemma NamesArePlain(p: Batch)
    requires forall k :: k in PayloadNames(p) ==> !Suffixed(k)
    ensures PlainPayload(p)
  {
    forall i | 0 <= i < |p.resources| ensures PlainResource(p.resources[i]) {
      var r := p.resources[i];
      forall j | 0 <= j < |r.scopes| ensures PlainScope(r.scopes[j]) {
        ScopeIsPlain(r.scopes[j]);
      }
    }
  }

  lemma ScopeIsPlain(s: Scope)
    requires forall k :: k in ScopeNames(s) ==> !Suffixed(k)
    ensures PlainScope(s)
  {
    forall k | 0 <= k < |s.metrics| ensures PlainDatapoints(s.metrics[k].datapoints) {
      var dps := s.metrics[k].datapoints;
      assert forall l :: 0 <= l < |dps| ==> dps[l].attributes.Keys <= DatapointNames(dps);
    }
  }

  /** Whatever the options, a payload agrees with itself only if no attribute name looks like a matcher key. */
  lemma OwnAgreementIsPlain(p: Batch, o: Options, rx: Regex)
    requires PayloadAgrees(p, p, o, rx)
    ensures PlainPayload(p)
  {
    PayloadsCovered(p, p, o, rx);
    CoveredArePlain(PayloadNames(p));
    NamesArePlain(p);
  }

  /** The exact document of a payload accepts it if and only if no attribute name looks like a matcher key. */
  lemma WrittenAcceptsOwnExactly(p: Batch, rx: Regex)
    ensures AcceptsDocument(Written(p), p, rx) <==> PlainPayload(p)
  {
    if PlainPayload(p) {
      WrittenAcceptsOwn(p, rx);
    }
    if AcceptsDocument(Written(p), p, rx) {
      var none := Options({}, map[], "", None);
      NothingToDoDocument(Written(p), none);
      RewrittenAcceptsExactly(p, p, none, rx);
      OwnAgreementIsPlain(p, none, rx);
    }
  }

  /**
   The refresh hands its prepared payload to the writer, which prepares it again. The payload
   that is then asserted passes exactly when the patterns fit it and no name looks like a matcher key.
   */
  lemma RefreshPassesExactly(selected: Batch, cfg: Config, hash: MapHash, rx: Regex)
    ensures var actual := Prepared(selected, cfg, hash);
            AcceptsDocument(Refreshed(actual, cfg, hash), actual, rx)
            <==> PlainPayload(actual) && DocumentFits(Written(actual), OptionsOf(cfg), rx)
  {
    var actual, o := Prepared(selected, cfg, hash), OptionsOf(cfg);
    PreparationIsIdempotent(selected, cfg, hash);
    if AcceptsDocument(MarkedDocument(Written(actual), o), actual, rx) {
      RewrittenAcceptsExactly(actual, actual, o, rx);
      OwnAgreementIsPlain(actual, o, rx);
      AcceptedFits(actual, actual, o, rx);
    }
    if PlainPayload(actual) && DocumentFits(Written(actual), o, rx) {
      WrittenAcceptsOwn(actual, rx);
      RewritingWeakens(Written(actual), actual, o, rx);
    }
  }
}
