/**
 The attribute names a document speaks about, at every node of its tree, and what rewriting
 does to them. Models the rewrite of markFlexibleAttrs in metricassert.go.
 */
module DocumentNames {
  import opened Pdata
  import opened Marking
  import opened AssertionDocument
  import opened DocumentAcceptance

  type Names = set<string>

  // ---------- the tree of names ----------

  function NamesIn(f: Field<Attributes>): Field<Names> {
    match f
    case Present(m) => Present(BaseNames(m))
    case Mistyped => Mistyped
    case Missing => Missing
  }

  function DatapointNames(f: DatapointV): Field<DatapointNode<Names>> {
    match f
    case Present(n) => Present(DatapointNode(NamesIn(n.attributes)))
    case Mistyped => Mistyped
    case Missing => Missing
  }

  function DatapointListNames(s: seq<DatapointV>): (r: seq<Field<DatapointNode<Names>>>)
    ensures |r| == |s| && forall l :: 0 <= l < |s| ==> r[l] == DatapointNames(s[l])
  {
    seq(|s|, l requires 0 <= l < |s| => DatapointNames(s[l]))
  }

  function MetricNames(f: MetricV): Field<MetricNode<Names>> {
    match f
    case Present(MetricNode(fields, Present(s))) => Present(MetricNode(fields, Present(DatapointListNames(s))))
    case Present(MetricNode(fields, Mistyped)) => Present(MetricNode(fields, Mistyped))
    case Present(MetricNode(fields, Missing)) => Present(MetricNode(fields, Missing))
    case Mistyped => Mistyped
    case Missing => Missing
  }

  function MetricListNames(s: seq<MetricV>): (r: seq<Field<MetricNode<Names>>>)
    ensures |r| == |s| && forall k :: 0 <= k < |s| ==> r[k] == MetricNames(s[k])
  {
    seq(|s|, k requires 0 <= k < |s| => MetricNames(s[k]))
  }

  function ScopeNames(f: ScopeV): Field<ScopeNode<Names>> {
    match f
    case Present(ScopeNode(fields, Present(s))) => Present(ScopeNode(BaseNames(fields), Present(MetricListNames(s))))
    case Present(ScopeNode(fields, Mistyped)) => Present(ScopeNode(BaseNames(fields), Mistyped))
    case Present(ScopeNode(fields, Missing)) => Present(ScopeNode(BaseNames(fields), Missing))
    case Mistyped => Mistyped
    case Missing => Missing
  }

  function ScopeListNames(s: seq<ScopeV>): (r: seq<Field<ScopeNode<Names>>>)
    ensures |r| == |s| && forall j :: 0 <= j < |s| ==> r[j] == ScopeNames(s[j])
  {
    seq(|s|, j requires 0 <= j < |s| => ScopeNames(s[j]))
  }

  function ResourceNames(f: ResourceV): Field<ResourceNode<Names>> {
    match f
    case Present(ResourceNode(attributes, Present(s))) => Present(ResourceNode(NamesIn(attributes), Present(ScopeListNames(s))))
    case Present(ResourceNode(attributes, Mistyped)) => Present(ResourceNode(NamesIn(attributes), Mistyped))
    case Present(ResourceNode(attributes, Missing)) => Present(ResourceNode(NamesIn(attributes), Missing))
    case Mistyped => Mistyped
    case Missing => Missing
  }

  function ResourceListNames(s: seq<ResourceV>): (r: seq<Field<ResourceNode<Names>>>)
    ensures |r| == |s| && forall i :: 0 <= i < |s| ==> r[i] == ResourceNames(s[i])
  {
    seq(|s|, i requires 0 <= i < |s| => ResourceNames(s[i]))
  }

  function DocumentNames(d: Document<Attributes>): Document<Names> {
    match d.resources
    case Present(s) => Document(Present(ResourceListNames(s)))
    case Mistyped => Document(Mistyped)
    case Missing => Document(Missing)
  }

  // ---------- the scopes that name a version ----------

  predicate ScopeNamesVersion(f: ScopeV) {
    f.Present? && f.value.metrics.Present? ==> VERSION in BaseNames(f.value.fields)
  }

  predicate ResourceNamesVersions(f: ResourceV) {
    f.Present? && f.value.scopes.Present? ==>
      forall j :: 0 <= j < |f.value.scopes.value| ==> ScopeNamesVersion(f.value.scopes.value[j])
  }

  predicate DocumentNamesVersions(d: Document<Attributes>) {
    d.resources.Present? ==> forall i :: 0 <= i < |d.resources.value| ==> ResourceNamesVersions(d.resources.value[i])
  }

  // ---------- what rewriting does ----------

  lemma FieldNamesKept(f: Field<Attributes>, rule: Rule)
    requires KeepsMatchers(rule)
    ensures NamesIn(MarkedField(f, rule)) == NamesIn(f)
  {
    if f.Present? {
      MarkingKeepsBaseNames(f.value, rule);
    }
  }

  lemma MetricNamesKept(f: MetricV, o: Options)
    ensures MetricNames(MarkedMetric(f, o)) == MetricNames(f)
  {
    OptionsKeepMatchers(o);
    if f.Present? && f.value.datapoints.Present? {
      var s := f.value.datapoints.value;
      forall l | 0 <= l < |s| ensures DatapointNames(MarkedDatapoints(s, o)[l]) == DatapointNames(s[l]) {
        if s[l].Present? {
          FieldNamesKept(s[l].value.attributes, o.DatapointRule());
        }
      }
      assert DatapointListNames(MarkedDatapoints(s, o)) == DatapointListNames(s);
    }
  }

  /** A scope pattern adds the name `version`, and nothing else changes the names. */
  lemma VersionNames(fields: Attributes, pattern: string)
    ensures BaseNames(MarkedScopeFields(fields, pattern)) == BaseNames(fields) + if pattern == "" then {} else {VERSION}
  {
    if pattern != "" {
      VersionKeys();
      var after := MarkedScopeFields(fields, pattern);
      assert Base(VERSION_REGEX) == VERSION && VERSION_REGEX in after;
      assert Base(VERSION) == VERSION;
      forall name | name in BaseNames(fields) && name != VERSION ensures name in BaseNames(after) {
        var key :| key in fields && name == Base(key);
        assert key in after;
      }
    }
  }

  lemma ScopeNamesExactly(f: ScopeV, o: Options)
    ensures ScopeNames(MarkedScope(f, o)) == ScopeNames(f) <==> o.scopeVersionRegex == "" || ScopeNamesVersion(f)
  {
    if f.Present? && f.value.metrics.Present? {
      var s := f.value.metrics.value;
      forall k | 0 <= k < |s| ensures MetricNames(MarkedMetrics(s, o)[k]) == MetricNames(s[k]) {
        MetricNamesKept(s[k], o);
      }
      assert MetricListNames(MarkedMetrics(s, o)) == MetricListNames(s);
      VersionNames(f.value.fields, o.scopeVersionRegex);
      var names := BaseNames(f.value.fields);
      assert ScopeNames(MarkedScope(f, o)) == ScopeNames(f)
        <==> BaseNames(MarkedScopeFields(f.value.fields, o.scopeVersionRegex)) == names;
      assert names + {VERSION} == names <==> VERSION in names;
    }
  }

  lemma ResourceNamesExactly(f: ResourceV, o: Options)
    ensures ResourceNames(MarkedResource(f, o)) == ResourceNames(f) <==> o.scopeVersionRegex == "" || ResourceNamesVersions(f)
  {
    if f.Present? && f.value.scopes.Present? {
      OptionsKeepMatchers(o);
      FieldNamesKept(f.value.attributes, o.ResourceRule());
      var s := f.value.scopes.value;
      var before, after := ScopeListNames(s), ScopeListNames(MarkedScopes(s, o));
      forall j | 0 <= j < |s| ensures after[j] == before[j] <==> o.scopeVersionRegex == "" || ScopeNamesVersion(s[j]) {
        ScopeNamesExactly(s[j], o);
      }
      assert after == before <==> forall j :: 0 <= j < |s| ==> after[j] == before[j];
    }
  }

  /**
   Exactly when, for the whole tree: rewriting leaves the names at every node as they are if and
   only if there is no scope pattern or every scope names its version already.
   */
  lemma NamesKeptExactly(d: Document<Attributes>, o: Options)
    ensures DocumentNames(MarkedDocument(d, o)) == DocumentNames(d) <==> o.scopeVersionRegex == "" || DocumentNamesVersions(d)
  {
    if d.resources.Present? {
      var s := d.resources.value;
      var before, after := ResourceListNames(s), ResourceListNames(MarkedResources(s, o));
      forall i | 0 <= i < |s| ensures after[i] == before[i] <==> o.scopeVersionRegex == "" || ResourceNamesVersions(s[i]) {
        ResourceNamesExactly(s[i], o);
      }
      assert after == before <==> forall i :: 0 <= i < |s| ==> after[i] == before[i];
    }
  }

  /** A document of one scope that names no version. */
  function VersionlessDocument(): Document<Attributes> {
    Document(Present([Present(ResourceNode(Missing, Present([Present(ScopeNode(map[], Present([])))])))]))
  }

  /** With a scope pattern the rewrite changes the names of such a document. */
  lemma VersionlessExample(o: Options)
    requires o.scopeVersionRegex != ""
    ensures DocumentNames(MarkedDocument(VersionlessDocument(), o)) != DocumentNames(VersionlessDocument())
  {
    var d := VersionlessDocument();
    NamesKeptExactly(d, o);
    var r := d.resources.value[0];
    assert !ScopeNamesVersion(r.value.scopes.value[0]);
    assert !ResourceNamesVersions(r);
  }
}
