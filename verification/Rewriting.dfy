/**
 The rewrite of an assertion document as the program runs it: nested loops over a tree of
 mutable map objects, stopping at the first node of the wrong shape.
 Models the traversal of markFlexibleAttrs in metricassert.go. One method a level.
 */
module Rewriting {
  import opened Pdata
  import opened Marking
  import opened AssertionDocument

  type DatapointH = Field<DatapointNode<StringMap>>
  type MetricH = Field<MetricNode<StringMap>>
  type ScopeH = Field<ScopeNode<StringMap>>
  type ResourceH = Field<ResourceNode<StringMap>>

  // ---------- the map objects below a node ----------

  function FieldMaps(f: Field<StringMap>): set<StringMap> {
    if f.Present? then {f.value} else {}
  }

  function DatapointMaps(f: DatapointH): set<StringMap> {
    if f.Present? then FieldMaps(f.value.attributes) else {}
  }

  ghost function DatapointListMaps(s: seq<DatapointH>): (r: set<StringMap>)
    ensures forall l :: 0 <= l < |s| ==> DatapointMaps(s[l]) <= r
  {
    set l, m | 0 <= l < |s| && m in DatapointMaps(s[l]) :: m
  }

  ghost function MetricMaps(f: MetricH): set<StringMap> {
    if f.Present? && f.value.datapoints.Present? then
      DatapointListMaps(f.value.datapoints.value)
    else {}
  }

  ghost function MetricListMaps(s: seq<MetricH>): (r: set<StringMap>)
    ensures forall k :: 0 <= k < |s| ==> MetricMaps(s[k]) <= r
  {
    set k, m | 0 <= k < |s| && m in MetricMaps(s[k]) :: m
  }

  ghost function ScopeMaps(f: ScopeH): set<StringMap> {
    if f.Present? then
      {f.value.fields} +
      if f.value.metrics.Present? then
        MetricListMaps(f.value.metrics.value)
      else {}
    else {}
  }

  ghost function ScopeListMaps(s: seq<ScopeH>): (r: set<StringMap>)
    ensures forall j :: 0 <= j < |s| ==> ScopeMaps(s[j]) <= r
  {
    set j, m | 0 <= j < |s| && m in ScopeMaps(s[j]) :: m
  }

  ghost function ResourceMaps(f: ResourceH): set<StringMap> {
    if f.Present? then
      FieldMaps(f.value.attributes) +
      if f.value.scopes.Present? then
        ScopeListMaps(f.value.scopes.value)
      else {}
    else {}
  }

  ghost function ResourceListMaps(s: seq<ResourceH>): (r: set<StringMap>)
    ensures forall i :: 0 <= i < |s| ==> ResourceMaps(s[i]) <= r
  {
    set i, m | 0 <= i < |s| && m in ResourceMaps(s[i]) :: m
  }

  ghost function DocumentMaps(d: Document<StringMap>): set<StringMap> {
    if d.resources.Present? then
      ResourceListMaps(d.resources.value)
    else {}
  }

  // ---------- no map object occurs twice: a parsed document is a tree ----------

  ghost predicate DatapointListTree(s: seq<DatapointH>) {
    forall l, l' :: 0 <= l < l' < |s| ==> DatapointMaps(s[l]) !! DatapointMaps(s[l'])
  }

  ghost predicate MetricTree(f: MetricH) {
    f.Present? && f.value.datapoints.Present? ==> DatapointListTree(f.value.datapoints.value)
  }

  ghost predicate MetricListTree(s: seq<MetricH>) {
    && (forall k :: 0 <= k < |s| ==> MetricTree(s[k]))
    && (forall k, k' :: 0 <= k < k' < |s| ==> MetricMaps(s[k]) !! MetricMaps(s[k']))
  }

  ghost predicate ScopeTree(f: ScopeH) {
    f.Present? && f.value.metrics.Present? ==>
      MetricListTree(f.value.metrics.value) && f.value.fields !in MetricListMaps(f.value.metrics.value)
  }

  ghost predicate ScopeListTree(s: seq<ScopeH>) {
    && (forall j :: 0 <= j < |s| ==> ScopeTree(s[j]))
    && (forall j, j' :: 0 <= j < j' < |s| ==> ScopeMaps(s[j]) !! ScopeMaps(s[j']))
  }

  ghost predicate ResourceTree(f: ResourceH) {
    f.Present? && f.value.scopes.Present? ==>
      ScopeListTree(f.value.scopes.value) && FieldMaps(f.value.attributes) !! ScopeListMaps(f.value.scopes.value)
  }

  ghost predicate ResourceListTree(s: seq<ResourceH>) {
    && (forall i :: 0 <= i < |s| ==> ResourceTree(s[i]))
    && (forall i, i' :: 0 <= i < i' < |s| ==> ResourceMaps(s[i]) !! ResourceMaps(s[i']))
  }

  ghost predicate DocumentTree(d: Document<StringMap>) {
    d.resources.Present? ==> ResourceListTree(d.resources.value)
  }

  // ---------- what the tree holds ----------

  ghost function ViewField(f: Field<StringMap>): Field<Attributes>
    reads FieldMaps(f)
  {
    if f.Present? then Present(f.value.entries) else if f.Mistyped? then Mistyped else Missing
  }

  ghost function ViewDatapoint(f: DatapointH): DatapointV
    reads DatapointMaps(f)
  {
    if f.Present? then Present(DatapointNode(ViewField(f.value.attributes))) else if f.Mistyped? then Mistyped else Missing
  }

  ghost function ViewDatapoints(s: seq<DatapointH>): (r: seq<DatapointV>)
    reads DatapointListMaps(s)
    ensures |r| == |s| && forall l :: 0 <= l < |s| ==> r[l] == ViewDatapoint(s[l])
  {
    seq(|s|, l requires 0 <= l < |s| reads DatapointListMaps(s) => ViewDatapoint(s[l]))
  }

  ghost function ViewMetric(f: MetricH): MetricV
    reads MetricMaps(f)
  {
    if f.Present? then
      var d := f.value.datapoints;
      Present(MetricNode(f.value.fields,
        if d.Present? then Present(ViewDatapoints(d.value)) else if d.Mistyped? then Mistyped else Missing))
    else if f.Mistyped? then Mistyped else Missing
  }

  ghost function ViewMetrics(s: seq<MetricH>): (r: seq<MetricV>)
    reads MetricListMaps(s)
    ensures |r| == |s| && forall k :: 0 <= k < |s| ==> r[k] == ViewMetric(s[k])
  {
    seq(|s|, k requires 0 <= k < |s| reads MetricListMaps(s) => ViewMetric(s[k]))
  }

  ghost function ViewScope(f: ScopeH): ScopeV
    reads ScopeMaps(f)
  {
    if f.Present? then
      var m := f.value.metrics;
      Present(ScopeNode(f.value.fields.entries,
        if m.Present? then Present(ViewMetrics(m.value)) else if m.Mistyped? then Mistyped else Missing))
    else if f.Mistyped? then Mistyped else Missing
  }

  ghost function ViewScopes(s: seq<ScopeH>): (r: seq<ScopeV>)
    reads ScopeListMaps(s)
    ensures |r| == |s| && forall j :: 0 <= j < |s| ==> r[j] == ViewScope(s[j])
  {
    seq(|s|, j requires 0 <= j < |s| reads ScopeListMaps(s) => ViewScope(s[j]))
  }

  ghost function ViewResource(f: ResourceH): ResourceV
    reads ResourceMaps(f)
  {
    if f.Present? then
      var s := f.value.scopes;
      Present(ResourceNode(ViewField(f.value.attributes),
        if s.Present? then Present(ViewScopes(s.value)) else if s.Mistyped? then Mistyped else Missing))
    else if f.Mistyped? then Mistyped else Missing
  }

  ghost function ViewResources(s: seq<ResourceH>): (r: seq<ResourceV>)
    reads ResourceListMaps(s)
    ensures |r| == |s| && forall i :: 0 <= i < |s| ==> r[i] == ViewResource(s[i])
  {
    seq(|s|, i requires 0 <= i < |s| reads ResourceListMaps(s) => ViewResource(s[i]))
  }

  ghost function ViewDocument(d: Document<StringMap>): Document<Attributes>
    reads DocumentMaps(d)
  {
    var r := d.resources;
    Document(if r.Present? then Present(ViewResources(r.value)) else if r.Mistyped? then Mistyped else Missing)
  }

  // ---------- what the tree holds is read off its map objects ----------

  /** The same lists, the same missing and mistyped nodes, and the entries of each map object in its place. */
  ghost predicate SameField<T, U>(f: Field<T>, g: Field<U>) {
    (f.Present? <==> g.Present?) && (f.Mistyped? <==> g.Mistyped?)
  }

  ghost predicate Reads(f: Field<StringMap>, g: Field<Attributes>)
    reads FieldMaps(f)
  {
    SameField(f, g) && (f.Present? ==> g.value == f.value.entries)
  }

  lemma ResourceRead(d: Document<StringMap>, i: nat)
    requires d.resources.Present? && i < |d.resources.value|
    ensures var v, f := ViewDocument(d).resources, d.resources.value[i];
            && v.Present? && |v.value| == |d.resources.value| && SameField(f, v.value[i])
            && (f.Present? ==>
                  && Reads(f.value.attributes, v.value[i].value.attributes) && SameField(f.value.scopes, v.value[i].value.scopes)
                  && (f.value.scopes.Present? ==> v.value[i].value.scopes.value == ViewScopes(f.value.scopes.value)))
  {
  }

  lemma ScopeRead(s: seq<ScopeH>, j: nat)
    requires j < |s|
    ensures var v, f := ViewScopes(s), s[j];
            && |v| == |s| && SameField(f, v[j])
            && (f.Present? ==>
                  && v[j].value.fields == f.value.fields.entries && SameField(f.value.metrics, v[j].value.metrics)
                  && (f.value.metrics.Present? ==> v[j].value.metrics.value == ViewMetrics(f.value.metrics.value)))
  {
  }

  lemma MetricRead(s: seq<MetricH>, k: nat)
    requires k < |s|
    ensures var v, f := ViewMetrics(s), s[k];
            && |v| == |s| && SameField(f, v[k])
            && (f.Present? ==>
                  && v[k].value.fields == f.value.fields && SameField(f.value.datapoints, v[k].value.datapoints)
                  && (f.value.datapoints.Present? ==> v[k].value.datapoints.value == ViewDatapoints(f.value.datapoints.value)))
  {
  }

  lemma DatapointRead(s: seq<DatapointH>, l: nat)
    requires l < |s|
    ensures var v, f := ViewDatapoints(s), s[l];
            |v| == |s| && SameField(f, v[l]) && (f.Present? ==> Reads(f.value.attributes, v[l].value.attributes))
  {
  }

  // ---------- the traversal ----------

  /** One datapoint: the flexible pass, then the non-identity pass when it is asked for. */
  method RewriteDatapoint(f: DatapointH, o: Options) returns (ok: bool)
    modifies DatapointMaps(f)
    ensures ok <==> DatapointShaped(f)
    ensures ok ==> ViewDatapoint(f) == MarkedDatapoint(old(ViewDatapoint(f)), o)
  {
    if !f.Present? {
      return false;
    }
    match f.value.attributes {
      case Missing =>
      case Mistyped =>
        return false;
      case Present(m) =>
        ghost var before := m.entries;
        MarkAttrs(m, o.volatile, o.regex);
        if o.exactDatapointAttrs.Some? {
          MarkNonIdentityAttrs(m, o.exactDatapointAttrs.value);
          TwoPasses(before, o.volatile, o.regex, o.exactDatapointAttrs.value);
        } else {
          OnePass(before, o.volatile, o.regex);
        }
    }
    return true;
  }

  twostate lemma DatapointUntouched(f: DatapointH)
    requires forall m :: m in DatapointMaps(f) ==> m.entries == old(m.entries)
    ensures ViewDatapoint(f) == old(ViewDatapoint(f))
  {
  }

  /** Rewriting one item of a list leaves the others alone. */
  method RewriteDatapointAt(s: seq<DatapointH>, l: nat, o: Options) returns (ok: bool)
    requires DatapointListTree(s) && l < |s|
    modifies DatapointMaps(s[l])
    ensures ok <==> DatapointShaped(s[l])
    ensures ok ==> ViewDatapoint(s[l]) == MarkedDatapoint(old(ViewDatapoint(s[l])), o)
    ensures forall x :: 0 <= x < |s| && x != l ==> ViewDatapoint(s[x]) == old(ViewDatapoint(s[x]))
  {
    ok := RewriteDatapoint(s[l], o);
    forall x | 0 <= x < |s| && x != l ensures ViewDatapoint(s[x]) == old(ViewDatapoint(s[x])) {
      assert DatapointMaps(s[x]) !! DatapointMaps(s[l]);
      DatapointUntouched(s[x]);
    }
  }

  method RewriteDatapoints(s: seq<DatapointH>, o: Options) returns (ok: bool)
    requires DatapointListTree(s)
    modifies DatapointListMaps(s)
    ensures ok <==> forall l :: 0 <= l < |s| ==> DatapointShaped(s[l])
    ensures ok ==> ViewDatapoints(s) == MarkedDatapoints(old(ViewDatapoints(s)), o)
  {
    ghost var before := ViewDatapoints(s);
    for l := 0 to |s|
      invariant forall x :: 0 <= x < l ==> DatapointShaped(s[x]) && ViewDatapoint(s[x]) == MarkedDatapoint(before[x], o)
      invariant forall x :: l <= x < |s| ==> ViewDatapoint(s[x]) == before[x]
    {
      var fine := RewriteDatapointAt(s, l, o);
      if !fine {
        return false;
      }
    }
    assert ViewDatapoints(s) == MarkedDatapoints(before, o);
    return true;
  }

  method RewriteMetric(f: MetricH, o: Options) returns (ok: bool)
    requires MetricTree(f)
    modifies MetricMaps(f)
    ensures ok <==> MetricShaped(f)
    ensures ok ==> ViewMetric(f) == MarkedMetric(old(ViewMetric(f)), o)
  {
    if !f.Present? {
      return false;
    }
    match f.value.datapoints {
      case Missing =>
        ok := true;
      case Mistyped =>
        ok := false;
      case Present(datapoints) =>
        ok := RewriteDatapoints(datapoints, o);
    }
  }

  twostate lemma MetricUntouched(f: MetricH)
    requires forall m :: m in MetricMaps(f) ==> m.entries == old(m.entries)
    ensures ViewMetric(f) == old(ViewMetric(f))
  {
    if f.Present? && f.value.datapoints.Present? {
      var s := f.value.datapoints.value;
      forall l | 0 <= l < |s| ensures ViewDatapoint(s[l]) == old(ViewDatapoint(s[l])) {
        assert DatapointMaps(s[l]) <= MetricMaps(f);
        DatapointUntouched(s[l]);
      }
      assert ViewDatapoints(s) == old(ViewDatapoints(s));
    }
  }

  /** Rewriting one item of a list leaves the others alone. */
  method RewriteMetricAt(s: seq<MetricH>, k: nat, o: Options) returns (ok: bool)
    requires MetricListTree(s) && k < |s|
    modifies MetricMaps(s[k])
    ensures ok <==> MetricShaped(s[k])
    ensures ok ==> ViewMetric(s[k]) == MarkedMetric(old(ViewMetric(s[k])), o)
    ensures forall x :: 0 <= x < |s| && x != k ==> ViewMetric(s[x]) == old(ViewMetric(s[x]))
  {
    ok := RewriteMetric(s[k], o);
    forall x | 0 <= x < |s| && x != k ensures ViewMetric(s[x]) == old(ViewMetric(s[x])) {
      assert MetricMaps(s[x]) !! MetricMaps(s[k]);
      MetricUntouched(s[x]);
    }
  }

  method RewriteMetrics(s: seq<MetricH>, o: Options) returns (ok: bool)
    requires MetricListTree(s)
    modifies MetricListMaps(s)
    ensures ok <==> forall k :: 0 <= k < |s| ==> MetricShaped(s[k])
    ensures ok ==> ViewMetrics(s) == MarkedMetrics(old(ViewMetrics(s)), o)
  {
    ghost var before := ViewMetrics(s);
    for k := 0 to |s|
      invariant forall x :: 0 <= x < k ==> MetricShaped(s[x]) && ViewMetric(s[x]) == MarkedMetric(before[x], o)
      invariant forall x :: k <= x < |s| ==> ViewMetric(s[x]) == before[x]
    {
      var fine := RewriteMetricAt(s, k, o);
      if !fine {
        return false;
      }
    }
    assert ViewMetrics(s) == MarkedMetrics(before, o);
    return true;
  }

  method RewriteScope(f: ScopeH, o: Options) returns (ok: bool)
    requires ScopeTree(f)
    modifies ScopeMaps(f)
    ensures ok <==> ScopeShaped(f)
    ensures ok ==> ViewScope(f) == MarkedScope(old(ViewScope(f)), o)
  {
    if !f.Present? {
      return false;
    }
    var scopeMap := f.value.fields;
    if o.scopeVersionRegex != "" {
      scopeMap.entries := scopeMap.entries - {VERSION};
      scopeMap.entries := scopeMap.entries[VERSION_REGEX := Str(o.scopeVersionRegex)];
    }
    if !f.value.metrics.Present? {
      return false;
    }
    ok := RewriteMetrics(f.value.metrics.value, o);
  }

  twostate lemma ScopeUntouched(f: ScopeH)
    requires forall m :: m in ScopeMaps(f) ==> m.entries == old(m.entries)
    ensures ViewScope(f) == old(ViewScope(f))
  {
    if f.Present? && f.value.metrics.Present? {
      var s := f.value.metrics.value;
      forall k | 0 <= k < |s| ensures ViewMetric(s[k]) == old(ViewMetric(s[k])) {
        assert MetricMaps(s[k]) <= ScopeMaps(f);
        MetricUntouched(s[k]);
      }
      assert ViewMetrics(s) == old(ViewMetrics(s));
    }
  }

  /** Rewriting one item of a list leaves the others alone. */
  method RewriteScopeAt(s: seq<ScopeH>, j: nat, o: Options) returns (ok: bool)
    requires ScopeListTree(s) && j < |s|
    modifies ScopeMaps(s[j])
    ensures ok <==> ScopeShaped(s[j])
    ensures ok ==> ViewScope(s[j]) == MarkedScope(old(ViewScope(s[j])), o)
    ensures forall x :: 0 <= x < |s| && x != j ==> ViewScope(s[x]) == old(ViewScope(s[x]))
  {
    ok := RewriteScope(s[j], o);
    forall x | 0 <= x < |s| && x != j ensures ViewScope(s[x]) == old(ViewScope(s[x])) {
      assert ScopeMaps(s[x]) !! ScopeMaps(s[j]);
      ScopeUntouched(s[x]);
    }
  }

  method RewriteScopes(s: seq<ScopeH>, o: Options) returns (ok: bool)
    requires ScopeListTree(s)
    modifies ScopeListMaps(s)
    ensures ok <==> forall j :: 0 <= j < |s| ==> ScopeShaped(s[j])
    ensures ok ==> ViewScopes(s) == MarkedScopes(old(ViewScopes(s)), o)
  {
    ghost var before := ViewScopes(s);
    for j := 0 to |s|
      invariant forall x :: 0 <= x < j ==> ScopeShaped(s[x]) && ViewScope(s[x]) == MarkedScope(before[x], o)
      invariant forall x :: j <= x < |s| ==> ViewScope(s[x]) == before[x]
    {
      var fine := RewriteScopeAt(s, j, o);
      if !fine {
        return false;
      }
    }
    assert ViewScopes(s) == MarkedScopes(before, o);
    return true;
  }

  /** The attributes of a resource: nothing to do when they are missing. */
  method RewriteAttrs(f: Field<StringMap>, o: Options) returns (ok: bool)
    modifies FieldMaps(f)
    ensures ok <==> !f.Mistyped?
    ensures ok ==> ViewField(f) == MarkedField(old(ViewField(f)), o.ResourceRule())
  {
    match f {
      case Missing =>
      case Mistyped =>
        return false;
      case Present(m) =>
        MarkAttrs(m, o.volatile, o.regex);
    }
    return true;
  }

  method RewriteResource(f: ResourceH, o: Options) returns (ok: bool)
    requires ResourceTree(f)
    modifies ResourceMaps(f)
    ensures ok <==> ResourceShaped(f)
    ensures ok ==> ViewResource(f) == MarkedResource(old(ViewResource(f)), o)
  {
    if !f.Present? {
      return false;
    }
    ghost var attrs := ViewField(f.value.attributes);
    var fine := RewriteAttrs(f.value.attributes, o);
    if !fine || !f.value.scopes.Present? {
      return false;
    }
    ghost var scopes := ViewScopes(f.value.scopes.value);
    assert scopes == old(ViewScopes(f.value.scopes.value));
    ok := RewriteScopes(f.value.scopes.value, o);
    if ok {
      assert ViewField(f.value.attributes) == MarkedField(attrs, o.ResourceRule());
      assert ViewResource(f) == Present(ResourceNode(MarkedField(attrs, o.ResourceRule()), Present(MarkedScopes(scopes, o))));
    }
  }

  twostate lemma ResourceUntouched(f: ResourceH)
    requires forall m :: m in ResourceMaps(f) ==> m.entries == old(m.entries)
    ensures ViewResource(f) == old(ViewResource(f))
  {
    if f.Present? && f.value.scopes.Present? {
      var s := f.value.scopes.value;
      forall j | 0 <= j < |s| ensures ViewScope(s[j]) == old(ViewScope(s[j])) {
        assert ScopeMaps(s[j]) <= ResourceMaps(f);
        ScopeUntouched(s[j]);
      }
      assert ViewScopes(s) == old(ViewScopes(s));
    }
  }

  /** Rewriting one item of a list leaves the others alone. */
  method RewriteResourceAt(s: seq<ResourceH>, i: nat, o: Options) returns (ok: bool)
    requires ResourceListTree(s) && i < |s|
    modifies ResourceMaps(s[i])
    ensures ok <==> ResourceShaped(s[i])
    ensures ok ==> ViewResource(s[i]) == MarkedResource(old(ViewResource(s[i])), o)
    ensures forall x :: 0 <= x < |s| && x != i ==> ViewResource(s[x]) == old(ViewResource(s[x]))
  {
    ok := RewriteResource(s[i], o);
    forall x | 0 <= x < |s| && x != i ensures ViewResource(s[x]) == old(ViewResource(s[x])) {
      assert ResourceMaps(s[x]) !! ResourceMaps(s[i]);
      ResourceUntouched(s[x]);
    }
  }

  method RewriteResources(s: seq<ResourceH>, o: Options) returns (ok: bool)
    requires ResourceListTree(s)
    modifies ResourceListMaps(s)
    ensures ok <==> forall i :: 0 <= i < |s| ==> ResourceShaped(s[i])
    ensures ok ==> ViewResources(s) == MarkedResources(old(ViewResources(s)), o)
  {
    ghost var before := ViewResources(s);
    for i := 0 to |s|
      invariant forall x :: 0 <= x < i ==> ResourceShaped(s[x]) && ViewResource(s[x]) == MarkedResource(before[x], o)
      invariant forall x :: i <= x < |s| ==> ViewResource(s[x]) == before[x]
    {
      var fine := RewriteResourceAt(s, i, o);
      if !fine {
        return false;
      }
    }
    assert ViewResources(s) == MarkedResources(before, o);
    return true;
  }

  /**
   The rewrite of a parsed document. On `ok` the program writes the tree back to the file;
   otherwise it returns an error and the file stays as it is.
   */
  method MarkFlexibleAttrs(d: Document<StringMap>, o: Options) returns (ok: bool)
    requires DocumentTree(d)
    modifies DocumentMaps(d)
    ensures ok <==> Shaped(d) || (o.volatile == {} && o.regex == map[] && o.scopeVersionRegex == "" && o.exactDatapointAttrs.None?)
    ensures ok ==> ViewDocument(d) == MarkedDocument(old(ViewDocument(d)), o)
  {
    if o.NothingToDo() {
      NothingToDoDocument(ViewDocument(d), o);
      return true;
    }
    if !d.resources.Present? {
      return false;
    }
    ok := RewriteResources(d.resources.value, o);
  }
}
