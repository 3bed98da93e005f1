/**
 The telemetry values and the metrics payload tree. A payload is generic in its
 metrics: `Payload<Metric>` is the tree of mutable objects, `Payload<MetricView>`
 is what that tree holds at one moment.
 */
module Pdata {

  datatype Option<+T> = None | Some(value: T)

  /** A `pcommon.Value`, and equally a node of a parsed YAML document. */
  datatype Value =
    | Empty
    | Str(text: string)
    | Bool(flag: bool)
    | Int(number: int)
    | Double(amount: real)
    | Bytes(bytes: seq<int>)
    | Map(entries: map<string, Value>)
    | Slice(items: seq<Value>)

  type Attributes = map<string, Value>

  datatype MetricType = Untyped | Gauge | Sum | Histogram | ExponentialHistogram | Summary

  /** `content` stands for everything a datapoint holds besides its attributes. */
  datatype Datapoint = Datapoint(attributes: Attributes, content: Value)

  datatype MetricView = MetricView(name: string, kind: MetricType, fields: Attributes, datapoints: seq<Datapoint>)

  class Metric {
    const name: string
    const kind: MetricType
    const fields: Attributes  // unit, description, temporality and the like
    var datapoints: seq<Datapoint>

    constructor (view: MetricView)
      ensures View() == view
    {
      name, kind, fields, datapoints := view.name, view.kind, view.fields, view.datapoints;
    }

    function View(): MetricView
      reads this
    {
      MetricView(name, kind, fields, datapoints)
    }
  }

  datatype ScopeMetrics<M> = ScopeMetrics(fields: Attributes, metrics: seq<M>)
  datatype ResourceMetrics<M> = ResourceMetrics(attributes: Attributes, scopes: seq<ScopeMetrics<M>>)
  datatype Payload<M> = Payload(resources: seq<ResourceMetrics<M>>)

  /** A payload at one moment. */
  type Batch = Payload<MetricView>

  // ---------- a payload as the sequence of metrics its nested loops visit ----------

  function ScopesFlat<M>(scopes: seq<ScopeMetrics<M>>): seq<M> {
    if scopes == [] then [] else scopes[0].metrics + ScopesFlat(scopes[1..])
  }

  function ResourcesFlat<M>(resources: seq<ResourceMetrics<M>>): seq<M> {
    if resources == [] then [] else ScopesFlat(resources[0].scopes) + ResourcesFlat(resources[1..])
  }

  function Flat<M>(p: Payload<M>): seq<M> {
    ResourcesFlat(p.resources)
  }

  /** `MetricCount` of the library. */
  function MetricCount<M>(p: Payload<M>): nat {
    |Flat(p)|
  }

  // ---------- the same tree around other metrics ----------

  function ScopesWith<M, N>(scopes: seq<ScopeMetrics<M>>, flat: seq<N>): (r: seq<ScopeMetrics<N>>)
    requires |flat| == |ScopesFlat(scopes)|
    ensures |r| == |scopes| && ScopesFlat(r) == flat
    ensures forall j :: 0 <= j < |r| ==> r[j].fields == scopes[j].fields && |r[j].metrics| == |scopes[j].metrics|
  {
    if scopes == [] then []
    else
      var n := |scopes[0].metrics|;
      var rest := ScopesWith(scopes[1..], flat[n..]);
      var r := [ScopeMetrics(scopes[0].fields, flat[..n])] + rest;
      assert r[1..] == rest && flat == flat[..n] + flat[n..];
      r
  }

  function ResourcesWith<M, N>(resources: seq<ResourceMetrics<M>>, flat: seq<N>): (r: seq<ResourceMetrics<N>>)
    requires |flat| == |ResourcesFlat(resources)|
    ensures |r| == |resources| && ResourcesFlat(r) == flat
    ensures forall i :: 0 <= i < |r| ==> r[i].attributes == resources[i].attributes && |r[i].scopes| == |resources[i].scopes|
  {
    if resources == [] then []
    else
      var n := |ScopesFlat(resources[0].scopes)|;
      var rest := ResourcesWith(resources[1..], flat[n..]);
      var r := [ResourceMetrics(resources[0].attributes, ScopesWith(resources[0].scopes, flat[..n]))] + rest;
      assert r[1..] == rest && flat == flat[..n] + flat[n..];
      r
  }

  /** The tree of `p`, with the metrics of `flat` in place of its own, in order. */
  function WithMetrics<M, N>(p: Payload<M>, flat: seq<N>): (r: Payload<N>)
    requires |flat| == MetricCount(p)
    ensures |r.resources| == |p.resources| && Flat(r) == flat
  {
    Payload(ResourcesWith(p.resources, flat))
  }

  lemma {:induction false} ScopesWithTwice<L, M, N>(scopes: seq<ScopeMetrics<L>>, f: seq<M>, g: seq<N>)
    requires |f| == |g| == |ScopesFlat(scopes)|
    ensures ScopesWith(ScopesWith(scopes, f), g) == ScopesWith(scopes, g)
  {
    if scopes != [] {
      var n := |scopes[0].metrics|;
      assert ScopesWith(scopes, f)[1..] == ScopesWith(scopes[1..], f[n..]);
      ScopesWithTwice(scopes[1..], f[n..], g[n..]);
    }
  }

  lemma {:induction false} ResourcesWithTwice<L, M, N>(resources: seq<ResourceMetrics<L>>, f: seq<M>, g: seq<N>)
    requires |f| == |g| == |ResourcesFlat(resources)|
    ensures ResourcesWith(ResourcesWith(resources, f), g) == ResourcesWith(resources, g)
  {
    if resources != [] {
      var n := |ScopesFlat(resources[0].scopes)|;
      assert ResourcesWith(resources, f)[1..] == ResourcesWith(resources[1..], f[n..]);
      ScopesWithTwice(resources[0].scopes, f[..n], g[..n]);
      ResourcesWithTwice(resources[1..], f[n..], g[n..]);
    }
  }

  /** Only the last replacement shows. */
  lemma WithMetricsTwice<L, M, N>(p: Payload<L>, f: seq<M>, g: seq<N>)
    requires |f| == |g| == MetricCount(p)
    ensures WithMetrics(WithMetrics(p, f), g) == WithMetrics(p, g)
  {
    ResourcesWithTwice(p.resources, f, g);
  }

  lemma {:induction false} ScopesWithOwn<M>(scopes: seq<ScopeMetrics<M>>)
    ensures ScopesWith(scopes, ScopesFlat(scopes)) == scopes
  {
    if scopes != [] {
      var flat := ScopesFlat(scopes);
      var n := |scopes[0].metrics|;
      assert flat[..n] == scopes[0].metrics && flat[n..] == ScopesFlat(scopes[1..]);
      ScopesWithOwn(scopes[1..]);
    }
  }

  lemma {:induction false} ResourcesWithOwn<M>(resources: seq<ResourceMetrics<M>>)
    ensures ResourcesWith(resources, ResourcesFlat(resources)) == resources
  {
    if resources != [] {
      var flat := ResourcesFlat(resources);
      var n := |ScopesFlat(resources[0].scopes)|;
      assert flat[..n] == ScopesFlat(resources[0].scopes) && flat[n..] == ResourcesFlat(resources[1..]);
      ScopesWithOwn(resources[0].scopes);
      ResourcesWithOwn(resources[1..]);
    }
  }

  // ---------- what a tree of metric objects holds ----------

  ghost function Contents(ms: seq<Metric>): (views: seq<MetricView>)
    reads ms
    ensures |views| == |ms|
    ensures forall n :: 0 <= n < |ms| ==> views[n] == ms[n].View()
  {
    seq(|ms|, n requires 0 <= n < |ms| reads ms => ms[n].View())
  }

  ghost function View(p: Payload<Metric>): Payload<MetricView>
    reads Flat(p)
  {
    WithMetrics(p, Contents(Flat(p)))
  }

  /** No metric object occurs twice: a payload is a tree. */
  predicate Distinct<M(==)>(ms: seq<M>) {
    forall i, j :: 0 <= i < j < |ms| ==> ms[i] != ms[j]
  }

  // ---------- the nested loops through a payload ----------

  /** How many metrics the first `j` scopes hold. */
  function ScopeOffset<M>(scopes: seq<ScopeMetrics<M>>, j: int): nat {
    if !(0 < j <= |scopes|) then 0 else ScopeOffset(scopes, j - 1) + |scopes[j - 1].metrics|
  }

  /** How many metrics the first `i` resources hold. */
  function ResourceOffset<M>(resources: seq<ResourceMetrics<M>>, i: int): nat {
    if !(0 < i <= |resources|) then 0 else ResourceOffset(resources, i - 1) + |ScopesFlat(resources[i - 1].scopes)|
  }

  lemma {:induction false} ScopeOffsets<M>(scopes: seq<ScopeMetrics<M>>, j: nat)
    requires j <= |scopes|
    ensures ScopeOffset(scopes, j) <= |ScopesFlat(scopes)|
    ensures ScopesFlat(scopes)[ScopeOffset(scopes, j)..] == ScopesFlat(scopes[j..])
  {
    if j == 0 {
      assert scopes[0..] == scopes;
    } else {
      ScopeOffsets(scopes, j - 1);
      assert scopes[j - 1..][1..] == scopes[j..];
      var flat, n := ScopesFlat(scopes), ScopeOffset(scopes, j - 1);
      assert flat[ScopeOffset(scopes, j)..] == flat[n..][|scopes[j - 1].metrics|..];
    }
  }

  lemma {:induction false} ResourceOffsets<M>(resources: seq<ResourceMetrics<M>>, i: nat)
    requires i <= |resources|
    ensures ResourceOffset(resources, i) <= |ResourcesFlat(resources)|
    ensures ResourcesFlat(resources)[ResourceOffset(resources, i)..] == ResourcesFlat(resources[i..])
  {
    if i == 0 {
      assert resources[0..] == resources;
    } else {
      ResourceOffsets(resources, i - 1);
      assert resources[i - 1..][1..] == resources[i..];
      var flat, n := ResourcesFlat(resources), ResourceOffset(resources, i - 1);
      assert flat[ResourceOffset(resources, i)..] == flat[n..][|ScopesFlat(resources[i - 1].scopes)|..];
    }
  }

  /** After the last scope, all of its metrics have been passed. */
  lemma ScopesEnd<M>(scopes: seq<ScopeMetrics<M>>)
    ensures ScopeOffset(scopes, |scopes|) == |ScopesFlat(scopes)|
  {
    ScopeOffsets(scopes, |scopes|);
  }

  lemma ResourcesEnd<M>(resources: seq<ResourceMetrics<M>>)
    ensures ResourceOffset(resources, |resources|) == |ResourcesFlat(resources)|
  {
    ResourceOffsets(resources, |resources|);
  }

  /** The metric the loop variables `i`, `j`, `k` name is the one at this place of the flat sequence. */
  lemma MetricAt<M>(p: Payload<M>, i: int, j: int, k: int)
    requires 0 <= i < |p.resources| && 0 <= j < |p.resources[i].scopes| && 0 <= k < |p.resources[i].scopes[j].metrics|
    ensures var n := ResourceOffset(p.resources, i) + ScopeOffset(p.resources[i].scopes, j) + k;
            n < MetricCount(p) && Flat(p)[n] == p.resources[i].scopes[j].metrics[k]
  {
    var scopes := p.resources[i].scopes;
    var r, s := ResourceOffset(p.resources, i), ScopeOffset(scopes, j);
    ResourceOffsets(p.resources, i);
    ScopeOffsets(scopes, j);
    var inResource, inScope := ScopesFlat(scopes)[s..], Flat(p)[r..];
    assert inResource[k] == scopes[j].metrics[k] == ScopesFlat(scopes)[s + k];
    assert inScope[s + k] == ScopesFlat(scopes)[s + k] == Flat(p)[r + (s + k)];
  }

  lemma {:induction false} ScopesWithShape<M, N>(scopes: seq<ScopeMetrics<M>>, flat: seq<N>, j: nat)
    requires |flat| == |ScopesFlat(scopes)| && j < |scopes|
    ensures var r := ScopesWith(scopes, flat);
            r[j].fields == scopes[j].fields && |r[j].metrics| == |scopes[j].metrics|
    ensures ScopeOffset(ScopesWith(scopes, flat), j) == ScopeOffset(scopes, j)
  {
    if j > 0 {
      ScopesWithShape(scopes, flat, j - 1);
    }
  }

  lemma {:induction false} ResourcesWithScopes<M, N>(resources: seq<ResourceMetrics<M>>, flat: seq<N>, i: nat) returns (part: seq<N>)
    requires |flat| == |ResourcesFlat(resources)| && i < |resources|
    ensures |part| == |ScopesFlat(resources[i].scopes)|
    ensures ResourcesWith(resources, flat)[i] == ResourceMetrics(resources[i].attributes, ScopesWith(resources[i].scopes, part))
  {
    var n := |ScopesFlat(resources[0].scopes)|;
    if i == 0 {
      part := flat[..n];
    } else {
      part := ResourcesWithScopes(resources[1..], flat[n..], i - 1);
    }
  }

  lemma {:induction false} ResourcesWithOffset<M, N>(resources: seq<ResourceMetrics<M>>, flat: seq<N>, i: nat)
    requires |flat| == |ResourcesFlat(resources)| && i <= |resources|
    ensures ResourceOffset(ResourcesWith(resources, flat), i) == ResourceOffset(resources, i)
  {
    if i > 0 {
      ResourcesWithOffset(resources, flat, i - 1);
      var part := ResourcesWithScopes(resources, flat, i - 1);
    }
  }

  /** Replacing the metrics keeps everything around them. */
  lemma WithMetricsShape<M, N>(p: Payload<M>, flat: seq<N>, i: nat, j: nat)
    requires |flat| == MetricCount(p) && i < |p.resources| && j < |p.resources[i].scopes|
    ensures var r := WithMetrics(p, flat);
            && |r.resources| == |p.resources| && r.resources[i].attributes == p.resources[i].attributes
            && |r.resources[i].scopes| == |p.resources[i].scopes| && r.resources[i].scopes[j].fields == p.resources[i].scopes[j].fields
            && |r.resources[i].scopes[j].metrics| == |p.resources[i].scopes[j].metrics|
            && ResourceOffset(r.resources, i) == ResourceOffset(p.resources, i)
            && ScopeOffset(r.resources[i].scopes, j) == ScopeOffset(p.resources[i].scopes, j)
  {
    var part := ResourcesWithScopes(p.resources, flat, i);
    ScopesWithShape(p.resources[i].scopes, part, j);
    ResourcesWithOffset(p.resources, flat, i);
  }

  /** Each new metric stands in the place of the old. */
  lemma WithMetricsAt<M, N>(p: Payload<M>, flat: seq<N>, i: nat, j: nat, k: nat)
    requires |flat| == MetricCount(p)
    requires i < |p.resources| && j < |p.resources[i].scopes| && k < |p.resources[i].scopes[j].metrics|
    ensures var n := ResourceOffset(p.resources, i) + ScopeOffset(p.resources[i].scopes, j) + k;
            var r := WithMetrics(p, flat);
            && i < |r.resources| && j < |r.resources[i].scopes| && k < |r.resources[i].scopes[j].metrics|
            && n < |flat| && r.resources[i].scopes[j].metrics[k] == flat[n] && p.resources[i].scopes[j].metrics[k] == Flat(p)[n]
  {
    WithMetricsShape(p, flat, i, j);
    MetricAt(p, i, j, k);
    MetricAt(WithMetrics(p, flat), i, j, k);
  }
}
