/**
 Preparing a selected payload for comparison: keep the selected datapoints of one
 number metric, truncate every metric, and reduce noisy metrics to the datapoint
 whose masked attributes have the least digest.
 Models prepareMetricsAssertion and its helpers in metricassert.go and
 data_processing.go of the functional tests.
 */
module Preparation {
  import opened Ordering
  import opened Pdata

  newtype Byte = x: int | 0 <= x < 256

  type Digest = seq<Byte>

  /** `pdatautil.MapHash`, which is not part of this model: any function will do. */
  type MapHash = Attributes -> Digest

  datatype Config = Config(
    volatileAttrs: seq<string>,
    regexAttrs: map<string, string>,
    scopeVersionRegex: string,
    firstDatapointOnly: seq<string>,
    maxDatapointsPerMetric: int,
    selectedNumberMetric: string,
    selectedNumberDatapoint: map<string, string>,
    exactDatapointAttrs: Option<set<string>>)
  {
    /** Attributes whose values may differ from run to run. */
    function FlexibleAttrs(): set<string> {
      (set a | a in volatileAttrs) + regexAttrs.Keys
    }
  }

  // ---------- what each stage does to the metrics ----------

  predicate IsNumber(kind: MetricType) {
    kind == Gauge || kind == Sum
  }

  predicate Wanted(attributes: Attributes, wanted: map<string, string>) {
    forall key :: key in wanted ==> key in attributes && attributes[key] == Str(wanted[key])
  }

  function Filtered(dps: seq<Datapoint>, wanted: map<string, string>): seq<Datapoint> {
    if dps == [] then []
    else (if Wanted(dps[0].attributes, wanted) then [dps[0]] else []) + Filtered(dps[1..], wanted)
  }

  function RetainedMetric(m: MetricView, wanted: map<string, string>): MetricView {
    if IsNumber(m.kind) then m.(datapoints := Filtered(m.datapoints, wanted)) else m
  }

  /** The position of the first metric called `name`, or the length when there is none. */
  function FirstNamed(ms: seq<MetricView>, name: string): (n: nat)
    ensures n <= |ms|
    ensures n < |ms| ==> ms[n].name == name
    ensures forall k :: 0 <= k < n ==> ms[k].name != name
  {
    if ms == [] || ms[0].name == name then 0 else 1 + FirstNamed(ms[1..], name)
  }

  function Retained(ms: seq<MetricView>, name: string, wanted: map<string, string>): seq<MetricView> {
    var n := FirstNamed(ms, name);
    if n == |ms| then ms else ms[n := RetainedMetric(ms[n], wanted)]
  }

  predicate Truncates(kind: MetricType) {
    kind == Sum || kind == Gauge || kind == Histogram || kind == Summary
  }

  /** A negative maximum leaves nothing, like 0. */
  function ReducedMetric(m: MetricView, max: int): MetricView {
    if Truncates(m.kind) && |m.datapoints| > max then m.(datapoints := m.datapoints[..if max < 0 then 0 else max]) else m
  }

  function Zeroed(v: Value): Value {
    match v
    case Str(_) => Str("")
    case Bool(_) => Bool(false)
    case Int(_) => Int(0)
    case Double(_) => Double(0.0)
    case _ => v
  }

  function Masked(attributes: Attributes, flexible: set<string>): Attributes {
    map key | key in attributes :: if key in flexible then Zeroed(attributes[key]) else attributes[key]
  }

  predicate ByteLess(a: Byte, b: Byte) {
    a < b
  }

  /** `bytes.Compare(a, b) < 0`. */
  predicate DigestLess(a: Digest, b: Digest) {
    LexLess(ByteLess, a, b)
  }

  predicate AttrsLess(a: Attributes, b: Attributes, flexible: set<string>, hash: MapHash) {
    DigestLess(hash(Masked(a, flexible)), hash(Masked(b, flexible)))
  }

  function DatapointLess(flexible: set<string>, hash: MapHash): (Datapoint, Datapoint) -> bool {
    (a: Datapoint, b: Datapoint) => AttrsLess(a.attributes, b.attributes, flexible, hash)
  }

  /** The first datapoint that no other datapoint is below. */
  function FirstLeast(dps: seq<Datapoint>, less: (Datapoint, Datapoint) -> bool): (n: nat)
    requires dps != []
    ensures n < |dps|
  {
    if |dps| == 1 then 0
    else
      var n := 1 + FirstLeast(dps[1..], less);
      if less(dps[n], dps[0]) then n else 0
  }

  function Survivors(dps: seq<Datapoint>, flexible: set<string>, hash: MapHash): (r: seq<Datapoint>)
    ensures |r| <= 1 && (r == [] <==> dps == [])
  {
    if dps == [] then [] else [dps[FirstLeast(dps, DatapointLess(flexible, hash))]]
  }

  function FirstOnlyMetric(m: MetricView, names: set<string>, flexible: set<string>, hash: MapHash): MetricView {
    if m.name in names && m.kind != Untyped then m.(datapoints := Survivors(m.datapoints, flexible, hash)) else m
  }

  function Each(ms: seq<MetricView>, f: MetricView -> MetricView): (r: seq<MetricView>)
    ensures |r| == |ms| && forall n :: 0 <= n < |ms| ==> r[n] == f(ms[n])
  {
    seq(|ms|, n requires 0 <= n < |ms| => f(ms[n]))
  }

  function Truncator(max: int): MetricView -> MetricView {
    (m: MetricView) => ReducedMetric(m, max)
  }

  function Reducer(max: int): MetricView -> MetricView {
    (m: MetricView) => if max > 0 then ReducedMetric(m, max) else m
  }

  function Firster(names: set<string>, flexible: set<string>, hash: MapHash): MetricView -> MetricView {
    (m: MetricView) => FirstOnlyMetric(m, names, flexible, hash)
  }

  function PreparedMetrics(ms: seq<MetricView>, cfg: Config, hash: MapHash): (r: seq<MetricView>)
    ensures |r| == |ms|
  {
    var retained := Retained(ms, cfg.selectedNumberMetric, cfg.selectedNumberDatapoint);
    var reduced := Each(retained, Reducer(cfg.maxDatapointsPerMetric));
    Each(reduced, Firster((set n | n in cfg.firstDatapointOnly), cfg.FlexibleAttrs(), hash))
  }

  /** The payload prepareMetricsAssertion returns. */
  function Prepared(p: Payload<MetricView>, cfg: Config, hash: MapHash): Payload<MetricView> {
    WithMetrics(p, PreparedMetrics(Flat(p), cfg, hash))
  }

  // ---------- the order on datapoints ----------

  lemma DigestLessIsTotal()
    ensures StrictTotal(DigestLess)
  {
    assert StrictTotal(ByteLess);
    forall x: Digest { LexIrreflexive(ByteLess, x); }
    forall x: Digest, y: Digest, z: Digest | DigestLess(x, y) && DigestLess(y, z) ensures DigestLess(x, z) {
      LexTransitive(ByteLess, x, y, z);
    }
    forall x: Digest, y: Digest ensures x == y || DigestLess(x, y) || DigestLess(y, x) {
      LexConnected(ByteLess, x, y);
    }
  }

  /** The comparison handed to `Sort` is a strict weak order, whatever the hash. */
  lemma DatapointOrderIsWeak(flexible: set<string>, hash: MapHash)
    ensures StrictWeak(DatapointLess(flexible, hash))
  {
    DigestLessIsTotal();
    TotalIsWeak(DigestLess);
  }

  predicate CollisionFree(hash: MapHash, masks: set<Attributes>) {
    forall x, y :: x in masks && y in masks && hash(x) == hash(y) ==> x == y
  }

  /** Its ties are exactly the pairs with equal masked attributes, when their digests do not collide. */
  lemma TiesAreEqualMasks(a: Attributes, b: Attributes, flexible: set<string>, hash: MapHash)
    requires CollisionFree(hash, {Masked(a, flexible), Masked(b, flexible)})
    ensures !AttrsLess(a, b, flexible, hash) && !AttrsLess(b, a, flexible, hash)
       <==> Masked(a, flexible) == Masked(b, flexible)
  {
    DigestLessIsTotal();
    var x, y := hash(Masked(a, flexible)), hash(Masked(b, flexible));
    assert x == y || DigestLess(x, y) || DigestLess(y, x);
  }

  predicate SameScalarKind(v: Value, w: Value) {
    || (v.Str? && w.Str?)
    || (v.Bool? && w.Bool?)
    || (v.Int? && w.Int?)
    || (v.Double? && w.Double?)
  }

  /** What masking identifies: attributes that differ only in flexible values of one scalar kind. */
  lemma MaskIdentifies(a: Attributes, b: Attributes, flexible: set<string>)
    ensures Masked(a, flexible) == Masked(b, flexible)
       <==> && a.Keys == b.Keys
            && forall key :: key in a ==> a[key] == b[key] || (key in flexible && SameScalarKind(a[key], b[key]))
  {
    var ma, mb := Masked(a, flexible), Masked(b, flexible);
    assert ma.Keys == a.Keys && mb.Keys == b.Keys;
    if ma == mb {
      forall key | key in a ensures a[key] == b[key] || (key in flexible && SameScalarKind(a[key], b[key])) {
        assert ma[key] == mb[key];
      }
    }
  }

  // ---------- the survivor ----------

  lemma {:induction false} LeastIsLeast(dps: seq<Datapoint>, less: (Datapoint, Datapoint) -> bool)
    requires dps != [] && StrictWeak(less)
    ensures forall k :: 0 <= k < |dps| ==> !less(dps[k], dps[FirstLeast(dps, less)])
  {
    if |dps| > 1 {
      LeastIsLeast(dps[1..], less);
      var n := 1 + FirstLeast(dps[1..], less);
      forall k | 0 <= k < |dps| ensures !less(dps[k], dps[FirstLeast(dps, less)]) {
        if k > 0 {
          assert dps[k] == dps[1..][k - 1];
          assert !less(dps[k], dps[n]);
        }
      }
    }
  }

  /** A stable sort puts the first least datapoint in front. */
  lemma {:induction false} SortedHeadIsFirstLeast(dps: seq<Datapoint>, less: (Datapoint, Datapoint) -> bool)
    requires dps != []
    ensures StableSort(dps, less) != [] && StableSort(dps, less)[0] == dps[FirstLeast(dps, less)]
  {
    if |dps| > 1 {
      SortedHeadIsFirstLeast(dps[1..], less);
    }
  }

  function Masks(dps: seq<Datapoint>, flexible: set<string>): (r: seq<Attributes>)
    ensures |r| == |dps|
    ensures forall n :: 0 <= n < |dps| ==> r[n] == Masked(dps[n].attributes, flexible)
  {
    seq(|dps|, n requires 0 <= n < |dps| => Masked(dps[n].attributes, flexible))
  }

  function SurvivingMask(dps: seq<Datapoint>, flexible: set<string>, hash: MapHash): Attributes
    requires dps != []
  {
    Masked(Survivors(dps, flexible, hash)[0].attributes, flexible)
  }

  /** The masks in a batch whose digest is least. */
  ghost predicate IsLeastMask(mask: Attributes, masks: seq<Attributes>, hash: MapHash) {
    mask in masks && forall other :: other in masks ==> !DigestLess(hash(other), hash(mask))
  }

  lemma SurvivorIsLeast(dps: seq<Datapoint>, flexible: set<string>, hash: MapHash)
    requires dps != []
    ensures IsLeastMask(SurvivingMask(dps, flexible, hash), Masks(dps, flexible), hash)
  {
    var less := DatapointLess(flexible, hash);
    DatapointOrderIsWeak(flexible, hash);
    LeastIsLeast(dps, less);
    var n, masks := FirstLeast(dps, less), Masks(dps, flexible);
    assert masks[n] == SurvivingMask(dps, flexible, hash);
    forall other | other in masks ensures !DigestLess(hash(other), hash(masks[n])) {
      var k :| 0 <= k < |masks| && masks[k] == other;
      assert !less(dps[k], dps[n]);
    }
  }

  /** The least digest of a batch is carried by one mask only. */
  ghost predicate LeastIsUnique(masks: seq<Attributes>, hash: MapHash) {
    forall x, y :: IsLeastMask(x, masks, hash) && IsLeastMask(y, masks, hash) ==> x == y
  }

  /**
   Two batches that agree up to order and flexible values leave datapoints with the same
   masked attributes.
   */
  lemma SurvivorIsStable(a: seq<Datapoint>, b: seq<Datapoint>, flexible: set<string>, hash: MapHash)
    requires a != [] && multiset(Masks(a, flexible)) == multiset(Masks(b, flexible))
    requires CollisionFree(hash, set m | m in Masks(a, flexible))
    ensures b != [] && SurvivingMask(a, flexible, hash) == SurvivingMask(b, flexible, hash)
  {
    assert Masks(a, flexible)[0] in multiset(Masks(b, flexible));
    SameMembers(Masks(a, flexible), Masks(b, flexible));
    SurvivorIsLeast(a, flexible, hash);
    SurvivorIsLeast(b, flexible, hash);
    LeastDigestsAgree(SurvivingMask(a, flexible, hash), SurvivingMask(b, flexible, hash), Masks(a, flexible), hash);
  }

  lemma SameMembers(s: seq<Attributes>, t: seq<Attributes>)
    requires multiset(s) == multiset(t)
    ensures forall x :: x in s <==> x in t
  {
    forall x ensures x in s <==> x in t {
      assert x in s <==> x in multiset(s);
      assert x in t <==> x in multiset(t);
    }
  }

  lemma LeastDigestsAgree(x: Attributes, y: Attributes, masks: seq<Attributes>, hash: MapHash)
    requires IsLeastMask(x, masks, hash) && IsLeastMask(y, masks, hash)
    ensures hash(x) == hash(y)
  {
    DigestLessIsTotal();
    assert hash(x) == hash(y) || DigestLess(hash(x), hash(y)) || DigestLess(hash(y), hash(x));
  }

  lemma MasksPlus(a: seq<Datapoint>, b: seq<Datapoint>, flexible: set<string>)
    ensures Masks(a + b, flexible) == Masks(a, flexible) + Masks(b, flexible)
  {
  }

  /** Moving a datapoint to the front keeps the batch up to order. */
  lemma ToFront(dps: seq<Datapoint>, k: nat, flexible: set<string>) returns (b: seq<Datapoint>)
    requires k < |dps|
    ensures |b| == |dps| && b[0] == dps[k]
    ensures multiset(Masks(b, flexible)) == multiset(Masks(dps, flexible))
  {
    var before, one, after := dps[..k], [dps[k]], dps[k + 1..];
    b := one + (before + after);
    assert dps == before + (one + after);
    MasksPlus(before, one + after, flexible);
    MasksPlus(one, after, flexible);
    MasksPlus(one, before + after, flexible);
    MasksPlus(before, after, flexible);
  }

  /** With a least mask in front, it is the front datapoint that survives. */
  lemma FrontSurvives(dps: seq<Datapoint>, flexible: set<string>, hash: MapHash)
    requires dps != [] && IsLeastMask(Masked(dps[0].attributes, flexible), Masks(dps, flexible), hash)
    ensures Survivors(dps, flexible, hash) == [dps[0]]
  {
    var less := DatapointLess(flexible, hash);
    if |dps| > 1 {
      var n := 1 + FirstLeast(dps[1..], less);
      assert Masks(dps, flexible)[n] in Masks(dps, flexible);
    }
  }

  ghost predicate StableUnderReordering(a: seq<Datapoint>, flexible: set<string>, hash: MapHash)
    requires a != []
  {
    forall b: seq<Datapoint> :: b != [] && multiset(Masks(b, flexible)) == multiset(Masks(a, flexible))
      ==> SurvivingMask(b, flexible, hash) == SurvivingMask(a, flexible, hash)
  }

  /** Exactly when: the survivor of a batch is stable if and only if its least digest belongs to one mask. */
  lemma StableExactlyWithoutLeastCollision(a: seq<Datapoint>, flexible: set<string>, hash: MapHash)
    requires a != []
    ensures StableUnderReordering(a, flexible, hash) <==> LeastIsUnique(Masks(a, flexible), hash)
  {
    var masks := Masks(a, flexible);
    SurvivorIsLeast(a, flexible, hash);
    if LeastIsUnique(masks, hash) {
      forall b: seq<Datapoint> | b != [] && multiset(Masks(b, flexible)) == multiset(masks)
        ensures SurvivingMask(b, flexible, hash) == SurvivingMask(a, flexible, hash)
      {
        SameMembers(Masks(b, flexible), masks);
        SurvivorIsLeast(b, flexible, hash);
        assert IsLeastMask(SurvivingMask(b, flexible, hash), masks, hash);
      }
    }
    if StableUnderReordering(a, flexible, hash) {
      forall x | IsLeastMask(x, masks, hash) ensures x == SurvivingMask(a, flexible, hash) {
        var k :| 0 <= k < |masks| && masks[k] == x;
        var b := ToFront(a, k, flexible);
        SameMembers(Masks(b, flexible), masks);
        FrontSurvives(b, flexible, hash);
        assert SurvivingMask(b, flexible, hash) == x;
      }
    }
  }

  // ---------- preparing twice ----------

  lemma {:induction false} FilteredIsWanted(dps: seq<Datapoint>, wanted: map<string, string>)
    ensures forall dp :: dp in Filtered(dps, wanted) ==> Wanted(dp.attributes, wanted)
  {
    if dps != [] {
      FilteredIsWanted(dps[1..], wanted);
    }
  }

  /** The filter keeps exactly the wanted datapoints, as often as they occur. */
  lemma {:induction false} FilterKeepsExactly(dps: seq<Datapoint>, wanted: map<string, string>, dp: Datapoint)
    ensures var fits := forall key :: key in wanted ==> key in dp.attributes && dp.attributes[key] == Str(wanted[key]);
            multiset(Filtered(dps, wanted))[dp] == if fits then multiset(dps)[dp] else 0
  {
    if dps != [] {
      FilterKeepsExactly(dps[1..], wanted, dp);
      assert dps == [dps[0]] + dps[1..];
    }
  }

  lemma {:induction false} FilteringWanted(dps: seq<Datapoint>, wanted: map<string, string>)
    requires forall dp :: dp in dps ==> Wanted(dp.attributes, wanted)
    ensures Filtered(dps, wanted) == dps
  {
    if dps != [] {
      FilteringWanted(dps[1..], wanted);
      assert dps[0] in dps;
    }
  }

  /** Every later stage keeps names and kinds, and only drops datapoints. */
  ghost predicate Shrinks(before: MetricView, after: MetricView) {
    && after == before.(datapoints := after.datapoints)
    && multiset(after.datapoints) <= multiset(before.datapoints)
  }

  lemma {:induction false} FilteredShrinks(dps: seq<Datapoint>, wanted: map<string, string>)
    ensures multiset(Filtered(dps, wanted)) <= multiset(dps)
  {
    if dps != [] {
      FilteredShrinks(dps[1..], wanted);
      assert dps == [dps[0]] + dps[1..];
    }
  }

  lemma ReducingShrinks(m: MetricView, max: int)
    ensures Shrinks(m, Reducer(max)(m))
  {
    if 0 < max < |m.datapoints| {
      assert m.datapoints == m.datapoints[..max] + m.datapoints[max..];
    }
  }

  lemma FirstOnlyShrinks(m: MetricView, names: set<string>, flexible: set<string>, hash: MapHash)
    ensures Shrinks(m, Firster(names, flexible, hash)(m))
  {
    if m.datapoints != [] {
      var n := FirstLeast(m.datapoints, DatapointLess(flexible, hash));
      assert m.datapoints[n] in multiset(m.datapoints);
      assert multiset([m.datapoints[n]]) <= multiset(m.datapoints);
    }
  }

  /** Preparation keeps every metric in place and takes every surviving datapoint from the input. */
  lemma PreparationConserves(ms: seq<MetricView>, cfg: Config, hash: MapHash)
    ensures forall n :: 0 <= n < |ms| ==> Shrinks(ms[n], PreparedMetrics(ms, cfg, hash)[n])
  {
    var names, flexible := (set n | n in cfg.firstDatapointOnly), cfg.FlexibleAttrs();
    var retained := Retained(ms, cfg.selectedNumberMetric, cfg.selectedNumberDatapoint);
    var reduced := Each(retained, Reducer(cfg.maxDatapointsPerMetric));
    forall n | 0 <= n < |ms| ensures Shrinks(ms[n], PreparedMetrics(ms, cfg, hash)[n]) {
      FilteredShrinks(ms[n].datapoints, cfg.selectedNumberDatapoint);
      ReducingShrinks(retained[n], cfg.maxDatapointsPerMetric);
      FirstOnlyShrinks(reduced[n], names, flexible, hash);
    }
  }

  lemma SameNamesSameFirst(a: seq<MetricView>, b: seq<MetricView>, name: string)
    requires |a| == |b| && forall n :: 0 <= n < |a| ==> a[n].name == b[n].name
    ensures FirstNamed(a, name) == FirstNamed(b, name)
  {
    var i, j := FirstNamed(a, name), FirstNamed(b, name);
    assert i < |a| ==> b[i].name == name;
    assert j < |b| ==> a[j].name == name;
  }

  /** The metric stages after retention change nothing the second time. */
  lemma StagesSettle(m: MetricView, max: int, names: set<string>, flexible: set<string>, hash: MapHash)
    ensures var r := Firster(names, flexible, hash)(Reducer(max)(m));
            Reducer(max)(r) == r && Firster(names, flexible, hash)(r) == r
  {
    FirstOnlyShrinks(Reducer(max)(m), names, flexible, hash);
  }

  /** Preparing a prepared payload changes nothing, for every configuration. */
  lemma PreparingTwice(ms: seq<MetricView>, cfg: Config, hash: MapHash)
    ensures PreparedMetrics(PreparedMetrics(ms, cfg, hash), cfg, hash) == PreparedMetrics(ms, cfg, hash)
  {
    var names, flexible := (set n | n in cfg.firstDatapointOnly), cfg.FlexibleAttrs();
    var name, wanted := cfg.selectedNumberMetric, cfg.selectedNumberDatapoint;
    var max := cfg.maxDatapointsPerMetric;
    var retained := Retained(ms, name, wanted);
    var once := PreparedMetrics(ms, cfg, hash);
    PreparationConserves(ms, cfg, hash);
    SameNamesSameFirst(ms, once, name);
    var n := FirstNamed(ms, name);
    assert Retained(once, name, wanted) == once by {
      if n < |ms| && IsNumber(ms[n].kind) {
        FilteredIsWanted(ms[n].datapoints, wanted);
        var r := retained[n];
        ReducingShrinks(r, max);
        FirstOnlyShrinks(Reducer(max)(r), names, flexible, hash);
        forall dp | dp in once[n].datapoints ensures Wanted(dp.attributes, wanted) {
          assert dp in multiset(once[n].datapoints);
          assert dp in multiset(r.datapoints);
        }
        FilteringWanted(once[n].datapoints, wanted);
      }
    }
    forall k | 0 <= k < |ms| ensures Reducer(max)(once[k]) == once[k] && Firster(names, flexible, hash)(once[k]) == once[k] {
      StagesSettle(retained[k], max, names, flexible, hash);
    }
    assert Each(once, Reducer(max)) == once;
    assert Each(once, Firster(names, flexible, hash)) == once;
  }

  /** The same for whole payloads: what the golden-file update writes is what it then compares. */
  lemma PreparationIsIdempotent(p: Payload<MetricView>, cfg: Config, hash: MapHash)
    ensures Prepared(Prepared(p, cfg, hash), cfg, hash) == Prepared(p, cfg, hash)
  {
    var once := PreparedMetrics(Flat(p), cfg, hash);
    PreparingTwice(Flat(p), cfg, hash);
    WithMetricsTwice(p, once, once);
  }
}
