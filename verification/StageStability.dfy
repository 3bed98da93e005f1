/**
 Filter and truncation come before the sort that keeps one datapoint, so they decide which
 datapoints the sort may choose from. What that does to the stability of the survivor, exactly.
 Models the order of the stages in prepareMetricsAssertion of metricassert.go.
 */
module StageStability {
  import opened Pdata
  import opened Preparation

  /** What truncation leaves for the sort; 0 or less asks for no truncation. */
  function Cut(dps: seq<Datapoint>, max: int): (r: seq<Datapoint>)
    ensures |r| <= |dps| && (r == [] <==> dps == []) && r <= dps
  {
    if 0 < max < |dps| then dps[..max] else dps
  }

  /** What metric number `n` is filtered for: only the first metric with the selected name, if it is a number metric. */
  function WantedOf(ms: seq<MetricView>, cfg: Config, n: nat): map<string, string>
    requires n < |ms|
  {
    if n == FirstNamed(ms, cfg.selectedNumberMetric) && IsNumber(ms[n].kind) then cfg.selectedNumberDatapoint else map[]
  }

  /** Exponential histograms are never truncated. */
  function MaxOf(kind: MetricType, cfg: Config): int {
    if Truncates(kind) then cfg.maxDatapointsPerMetric else 0
  }

  /** The prepared datapoints of a metric that is reduced to its first datapoint. */
  lemma PreparedSurvivor(ms: seq<MetricView>, cfg: Config, hash: MapHash, n: nat)
    requires n < |ms| && ms[n].name in cfg.firstDatapointOnly && ms[n].kind != Untyped
    ensures PreparedMetrics(ms, cfg, hash)[n].datapoints
         == Survivors(Cut(Filtered(ms[n].datapoints, WantedOf(ms, cfg, n)), MaxOf(ms[n].kind, cfg)), cfg.FlexibleAttrs(), hash)
  {
    var names := set n | n in cfg.firstDatapointOnly;
    var retained := Retained(ms, cfg.selectedNumberMetric, cfg.selectedNumberDatapoint);
    var reduced := Each(retained, Reducer(cfg.maxDatapointsPerMetric));
    FilteringWanted(ms[n].datapoints, map[]);
    assert retained[n].datapoints == Filtered(ms[n].datapoints, WantedOf(ms, cfg, n));
    assert reduced[n] == Reducer(cfg.maxDatapointsPerMetric)(retained[n]);
    assert reduced[n].datapoints == Cut(retained[n].datapoints, MaxOf(ms[n].kind, cfg));
    assert reduced[n].name in names && reduced[n].kind != Untyped;
    assert PreparedMetrics(ms, cfg, hash)[n] == Firster(names, cfg.FlexibleAttrs(), hash)(reduced[n]);
  }

  /** The survivor keeps its masked attributes under every reordering and change of flexible values. */
  ghost predicate StableThroughCut(a: seq<Datapoint>, max: int, flexible: set<string>, hash: MapHash)
    requires a != []
  {
    forall b: seq<Datapoint> :: b != [] && multiset(Masks(b, flexible)) == multiset(Masks(a, flexible))
      ==> SurvivingMask(Cut(b, max), flexible, hash) == SurvivingMask(Cut(a, max), flexible, hash)
  }

  lemma CutMasks(dps: seq<Datapoint>, max: int, flexible: set<string>)
    ensures Masks(Cut(dps, max), flexible) <= Masks(dps, flexible)
  {
  }

  lemma {:induction false} CountAtMost(s: seq<Attributes>, x: Attributes)
    ensures multiset(s)[x] <= |s|
  {
    if s != [] {
      CountAtMost(s[1..], x);
      assert s == [s[0]] + s[1..];
    }
  }

  /** A mask with more copies than truncation drops is still there afterwards. */
  lemma FrequentStays(dps: seq<Datapoint>, max: int, flexible: set<string>, x: Attributes)
    requires max > 0 && multiset(Masks(dps, flexible))[x] + max > |dps|
    requires x in Masks(dps, flexible)
    ensures x in Masks(Cut(dps, max), flexible)
  {
    if max < |dps| {
      var masks, kept := Masks(dps, flexible), Masks(Cut(dps, max), flexible);
      assert masks == kept + masks[max..];
      assert multiset(masks)[x] == multiset(kept)[x] + multiset(masks[max..])[x];
      CountAtMost(masks[max..], x);
      assert x in multiset(kept);
    }
  }

  /** A least mask that is still there has the digest of the survivor, which is then least in the whole batch. */
  lemma SurvivorOfCut(dps: seq<Datapoint>, max: int, flexible: set<string>, hash: MapHash, x: Attributes)
    requires dps != [] && IsLeastMask(x, Masks(dps, flexible), hash) && x in Masks(Cut(dps, max), flexible)
    ensures IsLeastMask(SurvivingMask(Cut(dps, max), flexible, hash), Masks(dps, flexible), hash)
  {
    var kept := Cut(dps, max);
    CutMasks(dps, max, flexible);
    SurvivorIsLeast(kept, flexible, hash);
    assert IsLeastMask(x, Masks(kept, flexible), hash) by {
      forall other | other in Masks(kept, flexible) ensures !DigestLess(hash(other), hash(x)) {
        assert other in Masks(dps, flexible);
      }
    }
    LeastDigestsAgree(x, SurvivingMask(kept, flexible, hash), Masks(kept, flexible), hash);
  }

  /** The same datapoints up to order; none of the first `n` is masked like `x`, all others are. */
  ghost predicate IsBack(b: seq<Datapoint>, n: nat, dps: seq<Datapoint>, flexible: set<string>, x: Attributes) {
    && |b| == |dps| && n == |dps| - multiset(Masks(dps, flexible))[x]
    && multiset(Masks(b, flexible)) == multiset(Masks(dps, flexible))
    && forall k :: 0 <= k < n ==> Masks(b, flexible)[k] != x
  }

  lemma {:induction false} ToBack(dps: seq<Datapoint>, flexible: set<string>, x: Attributes) returns (b: seq<Datapoint>, n: nat)
    ensures IsBack(b, n, dps, flexible, x)
  {
    if dps == [] {
      b, n := [], 0;
    } else {
      b, n := ToBack(dps[1..], flexible, x);
      assert [dps[0]] + dps[1..] == dps;
      if Masked(dps[0].attributes, flexible) == x {
        BackSnoc(b, n, dps[0], dps[1..], flexible, x);
        b := b + [dps[0]];
      } else {
        BackCons(b, n, dps[0], dps[1..], flexible, x);
        b, n := [dps[0]] + b, n + 1;
      }
    }
  }

  lemma BackSnoc(b: seq<Datapoint>, n: nat, dp: Datapoint, rest: seq<Datapoint>, flexible: set<string>, x: Attributes)
    requires IsBack(b, n, rest, flexible, x) && Masked(dp.attributes, flexible) == x
    ensures IsBack(b + [dp], n, [dp] + rest, flexible, x)
  {
    MasksCons(dp, rest, flexible);
    assert Masks(b + [dp], flexible) == Masks(b, flexible) + [x];
  }

  lemma BackCons(b: seq<Datapoint>, n: nat, dp: Datapoint, rest: seq<Datapoint>, flexible: set<string>, x: Attributes)
    requires IsBack(b, n, rest, flexible, x) && Masked(dp.attributes, flexible) != x
    ensures IsBack([dp] + b, n + 1, [dp] + rest, flexible, x)
  {
    MasksCons(dp, rest, flexible);
    MasksCons(dp, b, flexible);
  }

  lemma MasksCons(dp: Datapoint, rest: seq<Datapoint>, flexible: set<string>)
    ensures Masks([dp] + rest, flexible) == [Masked(dp.attributes, flexible)] + Masks(rest, flexible)
  {
  }

  /** Stability brings a least mask to the top of the whole batch, and lets no other be least. */
  lemma StableMeansUnique(a: seq<Datapoint>, max: int, flexible: set<string>, hash: MapHash, x: Attributes)
    requires a != [] && StableThroughCut(a, max, flexible, hash)
    requires IsLeastMask(x, Masks(a, flexible), hash)
    ensures x == SurvivingMask(Cut(a, max), flexible, hash)
  {
    var masks := Masks(a, flexible);
    var k :| 0 <= k < |masks| && masks[k] == x;
    var b := ToFront(a, k, flexible);
    SameMembers(Masks(b, flexible), masks);
    var kept := Cut(b, max);
    CutMasks(b, max, flexible);
    assert kept[0] == b[0] && Masks(kept, flexible)[0] == x;
    assert IsLeastMask(x, Masks(kept, flexible), hash) by {
      forall other | other in Masks(kept, flexible) ensures !DigestLess(hash(other), hash(x)) {
        assert other in Masks(b, flexible);
      }
    }
    FrontSurvives(kept, flexible, hash);
  }

  /** The least digest belongs to one mask, and truncation, if any, cannot drop every datapoint that has it. */
  ghost predicate OneFrequentLeast(a: seq<Datapoint>, max: int, flexible: set<string>, hash: MapHash)
    requires a != []
  {
    && LeastIsUnique(Masks(a, flexible), hash)
    && (max <= 0 || multiset(Masks(a, flexible))[SurvivingMask(a, flexible, hash)] + max > |a|)
  }

  /** Exactly when: the survivor of a batch is stable through truncation if and only if it has one frequent least mask. */
  lemma StableThroughCutExactly(a: seq<Datapoint>, max: int, flexible: set<string>, hash: MapHash)
    requires a != []
    ensures StableThroughCut(a, max, flexible, hash) <==> OneFrequentLeast(a, max, flexible, hash)
  {
    if max <= 0 {
      StableWithoutCut(a, max, flexible, hash);
      StableExactlyWithoutLeastCollision(a, flexible, hash);
    } else {
      StableWithCut(a, max, flexible, hash);
    }
  }

  lemma StableWithoutCut(a: seq<Datapoint>, max: int, flexible: set<string>, hash: MapHash)
    requires a != [] && max <= 0
    ensures StableThroughCut(a, max, flexible, hash) <==> StableUnderReordering(a, flexible, hash)
  {
    assert forall b: seq<Datapoint> :: Cut(b, max) == b;
  }

  lemma StableWithCut(a: seq<Datapoint>, max: int, flexible: set<string>, hash: MapHash)
    requires a != [] && max > 0
    ensures StableThroughCut(a, max, flexible, hash) <==> OneFrequentLeast(a, max, flexible, hash)
  {
    var masks, x := Masks(a, flexible), SurvivingMask(a, flexible, hash);
    SurvivorIsLeast(a, flexible, hash);
    if LeastIsUnique(masks, hash) && multiset(masks)[x] + max > |a| {
      forall b: seq<Datapoint> | b != [] && multiset(Masks(b, flexible)) == multiset(masks)
        ensures SurvivingMask(Cut(b, max), flexible, hash) == x
      {
        FrequentLeastSurvives(a, b, max, flexible, hash);
      }
    }
    if StableThroughCut(a, max, flexible, hash) {
      forall y | IsLeastMask(y, masks, hash) ensures y == SurvivingMask(Cut(a, max), flexible, hash) {
        StableMeansUnique(a, max, flexible, hash, y);
      }
    }
    if multiset(masks)[x] + max <= |a| {
      var b := RareIsDropped(a, max, flexible, hash, x);
    }
  }

  lemma FrequentLeastSurvives(a: seq<Datapoint>, b: seq<Datapoint>, max: int, flexible: set<string>, hash: MapHash)
    requires a != [] && b != [] && max > 0 && multiset(Masks(b, flexible)) == multiset(Masks(a, flexible))
    requires LeastIsUnique(Masks(a, flexible), hash)
    requires multiset(Masks(a, flexible))[SurvivingMask(a, flexible, hash)] + max > |a|
    ensures SurvivingMask(Cut(b, max), flexible, hash) == SurvivingMask(a, flexible, hash)
  {
    var x := SurvivingMask(a, flexible, hash);
    SurvivorIsLeast(a, flexible, hash);
    SameMembers(Masks(a, flexible), Masks(b, flexible));
    assert |a| == |multiset(Masks(a, flexible))| == |multiset(Masks(b, flexible))| == |b|;
    FrequentStays(b, max, flexible, x);
    SurvivorOfCut(b, max, flexible, hash, x);
    assert IsLeastMask(SurvivingMask(Cut(b, max), flexible, hash), Masks(a, flexible), hash);
  }

  /** When truncation drops as many datapoints as have a mask, some order drops them all. */
  lemma RareIsDropped(a: seq<Datapoint>, max: int, flexible: set<string>, hash: MapHash, x: Attributes) returns (b: seq<Datapoint>)
    requires 0 < max && multiset(Masks(a, flexible))[x] + max <= |a|
    ensures b != [] && multiset(Masks(b, flexible)) == multiset(Masks(a, flexible))
    ensures SurvivingMask(Cut(b, max), flexible, hash) != x
  {
    var n;
    b, n := ToBack(a, flexible, x);
    var kept := Cut(b, max);
    forall k | 0 <= k < |kept| ensures Masks(kept, flexible)[k] != x {
      assert k < n && Masks(b, flexible)[k] != x;
    }
    SurvivorIsLeast(kept, flexible, hash);
  }

  // ---------- with the filter ----------

  /** Some values of its flexible attributes would make these attributes wanted. */
  predicate Wantable(attributes: Attributes, wanted: map<string, string>, flexible: set<string>) {
    forall key :: key in wanted ==>
      key in attributes && if key in flexible then attributes[key].Str? else attributes[key] == Str(wanted[key])
  }

  lemma WantableByMask(a: Attributes, wanted: map<string, string>, flexible: set<string>)
    ensures Wantable(Masked(a, flexible), wanted, flexible) <==> Wantable(a, wanted, flexible)
    ensures wanted.Keys !! flexible ==> (Wantable(a, wanted, flexible) <==> Wanted(a, wanted))
    ensures Wanted(a, wanted) ==> Wantable(a, wanted, flexible)
  {
    var m := Masked(a, flexible);
    forall key | key in a
      ensures key in flexible ==> (m[key].Str? <==> a[key].Str?)
      ensures key !in flexible ==> m[key] == a[key]
    {}
    assert wanted.Keys !! flexible ==> forall key :: key in wanted ==> key !in flexible;
  }

  predicate NoneWantable(dps: seq<Datapoint>, wanted: map<string, string>, flexible: set<string>) {
    forall k :: 0 <= k < |dps| ==> !Wantable(dps[k].attributes, wanted, flexible)
  }

  /** The masks of what is left; at most one. */
  function SurvivingMasks(dps: seq<Datapoint>, wanted: map<string, string>, max: int, flexible: set<string>, hash: MapHash): seq<Attributes> {
    Masks(Survivors(Cut(Filtered(dps, wanted), max), flexible, hash), flexible)
  }

  /** The prepared survivor keeps its masked attributes under every reordering and change of flexible values of the input. */
  ghost predicate StableThroughStages(a: seq<Datapoint>, wanted: map<string, string>, max: int, flexible: set<string>, hash: MapHash) {
    forall b: seq<Datapoint> :: multiset(Masks(b, flexible)) == multiset(Masks(a, flexible))
      ==> SurvivingMasks(b, wanted, max, flexible, hash) == SurvivingMasks(a, wanted, max, flexible, hash)
  }

  lemma {:induction false} NoneWantedNoneLeft(dps: seq<Datapoint>, wanted: map<string, string>)
    requires forall k :: 0 <= k < |dps| ==> !Wanted(dps[k].attributes, wanted)
    ensures Filtered(dps, wanted) == []
  {
    if dps != [] {
      NoneWantedNoneLeft(dps[1..], wanted);
    }
  }

  lemma {:induction false} WantedIsLeft(dps: seq<Datapoint>, wanted: map<string, string>, k: nat)
    requires k < |dps| && Wanted(dps[k].attributes, wanted)
    ensures Filtered(dps, wanted) != []
  {
    if k > 0 {
      WantedIsLeft(dps[1..], wanted, k - 1);
    }
  }

  lemma NoneWantableStays(a: seq<Datapoint>, b: seq<Datapoint>, wanted: map<string, string>, flexible: set<string>)
    requires NoneWantable(a, wanted, flexible) && multiset(Masks(b, flexible)) == multiset(Masks(a, flexible))
    ensures Filtered(b, wanted) == []
  {
    SameMembers(Masks(a, flexible), Masks(b, flexible));
    forall k | 0 <= k < |b| ensures !Wanted(b[k].attributes, wanted) {
      var mask := Masks(b, flexible)[k];
      assert mask in Masks(a, flexible);
      var i :| 0 <= i < |a| && Masks(a, flexible)[i] == mask;
      WantableByMask(a[i].attributes, wanted, flexible);
      WantableByMask(b[k].attributes, wanted, flexible);
    }
    NoneWantedNoneLeft(b, wanted);
  }

  // ---------- a filter on flexible attributes ----------

  /** No datapoint keeps the wanted value under `key`. */
  function Spoiled(dp: Datapoint, key: string, wanted: map<string, string>): Datapoint
    requires key in wanted
  {
    if key in dp.attributes && dp.attributes[key].Str? then dp.(attributes := dp.attributes[key := Str(wanted[key] + "x")]) else dp
  }

  lemma SpoiledMask(dp: Datapoint, key: string, wanted: map<string, string>, flexible: set<string>)
    requires key in wanted && key in flexible
    ensures !Wanted(Spoiled(dp, key, wanted).attributes, wanted)
    ensures Masked(Spoiled(dp, key, wanted).attributes, flexible) == Masked(dp.attributes, flexible)
  {
    assert wanted[key] + "x" != wanted[key];
    assert !Wanted(Spoiled(dp, key, wanted).attributes, wanted) by {
      var after := Spoiled(dp, key, wanted).attributes;
      assert !(key in after && after[key] == Str(wanted[key]));
    }
    MaskIdentifies(Spoiled(dp, key, wanted).attributes, dp.attributes, flexible);
  }

  /** The datapoint with the wanted values in its flexible attributes. */
  function Fulfilled(dp: Datapoint, wanted: map<string, string>, flexible: set<string>): Datapoint {
    dp.(attributes := map key | key in dp.attributes ::
      if key in wanted && key in flexible && dp.attributes[key].Str? then Str(wanted[key]) else dp.attributes[key])
  }

  lemma FulfilledMask(dp: Datapoint, wanted: map<string, string>, flexible: set<string>)
    requires Wantable(dp.attributes, wanted, flexible)
    ensures Wanted(Fulfilled(dp, wanted, flexible).attributes, wanted)
    ensures Masked(Fulfilled(dp, wanted, flexible).attributes, flexible) == Masked(dp.attributes, flexible)
  {
    MaskIdentifies(Fulfilled(dp, wanted, flexible).attributes, dp.attributes, flexible);
  }

  /** Other flexible values for which the filter leaves nothing. */
  lemma AllSpoiled(a: seq<Datapoint>, wanted: map<string, string>, flexible: set<string>, key: string) returns (b: seq<Datapoint>)
    requires key in wanted && key in flexible
    ensures Masks(b, flexible) == Masks(a, flexible) && Filtered(b, wanted) == []
  {
    b := seq(|a|, i requires 0 <= i < |a| => Spoiled(a[i], key, wanted));
    forall i | 0 <= i < |a| ensures Masks(b, flexible)[i] == Masks(a, flexible)[i] && !Wanted(b[i].attributes, wanted) {
      SpoiledMask(a[i], key, wanted, flexible);
    }
    NoneWantedNoneLeft(b, wanted);
  }

  /** Other flexible values for which it leaves something. */
  lemma OneFulfilled(a: seq<Datapoint>, wanted: map<string, string>, flexible: set<string>, k: nat) returns (b: seq<Datapoint>)
    requires k < |a| && Wantable(a[k].attributes, wanted, flexible)
    ensures Masks(b, flexible) == Masks(a, flexible) && Filtered(b, wanted) != []
  {
    b := a[k := Fulfilled(a[k], wanted, flexible)];
    FulfilledMask(a[k], wanted, flexible);
    WantedIsLeft(b, wanted, k);
  }

  /** With a flexible wanted attribute, a datapoint that can be wanted can come and go. */
  lemma FlexibleFilterIsUnstable(a: seq<Datapoint>, wanted: map<string, string>, max: int, flexible: set<string>, hash: MapHash,
    k: nat, key: string)
    requires k < |a| && Wantable(a[k].attributes, wanted, flexible) && key in wanted && key in flexible
    ensures !StableThroughStages(a, wanted, max, flexible, hash)
  {
    var none := AllSpoiled(a, wanted, flexible, key);
    var some := OneFulfilled(a, wanted, flexible, k);
    NoMaskLeft(none, wanted, max, flexible, hash);
    NoMaskLeft(some, wanted, max, flexible, hash);
  }

  lemma NoMaskLeft(dps: seq<Datapoint>, wanted: map<string, string>, max: int, flexible: set<string>, hash: MapHash)
    ensures SurvivingMasks(dps, wanted, max, flexible, hash) == [] <==> Filtered(dps, wanted) == []
  {
  }

  // ---------- a filter on other attributes ----------

  function Unwanted(dps: seq<Datapoint>, wanted: map<string, string>): seq<Datapoint> {
    if dps == [] then []
    else (if Wanted(dps[0].attributes, wanted) then [] else [dps[0]]) + Unwanted(dps[1..], wanted)
  }

  lemma FilterCons(dp: Datapoint, rest: seq<Datapoint>, wanted: map<string, string>)
    ensures Filtered([dp] + rest, wanted) == if Wanted(dp.attributes, wanted) then [dp] + Filtered(rest, wanted) else Filtered(rest, wanted)
    ensures Unwanted([dp] + rest, wanted) == if Wanted(dp.attributes, wanted) then Unwanted(rest, wanted) else [dp] + Unwanted(rest, wanted)
  {
    assert ([dp] + rest)[1..] == rest;
    assert [] + Filtered(rest, wanted) == Filtered(rest, wanted) && [] + Unwanted(rest, wanted) == Unwanted(rest, wanted);
  }

  /** The masks of a batch, as a multiset. */
  function MaskBag(dps: seq<Datapoint>, flexible: set<string>): multiset<Attributes> {
    multiset(Masks(dps, flexible))
  }

  lemma BagCons(dp: Datapoint, rest: seq<Datapoint>, flexible: set<string>)
    ensures MaskBag([dp] + rest, flexible) == multiset{Masked(dp.attributes, flexible)} + MaskBag(rest, flexible)
  {
    MasksCons(dp, rest, flexible);
  }

  lemma {:induction false} FilterSplits(dps: seq<Datapoint>, wanted: map<string, string>, flexible: set<string>)
    ensures MaskBag(dps, flexible) == MaskBag(Filtered(dps, wanted), flexible) + MaskBag(Unwanted(dps, wanted), flexible)
  {
    if dps != [] {
      var dp, rest := dps[0], dps[1..];
      FilterSplits(rest, wanted, flexible);
      assert dps == [dp] + rest;
      FilterCons(dp, rest, wanted);
      BagCons(dp, rest, flexible);
      if Wanted(dp.attributes, wanted) {
        BagCons(dp, Filtered(rest, wanted), flexible);
      } else {
        BagCons(dp, Unwanted(rest, wanted), flexible);
      }
    }
  }

  lemma {:induction false} UnwantedAreDropped(dps: seq<Datapoint>, wanted: map<string, string>)
    ensures Filtered(Unwanted(dps, wanted), wanted) == []
  {
    if dps != [] {
      var dp, rest := dps[0], dps[1..];
      UnwantedAreDropped(rest, wanted);
      assert dps == [dp] + rest;
      FilterCons(dp, rest, wanted);
      FilterCons(dp, Unwanted(rest, wanted), wanted);
    }
  }

  lemma {:induction false} FilteredPlus(a: seq<Datapoint>, b: seq<Datapoint>, wanted: map<string, string>)
    ensures Filtered(a + b, wanted) == Filtered(a, wanted) + Filtered(b, wanted)
  {
    if a == [] {
      assert a + b == b;
    } else {
      var dp, rest := a[0], a[1..];
      FilteredPlus(rest, b, wanted);
      assert a == [dp] + rest && a + b == [dp] + (rest + b);
      FilterCons(dp, rest, wanted);
      FilterCons(dp, rest + b, wanted);
      ConsPlus(dp, Filtered(rest, wanted), Filtered(b, wanted));
    }
  }

  lemma ConsPlus(dp: Datapoint, a: seq<Datapoint>, b: seq<Datapoint>)
    ensures [dp] + (a + b) == ([dp] + a) + b
  {
  }

  /** How often each mask is left. */
  lemma {:induction false} MaskIsLeft(dps: seq<Datapoint>, wanted: map<string, string>, flexible: set<string>, mask: Attributes)
    requires wanted.Keys !! flexible
    ensures MaskBag(Filtered(dps, wanted), flexible)[mask] == if Wantable(mask, wanted, flexible) then MaskBag(dps, flexible)[mask] else 0
  {
    if dps != [] {
      var dp, rest := dps[0], dps[1..];
      MaskIsLeft(rest, wanted, flexible, mask);
      WantableByMask(dp.attributes, wanted, flexible);
      assert dps == [dp] + rest;
      FilterCons(dp, rest, wanted);
      BagCons(dp, rest, flexible);
      if Wanted(dp.attributes, wanted) {
        BagCons(dp, Filtered(rest, wanted), flexible);
      }
    }
  }

  lemma FilteredAgree(a: seq<Datapoint>, b: seq<Datapoint>, wanted: map<string, string>, flexible: set<string>)
    requires wanted.Keys !! flexible && multiset(Masks(b, flexible)) == multiset(Masks(a, flexible))
    ensures multiset(Masks(Filtered(b, wanted), flexible)) == multiset(Masks(Filtered(a, wanted), flexible))
  {
    var x, y := multiset(Masks(Filtered(b, wanted), flexible)), multiset(Masks(Filtered(a, wanted), flexible));
    forall mask: Attributes ensures x[mask] == y[mask] {
      MaskIsLeft(a, wanted, flexible, mask);
      MaskIsLeft(b, wanted, flexible, mask);
    }
  }

  /** A batch with the masks of a filtered one passes the filter whole. */
  lemma PassesWhole(a: seq<Datapoint>, c: seq<Datapoint>, wanted: map<string, string>, flexible: set<string>)
    requires wanted.Keys !! flexible && multiset(Masks(c, flexible)) == multiset(Masks(Filtered(a, wanted), flexible))
    ensures Filtered(c, wanted) == c
  {
    FilteredIsWanted(a, wanted);
    SameMembers(Masks(c, flexible), Masks(Filtered(a, wanted), flexible));
    forall dp | dp in c ensures Wanted(dp.attributes, wanted) {
      var k :| 0 <= k < |c| && c[k] == dp;
      assert Masks(c, flexible)[k] in Masks(Filtered(a, wanted), flexible);
      var i :| 0 <= i < |Filtered(a, wanted)| && Masks(Filtered(a, wanted), flexible)[i] == Masks(c, flexible)[k];
      assert Filtered(a, wanted)[i] in Filtered(a, wanted);
      WantableByMask(dp.attributes, wanted, flexible);
      WantableByMask(Filtered(a, wanted)[i].attributes, wanted, flexible);
    }
    FilteringWanted(c, wanted);
  }

  /** Every batch with the masks of the filtered one is what the filter leaves of some batch with the masks of the input. */
  lemma Unfiltered(a: seq<Datapoint>, c: seq<Datapoint>, wanted: map<string, string>, flexible: set<string>) returns (b: seq<Datapoint>)
    requires wanted.Keys !! flexible && multiset(Masks(c, flexible)) == multiset(Masks(Filtered(a, wanted), flexible))
    ensures multiset(Masks(b, flexible)) == multiset(Masks(a, flexible)) && Filtered(b, wanted) == c
  {
    b := c + Unwanted(a, wanted);
    FilterSplits(a, wanted, flexible);
    MasksPlus(c, Unwanted(a, wanted), flexible);
    PassesWhole(a, c, wanted, flexible);
    FilteredPlus(c, Unwanted(a, wanted), wanted);
    UnwantedAreDropped(a, wanted);
    assert c + [] == c;
  }

  lemma OneSurvivingMask(dps: seq<Datapoint>, wanted: map<string, string>, max: int, flexible: set<string>, hash: MapHash)
    requires Filtered(dps, wanted) != []
    ensures SurvivingMasks(dps, wanted, max, flexible, hash) == [SurvivingMask(Cut(Filtered(dps, wanted), max), flexible, hash)]
  {
  }

  lemma InflexibleFilterIsTransparent(a: seq<Datapoint>, wanted: map<string, string>, max: int, flexible: set<string>, hash: MapHash)
    requires wanted.Keys !! flexible && Filtered(a, wanted) != []
    ensures StableThroughStages(a, wanted, max, flexible, hash) <==> StableThroughCut(Filtered(a, wanted), max, flexible, hash)
  {
    var f := Filtered(a, wanted);
    OneSurvivingMask(a, wanted, max, flexible, hash);
    if StableThroughCut(f, max, flexible, hash) {
      forall b: seq<Datapoint> | multiset(Masks(b, flexible)) == multiset(Masks(a, flexible))
        ensures SurvivingMasks(b, wanted, max, flexible, hash) == SurvivingMasks(a, wanted, max, flexible, hash)
      {
        FilteredAgree(a, b, wanted, flexible);
        assert Masks(f, flexible)[0] in multiset(Masks(Filtered(b, wanted), flexible));
        OneSurvivingMask(b, wanted, max, flexible, hash);
      }
    }
    if StableThroughStages(a, wanted, max, flexible, hash) {
      forall c: seq<Datapoint> | c != [] && multiset(Masks(c, flexible)) == multiset(Masks(f, flexible))
        ensures SurvivingMask(Cut(c, max), flexible, hash) == SurvivingMask(Cut(f, max), flexible, hash)
      {
        var b := Unfiltered(a, c, wanted, flexible);
        OneSurvivingMask(b, wanted, max, flexible, hash);
      }
    }
  }

  /**
   Exactly when, through all three stages: the prepared survivor is stable if and only if no
   datapoint can be wanted, or the filter looks at no flexible attribute and what it leaves has one
   frequent least mask.
   */
  lemma StableThroughStagesExactly(a: seq<Datapoint>, wanted: map<string, string>, max: int, flexible: set<string>, hash: MapHash)
    ensures StableThroughStages(a, wanted, max, flexible, hash)
       <==> || NoneWantable(a, wanted, flexible)
            || (wanted.Keys !! flexible && Filtered(a, wanted) != [] && OneFrequentLeast(Filtered(a, wanted), max, flexible, hash))
  {
    if NoneWantable(a, wanted, flexible) {
      NoneWantableStays(a, a, wanted, flexible);
      forall b: seq<Datapoint> | multiset(Masks(b, flexible)) == multiset(Masks(a, flexible)) ensures Filtered(b, wanted) == [] {
        NoneWantableStays(a, b, wanted, flexible);
      }
    } else {
      var k :| 0 <= k < |a| && Wantable(a[k].attributes, wanted, flexible);
      if wanted.Keys !! flexible {
        WantableByMask(a[k].attributes, wanted, flexible);
        WantedIsLeft(a, wanted, k);
        InflexibleFilterIsTransparent(a, wanted, max, flexible, hash);
        StableThroughCutExactly(Filtered(a, wanted), max, flexible, hash);
      } else {
        var key :| key in wanted && key in flexible;
        FlexibleFilterIsUnstable(a, wanted, max, flexible, hash, k, key);
      }
    }
  }

  // ---------- batches that are not stable ----------

  function Labelled(value: string): Datapoint {
    Datapoint(map["k" := Str(value)], Empty)
  }

  lemma TwoMasks()
    ensures Masks([Labelled("a"), Labelled("b")], {}) == [map["k" := Str("a")], map["k" := Str("b")]]
    ensures map["k" := Str("a")] != map["k" := Str("b")]
  {
    var x, y := map["k" := Str("a")], map["k" := Str("b")];
    assert x["k"] != y["k"];
    assert Masked(x, {}) == x && Masked(y, {}) == y;
  }

  /** Two datapoints that differ and a maximum of one: whatever the hash, the first to arrive survives. */
  lemma TruncationExample(hash: MapHash)
    ensures !StableThroughCut([Labelled("a"), Labelled("b")], 1, {}, hash)
  {
    var a := [Labelled("a"), Labelled("b")];
    TwoMasks();
    StableThroughCutExactly(a, 1, {}, hash);
    var x := SurvivingMask(a, {}, hash);
    assert multiset(Masks(a, {}))[x] <= 1;
  }

  /** The same two without truncation, under a hash that cannot tell them apart. */
  lemma CollisionExample()
    ensures !StableUnderReordering([Labelled("a"), Labelled("b")], {}, (m: Attributes) => [])
  {
    var a, hash := [Labelled("a"), Labelled("b")], (m: Attributes) => [];
    TwoMasks();
    StableExactlyWithoutLeastCollision(a, {}, hash);
    var masks := Masks(a, {});
    assert IsLeastMask(masks[0], masks, hash) && IsLeastMask(masks[1], masks, hash);
  }

  /** One datapoint, filtered by an attribute that is flexible: another value and nothing is left. */
  lemma FlexibleFilterExample(hash: MapHash)
    ensures !StableThroughStages([Labelled("a")], map["k" := "a"], 0, {"k"}, hash)
  {
    FlexibleFilterIsUnstable([Labelled("a")], map["k" := "a"], 0, {"k"}, hash, 0, "k");
  }
}
