/**
 The core and union keys of entity records, and the verdict that compares them.
 Models the key algebra of k8sentities_test.go.
 */
module EntityKeys {
  import opened Ordering
  import opened Pdata
  import opened Text

  type Keys = set<string>

  // ---------- core and union ----------

  function Union(sets: seq<Keys>): Keys {
    set i, k | 0 <= i < |sets| && k in sets[i] :: k
  }

  /** The keys of every non-empty set; none when all sets are empty. */
  function Core(sets: seq<Keys>): Keys {
    set k | k in Union(sets) && InEveryNonEmpty(k, sets)
  }

  predicate InEveryNonEmpty(k: string, sets: seq<Keys>) {
    forall i :: 0 <= i < |sets| && sets[i] != {} ==> k in sets[i]
  }

  predicate HasNonEmpty(sets: seq<Keys>) {
    exists i :: 0 <= i < |sets| && sets[i] != {}
  }

  lemma UnionSnoc(sets: seq<Keys>, s: Keys)
    ensures Union(sets + [s]) == Union(sets) + s
  {
    var all := sets + [s];
    forall k ensures k in Union(all) <==> k in Union(sets) + s {
      if k in Union(sets) {
        var i :| 0 <= i < |sets| && k in sets[i];
        assert k in all[i];
      }
      if k in s {
        assert k in all[|sets|];
      }
    }
  }

  lemma CoreSnoc(sets: seq<Keys>, s: Keys)
    ensures Core(sets + [s]) == if s == {} then Core(sets) else if HasNonEmpty(sets) then Core(sets) * s else s
  {
    var all := sets + [s];
    UnionSnoc(sets, s);
    assert forall i :: 0 <= i < |sets| ==> all[i] == sets[i];
    assert all[|sets|] == s;
    if HasNonEmpty(sets) {
      var i :| 0 <= i < |sets| && sets[i] != {};
      assert all[i] == sets[i];
      assert forall k :: k in sets[i] ==> k in Union(sets);
    } else {
      assert Union(sets) == {};
    }
  }

  method Intersect(a: Keys, b: Keys) returns (out: Keys)
    ensures out == a * b
  {
    out := {};
    var rest := a;
    while rest != {}
      invariant rest <= a && out == (a - rest) * b
      decreases rest
    {
      var k :| k in rest;
      if k in b {
        out := out + {k};
      }
      rest := rest - {k};
    }
  }

  /** `started` tells the nil map of the program from an empty intersection. */
  method IntersectAll(sets: seq<Keys>) returns (out: Keys)
    ensures out == Core(sets)
  {
    out := {};
    var started := false;
    for i := 0 to |sets|
      invariant started <==> HasNonEmpty(sets[..i])
      invariant out == Core(sets[..i])
    {
      assert sets[..i + 1] == sets[..i] + [sets[i]];
      CoreSnoc(sets[..i], sets[i]);
      if |sets[i]| != 0 {
        assert sets[..i + 1][i] != {};
        if !started {
          out, started := sets[i], true;
        } else {
          out := Intersect(out, sets[i]);
          assert HasNonEmpty(sets[..i + 1]);
        }
      }
    }
    assert sets[..|sets|] == sets;
  }

  method UnionAll(sets: seq<Keys>) returns (out: Keys)
    ensures out == Union(sets)
  {
    out := {};
    for i := 0 to |sets|
      invariant out == Union(sets[..i])
    {
      ghost var before := out;
      var rest := sets[i];
      while rest != {}
        invariant rest <= sets[i] && out == before + (sets[i] - rest)
        decreases rest
      {
        var k :| k in rest;
        out, rest := out + {k}, rest - {k};
      }
      assert sets[..i + 1] == sets[..i] + [sets[i]];
      UnionSnoc(sets[..i], sets[i]);
    }
    assert sets[..|sets|] == sets;
  }

  // ---------- the aggregate per entity type ----------

  datatype RecordKeys = RecordKeys(id: Keys, attrs: Keys)
  datatype KeySets = KeySets(idCore: Keys, idUnion: Keys, attrCore: Keys, attrUnion: Keys)

  function Ids(recs: seq<RecordKeys>): (r: seq<Keys>)
    ensures |r| == |recs| && forall i :: 0 <= i < |r| ==> r[i] == recs[i].id
  {
    seq(|recs|, i requires 0 <= i < |recs| => recs[i].id)
  }

  function Attrs(recs: seq<RecordKeys>): (r: seq<Keys>)
    ensures |r| == |recs| && forall i :: 0 <= i < |r| ==> r[i] == recs[i].attrs
  {
    seq(|recs|, i requires 0 <= i < |recs| => recs[i].attrs)
  }

  function Aggregate(recs: seq<RecordKeys>): KeySets {
    KeySets(Core(Ids(recs)), Union(Ids(recs)), Core(Attrs(recs)), Union(Attrs(recs)))
  }

  /** Which set is which: core and union of the identifying keys and of the descriptive ones. */
  lemma AggregateExactly(recs: seq<RecordKeys>, k: string)
    ensures k in Aggregate(recs).idUnion <==> exists i :: 0 <= i < |recs| && k in recs[i].id
    ensures k in Aggregate(recs).attrUnion <==> exists i :: 0 <= i < |recs| && k in recs[i].attrs
    ensures k in Aggregate(recs).idCore <==>
              (exists i :: 0 <= i < |recs| && k in recs[i].id) && forall i :: 0 <= i < |recs| && recs[i].id != {} ==> k in recs[i].id
    ensures k in Aggregate(recs).attrCore <==>
              (exists i :: 0 <= i < |recs| && k in recs[i].attrs) && forall i :: 0 <= i < |recs| && recs[i].attrs != {} ==> k in recs[i].attrs
  {
    var ids, attrs := Ids(recs), Attrs(recs);
    assert k in Union(ids) <==> exists i :: 0 <= i < |recs| && k in recs[i].id by {
      if i :| 0 <= i < |recs| && k in recs[i].id { assert k in ids[i]; }
    }
    assert k in Union(attrs) <==> exists i :: 0 <= i < |recs| && k in recs[i].attrs by {
      if i :| 0 <= i < |recs| && k in recs[i].attrs { assert k in attrs[i]; }
    }
    assert InEveryNonEmpty(k, ids) <==> forall i :: 0 <= i < |recs| && recs[i].id != {} ==> k in recs[i].id by {
      assert forall i :: 0 <= i < |recs| ==> ids[i] == recs[i].id;
    }
    assert InEveryNonEmpty(k, attrs) <==> forall i :: 0 <= i < |recs| && recs[i].attrs != {} ==> k in recs[i].attrs by {
      assert forall i :: 0 <= i < |recs| ==> attrs[i] == recs[i].attrs;
    }
  }

  method AggregateEntityKeys(byType: map<string, seq<RecordKeys>>) returns (out: map<string, KeySets>)
    ensures out.Keys == byType.Keys
    ensures forall etype :: etype in byType ==> out[etype] == Aggregate(byType[etype])
  {
    out := map[];
    var rest := byType.Keys;
    while rest != {}
      invariant rest <= byType.Keys && out.Keys == byType.Keys - rest
      invariant forall etype :: etype in out ==> out[etype] == Aggregate(byType[etype])
      decreases rest
    {
      var etype :| etype in rest;
      var recs := byType[etype];
      var ids, attrs: seq<Keys> := [], [];
      for i := 0 to |recs|
        invariant ids == Ids(recs)[..i] && attrs == Attrs(recs)[..i]
      {
        ids, attrs := ids + [recs[i].id], attrs + [recs[i].attrs];
      }
      assert ids == Ids(recs) && attrs == Attrs(recs);
      var idCore := IntersectAll(ids);
      var idUnion := UnionAll(ids);
      var attrCore := IntersectAll(attrs);
      var attrUnion := UnionAll(attrs);
      out := out[etype := KeySets(idCore, idUnion, attrCore, attrUnion)];
      rest := rest - {etype};
    }
  }

  // ---------- the verdict ----------

  /** The sorted keys of `want` that `got` lacks, each once. */
  method DiffKeys(want: Keys, got: Keys) returns (missing: seq<string>)
    ensures multiset(missing) == multiset(want - got)
    ensures SortedBy(missing, StringLess)
  {
    missing := [];
    var rest := want;
    while rest != {}
      invariant rest <= want && multiset(missing) == multiset((want - rest) - got)
      decreases rest
    {
      var k :| k in rest;
      var before := (want - rest) - got;
      rest := rest - {k};
      if k !in got {
        missing := missing + [k];
        assert (want - rest) - got == before + {k};
      } else {
        assert (want - rest) - got == before;
      }
    }
    assert (want - rest) - got == want - got;
    StringLessIsTotal();
    TotalIsWeak(StringLess);
    StableSortSorts(missing, StringLess);
    missing := StableSort(missing, StringLess);
  }

  /** Passes without a failure: neither list of differences has an element. */
  method AssertEntityKeys(expCore: Keys, expUnion: Keys, actCore: Keys, actUnion: Keys) returns (ok: bool)
    ensures ok <==> expCore <= actUnion && actCore <= expUnion
  {
    var removed := DiffKeys(expCore, actUnion);
    var added := DiffKeys(actCore, expUnion);
    assert |removed| == |multiset(removed)| == |expCore - actUnion|;
    assert |added| == |multiset(added)| == |actCore - expUnion|;
    ok := |removed| == 0 && |added| == 0;
    DifferenceIsEmpty(expCore, actUnion);
    DifferenceIsEmpty(actCore, expUnion);
  }

  lemma DifferenceIsEmpty(a: Keys, b: Keys)
    ensures a - b == {} <==> a <= b
  {
    if a - b == {} {
      forall k | k in a ensures k in b {
        assert k !in a - b;
      }
    }
  }

  predicate Passes(expected: seq<Keys>, actual: seq<Keys>) {
    Core(expected) <= Union(actual) && Core(actual) <= Union(expected)
  }

  /** The list of differences does not depend on the order the keys were met in. */
  lemma DifferencesAreCanonical(want: Keys, got: Keys, a: seq<string>, b: seq<string>)
    requires multiset(a) == multiset(want - got) == multiset(b)
    requires SortedBy(a, StringLess) && SortedBy(b, StringLess)
    ensures a == b
  {
    StringLessIsTotal();
    SortedIsUnique(a, b, StringLess);
  }

  /** Neither core nor union depends on the order of the records. */
  lemma OrderIndependent(a: seq<Keys>, b: seq<Keys>)
    requires multiset(a) == multiset(b)
    ensures Core(a) == Core(b) && Union(a) == Union(b)
  {
    forall s ensures s in a <==> s in b {
      assert s in a <==> s in multiset(a);
      assert s in b <==> s in multiset(b);
    }
    SameMembersSameUnion(a, b);
    SameMembersSameUnion(b, a);
  }

  lemma SameMembersSameUnion(a: seq<Keys>, b: seq<Keys>)
    requires forall s :: s in a ==> s in b
    ensures Union(a) <= Union(b)
    ensures forall k :: InEveryNonEmpty(k, b) ==> InEveryNonEmpty(k, a)
  {
    forall k | k in Union(a) ensures k in Union(b) {
      var i :| 0 <= i < |a| && k in a[i];
      assert a[i] in b;
      var j :| 0 <= j < |b| && b[j] == a[i];
    }
    forall k | InEveryNonEmpty(k, b) ensures InEveryNonEmpty(k, a) {
      forall i | 0 <= i < |a| && a[i] != {} ensures k in a[i] {
        assert a[i] in b;
        var j :| 0 <= j < |b| && b[j] == a[i];
      }
    }
  }

  /** The verdict is order-independent, reflexive and symmetric. */
  lemma VerdictLaws(a: seq<Keys>, b: seq<Keys>, c: seq<Keys>)
    requires multiset(b) == multiset(c)
    ensures Passes(a, a)
    ensures Passes(a, b) <==> Passes(b, a)
    ensures Passes(a, b) <==> Passes(a, c)
  {
    OrderIndependent(b, c);
  }

  /** A further actual record never turns a pass into a failure. */
  ghost predicate Monotone(actual: seq<Keys>) {
    forall expected: seq<Keys>, extra: Keys :: Passes(expected, actual) ==> Passes(expected, actual + [extra])
  }

  /** Exactly when: the actual records already hold a non-empty one. */
  lemma MonotoneExactly(actual: seq<Keys>)
    ensures Monotone(actual) <==> HasNonEmpty(actual)
  {
    if HasNonEmpty(actual) {
      forall expected: seq<Keys>, extra: Keys | Passes(expected, actual) ensures Passes(expected, actual + [extra]) {
        UnionSnoc(actual, extra);
        CoreSnoc(actual, extra);
      }
    } else {
      var expected: seq<Keys>, extra := [], {"key"};
      assert Union(expected) == {} && Union(actual) == {};
      assert Passes(expected, actual);
      CoreSnoc(actual, extra);
      assert "key" in Core(actual + [extra]);
      assert !Passes(expected, actual + [extra]);
    }
  }

  // ---------- normalizing keys ----------

  /** The pattern matches with its first group being the first `i` characters. */
  predicate CutAt(k: string, i: nat) {
    && i + 1 < |k| && k[i] == '.' && k[i + 1] != '\n' && '\n' !in k[..i]
    && (HasSuffix(k[..i], ".label") || HasSuffix(k[..i], ".annotation") || HasSuffix(k[..i], ".selector"))
  }

  /** The greedy group of the pattern ends at the last cut at or before `i`; 0 when there is none. */
  function LastCut(k: string, i: nat): (c: nat)
    ensures c <= i && (c > 0 ==> CutAt(k, c)) && forall x :: c < x <= i ==> !CutAt(k, x)
  {
    if i == 0 || CutAt(k, i) then i else LastCut(k, i - 1)
  }

  function NormalizeKey(k: string): string {
    var c := LastCut(k, |k|);
    if c > 0 then k[..c] + ".*" else k
  }

  /** A segment that a passthrough key is cut after. */
  predicate Passthrough(segment: string) {
    segment == ".label" || segment == ".annotation" || segment == ".selector"
  }

  /** A further segment, with the dot before and the dot after it. */
  ghost predicate HasSegment(name: string) {
    exists segment: string :: Passthrough(segment) && Within("." + name, segment + ".")
  }

  /** What follows the last passthrough segment is cut, whatever it is, if it is anything. */
  lemma NormalizeExactly(prefix: string, segment: string, name: string)
    requires Passthrough(segment) && name != "" && name[0] != '\n' && '\n' !in prefix && !HasSegment(name)
    ensures NormalizeKey(prefix + segment + "." + name) == prefix + segment + ".*"
  {
    var front := prefix + segment;
    var k := front + "." + name;
    HasSuffixExactly(front, segment);
    assert k[..|front|] == front && k[|front|] == '.' && k[|front| + 1] == name[0];
    assert '\n' !in segment;
    assert CutAt(k, |front|);
    LaterCuts(front, name);
  }

  lemma LaterCuts(front: string, name: string)
    ensures forall x :: |front| < x && CutAt(front + "." + name, x) ==> HasSegment(name)
  {
    assert Passthrough(".label") && Passthrough(".annotation") && Passthrough(".selector");
    forall x: nat, other: string |
      |front| < x < |front + "." + name| && (front + "." + name)[x] == '.' && Passthrough(other) && HasSuffix((front + "." + name)[..x], other)
      ensures Within("." + name, other + ".")
    {
      CutIsWithin(front, name, x, other);
    }
  }

  /** A later segment would stand in the name. */
  lemma CutIsWithin(front: string, name: string, x: nat, other: string)
    requires var k := front + "." + name; |front| < x < |k| && k[x] == '.' && Passthrough(other) && HasSuffix(k[..x], other)
    ensures Within("." + name, other + ".")
  {
    var k, tail := front + "." + name, "." + name;
    var y := x - |other|;
    assert forall i :: 0 < i < |other| ==> other[i] != '.';
    assert k[..x][y..] == other;
    assert forall i :: 0 <= i < |other| ==> k[y + i] == other[i];
    assert k[|front|] == '.';
    assert y >= |front|;
    assert k == front + tail;
    assert tail == tail[..y - |front|] + (other + ".") + tail[x + 1 - |front|..];
  }

  /** A key without such a segment stays. */
  lemma NormalizeKeeps(k: string)
    requires forall i: nat :: i <= |k| ==> !HasSuffix(k[..i], ".label") && !HasSuffix(k[..i], ".annotation") && !HasSuffix(k[..i], ".selector")
    ensures NormalizeKey(k) == k
  {
    var c := LastCut(k, |k|);
  }

  /** Normalizing a normalized key changes nothing. */
  lemma NormalizingTwice(k: string)
    ensures NormalizeKey(NormalizeKey(k)) == NormalizeKey(k)
  {
    var c := LastCut(k, |k|);
    if c > 0 {
      var r := NormalizeKey(k);
      assert r[..c] == k[..c] && r[c] == '.' && r[c + 1] == '*';
      assert CutAt(r, c);
      var d := LastCut(r, |r|);
      assert d == c;
    }
  }

  /** Keys that go on differently after their last cut normalize to the same key. */
  lemma PassthroughNamesCollapse(prefix: string, a: string, b: string)
    requires CutAt(prefix + a, |prefix|) && CutAt(prefix + b, |prefix|)
    requires forall x :: |prefix| < x ==> !CutAt(prefix + a, x) && !CutAt(prefix + b, x)
    ensures NormalizeKey(prefix + a) == NormalizeKey(prefix + b) == prefix + ".*"
  {
    assert (prefix + a)[..|prefix|] == prefix == (prefix + b)[..|prefix|];
    var c, d := LastCut(prefix + a, |prefix + a|), LastCut(prefix + b, |prefix + b|);
    assert c == |prefix| == d;
    assert prefix != "";
  }

  /** The normalized keys of a map-valued attribute; none when it is missing or no map. */
  method MapKeys(attrs: Attributes, key: string) returns (keys: Keys)
    ensures keys == if key in attrs && attrs[key].Map? then set k | k in attrs[key].entries :: NormalizeKey(k) else {}
  {
    keys := {};
    if key !in attrs || !attrs[key].Map? {
      return;
    }
    var all := attrs[key].entries.Keys;
    var rest := all;
    while rest != {}
      invariant rest <= all && keys == set k | k in all - rest :: NormalizeKey(k)
      decreases rest
    {
      var k :| k in rest;
      keys, rest := keys + {NormalizeKey(k)}, rest - {k};
    }
    assert all - rest == all;
  }
}
