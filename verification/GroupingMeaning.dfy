/**
 Which records selectLogs of k8sevents_test.go selects, what it makes of them, and what it leaves
 of its input, with the condition and the rewrite written out.
 */
module GroupingMeaning {
  import opened Pdata
  import opened LogGrouping

  /** The record has the attribute, with the text asked for; a value of another kind reads as the empty text. */
  predicate Asked(r: RecordView, s: Selector) {
    && s.attributeName in r.attributes
    && var v := r.attributes[s.attributeName]; (if v.Str? then v.text else "") == s.attributeValue
  }

  /** The record with its text modified; a body of another kind reads as the empty text. */
  function Rewritten(r: RecordView, s: Selector): RecordView {
    RecordView(r.attributes, r.rest, Str(s.modifyBody(if r.body.Str? then r.body.text else "")))
  }

  // ---------- records and their places ----------

  /** The record stands at this place, under these attributes. */
  predicate StandsAt(groups: Groups, h: int, j: int, k: int, resource: Attributes, scope: Attributes, x: RecordView) {
    && 0 <= h < |groups| && groups[h].attributes == resource
    && 0 <= j < |groups[h].scopes| && groups[h].scopes[j].attributes == scope
    && 0 <= k < |groups[h].scopes[j].records| && groups[h].scopes[j].records[k] == x
  }

  ghost predicate Stands(groups: Groups, resource: Attributes, scope: Attributes, x: RecordView) {
    exists h, j, k :: StandsAt(groups, h, j, k, resource, scope, x)
  }

  /** Some record asked for stands there, and `x` is what becomes of it. */
  ghost predicate Comes(groups: Groups, resource: Attributes, scope: Attributes, x: RecordView, s: Selector) {
    exists y :: Stands(groups, resource, scope, y) && Asked(y, s) && x == Rewritten(y, s)
  }

  /** The input afterwards: the records asked for are rewritten, all others and all attributes are as before. */
  predicate IsTouched(before: Groups, after: Groups, s: Selector) {
    && |after| == |before|
    && forall h :: 0 <= h < |before| ==> IsTouchedResource(before[h], after[h], s)
  }

  predicate IsTouchedResource(before: ResourceLogs<RecordView>, after: ResourceLogs<RecordView>, s: Selector) {
    && after.attributes == before.attributes && |after.scopes| == |before.scopes|
    && forall j :: 0 <= j < |before.scopes| ==> IsTouchedScope(before.scopes[j], after.scopes[j], s)
  }

  predicate IsTouchedScope(before: ScopeLogs<RecordView>, after: ScopeLogs<RecordView>, s: Selector) {
    && after.attributes == before.attributes && |after.records| == |before.records|
    && forall k :: 0 <= k < |before.records| ==>
         after.records[k] == if Asked(before.records[k], s) then Rewritten(before.records[k], s) else before.records[k]
  }

  /** The output holds the rewritten records asked for, each under its own attributes, and no other. */
  ghost predicate IsOutput(before: Groups, selected: Groups, s: Selector) {
    forall resource, scope, x :: Stands(selected, resource, scope, x) <==> Comes(before, resource, scope, x, s)
  }

  ghost predicate IsSelected(before: Groups, after: Groups, selected: Groups, s: Selector) {
    IsTouched(before, after, s) && IsOutput(before, selected, s)
  }

  // ---------- lists of records ----------

  /** Records are picked one by one, in order. */
  lemma {:induction false} PickedPlus(a: seq<RecordView>, b: seq<RecordView>, s: Selector)
    ensures Picked(a + b, s) == Picked(a, s) + Picked(b, s)
  {
    if a == [] {
      assert a + b == b;
    } else {
      var head := if Matches(a[0].attributes, s) then [Modified(a[0], s)] else [];
      PickedPlus(a[1..], b, s);
      assert (a + b)[1..] == a[1..] + b && (a + b)[0] == a[0];
      assert Picked(a + b, s) == head + Picked(a[1..] + b, s);
      Regroup(head, Picked(a[1..], s), Picked(b, s));
    }
  }

  lemma Regroup(a: seq<RecordView>, b: seq<RecordView>, c: seq<RecordView>)
    ensures (a + b) + c == a + (b + c)
  {
  }

  lemma PickedOne(r: RecordView, s: Selector)
    ensures Picked([r], s) == if Asked(r, s) then [Rewritten(r, s)] else []
  {
    assert [r][1..] == [];
  }

  lemma {:induction false} PickedMembers(records: seq<RecordView>, s: Selector, x: RecordView)
    ensures x in Picked(records, s) <==> exists k :: 0 <= k < |records| && Asked(records[k], s) && x == Rewritten(records[k], s)
  {
    if records != [] {
      var one, rest := records[0], records[1..];
      PickedMembers(rest, s, x);
      assert records == [one] + rest;
      PickedPlus([one], rest, s);
      PickedOne(one, s);
      if k :| 0 <= k < |records| && Asked(records[k], s) && x == Rewritten(records[k], s) {
        assert k > 0 ==> records[k] == rest[k - 1];
      }
      if x in Picked(rest, s) {
        var k :| 0 <= k < |rest| && Asked(rest[k], s) && x == Rewritten(rest[k], s);
        assert records[k + 1] == rest[k];
      }
    }
  }

  lemma {:induction false} ConcatMembers(parts: seq<seq<RecordView>>, x: RecordView)
    ensures x in Concat(parts) <==> exists i :: 0 <= i < |parts| && x in parts[i]
  {
    if parts != [] {
      var n := |parts| - 1;
      ConcatMembers(parts[..n], x);
      assert forall i :: 0 <= i < n ==> parts[..n][i] == parts[i];
    }
  }

  lemma InScopesMembers(scopes: Scopes, scope: Attributes, x: RecordView)
    ensures x in InScopes(scopes, scope) <==> exists j :: 0 <= j < |scopes| && scopes[j].attributes == scope && x in scopes[j].records
  {
    var parts := ScopeParts(scopes, scope);
    ConcatMembers(parts, x);
    if j :| 0 <= j < |scopes| && scopes[j].attributes == scope && x in scopes[j].records {
      assert x in parts[j];
    }
    if i :| 0 <= i < |parts| && x in parts[i] {
      assert scopes[i].attributes == scope && x in scopes[i].records;
    }
  }

  lemma StandsInScope(groups: Groups, h: int, resource: Attributes, scope: Attributes, x: RecordView)
    requires 0 <= h < |groups| && groups[h].attributes == resource && x in InScopes(groups[h].scopes, scope)
    ensures Stands(groups, resource, scope, x)
  {
    InScopesMembers(groups[h].scopes, scope, x);
    var j :| 0 <= j < |groups[h].scopes| && groups[h].scopes[j].attributes == scope && x in groups[h].scopes[j].records;
    var k :| 0 <= k < |groups[h].scopes[j].records| && groups[h].scopes[j].records[k] == x;
    assert StandsAt(groups, h, j, k, resource, scope, x);
  }

  /** The records filed under a pair of attributes are those that stand under it. */
  lemma InGroupsExactly(groups: Groups, resource: Attributes, scope: Attributes, x: RecordView)
    ensures x in InGroups(groups, resource, scope) <==> Stands(groups, resource, scope, x)
  {
    var parts := GroupParts(groups, resource, scope);
    ConcatMembers(parts, x);
    if i :| 0 <= i < |parts| && x in parts[i] {
      assert groups[i].attributes == resource;
      StandsInScope(groups, i, resource, scope, x);
    }
    if h, j, k :| StandsAt(groups, h, j, k, resource, scope, x) {
      InScopesMembers(groups[h].scopes, scope, x);
      assert x in parts[h];
    }
  }

  // ---------- the output ----------

  lemma PickedStands(groups: Groups, resource: Attributes, scope: Attributes, x: RecordView, s: Selector)
    ensures Stands(PickedGroups(groups, s), resource, scope, x) <==> Comes(groups, resource, scope, x, s)
  {
    var picked := PickedGroups(groups, s);
    if h, j, k :| StandsAt(picked, h, j, k, resource, scope, x) {
      var records := groups[h].scopes[j].records;
      assert picked[h].scopes[j].records == Picked(records, s);
      PickedMembers(records, s, x);
      var l :| 0 <= l < |records| && Asked(records[l], s) && x == Rewritten(records[l], s);
      assert StandsAt(groups, h, j, l, resource, scope, records[l]);
    }
    if y :| Stands(groups, resource, scope, y) && Asked(y, s) && x == Rewritten(y, s) {
      var h, j, l :| StandsAt(groups, h, j, l, resource, scope, y);
      PickedMembers(groups[h].scopes[j].records, s, x);
      assert picked[h].scopes[j].records == Picked(groups[h].scopes[j].records, s);
      var k :| 0 <= k < |picked[h].scopes[j].records| && picked[h].scopes[j].records[k] == x;
      assert StandsAt(picked, h, j, k, resource, scope, x);
    }
  }

  lemma OutputExactly(inputs: Groups, s: Selector)
    ensures IsOutput(inputs, MergeGroups(inputs, s), s)
  {
    forall resource, scope, x
      ensures Stands(MergeGroups(inputs, s), resource, scope, x) <==> Comes(inputs, resource, scope, x, s)
    {
      GroupingConserves(inputs, s, resource, scope);
      InGroupsExactly(MergeGroups(inputs, s), resource, scope, x);
      InGroupsExactly(PickedGroups(inputs, s), resource, scope, x);
      PickedStands(inputs, resource, scope, x, s);
    }
  }

  lemma TouchedExactly(inputs: Groups, s: Selector)
    ensures IsTouched(inputs, TouchedResources(inputs, s), s)
  {
    forall h | 0 <= h < |inputs| ensures IsTouchedResource(inputs[h], TouchedResources(inputs, s)[h], s) {
      forall j | 0 <= j < |inputs[h].scopes|
        ensures IsTouchedScope(inputs[h].scopes[j], TouchedScopes(inputs[h].scopes, s)[j], s) {}
    }
  }

  // ---------- the order of the output ----------

  /** Each entry of a list once, where it first comes. */
  function Firsts(list: seq<Attributes>): seq<Attributes> {
    if list == [] then [] else Once(Firsts(list[..|list| - 1]), list[|list| - 1])
  }

  function Once(list: seq<Attributes>, a: Attributes): seq<Attributes> {
    if a in list then list else list + [a]
  }

  lemma FirstsSnoc(list: seq<Attributes>, a: Attributes)
    ensures Firsts(list + [a]) == Once(Firsts(list), a)
  {
    assert (list + [a])[..|list|] == list;
  }

  lemma {:induction false} FindSnoc(list: seq<Attributes>, a: Attributes, b: Attributes)
    ensures Find(list + [a], b) == if b in list then Find(list, b) else if a == b then |list| else |list| + 1
    ensures b in list <==> Find(list, b) < |list|
  {
    var all := list + [a];
    var k := Find(all, b);
    assert k < |list| ==> list[k] == b;
    assert forall x :: 0 <= x < |list| ==> all[x] == list[x];
    assert all[|list|] == a;
  }

  /** The same entries, none twice, in the order in which they first come. */
  lemma {:induction false} FirstsExactly(list: seq<Attributes>)
    ensures forall a :: a in Firsts(list) <==> a in list
    ensures forall i, j :: 0 <= i < j < |Firsts(list)| ==> Find(list, Firsts(list)[i]) < Find(list, Firsts(list)[j])
  {
    if list != [] {
      var n := |list| - 1;
      FirstsExactly(list[..n]);
      assert list == list[..n] + [list[n]];
      forall b { FindSnoc(list[..n], list[n], b); }
    }
  }

  lemma MergedScopeList(scopes: Scopes, input: ScopeLogs<RecordView>, s: Selector)
    ensures ScopeList(MergeScope(scopes, input, s)) == Once(ScopeList(scopes), input.attributes)
  {
    FindSnoc(ScopeList(scopes), input.attributes, input.attributes);
  }

  /** Merging goes on with the list of scopes where it was. */
  lemma {:induction false} MergedScopeLists(scopes: Scopes, inputs: Scopes, s: Selector, list: seq<Attributes>)
    requires ScopeList(scopes) == Firsts(list)
    ensures ScopeList(MergeScopes(scopes, inputs, s)) == Firsts(list + ScopeList(inputs))
  {
    if inputs == [] {
      assert list + ScopeList(inputs) == list;
    } else {
      var n := |inputs| - 1;
      MergedScopeLists(scopes, inputs[..n], s, list);
      MergedScopeList(MergeScopes(scopes, inputs[..n], s), inputs[n], s);
      assert list + ScopeList(inputs) == (list + ScopeList(inputs[..n])) + [inputs[n].attributes];
      FirstsSnoc(list + ScopeList(inputs[..n]), inputs[n].attributes);
    }
  }

  /** The scopes of all resources with these attributes, in order. */
  function ScopesUnder(inputs: Groups, resource: Attributes): seq<Attributes> {
    if inputs == [] then []
    else
      var last := inputs[|inputs| - 1];
      ScopesUnder(inputs[..|inputs| - 1], resource) + if last.attributes == resource then ScopeList(last.scopes) else []
  }

  lemma {:induction false} NothingUnder(inputs: Groups, resource: Attributes)
    requires resource !in GroupList(inputs)
    ensures ScopesUnder(inputs, resource) == []
  {
    if inputs != [] {
      var n := |inputs| - 1;
      assert inputs[n].attributes == GroupList(inputs)[n];
      assert GroupList(inputs[..n]) == GroupList(inputs)[..n];
      NothingUnder(inputs[..n], resource);
    }
  }

  /** The groups come in the order of the resources, and the scopes of each in the order of its scopes. */
  predicate InOrder(inputs: Groups, r: Groups) {
    && GroupList(r) == Firsts(GroupList(inputs))
    && forall j :: 0 <= j < |r| ==> ScopesInOrder(inputs, r[j])
  }

  predicate ScopesInOrder(inputs: Groups, one: ResourceLogs<RecordView>) {
    ScopeList(one.scopes) == Firsts(ScopesUnder(inputs, one.attributes))
  }

  lemma {:induction false} OrderExactly(inputs: Groups, s: Selector)
    ensures InOrder(inputs, MergeGroups(inputs, s))
  {
    if inputs != [] {
      var n := |inputs| - 1;
      OrderExactly(inputs[..n], s);
      OrderStep(inputs[..n], MergeGroups(inputs[..n], s), inputs[n], s);
      assert inputs == inputs[..n] + [inputs[n]];
    }
  }

  lemma OrderStep(inputs: Groups, r: Groups, input: ResourceLogs<RecordView>, s: Selector)
    requires InOrder(inputs, r)
    ensures InOrder(inputs + [input], MergeGroup(r, input, s))
  {
    var after := MergeGroup(r, input, s);
    GroupListStep(inputs, r, input, s);
    ScopesStep(inputs, r, input, s);
    forall j | 0 <= j < |after| && j != FindGroup(r, input.attributes) ensures ScopesInOrder(inputs + [input], after[j]) {
      OtherGroup(inputs, r, input, j);
    }
  }

  /** A group the input resource does not go to. */
  lemma OtherGroup(inputs: Groups, r: Groups, input: ResourceLogs<RecordView>, j: nat)
    requires j < |r| && j != FindGroup(r, input.attributes) && ScopesInOrder(inputs, r[j]) && DistinctList(GroupList(r))
    ensures ScopesInOrder(inputs + [input], r[j])
  {
    var at := FindGroup(r, input.attributes);
    assert r[j].attributes == GroupList(r)[j] != input.attributes;
    ScopesUnderSnoc(inputs, input, r[j].attributes);
    assert ScopesUnder(inputs, r[j].attributes) + [] == ScopesUnder(inputs, r[j].attributes);
  }

  lemma GroupListStep(inputs: Groups, r: Groups, input: ResourceLogs<RecordView>, s: Selector)
    requires GroupList(r) == Firsts(GroupList(inputs))
    ensures GroupList(MergeGroup(r, input, s)) == Firsts(GroupList(inputs + [input]))
    ensures FindGroup(r, input.attributes) == |r| ==> input.attributes !in GroupList(inputs)
    ensures DistinctList(GroupList(r))
  {
    assert GroupList(inputs + [input]) == GroupList(inputs) + [input.attributes];
    FirstsSnoc(GroupList(inputs), input.attributes);
    FirstsExactly(GroupList(inputs));
    FindSnoc(GroupList(r), input.attributes, input.attributes);
    assert GroupList(MergeGroup(r, input, s)) == Once(GroupList(r), input.attributes);
  }

  predicate DistinctList(list: seq<Attributes>) {
    forall i, j :: 0 <= i < j < |list| ==> list[i] != list[j]
  }

  lemma ScopesUnderSnoc(inputs: Groups, input: ResourceLogs<RecordView>, resource: Attributes)
    ensures ScopesUnder(inputs + [input], resource)
         == ScopesUnder(inputs, resource) + if input.attributes == resource then ScopeList(input.scopes) else []
  {
    assert (inputs + [input])[..|inputs|] == inputs;
  }

  /** The group the input resource goes to. */
  lemma ScopesStep(inputs: Groups, r: Groups, input: ResourceLogs<RecordView>, s: Selector)
    requires InOrder(inputs, r)
    ensures var at, after := FindGroup(r, input.attributes), MergeGroup(r, input, s);
            at < |after| && ScopesInOrder(inputs + [input], after[at])
  {
    var at := FindGroup(r, input.attributes);
    var before := if at < |r| then r[at].scopes else [];
    GroupListStep(inputs, r, input, s);
    if at == |r| {
      NothingUnder(inputs, input.attributes);
    }
    ScopesUnderSnoc(inputs, input, input.attributes);
    MergedScopeLists(before, input.scopes, s, ScopesUnder(inputs, input.attributes));
  }

  /** What is selected, what becomes of it, and what is left alone. */
  lemma SelectedExactly(inputs: Groups, s: Selector)
    ensures IsSelected(inputs, TouchedResources(inputs, s), MergeGroups(inputs, s), s)
  {
    TouchedExactly(inputs, s);
    OutputExactly(inputs, s);
  }
}
