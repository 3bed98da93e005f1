/**
 selectLogs of k8sevents_test.go as it runs: it rewrites the bodies of the matching input
 records in place and appends copies of them to the groups it builds.
 */
module LogGroupingInPlace {
  import opened Pdata
  import opened LogGrouping
  import opened GroupingMeaning

  type ScopeIn = ScopeLogs<LogRecord>
  type ResourceIn = ResourceLogs<LogRecord>

  // ---------- what the input holds ----------

  ghost function Views(records: seq<LogRecord>): (r: seq<RecordView>)
    reads records
    ensures |r| == |records| && forall k :: 0 <= k < |r| ==> r[k] == records[k].View()
  {
    seq(|records|, k requires 0 <= k < |records| reads records => records[k].View())
  }

  ghost function ScopeRecords(scope: ScopeIn): set<LogRecord> {
    set r | r in scope.records
  }

  ghost function ScopeListRecords(scopes: seq<ScopeIn>): (r: set<LogRecord>)
    ensures forall j :: 0 <= j < |scopes| ==> ScopeRecords(scopes[j]) <= r
  {
    set j, x | 0 <= j < |scopes| && x in ScopeRecords(scopes[j]) :: x
  }

  ghost function ResourceListRecords(resources: seq<ResourceIn>): (r: set<LogRecord>)
    ensures forall i :: 0 <= i < |resources| ==> ScopeListRecords(resources[i].scopes) <= r
  {
    set i, x | 0 <= i < |resources| && x in ScopeListRecords(resources[i].scopes) :: x
  }

  ghost function ViewScope(scope: ScopeIn): ScopeLogs<RecordView>
    reads ScopeRecords(scope)
  {
    ScopeLogs(scope.attributes, Views(scope.records))
  }

  ghost function ViewScopes(scopes: seq<ScopeIn>): (r: Scopes)
    reads ScopeListRecords(scopes)
    ensures |r| == |scopes| && forall j :: 0 <= j < |r| ==> r[j] == ViewScope(scopes[j])
  {
    seq(|scopes|, j requires 0 <= j < |scopes| reads ScopeListRecords(scopes) => ViewScope(scopes[j]))
  }

  ghost function ViewResource(resource: ResourceIn): ResourceLogs<RecordView>
    reads ScopeListRecords(resource.scopes)
  {
    ResourceLogs(resource.attributes, ViewScopes(resource.scopes))
  }

  ghost function ViewResources(resources: seq<ResourceIn>): (r: Groups)
    reads ResourceListRecords(resources)
    ensures |r| == |resources| && forall i :: 0 <= i < |r| ==> r[i] == ViewResource(resources[i])
  {
    seq(|resources|, i requires 0 <= i < |resources| reads ResourceListRecords(resources) => ViewResource(resources[i]))
  }

  /** What the input holds is read off the record object in each place. */
  lemma RecordRead(resources: seq<ResourceIn>, h: nat, j: nat, k: nat)
    requires h < |resources| && j < |resources[h].scopes| && k < |resources[h].scopes[j].records|
    ensures var r, v := resources[h].scopes[j].records[k], ViewResources(resources);
            && |v| == |resources| && v[h].attributes == resources[h].attributes
            && |v[h].scopes| == |resources[h].scopes| && v[h].scopes[j].attributes == resources[h].scopes[j].attributes
            && |v[h].scopes[j].records| == |resources[h].scopes[j].records|
            && var x := v[h].scopes[j].records[k]; x.attributes == r.attributes && x.rest == r.rest && x.body == r.body
  {
  }

  // ---------- no record occurs twice: a payload is a tree ----------

  predicate DistinctRecords(records: seq<LogRecord>) {
    forall k, l :: 0 <= k < l < |records| ==> records[k] != records[l]
  }

  ghost predicate ScopeListTree(scopes: seq<ScopeIn>) {
    && (forall j :: 0 <= j < |scopes| ==> DistinctRecords(scopes[j].records))
    && (forall i, j :: 0 <= i < j < |scopes| ==> ScopeRecords(scopes[i]) !! ScopeRecords(scopes[j]))
  }

  ghost predicate ResourceListTree(resources: seq<ResourceIn>) {
    && (forall i :: 0 <= i < |resources| ==> ScopeListTree(resources[i].scopes))
    && (forall i, j :: 0 <= i < j < |resources| ==> ScopeListRecords(resources[i].scopes) !! ScopeListRecords(resources[j].scopes))
  }

  // ---------- the records of one scope ----------

  lemma {:induction false} PickedNext(records: seq<RecordView>, k: nat, s: Selector)
    requires k < |records|
    ensures Picked(records[..k + 1], s)
         == Picked(records[..k], s) + if Matches(records[k].attributes, s) then [Modified(records[k], s)] else []
  {
    if k > 0 {
      PickedNext(records[1..], k - 1, s);
      assert records[..k + 1][1..] == records[1..][..k] && records[..k][1..] == records[1..][..k - 1];
    }
  }

  /** Rewrites the matching bodies in place, and copies the rewritten records. */
  method PickRecords(records: seq<LogRecord>, s: Selector) returns (picked: seq<RecordView>)
    requires DistinctRecords(records)
    modifies records
    ensures picked == Picked(old(Views(records)), s)
    ensures Views(records) == TouchedRecords(old(Views(records)), s)
  {
    ghost var before := Views(records);
    picked := [];
    for k := 0 to |records|
      invariant picked == Picked(before[..k], s)
      invariant forall x :: 0 <= x < k ==> records[x].View() == Touched(before[x], s)
      invariant forall x :: k <= x < |records| ==> records[x].View() == before[x]
    {
      PickedNext(before, k, s);
      var record := records[k];
      if Matches(record.attributes, s) {
        record.body := Str(s.modifyBody(TextOf(record.body)));
        picked := picked + [record.View()];
      }
    }
    assert before[..|records|] == before;
    assert Views(records) == TouchedRecords(before, s);
  }

  // ---------- the scopes of one resource ----------

  twostate lemma ScopeUntouched(scope: ScopeIn)
    requires forall r :: r in scope.records ==> r.body == old(r.body)
    ensures ViewScope(scope) == old(ViewScope(scope))
  {
    assert Views(scope.records) == old(Views(scope.records));
  }

  /** The search through a list compares these attributes with no entry that stops the program. */
  predicate SearchSafe(list: seq<Attributes>, attributes: Attributes) {
    forall x :: 0 <= x < |list| && x <= Find(list, attributes) ==> Comparable(attributes, list[x])
  }

  /** No search of the loop over these scopes stops the program. */
  predicate ScopesSafe(existing: Scopes, inputs: Scopes, s: Selector) {
    inputs == [] ||
    var n := |inputs| - 1;
    ScopesSafe(existing, inputs[..n], s) && SearchSafe(ScopeList(MergeScopes(existing, inputs[..n], s)), inputs[n].attributes)
  }

  lemma {:induction false} ScopesSafeBefore(existing: Scopes, inputs: Scopes, s: Selector, j: nat)
    requires ScopesSafe(existing, inputs, s) && j <= |inputs|
    ensures ScopesSafe(existing, inputs[..j], s)
  {
    var n := |inputs| - 1;
    if j <= n {
      assert inputs[..n][..j] == inputs[..j];
      ScopesSafeBefore(existing, inputs[..n], s, j);
    } else {
      assert inputs[..j] == inputs;
    }
  }

  lemma NextScope(existing: Scopes, inputs: Scopes, s: Selector, j: nat)
    requires ScopesSafe(existing, inputs, s) && j < |inputs|
    ensures SearchSafe(ScopeList(MergeScopes(existing, inputs[..j], s)), inputs[j].attributes)
    ensures MergeScopes(existing, inputs[..j + 1], s) == MergeScope(MergeScopes(existing, inputs[..j], s), inputs[j], s)
  {
    ScopesSafeBefore(existing, inputs, s, j + 1);
    assert inputs[..j + 1][..j] == inputs[..j];
  }

  /** Finds the scope with these attributes, or the end of the list. */
  method SearchScope(scopes: Scopes, attributes: Attributes) returns (k: nat)
    requires SearchSafe(ScopeList(scopes), attributes)
    ensures k == FindScope(scopes, attributes)
  {
    k := 0;
    while k < |scopes|
      invariant k <= FindScope(scopes, attributes)
    {
      var same := CompareAttributes(attributes, scopes[k].attributes);
      if same {
        break;
      }
      k := k + 1;
    }
  }

  /** One input scope: find or add its group, then append the picked records. */
  method SelectScopeAt(existing: Scopes, scopes: seq<ScopeIn>, j: nat, s: Selector) returns (merged: Scopes)
    requires j < |scopes| && ScopeListTree(scopes) && SearchSafe(ScopeList(existing), scopes[j].attributes)
    modifies ScopeRecords(scopes[j])
    ensures merged == MergeScope(existing, old(ViewScope(scopes[j])), s)
    ensures ViewScope(scopes[j]) == TouchedScope(old(ViewScope(scopes[j])), s)
    ensures forall x :: 0 <= x < |scopes| && x != j ==> ViewScope(scopes[x]) == old(ViewScope(scopes[x]))
  {
    var k := SearchScope(existing, scopes[j].attributes);
    merged := existing;
    if k == |existing| {
      merged := merged + [ScopeLogs(scopes[j].attributes, [])];
    }
    var picked := PickRecords(scopes[j].records, s);
    assert merged[k].attributes == scopes[j].attributes;
    merged := merged[k := ScopeLogs(merged[k].attributes, merged[k].records + picked)];
    forall x | 0 <= x < |scopes| && x != j ensures ViewScope(scopes[x]) == old(ViewScope(scopes[x])) {
      assert ScopeRecords(scopes[x]) !! ScopeRecords(scopes[j]);
      assert forall r :: r in scopes[x].records ==> r in ScopeRecords(scopes[x]);
      ScopeUntouched(scopes[x]);
    }
    assert [] + picked == picked;
  }

  method SelectScopes(existing: Scopes, scopes: seq<ScopeIn>, s: Selector) returns (merged: Scopes)
    requires ScopeListTree(scopes) && ScopesSafe(existing, ViewScopes(scopes), s)
    modifies ScopeListRecords(scopes)
    ensures merged == MergeScopes(existing, old(ViewScopes(scopes)), s)
    ensures ViewScopes(scopes) == TouchedScopes(old(ViewScopes(scopes)), s)
  {
    ghost var before := ViewScopes(scopes);
    merged := existing;
    for j := 0 to |scopes|
      invariant merged == MergeScopes(existing, before[..j], s)
      invariant forall x :: 0 <= x < j ==> ViewScope(scopes[x]) == TouchedScope(before[x], s)
      invariant forall x :: j <= x < |scopes| ==> ViewScope(scopes[x]) == before[x]
    {
      NextScope(existing, before, s, j);
      merged := SelectScopeAt(merged, scopes, j, s);
    }
    assert before[..|scopes|] == before;
    assert ViewScopes(scopes) == TouchedScopes(before, s);
  }

  // ---------- the resources ----------

  twostate lemma ResourceUntouched(resource: ResourceIn)
    requires forall r :: r in ScopeListRecords(resource.scopes) ==> r.body == old(r.body)
    ensures ViewResource(resource) == old(ViewResource(resource))
  {
    var scopes := resource.scopes;
    forall j | 0 <= j < |scopes| ensures ViewScope(scopes[j]) == old(ViewScope(scopes[j])) {
      assert forall r :: r in scopes[j].records ==> r in ScopeRecords(scopes[j]);
      ScopeUntouched(scopes[j]);
    }
    assert ViewScopes(scopes) == old(ViewScopes(scopes));
  }

  /** The scopes already in the group an input resource goes to. */
  function ExistingScopes(groups: Groups, attributes: Attributes): Scopes {
    var j := FindGroup(groups, attributes);
    if j < |groups| then groups[j].scopes else []
  }

  /** Neither the search for the group of one input resource nor one for its scopes stops the program. */
  predicate ResourceSafe(groups: Groups, input: ResourceLogs<RecordView>, s: Selector) {
    && SearchSafe(GroupList(groups), input.attributes)
    && ScopesSafe(ExistingScopes(groups, input.attributes), input.scopes, s)
  }

  predicate AllSafe(inputs: Groups, s: Selector) {
    inputs == [] ||
    var n := |inputs| - 1;
    AllSafe(inputs[..n], s) && ResourceSafe(MergeGroups(inputs[..n], s), inputs[n], s)
  }

  lemma {:induction false} AllSafeBefore(inputs: Groups, s: Selector, h: nat)
    requires AllSafe(inputs, s) && h <= |inputs|
    ensures AllSafe(inputs[..h], s)
  {
    var n := |inputs| - 1;
    if h <= n {
      assert inputs[..n][..h] == inputs[..h];
      AllSafeBefore(inputs[..n], s, h);
    } else {
      assert inputs[..h] == inputs;
    }
  }

  /** The next input resource is safe, and is merged into what the ones before it gave. */
  lemma NextResource(inputs: Groups, s: Selector, h: nat)
    requires AllSafe(inputs, s) && h < |inputs|
    ensures ResourceSafe(MergeGroups(inputs[..h], s), inputs[h], s)
    ensures MergeGroups(inputs[..h + 1], s) == MergeGroup(MergeGroups(inputs[..h], s), inputs[h], s)
  {
    AllSafeBefore(inputs, s, h + 1);
    assert inputs[..h + 1][..h] == inputs[..h];
  }

  method SearchGroup(groups: Groups, attributes: Attributes) returns (j: nat)
    requires SearchSafe(GroupList(groups), attributes)
    ensures j == FindGroup(groups, attributes)
  {
    j := 0;
    while j < |groups|
      invariant j <= FindGroup(groups, attributes)
    {
      var same := CompareAttributes(attributes, groups[j].attributes);
      if same {
        break;
      }
      j := j + 1;
    }
  }

  method SelectResourceAt(existing: Groups, resources: seq<ResourceIn>, h: nat, s: Selector) returns (merged: Groups)
    requires h < |resources| && ResourceListTree(resources) && ResourceSafe(existing, ViewResource(resources[h]), s)
    modifies ScopeListRecords(resources[h].scopes)
    ensures merged == MergeGroup(existing, old(ViewResource(resources[h])), s)
    ensures ViewResource(resources[h]) == TouchedResource(old(ViewResource(resources[h])), s)
    ensures forall x :: 0 <= x < |resources| && x != h ==> ViewResource(resources[x]) == old(ViewResource(resources[x]))
  {
    var j := SearchGroup(existing, resources[h].attributes);
    merged := existing;
    if j == |existing| {
      merged := merged + [ResourceLogs(resources[h].attributes, [])];
    }
    var scopes := SelectScopes(merged[j].scopes, resources[h].scopes, s);
    assert merged[j].attributes == resources[h].attributes;
    merged := merged[j := ResourceLogs(merged[j].attributes, scopes)];
    forall x | 0 <= x < |resources| && x != h ensures ViewResource(resources[x]) == old(ViewResource(resources[x])) {
      assert ScopeListRecords(resources[x].scopes) !! ScopeListRecords(resources[h].scopes);
      ResourceUntouched(resources[x]);
    }
  }

  /** Only strings, booleans, numbers and empty values. */
  predicate Scalars(attributes: Attributes) {
    forall key :: key in attributes ==>
      var v := attributes[key]; v.Str? || v.Bool? || v.Int? || v.Double? || v.Empty?
  }

  predicate ScalarScopes(scopes: Scopes) {
    forall j :: 0 <= j < |scopes| ==> Scalars(scopes[j].attributes)
  }

  lemma {:induction false} ScalarScopesAreSafe(existing: Scopes, inputs: Scopes, s: Selector)
    requires ScalarScopes(inputs)
    ensures ScopesSafe(existing, inputs, s)
  {
    if inputs != [] {
      ScalarScopesAreSafe(existing, inputs[..|inputs| - 1], s);
    }
  }

  /** With such resource and scope attributes the call never stops the program, whatever the records hold. */
  lemma {:induction false} ScalarsAreSafe(inputs: Groups, s: Selector)
    requires forall h :: 0 <= h < |inputs| ==> Scalars(inputs[h].attributes) && ScalarScopes(inputs[h].scopes)
    ensures AllSafe(inputs, s)
  {
    if inputs != [] {
      var n := |inputs| - 1;
      ScalarsAreSafe(inputs[..n], s);
      ScalarScopesAreSafe(ExistingScopes(MergeGroups(inputs[..n], s), inputs[n].attributes), inputs[n].scopes, s);
    }
  }

  /** The loop over the resources. */
  method SelectResources(resources: seq<ResourceIn>, s: Selector) returns (merged: Groups)
    requires ResourceListTree(resources) && AllSafe(ViewResources(resources), s)
    modifies ResourceListRecords(resources)
    ensures merged == MergeGroups(old(ViewResources(resources)), s)
    ensures ViewResources(resources) == TouchedResources(old(ViewResources(resources)), s)
  {
    ghost var before := ViewResources(resources);
    merged := [];
    for h := 0 to |resources|
      invariant merged == MergeGroups(before[..h], s)
      invariant forall x :: 0 <= x < h ==> ViewResource(resources[x]) == TouchedResource(before[x], s)
      invariant forall x :: h <= x < |resources| ==> ViewResource(resources[x]) == before[x]
    {
      NextResource(before, s, h);
      merged := SelectResourceAt(merged, resources, h, s);
    }
    assert before[..|resources|] == before;
    assert ViewResources(resources) == TouchedResources(before, s);
  }

  /** The grouping of the whole input; matching input records are left with their modified bodies. */
  method SelectLogs(inLogs: seq<ResourceIn>, s: Selector) returns (selected: Groups)
    requires ResourceListTree(inLogs) && AllSafe(ViewResources(inLogs), s)
    modifies ResourceListRecords(inLogs)
    ensures selected == MergeGroups(old(ViewResources(inLogs)), s)
    ensures ViewResources(inLogs) == TouchedResources(old(ViewResources(inLogs)), s)
    ensures IsSelected(old(ViewResources(inLogs)), ViewResources(inLogs), selected, s)
  {
    selected := SelectResources(inLogs, s);
    SelectedExactly(old(ViewResources(inLogs)), s);
  }
}
