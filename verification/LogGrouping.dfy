/**
 Collapsing the log records of a payload into one group per resource and scope.
 Models selectLogs and compareAttributes of k8sevents_test.go.
 */
module LogGrouping {
  import opened Pdata

  // ---------- comparing attribute maps ----------

  /** Comparing these two behind an interface stops the program: maps, slices and byte slices have no `!=`. */
  predicate Uncomparable(v: Value, w: Value) {
    (v.Map? && w.Map?) || (v.Slice? && w.Slice?) || (v.Bytes? && w.Bytes?)
  }

  /** In no key order does the comparison meet such a pair. */
  predicate Comparable(a: Attributes, b: Attributes) {
    |a| != |b| || forall key :: key in a && key in b ==> !Uncomparable(a[key], b[key])
  }

  /** The length test and the one-sided loop decide equality, in whatever order the keys come. */
  method CompareAttributes(attr1: Attributes, attr2: Attributes) returns (same: bool)
    requires Comparable(attr1, attr2)
    ensures same <==> attr1 == attr2
  {
    if |attr1| != |attr2| {
      return false;
    }
    var keys := attr1.Keys;
    while keys != {}
      invariant keys <= attr1.Keys
      invariant forall key :: key in attr1 && key !in keys ==> key in attr2 && attr2[key] == attr1[key]
      decreases keys
    {
      var k :| k in keys;
      if k !in attr2 || attr1[k] != attr2[k] {
        return false;
      }
      keys := keys - {k};
    }
    SubsetOfSameSize(attr1.Keys, attr2.Keys);
    return true;
  }

  lemma SubsetOfSameSize(a: set<string>, b: set<string>)
    requires a <= b && |a| == |b|
    ensures a == b
  {
    assert |b - a| == |b| - |a|;
  }

  // ---------- log payloads ----------

  /** A log record; its body is rewritten in place. */
  class LogRecord {
    const attributes: Attributes
    const rest: Value  // timestamps, severity and the like
    var body: Value

    constructor (view: RecordView)
      ensures View() == view
    {
      attributes, rest, body := view.attributes, view.rest, view.body;
    }

    function View(): RecordView
      reads this
    {
      RecordView(attributes, rest, body)
    }
  }

  datatype RecordView = RecordView(attributes: Attributes, rest: Value, body: Value)
  datatype ScopeLogs<R> = ScopeLogs(attributes: Attributes, records: seq<R>)
  datatype ResourceLogs<R> = ResourceLogs(attributes: Attributes, scopes: seq<ScopeLogs<R>>)

  type Groups = seq<ResourceLogs<RecordView>>

  /** What the call asks for: the attribute to match, and the rewrite of a matching body. */
  datatype Selector = Selector(attributeName: string, attributeValue: string, modifyBody: string -> string)

  /** `Str()` of the library: a value that is no string reads as the empty string. */
  function TextOf(v: Value): string {
    if v.Str? then v.text else ""
  }

  predicate Matches(attributes: Attributes, s: Selector) {
    s.attributeName in attributes && TextOf(attributes[s.attributeName]) == s.attributeValue
  }

  function Modified(r: RecordView, s: Selector): RecordView {
    r.(body := Str(s.modifyBody(TextOf(r.body))))
  }

  /** The matching records of a list, modified, in order. */
  function Picked(records: seq<RecordView>, s: Selector): seq<RecordView> {
    if records == [] then []
    else (if Matches(records[0].attributes, s) then [Modified(records[0], s)] else []) + Picked(records[1..], s)
  }

  // ---------- what is in a grouping ----------

  function Concat(parts: seq<seq<RecordView>>): seq<RecordView> {
    if parts == [] then [] else Concat(parts[..|parts| - 1]) + parts[|parts| - 1]
  }

  type Scopes = seq<ScopeLogs<RecordView>>

  function ScopePart(one: ScopeLogs<RecordView>, scope: Attributes): seq<RecordView> {
    if one.attributes == scope then one.records else []
  }

  function ScopeParts(scopes: Scopes, scope: Attributes): (r: seq<seq<RecordView>>)
    ensures |r| == |scopes| && forall k :: 0 <= k < |r| ==> r[k] == ScopePart(scopes[k], scope)
  {
    seq(|scopes|, k requires 0 <= k < |scopes| => ScopePart(scopes[k], scope))
  }

  /** All records under these scope attributes, in order. */
  function InScopes(scopes: Scopes, scope: Attributes): seq<RecordView> {
    Concat(ScopeParts(scopes, scope))
  }

  function GroupPart(one: ResourceLogs<RecordView>, resource: Attributes, scope: Attributes): seq<RecordView> {
    if one.attributes == resource then InScopes(one.scopes, scope) else []
  }

  function GroupParts(groups: Groups, resource: Attributes, scope: Attributes): (r: seq<seq<RecordView>>)
    ensures |r| == |groups| && forall j :: 0 <= j < |r| ==> r[j] == GroupPart(groups[j], resource, scope)
  {
    seq(|groups|, j requires 0 <= j < |groups| => GroupPart(groups[j], resource, scope))
  }

  /** All records under these resource and scope attributes, in order. */
  function InGroups(groups: Groups, resource: Attributes, scope: Attributes): seq<RecordView> {
    Concat(GroupParts(groups, resource, scope))
  }

  function PickedScopes(scopes: Scopes, s: Selector): (r: Scopes)
    ensures |r| == |scopes|
    ensures forall k :: 0 <= k < |r| ==> r[k] == ScopeLogs(scopes[k].attributes, Picked(scopes[k].records, s))
  {
    seq(|scopes|, k requires 0 <= k < |scopes| => ScopeLogs(scopes[k].attributes, Picked(scopes[k].records, s)))
  }

  /** The input with only its matching records, modified, each where it was. */
  function PickedGroups(groups: Groups, s: Selector): (r: Groups)
    ensures |r| == |groups|
    ensures forall j :: 0 <= j < |r| ==> r[j] == ResourceLogs(groups[j].attributes, PickedScopes(groups[j].scopes, s))
  {
    seq(|groups|, j requires 0 <= j < |groups| => ResourceLogs(groups[j].attributes, PickedScopes(groups[j].scopes, s)))
  }

  predicate DistinctScopes(scopes: Scopes) {
    forall i, j :: 0 <= i < j < |scopes| ==> scopes[i].attributes != scopes[j].attributes
  }

  predicate DistinctGroups(groups: Groups) {
    && (forall i, j :: 0 <= i < j < |groups| ==> groups[i].attributes != groups[j].attributes)
    && (forall i :: 0 <= i < |groups| ==> DistinctScopes(groups[i].scopes))
  }

  // ---------- the merge, one input item at a time ----------

  /** The place of these attributes in a list, or its length. */
  function Find(list: seq<Attributes>, attributes: Attributes): (k: nat)
    ensures k <= |list|
    ensures k < |list| ==> list[k] == attributes
    ensures forall x :: 0 <= x < k ==> list[x] != attributes
  {
    if list == [] || list[0] == attributes then 0 else 1 + Find(list[1..], attributes)
  }

  function ScopeList(scopes: Scopes): (r: seq<Attributes>)
    ensures |r| == |scopes| && forall k :: 0 <= k < |r| ==> r[k] == scopes[k].attributes
  {
    seq(|scopes|, k requires 0 <= k < |scopes| => scopes[k].attributes)
  }

  function GroupList(groups: Groups): (r: seq<Attributes>)
    ensures |r| == |groups| && forall j :: 0 <= j < |r| ==> r[j] == groups[j].attributes
  {
    seq(|groups|, j requires 0 <= j < |groups| => groups[j].attributes)
  }

  function FindScope(scopes: Scopes, attributes: Attributes): nat {
    Find(ScopeList(scopes), attributes)
  }

  function FindGroup(groups: Groups, attributes: Attributes): nat {
    Find(GroupList(groups), attributes)
  }

  /** The scopes of a group after one more input scope. */
  function MergeScope(scopes: Scopes, input: ScopeLogs<RecordView>, s: Selector): Scopes {
    var k, picked := FindScope(scopes, input.attributes), Picked(input.records, s);
    if k < |scopes| then scopes[k := ScopeLogs(input.attributes, scopes[k].records + picked)]
    else scopes + [ScopeLogs(input.attributes, picked)]
  }

  function MergeScopes(scopes: Scopes, inputs: Scopes, s: Selector): Scopes {
    if inputs == [] then scopes
    else MergeScope(MergeScopes(scopes, inputs[..|inputs| - 1], s), inputs[|inputs| - 1], s)
  }

  function MergeGroup(groups: Groups, input: ResourceLogs<RecordView>, s: Selector): Groups {
    var j := FindGroup(groups, input.attributes);
    if j < |groups| then groups[j := ResourceLogs(input.attributes, MergeScopes(groups[j].scopes, input.scopes, s))]
    else groups + [ResourceLogs(input.attributes, MergeScopes([], input.scopes, s))]
  }

  /** The grouping selectLogs returns. */
  function MergeGroups(inputs: Groups, s: Selector): Groups {
    if inputs == [] then []
    else MergeGroup(MergeGroups(inputs[..|inputs| - 1], s), inputs[|inputs| - 1], s)
  }

  // ---------- conservation, distinctness and order ----------

  lemma ConcatSnoc(parts: seq<seq<RecordView>>, last: seq<RecordView>)
    ensures Concat(parts + [last]) == Concat(parts) + last
  {
    assert (parts + [last])[..|parts|] == parts;
  }

  /** Growing one part grows the whole at its end, when nothing comes after that part. */
  lemma {:induction false} ConcatGrow(parts: seq<seq<RecordView>>, k: nat, extra: seq<RecordView>)
    requires k < |parts| && (extra != [] ==> forall x :: k < x < |parts| ==> parts[x] == [])
    ensures Concat(parts[k := parts[k] + extra]) == Concat(parts) + extra
  {
    var n := |parts| - 1;
    var after := parts[k := parts[k] + extra];
    if extra == [] {
      assert parts[k] + extra == parts[k] && after == parts;
    } else if k == n {
      assert after[..n] == parts[..n];
      assert Concat(parts[..n]) + (parts[n] + extra) == (Concat(parts[..n]) + parts[n]) + extra;
    } else {
      assert after[..n] == parts[..n][k := parts[k] + extra];
      ConcatGrow(parts[..n], k, extra);
    }
  }

  lemma MergeScopeStaysDistinct(scopes: Scopes, input: ScopeLogs<RecordView>, s: Selector)
    requires DistinctScopes(scopes)
    ensures DistinctScopes(MergeScope(scopes, input, s))
  {
    var k := FindScope(scopes, input.attributes);
    var after := MergeScope(scopes, input, s);
    forall x | 0 <= x < |after| ensures after[x].attributes == if x < |scopes| then scopes[x].attributes else input.attributes {}
  }

  /** Merging one scope appends its picked records to their group and to no other. */
  lemma MergeScopeAdds(scopes: Scopes, input: ScopeLogs<RecordView>, s: Selector, scope: Attributes)
    requires DistinctScopes(scopes)
    ensures InScopes(MergeScope(scopes, input, s), scope)
         == InScopes(scopes, scope) + ScopePart(ScopeLogs(input.attributes, Picked(input.records, s)), scope)
  {
    var k, picked := FindScope(scopes, input.attributes), Picked(input.records, s);
    var parts, after := ScopeParts(scopes, scope), ScopeParts(MergeScope(scopes, input, s), scope);
    var extra := ScopePart(ScopeLogs(input.attributes, picked), scope);
    if k < |scopes| {
      var want := parts[k := parts[k] + extra];
      assert after[k] == want[k];
      forall x | 0 <= x < |after| ensures after[x] == want[x] {}
      assert after == want;
      forall x | k < x < |parts| && extra != [] ensures parts[x] == [] {
        assert scopes[x].attributes != scopes[k].attributes;
      }
      ConcatGrow(parts, k, extra);
    } else {
      assert after == parts + [extra];
      ConcatSnoc(parts, extra);
    }
  }

  lemma InScopesLast(scopes: Scopes, scope: Attributes)
    requires scopes != []
    ensures InScopes(scopes, scope) == InScopes(scopes[..|scopes| - 1], scope) + ScopePart(scopes[|scopes| - 1], scope)
  {
    assert ScopeParts(scopes, scope)[..|scopes| - 1] == ScopeParts(scopes[..|scopes| - 1], scope);
  }

  lemma {:induction false} MergeScopesStayDistinct(scopes: Scopes, inputs: Scopes, s: Selector)
    requires DistinctScopes(scopes)
    ensures DistinctScopes(MergeScopes(scopes, inputs, s))
  {
    if inputs != [] {
      var n := |inputs| - 1;
      MergeScopesStayDistinct(scopes, inputs[..n], s);
      MergeScopeStaysDistinct(MergeScopes(scopes, inputs[..n], s), inputs[n], s);
    }
  }

  lemma {:induction false} MergeScopesAdds(scopes: Scopes, inputs: Scopes, s: Selector, scope: Attributes)
    requires DistinctScopes(scopes)
    ensures InScopes(MergeScopes(scopes, inputs, s), scope) == InScopes(scopes, scope) + InScopes(PickedScopes(inputs, s), scope)
  {
    var picked, start := PickedScopes(inputs, s), InScopes(scopes, scope);
    if inputs == [] {
      assert InScopes(picked, scope) == [];
      assert start + [] == start;
    } else {
      var n := |inputs| - 1;
      var before := MergeScopes(scopes, inputs[..n], s);
      MergeScopesAdds(scopes, inputs[..n], s, scope);
      MergeScopesStayDistinct(scopes, inputs[..n], s);
      assert picked[n] == ScopeLogs(inputs[n].attributes, Picked(inputs[n].records, s));
      var earlier, last := InScopes(picked[..n], scope), ScopePart(picked[n], scope);
      calc {
        InScopes(MergeScopes(scopes, inputs, s), scope);
        { MergeScopeAdds(before, inputs[n], s, scope); }
        InScopes(before, scope) + last;
        { assert picked[..n] == PickedScopes(inputs[..n], s); }
        (start + earlier) + last;
        { Associative(start, earlier, last); }
        start + (earlier + last);
        { InScopesLast(picked, scope); }
        start + InScopes(picked, scope);
      }
    }
  }

  lemma Associative(a: seq<RecordView>, b: seq<RecordView>, c: seq<RecordView>)
    ensures (a + b) + c == a + (b + c)
  {
  }

  lemma MergeGroupStaysDistinct(groups: Groups, input: ResourceLogs<RecordView>, s: Selector)
    requires DistinctGroups(groups)
    ensures DistinctGroups(MergeGroup(groups, input, s))
  {
    var j := FindGroup(groups, input.attributes);
    MergeScopesStayDistinct(if j < |groups| then groups[j].scopes else [], input.scopes, s);
    var after := MergeGroup(groups, input, s);
    forall x | 0 <= x < |after|
      ensures after[x].attributes == (if x < |groups| then groups[x].attributes else input.attributes) && DistinctScopes(after[x].scopes)
    {}
  }

  /** What a group holds after its scopes grew by `more`. */
  lemma GroupPartGrows(attributes: Attributes, before: Scopes, more: Scopes, s: Selector, resource: Attributes, scope: Attributes)
    requires DistinctScopes(before)
    ensures GroupPart(ResourceLogs(attributes, MergeScopes(before, more, s)), resource, scope)
         == GroupPart(ResourceLogs(attributes, before), resource, scope)
            + GroupPart(ResourceLogs(attributes, PickedScopes(more, s)), resource, scope)
  {
    MergeScopesAdds(before, more, s, scope);
  }

  /** The same for one resource. */
  lemma MergeGroupAdds(groups: Groups, input: ResourceLogs<RecordView>, s: Selector, resource: Attributes, scope: Attributes)
    requires DistinctGroups(groups)
    ensures InGroups(MergeGroup(groups, input, s), resource, scope)
         == InGroups(groups, resource, scope) + GroupPart(ResourceLogs(input.attributes, PickedScopes(input.scopes, s)), resource, scope)
  {
    var j := FindGroup(groups, input.attributes);
    var extra := GroupPart(ResourceLogs(input.attributes, PickedScopes(input.scopes, s)), resource, scope);
    var before := if j < |groups| then groups[j].scopes else [];
    var one := ResourceLogs(input.attributes, MergeScopes(before, input.scopes, s));
    GroupPartGrows(input.attributes, before, input.scopes, s, resource, scope);
    if j < |groups| {
      GroupGrows(groups, j, one, extra, resource, scope);
    } else {
      GroupAdded(groups, one, resource, scope);
      assert InScopes([], scope) == [];
      assert [] + extra == extra;
    }
  }

  /** A new group at the end. */
  lemma GroupAdded(groups: Groups, one: ResourceLogs<RecordView>, resource: Attributes, scope: Attributes)
    ensures InGroups(groups + [one], resource, scope) == InGroups(groups, resource, scope) + GroupPart(one, resource, scope)
  {
    var extra := GroupPart(one, resource, scope);
    assert GroupParts(groups + [one], resource, scope) == GroupParts(groups, resource, scope) + [extra];
    ConcatSnoc(GroupParts(groups, resource, scope), extra);
  }

  /** A group that grows by `extra` at its end. */
  lemma GroupGrows(groups: Groups, j: nat, one: ResourceLogs<RecordView>, extra: seq<RecordView>, resource: Attributes, scope: Attributes)
    requires DistinctGroups(groups) && j < |groups| && one.attributes == groups[j].attributes
    requires GroupPart(one, resource, scope) == GroupPart(groups[j], resource, scope) + extra
    requires extra != [] ==> one.attributes == resource
    ensures InGroups(groups[j := one], resource, scope) == InGroups(groups, resource, scope) + extra
  {
    var parts := GroupParts(groups, resource, scope);
    assert GroupParts(groups[j := one], resource, scope) == parts[j := parts[j] + extra];
    forall x | j < x < |parts| && extra != [] ensures parts[x] == [] {
      assert groups[x].attributes != groups[j].attributes;
    }
    ConcatGrow(parts, j, extra);
  }

  lemma InGroupsLast(groups: Groups, resource: Attributes, scope: Attributes)
    requires groups != []
    ensures InGroups(groups, resource, scope)
         == InGroups(groups[..|groups| - 1], resource, scope) + GroupPart(groups[|groups| - 1], resource, scope)
  {
    assert GroupParts(groups, resource, scope)[..|groups| - 1] == GroupParts(groups[..|groups| - 1], resource, scope);
  }

  /**
   Nothing is lost, duplicated, misfiled or reordered: groups and their scopes are pairwise
   distinct, and for every pair of resource and scope attributes the output holds exactly the
   matching input records, modified, in input order.
   */
  lemma {:induction false} GroupingConserves(inputs: Groups, s: Selector, resource: Attributes, scope: Attributes)
    ensures DistinctGroups(MergeGroups(inputs, s))
    ensures InGroups(MergeGroups(inputs, s), resource, scope) == InGroups(PickedGroups(inputs, s), resource, scope)
  {
    if inputs == [] {
      assert PickedGroups(inputs, s) == [];
    } else {
      var n, picked := |inputs| - 1, PickedGroups(inputs, s);
      GroupingConserves(inputs[..n], s, resource, scope);
      MergeGroupStaysDistinct(MergeGroups(inputs[..n], s), inputs[n], s);
      MergeGroupAdds(MergeGroups(inputs[..n], s), inputs[n], s, resource, scope);
      InGroupsLast(picked, resource, scope);
      assert picked[..n] == PickedGroups(inputs[..n], s);
    }
  }

  // ---------- conservation as multisets ----------

  datatype Filed = Filed(resource: Attributes, scope: Attributes, record: RecordView)

  function FiledRecords(resource: Attributes, scope: Attributes, records: seq<RecordView>): multiset<Filed> {
    if records == [] then multiset{}
    else FiledRecords(resource, scope, records[..|records| - 1]) + multiset{Filed(resource, scope, records[|records| - 1])}
  }

  function FiledScopes(resource: Attributes, scopes: Scopes): multiset<Filed> {
    if scopes == [] then multiset{}
    else
      var last := scopes[|scopes| - 1];
      FiledScopes(resource, scopes[..|scopes| - 1]) + FiledRecords(resource, last.attributes, last.records)
  }

  /** Every record of a payload with the attributes it is filed under. */
  function FiledGroups(groups: Groups): multiset<Filed> {
    if groups == [] then multiset{}
    else
      var last := groups[|groups| - 1];
      FiledGroups(groups[..|groups| - 1]) + FiledScopes(last.attributes, last.scopes)
  }

  lemma CountSnoc(records: seq<RecordView>, r: RecordView)
    requires records != []
    ensures multiset(records)[r] == multiset(records[..|records| - 1])[r] + if r == records[|records| - 1] then 1 else 0
  {
    assert records == records[..|records| - 1] + [records[|records| - 1]];
  }

  lemma CountFiled(some: multiset<Filed>, one: Filed, f: Filed)
    ensures (some + multiset{one})[f] == some[f] + if f == one then 1 else 0
  {
  }

  lemma {:induction false} CountRecords(resource: Attributes, scope: Attributes, records: seq<RecordView>, f: Filed)
    ensures FiledRecords(resource, scope, records)[f]
         == if f.resource == resource && f.scope == scope then multiset(records)[f.record] else 0
  {
    if records != [] {
      var n := |records| - 1;
      CountRecords(resource, scope, records[..n], f);
      CountSnoc(records, f.record);
      CountFiled(FiledRecords(resource, scope, records[..n]), Filed(resource, scope, records[n]), f);
    }
  }

  lemma {:induction false} CountScopes(resource: Attributes, scopes: Scopes, f: Filed)
    ensures FiledScopes(resource, scopes)[f] == if f.resource == resource then multiset(InScopes(scopes, f.scope))[f.record] else 0
  {
    if scopes == [] {
      assert InScopes(scopes, f.scope) == [];
    } else {
      var last := scopes[|scopes| - 1];
      CountScopes(resource, scopes[..|scopes| - 1], f);
      CountRecords(resource, last.attributes, last.records, f);
      InScopesLast(scopes, f.scope);
    }
  }

  lemma {:induction false} CountGroups(groups: Groups, f: Filed)
    ensures FiledGroups(groups)[f] == multiset(InGroups(groups, f.resource, f.scope))[f.record]
  {
    if groups == [] {
      assert InGroups(groups, f.resource, f.scope) == [];
    } else {
      var last := groups[|groups| - 1];
      CountGroups(groups[..|groups| - 1], f);
      CountScopes(last.attributes, last.scopes, f);
      InGroupsLast(groups, f.resource, f.scope);
    }
  }

  /** The multiset of (resource attributes, scope attributes, modified record) is that of the matching input. */
  lemma GroupingConservesRecords(inputs: Groups, s: Selector)
    ensures FiledGroups(MergeGroups(inputs, s)) == FiledGroups(PickedGroups(inputs, s))
  {
    var a, b := FiledGroups(MergeGroups(inputs, s)), FiledGroups(PickedGroups(inputs, s));
    forall f: Filed ensures a[f] == b[f] {
      CountGroups(MergeGroups(inputs, s), f);
      CountGroups(PickedGroups(inputs, s), f);
      GroupingConserves(inputs, s, f.resource, f.scope);
    }
  }

  // ---------- which groups there are ----------

  function ScopeKeys(scopes: Scopes): set<Attributes> {
    set k | 0 <= k < |scopes| :: scopes[k].attributes
  }

  predicate HasScope(groups: Groups, resource: Attributes, scope: Attributes) {
    exists j :: 0 <= j < |groups| && groups[j].attributes == resource && scope in ScopeKeys(groups[j].scopes)
  }

  predicate HasGroup(groups: Groups, resource: Attributes) {
    exists j :: 0 <= j < |groups| && groups[j].attributes == resource
  }

  lemma {:induction false} MergedScopeKeys(scopes: Scopes, inputs: Scopes, s: Selector)
    ensures ScopeKeys(MergeScopes(scopes, inputs, s)) == ScopeKeys(scopes) + ScopeKeys(inputs)
  {
    if inputs != [] {
      var n := |inputs| - 1;
      MergedScopeKeys(scopes, inputs[..n], s);
      MergedScopeKey(MergeScopes(scopes, inputs[..n], s), inputs[n], s);
      assert ScopeKeys(inputs) == ScopeKeys(inputs[..n]) + {inputs[n].attributes};
    }
  }

  lemma MergedScopeKey(scopes: Scopes, input: ScopeLogs<RecordView>, s: Selector)
    ensures ScopeKeys(MergeScope(scopes, input, s)) == ScopeKeys(scopes) + {input.attributes}
  {
    var k, after := FindScope(scopes, input.attributes), MergeScope(scopes, input, s);
    assert after[k].attributes == input.attributes;
    assert forall x :: 0 <= x < |scopes| ==> after[x].attributes == scopes[x].attributes;
  }

  /** What one group has. */
  predicate Has(one: ResourceLogs<RecordView>, resource: Attributes, scope: Attributes) {
    one.attributes == resource && scope in ScopeKeys(one.scopes)
  }

  lemma KeysSnoc(groups: Groups, one: ResourceLogs<RecordView>, resource: Attributes, scope: Attributes)
    ensures HasGroup(groups + [one], resource) <==> HasGroup(groups, resource) || one.attributes == resource
    ensures HasScope(groups + [one], resource, scope) <==> HasScope(groups, resource, scope) || Has(one, resource, scope)
  {
    var after := groups + [one];
    assert after[|groups|] == one;
    assert forall x :: 0 <= x < |groups| ==> after[x] == groups[x];
  }

  lemma KeysGrow(groups: Groups, j: nat, one: ResourceLogs<RecordView>, resource: Attributes, scope: Attributes)
    requires j < |groups| && groups[j].attributes == one.attributes && ScopeKeys(groups[j].scopes) <= ScopeKeys(one.scopes)
    ensures HasGroup(groups[j := one], resource) <==> HasGroup(groups, resource)
    ensures HasScope(groups[j := one], resource, scope) <==> HasScope(groups, resource, scope) || Has(one, resource, scope)
  {
    var after := groups[j := one];
    assert after[j] == one;
    assert forall x :: 0 <= x < |groups| && x != j ==> after[x] == groups[x];
  }

  lemma MergedGroupKeys(groups: Groups, input: ResourceLogs<RecordView>, s: Selector, resource: Attributes, scope: Attributes)
    ensures HasGroup(MergeGroup(groups, input, s), resource) <==> HasGroup(groups, resource) || input.attributes == resource
    ensures HasScope(MergeGroup(groups, input, s), resource, scope) <==> HasScope(groups, resource, scope) || Has(input, resource, scope)
  {
    var j := FindGroup(groups, input.attributes);
    var before := if j < |groups| then groups[j].scopes else [];
    var one := ResourceLogs(input.attributes, MergeScopes(before, input.scopes, s));
    MergedScopeKeys(before, input.scopes, s);
    if j < |groups| {
      KeysGrow(groups, j, one, resource, scope);
    } else {
      KeysSnoc(groups, one, resource, scope);
    }
  }

  /** There is a group for every resource of the input and a scope for every scope, matching records or not, and no other. */
  lemma {:induction false} GroupsAreTheInputs(inputs: Groups, s: Selector, resource: Attributes, scope: Attributes)
    ensures HasGroup(MergeGroups(inputs, s), resource) <==> HasGroup(inputs, resource)
    ensures HasScope(MergeGroups(inputs, s), resource, scope) <==> HasScope(inputs, resource, scope)
  {
    if inputs != [] {
      var n := |inputs| - 1;
      GroupsAreTheInputs(inputs[..n], s, resource, scope);
      MergedGroupKeys(MergeGroups(inputs[..n], s), inputs[n], s, resource, scope);
      KeysSnoc(inputs[..n], inputs[n], resource, scope);
      assert inputs[..n] + [inputs[n]] == inputs;
    }
  }

  // ---------- what the input holds afterwards ----------

  function Touched(r: RecordView, s: Selector): RecordView {
    if Matches(r.attributes, s) then Modified(r, s) else r
  }

  function TouchedRecords(records: seq<RecordView>, s: Selector): (r: seq<RecordView>)
    ensures |r| == |records| && forall k :: 0 <= k < |r| ==> r[k] == Touched(records[k], s)
  {
    seq(|records|, k requires 0 <= k < |records| => Touched(records[k], s))
  }

  function TouchedScope(scope: ScopeLogs<RecordView>, s: Selector): ScopeLogs<RecordView> {
    ScopeLogs(scope.attributes, TouchedRecords(scope.records, s))
  }

  function TouchedScopes(scopes: Scopes, s: Selector): (r: Scopes)
    ensures |r| == |scopes| && forall j :: 0 <= j < |r| ==> r[j] == TouchedScope(scopes[j], s)
  {
    seq(|scopes|, j requires 0 <= j < |scopes| => TouchedScope(scopes[j], s))
  }

  function TouchedResource(resource: ResourceLogs<RecordView>, s: Selector): ResourceLogs<RecordView> {
    ResourceLogs(resource.attributes, TouchedScopes(resource.scopes, s))
  }

  function TouchedResources(resources: Groups, s: Selector): (r: Groups)
    ensures |r| == |resources| && forall i :: 0 <= i < |r| ==> r[i] == TouchedResource(resources[i], s)
  {
    seq(|resources|, i requires 0 <= i < |resources| => TouchedResource(resources[i], s))
  }
}
