/**
 The same write through a tree of mutable map and slice objects, as updateMap,
 updateSlice and updateLogRecordBody of k8sevents_test.go perform it.
 */
module LogBodiesInPlace {
  import opened Pdata
  import opened Text
  import opened LogBodies

  /** A value inside a node: a scalar, or a map or slice object of its own. */
  datatype Slot = Leaf(value: Value) | Inner(node: Node)

  datatype Body = MapBody(entries: map<string, Slot>) | SliceBody(items: seq<Slot>)

  class Node {
    var body: Body
    ghost const Repr: set<Node>

    /** A map object around scalars and disjoint trees. */
    constructor OfMap(entries: map<string, Slot>, ghost below: set<Node>)
      requires forall key :: key in entries ==>
                 if entries[key].Leaf? then !entries[key].value.Map? && !entries[key].value.Slice?
                 else entries[key].node in below && entries[key].node.Repr <= below && entries[key].node.Valid()
      requires forall j, k :: j in entries && k in entries && j != k && entries[j].Inner? && entries[k].Inner? ==>
                 entries[j].node.Repr !! entries[k].node.Repr
      ensures Valid() && body == MapBody(entries) && Repr == {this} + below
    {
      body, Repr := MapBody(entries), {this} + below;
    }

    ghost predicate Owns(slot: Slot)
      reads this, Repr
      decreases Repr, 0
    {
      match slot
      case Leaf(value) => !value.Map? && !value.Slice?
      case Inner(node) => node in Repr && node.Repr <= Repr && this !in node.Repr && this in Repr && node.Valid()
    }

    /** A tree: every child owns its part of `Repr`, and no two children share any. */
    ghost predicate Valid()
      reads this, Repr
      decreases Repr, 1
    {
      && this in Repr
      && match body
         case MapBody(entries) =>
           && (forall key :: key in entries ==> Owns(entries[key]))
           && (forall j, k :: j in entries && k in entries && j != k && entries[j].Inner? && entries[k].Inner? ==>
                 entries[j].node.Repr !! entries[k].node.Repr)
         case SliceBody(items) =>
           && (forall i :: 0 <= i < |items| ==> Owns(items[i]))
           && (forall i, j :: 0 <= i < j < |items| && items[i].Inner? && items[j].Inner? ==>
                 items[i].node.Repr !! items[j].node.Repr)
    }

    ghost function ViewSlot(slot: Slot): Value
      requires Owns(slot)
      reads this, Repr
      decreases Repr, 0
    {
      match slot
      case Leaf(value) => value
      case Inner(node) => node.View()
    }

    /** The value the tree holds. */
    ghost function View(): (v: Value)
      requires Valid()
      reads this, Repr
      ensures body.MapBody? <==> v.Map?
      ensures body.SliceBody? <==> v.Slice?
      decreases Repr, 1
    {
      match body
      case MapBody(entries) => Map(map key | key in entries :: ViewSlot(entries[key]))
      case SliceBody(items) => Slice(seq(|items|, i requires 0 <= i < |items| && Owns(items[i]) reads this, Repr => ViewSlot(items[i])))
    }
  }

  /** What a place holds: its scalar as it is, or what the node there holds. */
  ghost predicate Holds(slot: Slot, v: Value)
    requires slot.Inner? ==> slot.node.Valid()
    reads if slot.Inner? then {slot.node} + slot.node.Repr else {}
  {
    match slot
    case Leaf(value) => v == value
    case Inner(node) => v == node.View()
  }

  /** What a node holds is read off it: the same keys, or as many places, with what is under each. */
  lemma ViewExactly(n: Node)
    requires n.Valid()
    ensures n.body.MapBody? ==>
              && n.View().Map? && n.View().entries.Keys == n.body.entries.Keys
              && forall key :: key in n.body.entries ==>
                   n.Owns(n.body.entries[key]) && Holds(n.body.entries[key], n.View().entries[key])
    ensures n.body.SliceBody? ==>
              && n.View().Slice? && |n.View().items| == |n.body.items|
              && forall i :: 0 <= i < |n.body.items| ==> n.Owns(n.body.items[i]) && Holds(n.body.items[i], n.View().items[i])
  {
  }

  /** A tree none of whose nodes changed is still a tree and still holds the same value. */
  twostate lemma {:induction false} NodeKept(n: Node)
    requires old(n.Valid())
    requires forall x :: x in n.Repr ==> x.body == old(x.body)
    ensures n.Valid() && n.View() == old(n.View())
    decreases n.Repr
  {
    match n.body {
      case MapBody(entries) =>
        forall k | k in entries ensures n.Owns(entries[k]) && n.ViewSlot(entries[k]) == old(n.ViewSlot(entries[k])) {
          if entries[k].Inner? {
            NodeKept(entries[k].node);
          }
        }
        assert n.View().entries == old(n.View()).entries;
      case SliceBody(items) =>
        forall i | 0 <= i < |items| ensures n.Owns(items[i]) && n.ViewSlot(items[i]) == old(n.ViewSlot(items[i])) {
          if items[i].Inner? {
            NodeKept(items[i].node);
          }
        }
        assert n.View().items == old(n.View()).items;
    }
  }

  /** `PutStr` on a map object. */
  method PutStr(m: Node, key: string, newValue: string)
    requires m.Valid() && m.body.MapBody?
    modifies m
    ensures m.Valid() && m.body.MapBody?
    ensures m.View() == Map(old(m.View()).entries[key := Str(newValue)])
  {
    ghost var entries := m.body.entries;
    m.body := MapBody(m.body.entries[key := Leaf(Str(newValue))]);
    forall k | k in entries ensures m.Owns(entries[k]) && m.ViewSlot(entries[k]) == old(m.ViewSlot(entries[k])) {
      if entries[k].Inner? {
        assert m !in entries[k].node.Repr;
        assert entries[k].node.Valid();
      }
    }
    assert m.Valid();
    assert m.View().entries == old(m.View()).entries[key := Str(newValue)];
  }

  method UpdateMap(m: Node, path: seq<string>, newValue: string)
    requires m.Valid() && m.body.MapBody? && Safe(m.View().entries, path)
    modifies m.Repr
    ensures m.Valid() && m.View() == Map(PutMap(old(m.View()).entries, path, newValue))
    decreases |path|, 0
  {
    if |path| == 0 {
      return;
    }
    var key := path[0];
    if |path| == 1 {
      PutStr(m, key, newValue);
      return;
    }
    if key in m.body.entries {
      PutStep(m.View().entries, path, newValue);
      match m.body.entries[key] {
        case Inner(nested) =>
          assert m.View().entries[key] == nested.View();
          UpdateNested(nested, path, newValue, m.View().entries);
          ghost var entries := m.body.entries;
          forall k | k in entries && k != key ensures m.Owns(entries[k]) && m.ViewSlot(entries[k]) == old(m.ViewSlot(entries[k])) {
            if entries[k].Inner? {
              NodeKept(entries[k].node);
            }
          }
          assert m.Valid();
          assert m.View().entries == old(m.View()).entries[key := nested.View()];
        case Leaf(_) =>
      }
    }
  }

  /** The switch of that function, on the value under the first key. */
  method UpdateNested(nested: Node, path: seq<string>, newValue: string, ghost m: Entries)
    requires |path| >= 2 && nested.Valid() && path[0] in m && m[path[0]] == nested.View() && Safe(m, path)
    modifies nested.Repr
    ensures nested.Valid() && nested.View() == PutBelow(old(nested.View()), path[1..], newValue)
    decreases |path| - 1, 1
  {
    assert path[1..][0] == path[1] && path[1..][1..] == path[2..];
    if nested.body.MapBody? {
      UpdateMap(nested, path[1..], newValue);
      return;
    }
    var index := Atoi(path[1]);
    if index.None? {
      return;
    }
    // a negative index gets here only with nothing left to write
    if index.value < |nested.body.items| && (index.value >= 0 || |path| > 2) {
      UpdateSlice(nested, path[2..], newValue, index.value);
    }
  }

  method UpdateSlice(s: Node, path: seq<string>, newValue: string, index: nat)
    requires s.Valid() && s.body.SliceBody? && index < |s.body.items|
    requires |path| > 1 && s.View().items[index].Map? ==> Safe(s.View().items[index].entries, path[1..])
    modifies s.Repr
    ensures s.Valid() && s.View() == Slice(PutSlice(old(s.View()).items, path, newValue, index))
    decreases |path|, 0
  {
    if |path| == 0 {
      return;
    }
    match s.body.items[index] {
      case Inner(element) =>
        assert s.View().items[index] == element.View();
        if element.body.MapBody? {
          if |path| == 1 {
            PutStr(element, path[0], newValue);
          } else {
            UpdateMap(element, path[1..], newValue);
          }
          ghost var items := s.body.items;
          forall i | 0 <= i < |items| && i != index ensures s.Owns(items[i]) && s.ViewSlot(items[i]) == old(s.ViewSlot(items[i])) {
            if items[i].Inner? {
              NodeKept(items[i].node);
            }
          }
          assert s.Valid();
          assert s.View().items == old(s.View()).items[index := element.View()];
        }
      case Leaf(_) =>
    }
  }

  // ---------- every record of a log payload ----------

  ghost function Footprint(bodies: seq<Slot>): (r: set<Node>)
    ensures forall i :: 0 <= i < |bodies| && bodies[i].Inner? ==> bodies[i].node in r && bodies[i].node.Repr <= r
  {
    (set i | 0 <= i < |bodies| && bodies[i].Inner? :: bodies[i].node)
    + set i, n | 0 <= i < |bodies| && bodies[i].Inner? && n in bodies[i].node.Repr :: n
  }

  /** The map bodies of the records, in the order the nested loops visit them; other bodies are skipped. */
  ghost predicate Bodies(bodies: seq<Slot>)
    reads Footprint(bodies)
  {
    && (forall i :: 0 <= i < |bodies| && bodies[i].Inner? ==> bodies[i].node.Valid())
    && (forall i, j :: 0 <= i < j < |bodies| && bodies[i].Inner? && bodies[j].Inner? ==>
          bodies[i].node.Repr !! bodies[j].node.Repr)
  }

  /** A body after the update: maps are written to, everything else is left alone. */
  function PutBody(v: Value, path: seq<string>, text: string): Value {
    if v.Map? then Map(PutMap(v.entries, path, text)) else v
  }

  /** A map body whose path lands reads the new text at its route; any other body is as before. */
  lemma PutBodyExactly(v: Value, path: seq<string>, text: string)
    ensures v.Map? && Lands(v.entries, path) ==> Get(PutBody(v, path, text), Route(v.entries, path)) == Some(Str(text))
    ensures !v.Map? || !Lands(v.entries, path) ==> PutBody(v, path, text) == v
  {
    if v.Map? {
      if Lands(v.entries, path) {
        RoutedPutGet(v.entries, path, text);
      } else {
        NoLandingNoChange(v.entries, path, text);
      }
    }
  }

  predicate SafeBody(v: Value, path: seq<string>) {
    v.Map? ==> Safe(v.entries, path)
  }

  /** The bodies before place `n` are updated, the others are as they were. */
  ghost predicate UpdatedUpTo(bodies: seq<Slot>, before: seq<Value>, n: int, path: seq<string>, newValue: string)
    reads Footprint(bodies)
  {
    Bodies(bodies) && |before| == |bodies| && forall x :: 0 <= x < |bodies| && bodies[x].Inner? ==>
      bodies[x].node.View() == if x < n then PutBody(before[x], path, newValue) else before[x]
  }

  /** What each body holds; nothing is said of bodies that are no trees of their own. */
  ghost function BodyViews(bodies: seq<Slot>): (r: seq<Value>)
    requires Bodies(bodies)
    reads Footprint(bodies)
    ensures |r| == |bodies| && forall x :: 0 <= x < |bodies| && bodies[x].Inner? ==> r[x] == bodies[x].node.View()
  {
    seq(|bodies|, x requires 0 <= x < |bodies| reads Footprint(bodies) requires Bodies(bodies) =>
      if bodies[x].Inner? then bodies[x].node.View() else Empty)
  }

  /** The program stops at no body. */
  predicate AllSafe(bodies: seq<Slot>, before: seq<Value>, path: seq<string>) {
    |before| == |bodies| && forall x :: 0 <= x < |bodies| && bodies[x].Inner? ==> SafeBody(before[x], path)
  }

  /** The body of the innermost loop, at the record whose body has place `n`. */
  method UpdateRecord(slot: Slot, path: seq<string>, newValue: string, ghost bodies: seq<Slot>, ghost before: seq<Value>, ghost n: int)
    requires UpdatedUpTo(bodies, before, n, path, newValue) && 0 <= n < |bodies| && bodies[n] == slot
    requires slot.Inner? ==> SafeBody(before[n], path)
    modifies if slot.Inner? then slot.node.Repr else {}
    ensures UpdatedUpTo(bodies, before, n + 1, path, newValue)
  {
    match slot {
      case Inner(body) =>
        if body.body.MapBody? {
          UpdateMap(body, path, newValue);
        }
        forall x | 0 <= x < |bodies| && x != n && bodies[x].Inner?
          ensures bodies[x].node.Valid() && bodies[x].node.View() == old(bodies[x].node.View())
        {
          NodeKept(bodies[x].node);
        }
      case Leaf(_) =>
    }
  }

  /** Every map body whose path lands reads the new text at its route; any other body is as before. */
  ghost predicate BodiesWritten(bodies: seq<Slot>, before: seq<Value>, path: seq<string>, newValue: string)
    reads Footprint(bodies)
  {
    Bodies(bodies) && |before| == |bodies| && forall x :: 0 <= x < |bodies| && bodies[x].Inner? ==>
      if before[x].Map? && Lands(before[x].entries, path) then
        Get(bodies[x].node.View(), Route(before[x].entries, path)) == Some(Str(newValue))
      else bodies[x].node.View() == before[x]
  }

  lemma UpdatedIsWritten(bodies: seq<Slot>, before: seq<Value>, path: seq<string>, newValue: string)
    requires UpdatedUpTo(bodies, before, |bodies|, path, newValue)
    ensures BodiesWritten(bodies, before, path, newValue)
  {
    forall x | 0 <= x < |bodies| && bodies[x].Inner?
      ensures if before[x].Map? && Lands(before[x].entries, path) then
                Get(bodies[x].node.View(), Route(before[x].entries, path)) == Some(Str(newValue))
              else bodies[x].node.View() == before[x]
    {
      PutBodyExactly(before[x], path, newValue);
    }
  }

  /** The innermost loop, over the records of one scope. */
  method UpdateScope(logs: Payload<Slot>, i: nat, j: nat, path: seq<string>, newValue: string, ghost before: seq<Value>, ghost from: int)
    returns (ghost n: int)
    requires i < |logs.resources| && j < |logs.resources[i].scopes|
    requires from == ResourceOffset(logs.resources, i) + ScopeOffset(logs.resources[i].scopes, j)
    requires UpdatedUpTo(Flat(logs), before, from, path, newValue) && AllSafe(Flat(logs), before, path)
    modifies Footprint(Flat(logs))
    ensures n == from + |logs.resources[i].scopes[j].metrics| && UpdatedUpTo(Flat(logs), before, n, path, newValue)
  {
    ghost var bodies := Flat(logs);
    var records := logs.resources[i].scopes[j].metrics;
    n := from;
    for k := 0 to |records|
      invariant n == from + k && UpdatedUpTo(bodies, before, n, path, newValue)
    {
      MetricAt(logs, i, j, k);
      UpdateRecord(records[k], path, newValue, bodies, before, n);
      n := n + 1;
    }
  }

  /** The nested loops, over the payload tree with a record body in each place. */
  method UpdateLogRecordBody(logs: Payload<Slot>, path: seq<string>, newValue: string)
    requires Bodies(Flat(logs))
    requires AllSafe(Flat(logs), BodyViews(Flat(logs)), path)
    modifies Footprint(Flat(logs))
    ensures UpdatedUpTo(Flat(logs), old(BodyViews(Flat(logs))), |Flat(logs)|, path, newValue)
    ensures BodiesWritten(Flat(logs), old(BodyViews(Flat(logs))), path, newValue)
  {
    ghost var bodies, n := Flat(logs), 0;
    ghost var before := BodyViews(bodies);
    for i := 0 to |logs.resources|
      invariant n == ResourceOffset(logs.resources, i) && UpdatedUpTo(bodies, before, n, path, newValue)
    {
      var scopes := logs.resources[i].scopes;
      ghost var start := n;
      for j := 0 to |scopes|
        invariant n == start + ScopeOffset(scopes, j) && UpdatedUpTo(bodies, before, n, path, newValue)
      {
        n := UpdateScope(logs, i, j, path, newValue, before, n);
      }
      ScopesEnd(scopes);
    }
    ResourcesEnd(logs.resources);
    UpdatedIsWritten(bodies, before, path, newValue);
  }
}
