/**
 Overwriting one string inside a structured log body, along a path of map keys and slice
 indices. Models updateMap and updateSlice of k8sevents_test.go: what they write, and the
 laws of that write.
 */
module LogBodies {
  import opened Pdata
  import opened Text

  type Entries = map<string, Value>

  // ---------- what the two functions do ----------

  function PutMap(m: Entries, path: seq<string>, text: string): Entries
    decreases |path|
  {
    if path == [] then m
    else if |path| == 1 then m[path[0] := Str(text)]
    else if path[0] !in m then m
    else
      match m[path[0]]
      case Map(inner) => m[path[0] := Map(PutMap(inner, path[1..], text))]
      case Slice(items) =>
        var index := Atoi(path[1]);
        if index.Some? && 0 <= index.value < |items| then
          m[path[0] := Slice(PutSlice(items, path[2..], text, index.value))]
        else m
      case _ => m
  }

  /** With two or more segments left, the first of them is passed over. */
  function PutSlice(items: seq<Value>, path: seq<string>, text: string, index: nat): seq<Value>
    requires index < |items|
    decreases |path|
  {
    if path == [] || !items[index].Map? then items
    else if |path| == 1 then items[index := Map(items[index].entries[path[0] := Str(text)])]
    else items[index := Map(PutMap(items[index].entries, path[1..], text))]
  }

  /** No negative index is used to reach an element: the program would stop there. */
  predicate Safe(m: Entries, path: seq<string>)
    decreases |path|
  {
    |path| < 2 || path[0] !in m ||
    match m[path[0]]
    case Map(inner) => Safe(inner, path[1..])
    case Slice(items) =>
      var index := Atoi(path[1]);
      |path| == 2 || index.None?
      || (0 <= index.value && (index.value < |items| && items[index.value].Map? && |path| > 3 ==>
                                 Safe(items[index.value].entries, path[3..])))
    case _ => true
  }

  /** What the call leaves in the map; None where the program stops. `PutMap` is that where it does not stop. */
  function Updated(m: Entries, path: seq<string>, text: string): Option<Entries> {
    if Safe(m, path) then Some(PutMap(m, path, text)) else None
  }

  /** What the write does to the value under the first key of a longer path. */
  function PutBelow(v: Value, rest: seq<string>, text: string): Value
    requires rest != []
  {
    match v
    case Map(inner) => Map(PutMap(inner, rest, text))
    case Slice(items) =>
      var index := Atoi(rest[0]);
      if index.Some? && 0 <= index.value < |items| then Slice(PutSlice(items, rest[1..], text, index.value)) else v
    case _ => v
  }

  lemma PutStep(m: Entries, path: seq<string>, text: string)
    requires |path| >= 2 && path[0] in m
    ensures PutMap(m, path, text) == m[path[0] := PutBelow(m[path[0]], path[1..], text)]
  {
    assert path[1..][0] == path[1] && path[1..][1..] == path[2..];
    assert m[path[0] := m[path[0]]] == m;
  }

  /** Reading along a path. */
  function Get(v: Value, path: seq<string>): Option<Value>
    decreases |path|
  {
    if path == [] then Some(v)
    else
      match v
      case Map(entries) => if path[0] in entries then Get(entries[path[0]], path[1..]) else None
      case Slice(items) =>
        var index := Atoi(path[0]);
        if index.Some? && 0 <= index.value < |items| then Get(items[index.value], path[1..]) else None
      case _ => None
  }

  function GetIn(m: Entries, path: seq<string>): Option<Value> {
    Get(Map(m), path)
  }

  /** An element of a slice that a path reaches through key `path[0]` and index `path[1]`. */
  predicate Indexed(m: Entries, path: seq<string>) {
    && |path| >= 2 && path[0] in m && m[path[0]].Slice?
    && var index := Atoi(path[1]); index.Some? && 0 <= index.value < |m[path[0]].items|
  }

  function Element(m: Entries, path: seq<string>): Value
    requires Indexed(m, path)
  {
    m[path[0]].items[Atoi(path[1]).value]
  }

  function WithElement(m: Entries, path: seq<string>, v: Value): (r: Entries)
    requires Indexed(m, path)
    ensures Indexed(r, path) && Element(r, path) == v
    ensures forall p :: |p| >= 2 && p[0] == path[0] && Atoi(p[1]) == Atoi(path[1]) ==> Indexed(r, p) && Element(r, p) == v
    ensures |r[path[0]].items| == |m[path[0]].items|
  {
    m[path[0] := Slice(m[path[0]].items[Atoi(path[1]).value := v])]
  }

  lemma WithElementLaws(m: Entries, path: seq<string>, v: Value, w: Value)
    requires Indexed(m, path)
    ensures WithElement(WithElement(m, path, v), path, w) == WithElement(m, path, w)
    ensures WithElement(m, path, Element(m, path)) == m
  {
    var items, i := m[path[0]].items, Atoi(path[1]).value;
    assert items[i := v][i := w] == items[i := w];
    assert items[i := items[i]] == items;
    assert m[path[0] := Slice(items)] == m;
  }

  /** The write through a slice, in terms of the element it goes to. */
  lemma PutThroughSlice(m: Entries, path: seq<string>, text: string)
    requires Indexed(m, path)
    ensures PutMap(m, path, text) ==
            if |path| == 2 || !Element(m, path).Map? then m
            else
              var e := Element(m, path).entries;
              WithElement(m, path, Map(if |path| == 3 then e[path[2] := Str(text)] else PutMap(e, path[3..], text)))
  {
    if |path| == 2 || !Element(m, path).Map? {
      assert m[path[0] := Slice(m[path[0]].items)] == m;
    } else if |path| > 3 {
      assert path[2..][1..] == path[3..];
    }
  }

  /** The walk ends in a write. */
  predicate Lands(m: Entries, path: seq<string>)
    decreases |path|
  {
    if path == [] then false
    else if |path| == 1 then true
    else if path[0] in m && m[path[0]].Map? then Lands(m[path[0]].entries, path[1..])
    else if Indexed(m, path) && Element(m, path).Map? then
      |path| == 3 || (|path| > 3 && Lands(Element(m, path).entries, path[3..]))
    else false
  }

  /** The place the write goes to: the path without the segments that are passed over. */
  function Route(m: Entries, path: seq<string>): seq<string>
    decreases |path|
  {
    if |path| <= 1 then path
    else if path[0] in m && m[path[0]].Map? then [path[0]] + Route(m[path[0]].entries, path[1..])
    else if Indexed(m, path) && Element(m, path).Map? && |path| > 3 then
      [path[0], path[1]] + Route(Element(m, path).entries, path[3..])
    else path
  }

  /** The path is a place for a write, and it holds no slice index followed by two or more segments. */
  predicate Writable(m: Entries, path: seq<string>)
    decreases |path|
  {
    if path == [] then false
    else if |path| == 1 then true
    else if path[0] in m && m[path[0]].Map? then Writable(m[path[0]].entries, path[1..])
    else Indexed(m, path) && Element(m, path).Map? && |path| == 3
  }

  // ---------- reading back ----------

  lemma GetStep(m: Entries, path: seq<string>)
    requires path != []
    ensures GetIn(m, path) == if path[0] in m then Get(m[path[0]], path[1..]) else None
    ensures Indexed(m, path) ==> GetIn(m, path) == Get(Element(m, path), path[2..])
  {
    if Indexed(m, path) {
      assert path[1..][0] == path[1] && path[1..][1..] == path[2..];
    }
  }

  /** A write that lands is read back at the place it went to. */
  lemma {:induction false} RoutedPutGet(m: Entries, path: seq<string>, text: string)
    requires Lands(m, path)
    ensures GetIn(PutMap(m, path, text), Route(m, path)) == Some(Str(text))
    decreases |path|
  {
    var r, route := PutMap(m, path, text), Route(m, path);
    GetStep(r, route);
    if |path| > 1 {
      if m[path[0]].Map? {
        RoutedPutGet(m[path[0]].entries, path[1..], text);
        assert route[1..] == Route(m[path[0]].entries, path[1..]);
      } else if |path| == 3 {
        PutThroughSlice(m, path, text);
        assert route[2..] == [path[2]];
        GetStep(Element(r, route).entries, route[2..]);
      } else {
        PutThroughSlice(m, path, text);
        RoutedPutGet(Element(m, path).entries, path[3..], text);
        assert route[0] == path[0] && route[1] == path[1] && Indexed(r, route);
        assert route[2..] == Route(Element(m, path).entries, path[3..]);
      }
    }
  }

  lemma {:induction false} WritableIsRouted(m: Entries, path: seq<string>)
    ensures Writable(m, path) <==> Lands(m, path) && Route(m, path) == path
    ensures |Route(m, path)| <= |path|
    decreases |path|
  {
    if |path| > 1 {
      if path[0] in m && m[path[0]].Map? {
        WritableIsRouted(m[path[0]].entries, path[1..]);
        assert Route(m, path)[1..] == Route(m[path[0]].entries, path[1..]);
        assert Route(m[path[0]].entries, path[1..]) == path[1..] ==> [path[0]] + path[1..] == path;
      } else if Indexed(m, path) && Element(m, path).Map? && |path| > 3 {
        WritableIsRouted(Element(m, path).entries, path[3..]);
      }
    }
  }

  /** Below the depth of a write, its text makes no difference. */
  lemma {:induction false} TextIsShallow(m: Entries, path: seq<string>, a: string, b: string, r: seq<string>)
    requires |r| > |path|
    ensures GetIn(PutMap(m, path, a), r) == GetIn(PutMap(m, path, b), r)
    decreases |path|
  {
    var ma, mb := PutMap(m, path, a), PutMap(m, path, b);
    GetStep(ma, r);
    GetStep(mb, r);
    if |path| > 1 && r[0] == path[0] && path[0] in m {
      if m[path[0]].Map? {
        TextIsShallow(m[path[0]].entries, path[1..], a, b, r[1..]);
      } else if Indexed(m, path) {
        TextIsShallowInSlice(m, path, a, b, r);
      }
    }
  }

  lemma TextIsShallowInSlice(m: Entries, path: seq<string>, a: string, b: string, r: seq<string>)
    requires Indexed(m, path) && |r| >= 2 && r[0] == path[0]
    requires |r| > |path| || (|r| == |path| && |path| != 3)
    ensures GetIn(PutMap(m, path, a), r) == GetIn(PutMap(m, path, b), r)
    decreases |path|, 0
  {
    var ma, mb := PutMap(m, path, a), PutMap(m, path, b);
    PutThroughSlice(m, path, a);
    PutThroughSlice(m, path, b);
    GetStep(ma, r);
    GetStep(mb, r);
    if Atoi(r[1]) == Atoi(path[1]) && |path| >= 3 && Element(m, path).Map? {
      assert Indexed(ma, r) && Indexed(mb, r);
      GetStep(Element(ma, r).entries, r[2..]);
      GetStep(Element(mb, r).entries, r[2..]);
      if |path| > 3 {
        TextIsShallow(Element(m, path).entries, path[3..], a, b, r[2..]);
      }
    } else {
      assert r[1..][0] == r[1];
    }
  }

  /** A path that is not a place for a write reads the same whatever was written. */
  lemma {:induction false} UnwritableIgnoresText(m: Entries, path: seq<string>, a: string, b: string)
    requires !Writable(m, path) && path != []
    ensures GetIn(PutMap(m, path, a), path) == GetIn(PutMap(m, path, b), path)
    decreases |path|
  {
    var ma, mb := PutMap(m, path, a), PutMap(m, path, b);
    GetStep(ma, path);
    GetStep(mb, path);
    if |path| > 1 && path[0] in m {
      if m[path[0]].Map? {
        UnwritableIgnoresText(m[path[0]].entries, path[1..], a, b);
      } else if Indexed(m, path) {
        if |path| == 3 {
          assert !Element(m, path).Map?;
        } else {
          TextIsShallowInSlice(m, path, a, b, path);
        }
      }
    }
  }

  /** A walk that lands does not stop the program. */
  lemma {:induction false} LandsIsSafe(m: Entries, path: seq<string>)
    requires Lands(m, path)
    ensures Safe(m, path)
    decreases |path|
  {
    if |path| > 1 {
      if m[path[0]].Map? {
        LandsIsSafe(m[path[0]].entries, path[1..]);
      } else if |path| > 3 {
        LandsIsSafe(Element(m, path).entries, path[3..]);
      }
    }
  }

  ghost predicate ReadsBack(m: Entries, path: seq<string>) {
    forall text: string ::
      Updated(m, path, text).Some? && GetIn(Updated(m, path, text).value, path) == Some(Str(text))
  }

  /**
   Put then get, exactly: every text written along a path is read back along it if and only if
   the path is writable. Where a slice index is followed by two or more segments it is not.
   */
  lemma PutGetExactly(m: Entries, path: seq<string>)
    ensures ReadsBack(m, path) <==> Writable(m, path)
  {
    WritableIsRouted(m, path);
    if Writable(m, path) {
      LandsIsSafe(m, path);
      forall text: string ensures GetIn(PutMap(m, path, text), path) == Some(Str(text)) {
        RoutedPutGet(m, path, text);
      }
    } else {
      var a, b := "a", "b";
      if path != [] {
        UnwritableIgnoresText(m, path, a, b);
      }
      if Safe(m, path) {
        assert GetIn(Updated(m, path, a).value, path) != Some(Str(a)) || GetIn(Updated(m, path, b).value, path) != Some(Str(b));
      } else {
        assert Updated(m, path, a) == None;
      }
    }
  }

  function MisroutedInner(): Entries {
    map["b" := Str("old")]
  }

  function MisroutedElement(): Entries {
    map["a" := Map(MisroutedInner())]
  }

  function MisroutedMap(): Entries {
    map["k" := Slice([Map(MisroutedElement())])]
  }

  /** Such a path: the write goes past the segment after the index. */
  lemma MisroutedExample()
    ensures var m, path := MisroutedMap(), ["k", "0", "a", "b"];
            && GetIn(PutMap(m, path, "new"), path) == Some(Str("old"))
            && Route(m, path) == ["k", "0", "b"]
            && GetIn(PutMap(m, path, "new"), ["k", "0", "b"]) == Some(Str("new"))
  {
    var m, path := MisroutedMap(), ["k", "0", "a", "b"];
    MisroutedRoute();
    MisroutedWrite();
    RoutedPutGet(m, path, "new");
    var r := PutMap(m, path, "new");
    GetStep(r, path);
    GetStep(Element(r, path).entries, path[2..]);
    GetStep(MisroutedInner(), path[2..][1..]);
  }

  lemma MisroutedRoute()
    ensures Lands(MisroutedMap(), ["k", "0", "a", "b"]) && Route(MisroutedMap(), ["k", "0", "a", "b"]) == ["k", "0", "b"]
  {
    var m, path := MisroutedMap(), ["k", "0", "a", "b"];
    ZeroIndex();
    assert path[3..] == ["b"];
    assert Indexed(m, path) && Element(m, path) == Map(MisroutedElement());
    assert Route(m, path) == ["k", "0"] + Route(MisroutedElement(), path[3..]);
  }

  lemma MisroutedWrite()
    ensures var r, path := PutMap(MisroutedMap(), ["k", "0", "a", "b"], "new"), ["k", "0", "a", "b"];
            Indexed(r, path) && Element(r, path) == Map(MisroutedElement()["b" := Str("new")])
  {
    var m, path := MisroutedMap(), ["k", "0", "a", "b"];
    ZeroIndex();
    assert path[3..] == ["b"];
    assert Indexed(m, path) && Element(m, path) == Map(MisroutedElement());
    PutThroughSlice(m, path, "new");
  }

  lemma ZeroIndex()
    ensures Atoi("0") == Some(0)
  {
    AtoiItoa(0);
    assert Itoa(0) == "0";
  }

  // ---------- writing twice ----------

  /** A second write along a path overrides the first. */
  lemma {:induction false} PutPut(m: Entries, path: seq<string>, a: string, b: string)
    ensures PutMap(PutMap(m, path, a), path, b) == PutMap(m, path, b)
    decreases |path|
  {
    if |path| > 1 && path[0] in m {
      if m[path[0]].Map? {
        PutPut(m[path[0]].entries, path[1..], a, b);
      } else if Indexed(m, path) && Element(m, path).Map? {
        PutThroughSlice(m, path, a);
        PutThroughSlice(m, path, b);
        PutThroughSlice(PutMap(m, path, a), path, b);
        if |path| > 3 {
          PutPut(Element(m, path).entries, path[3..], a, b);
        }
        if |path| > 2 {
          var e, ma, mb := Element(m, path).entries, PutMap(m, path, a), PutMap(m, path, b);
          assert e[path[2] := Str(a)][path[2] := Str(b)] == e[path[2] := Str(b)];
          WithElementLaws(m, path, Element(ma, path), Element(mb, path));
        }
      }
    }
  }

  // ---------- what stays ----------

  /** A walk that does not land changes nothing. */
  lemma {:induction false} NoLandingNoChange(m: Entries, path: seq<string>, text: string)
    requires !Lands(m, path)
    ensures PutMap(m, path, text) == m
    decreases |path|
  {
    if |path| > 1 && path[0] in m {
      if m[path[0]].Map? {
        NoLandingNoChange(m[path[0]].entries, path[1..], text);
      } else if Indexed(m, path) {
        PutThroughSlice(m, path, text);
        if Element(m, path).Map? && |path| > 3 {
          NoLandingNoChange(Element(m, path).entries, path[3..], text);
          WithElementLaws(m, path, Element(m, path), Element(m, path));
        }
      }
    }
  }

  ghost predicate ChangesNothing(m: Entries, path: seq<string>) {
    forall text: string :: Updated(m, path, text) == Some(m)
  }

  /** Exactly when a path has no effect: its walk neither lands nor stops the program. */
  lemma ChangesNothingExactly(m: Entries, path: seq<string>)
    ensures ChangesNothing(m, path) <==> Safe(m, path) && !Lands(m, path)
  {
    if Lands(m, path) {
      LandsIsSafe(m, path);
      RoutedPutGet(m, path, "a");
      RoutedPutGet(m, path, "b");
      assert Updated(m, path, "a") != Some(m) || Updated(m, path, "b") != Some(m);
    } else if Safe(m, path) {
      forall text: string ensures Updated(m, path, text) == Some(m) {
        NoLandingNoChange(m, path, text);
      }
    } else {
      assert Updated(m, path, "") == None;
    }
  }

  /** The walk along `path` comes to the map `e` with `rest` still to go. */
  predicate Comes(m: Entries, path: seq<string>, e: Entries, rest: seq<string>)
    decreases |path|
  {
    || (e == m && rest == path)
    || (|path| > 1 && path[0] in m && m[path[0]].Map? && Comes(m[path[0]].entries, path[1..], e, rest))
    || (|path| > 3 && Indexed(m, path) && Element(m, path).Map? && Comes(Element(m, path).entries, path[3..], e, rest))
  }

  /** A negative number where a slice asks for an index, and something to write after it. */
  predicate NegativeIndex(e: Entries, rest: seq<string>) {
    |rest| > 2 && rest[0] in e && e[rest[0]].Slice? && Atoi(rest[1]).Some? && Atoi(rest[1]).value < 0
  }

  /** The program stops exactly when the walk comes to a negative index. */
  lemma {:induction false} StopsExactly(m: Entries, path: seq<string>)
    ensures !Safe(m, path) <==> exists e, rest :: Comes(m, path, e, rest) && NegativeIndex(e, rest)
    decreases |path|
  {
    if NegativeIndex(m, path) {
      assert Comes(m, path, m, path);
    } else if |path| > 1 && path[0] in m && m[path[0]].Map? {
      StopsBelow(m, path, m[path[0]].entries, path[1..]);
    } else if |path| > 3 && Indexed(m, path) && Element(m, path).Map? {
      StopsBelow(m, path, Element(m, path).entries, path[3..]);
    }
  }

  lemma StopsBelow(m: Entries, path: seq<string>, inner: Entries, below: seq<string>)
    requires |below| < |path| && !NegativeIndex(m, path)
    requires forall e, rest :: Comes(m, path, e, rest) <==> (e == m && rest == path) || Comes(inner, below, e, rest)
    ensures !Safe(inner, below) <==> exists e, rest :: Comes(m, path, e, rest) && NegativeIndex(e, rest)
    decreases |path|, 0
  {
    StopsExactly(inner, below);
    if e, rest :| Comes(inner, below, e, rest) && NegativeIndex(e, rest) {
      assert Comes(m, path, e, rest);
    }
  }

  /** Two paths part ways: at a map by their keys, at a slice by their parsed indices. */
  predicate Apart(v: Value, p: seq<string>, r: seq<string>)
    decreases |p|
  {
    p != [] && r != [] &&
    match v
    case Map(entries) => p[0] != r[0] || (p[0] in entries && Apart(entries[p[0]], p[1..], r[1..]))
    case Slice(items) =>
      var i := Atoi(p[0]);
      i != Atoi(r[0]) || (i.Some? && 0 <= i.value < |items| && Apart(items[i.value], p[1..], r[1..]))
    case _ => false
  }

  /** Every place whose path parts from the place of the write reads as before. */
  lemma {:induction false} ElsewhereUntouched(m: Entries, path: seq<string>, text: string, r: seq<string>)
    requires Lands(m, path) && Apart(Map(m), Route(m, path), r)
    ensures GetIn(PutMap(m, path, text), r) == GetIn(m, r)
    decreases |path|
  {
    var after, route := PutMap(m, path, text), Route(m, path);
    GetStep(m, r);
    GetStep(after, r);
    if |path| > 1 && r[0] == path[0] {
      if m[path[0]].Map? {
        assert route[1..] == Route(m[path[0]].entries, path[1..]);
        ElsewhereUntouched(m[path[0]].entries, path[1..], text, r[1..]);
      } else {
        ElsewhereInSlice(m, path, text, r);
      }
    }
  }

  /** The part of a route below an element. */
  function ElementRoute(e: Entries, path: seq<string>): seq<string>
    requires |path| >= 3
  {
    if |path| == 3 then [path[2]] else Route(e, path[3..])
  }

  lemma ApartInElement(m: Entries, path: seq<string>, r: seq<string>)
    requires Indexed(m, path) && Element(m, path).Map? && |path| >= 3
    requires |r| > 0 && r[0] == path[0] && Apart(Map(m), Route(m, path), r)
    ensures |r| >= 2 && (Atoi(r[1]) == Atoi(path[1]) ==> Apart(Element(m, path), ElementRoute(Element(m, path).entries, path), r[2..]))
  {
    var route := Route(m, path);
    assert route[0] == path[0] && route[1..][0] == path[1];
    assert Apart(m[path[0]], route[1..], r[1..]);
    assert r[1..][0] == r[1];
    assert route[1..][1..] == route[2..] == ElementRoute(Element(m, path).entries, path);
    assert r[1..][1..] == r[2..];
  }

  lemma ElsewhereInSlice(m: Entries, path: seq<string>, text: string, r: seq<string>)
    requires Lands(m, path) && Indexed(m, path) && |r| > 0 && r[0] == path[0]
    requires Apart(Map(m), Route(m, path), r)
    ensures GetIn(PutMap(m, path, text), r) == GetIn(m, r)
    decreases |path|, 0
  {
    var after, element := PutMap(m, path, text), Element(m, path).entries;
    ApartInElement(m, path, r);
    PutThroughSlice(m, path, text);
    GetStep(m, r);
    GetStep(after, r);
    if Atoi(r[1]) == Atoi(path[1]) {
      if |path| == 3 {
        GetStep(element, r[2..]);
        GetStep(element[path[2] := Str(text)], r[2..]);
      } else {
        ElsewhereUntouched(element, path[3..], text, r[2..]);
      }
    } else {
      assert r[1..][0] == r[1];
    }
  }
}
