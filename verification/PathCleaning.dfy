/**
 What `path.Clean`, written out in VolumeMounts, gives: the laws its users rely on. It keeps a
 path that is clean already, passes over what says nothing, and takes ".." back.
 Used by findVolumeMountForPath of common.go.
 */
module PathCleaning {
  import opened Text
  import opened VolumeMounts

  /** Only a relative path keeps "..", and only in front. */
  predicate Normal(components: seq<string>, rooted: bool) {
    forall k :: 0 <= k < |components| && components[k] == ".." ==> !rooted && (k == 0 || components[k - 1] == "..")
  }

  // ---------- clean paths stay ----------

  lemma {:induction false} ComponentsAreNormal(parts: seq<string>, rooted: bool)
    ensures Normal(Components(parts, rooted), rooted)
  {
    if parts != [] {
      ComponentsAreNormal(parts[..|parts| - 1], rooted);
    }
  }

  /** Components as they are left are taken one by one, in order. */
  lemma {:induction false} NormalStay(components: seq<string>, rooted: bool)
    requires Proper(components) && Normal(components, rooted)
    ensures Components(components, rooted) == components
  {
    if components != [] {
      var n := |components| - 1;
      NormalStay(components[..n], rooted);
      assert components == components[..n] + [components[n]];
    }
  }

  /** A part that changes nothing wherever it stands may be left out. */
  lemma {:induction false} LeaveOut(before: seq<string>, part: string, after: seq<string>, rooted: bool)
    requires part == "" || part == "."
    ensures Components(before + [part] + after, rooted) == Components(before + after, rooted)
  {
    var all, kept := before + [part] + after, before + after;
    if after == [] {
      assert all[..|all| - 1] == before && kept == before;
    } else {
      var n := |after| - 1;
      LeaveOut(before, part, after[..n], rooted);
      assert all[..|all| - 1] == before + [part] + after[..n] && kept[..|kept| - 1] == before + after[..n];
    }
  }

  lemma PartsOfTop(rooted: bool)
    ensures Rooted(Shown(rooted, [])) == rooted && Parts(Shown(rooted, [])) == []
  {
    EmptyParts(rooted);
    SplitFirst("", '/', "");
    SplitFirst(".", '/', "");
    assert "/" == "" + ['/'] + "";
    assert Split("/", '/') == ["", ""] && Split(".", '/') == ["."];
    assert Shown(true, []) == "/" && Shown(false, []) == ".";
  }

  lemma PartsOfRooted(components: seq<string>)
    requires Proper(components) && Normal(components, true) && components != []
    ensures Parts(Absolute(components)) == components
  {
    SplitOfAbsolute(components);
    NormalStay(components, true);
    LeaveOut([], "", components, true);
    assert [] + [""] + components == [""] + components && [] + components == components;
  }

  lemma SplitOfAbsolute(components: seq<string>)
    requires Proper(components) && components != []
    ensures Split(Absolute(components), '/') == [""] + components
  {
    var p := Join(components, '/');
    SplitJoin(components, '/');
    assert Absolute(components) == "" + ['/'] + p;
    SplitFirst("", '/', p);
  }

  /** The parts of a path made of clean components. */
  lemma PartsOfShown(rooted: bool, components: seq<string>)
    requires Proper(components) && Normal(components, rooted)
    ensures Rooted(Shown(rooted, components)) == rooted && Parts(Shown(rooted, components)) == components
  {
    if components == [] {
      PartsOfTop(rooted);
    } else if rooted {
      PartsOfRooted(components);
    } else {
      JoinStartsProper(components);
      SplitJoin(components, '/');
      NormalStay(components, false);
    }
  }

  lemma EmptyParts(rooted: bool)
    ensures Components(["", ""], rooted) == [] && Components(["."], rooted) == []
  {
    assert ["", ""][..1] == [""] && [""][..0] == [] && ["."][..0] == [];
    assert Components([""], rooted) == [];
  }

  /** A rooted path of proper components without ".." comes out as it is, component by component. */
  lemma CleanAbsolute(components: seq<string>)
    requires Proper(components) && ".." !in components
    ensures Parts(Absolute(components)) == components && Clean(Absolute(components)) == Absolute(components)
  {
    PartsOfShown(true, components);
  }

  /** Cleaning a clean path changes nothing. */
  lemma CleaningTwice(path: string)
    ensures Clean(Clean(path)) == Clean(path)
  {
    PartsAreProper(path);
    ComponentsAreNormal(Split(path, '/'), Rooted(path));
    PartsOfShown(Rooted(path), Parts(path));
  }

  // ---------- what is passed over ----------

  lemma SplitAround(a: string, part: string, b: string)
    requires '/' !in part
    ensures Split(a + "/" + part + "/" + b, '/') == Split(a, '/') + [part] + Split(b, '/')
  {
    assert a + "/" + part + "/" + b == a + ['/'] + (part + ['/'] + b);
    SplitAppend(a, part + ['/'] + b, '/');
    SplitFirst(part, '/', b);
    assert Split(a, '/') + ([part] + Split(b, '/')) == Split(a, '/') + [part] + Split(b, '/');
  }

  lemma StillRooted(a: string, b: string)
    ensures Rooted(a + "/" + b) <==> a == "" || Rooted(a)
  {
    assert a != "" ==> (a + "/" + b)[0] == a[0];
  }

  lemma OneSlash(a: string, b: string)
    ensures Parts(a + "/" + b) == Components(Split(a, '/') + Split(b, '/'), a == "" || Rooted(a))
  {
    assert a + "/" + b == a + ['/'] + b;
    SplitAppend(a, b, '/');
    StillRooted(a, b);
  }

  lemma RootedAround(a: string, part: string, b: string)
    ensures Rooted(a + "/" + part + "/" + b) <==> a == "" || Rooted(a)
  {
    assert a + "/" + part + "/" + b == a + "/" + (part + "/" + b);
    StillRooted(a, part + "/" + b);
  }

  lemma TwoSlashes(a: string, part: string, b: string)
    requires '/' !in part
    ensures Rooted(a + "/" + part + "/" + b) <==> a == "" || Rooted(a)
    ensures Parts(a + "/" + part + "/" + b) == Components(Split(a, '/') + [part] + Split(b, '/'), a == "" || Rooted(a))
  {
    SplitAround(a, part, b);
    RootedAround(a, part, b);
  }

  lemma IgnoresPart(a: string, part: string, b: string)
    requires part == "" || part == "."
    ensures Clean(a + "/" + part + "/" + b) == Clean(a + "/" + b)
  {
    TwoSlashes(a, part, b);
    OneSlash(a, b);
    StillRooted(a, b);
    LeaveOut(Split(a, '/'), part, Split(b, '/'), a == "" || Rooted(a));
  }

  /** A doubled slash is one slash, "." says nothing, and so does a slash at the end. */
  lemma CleanIgnores(a: string, b: string)
    ensures Clean(a + "//" + b) == Clean(a + "/" + b)
    ensures Clean(a + "/./" + b) == Clean(a + "/" + b)
    ensures a != "" ==> Clean(a + "/") == Clean(a)
  {
    assert a + "//" + b == a + "/" + "" + "/" + b;
    assert a + "/./" + b == a + "/" + "." + "/" + b;
    IgnoresPart(a, "", b);
    IgnoresPart(a, ".", b);
    if a != "" {
      assert a + "/" == a + "/" + "";
      OneSlash(a, "");
      StillRooted(a, "");
      LeaveOut(Split(a, '/'), "", [], Rooted(a));
      assert Split(a, '/') + [""] + [] == Split(a, '/') + [""] && Split(a, '/') + [] == Split(a, '/');
    }
  }

  // ---------- what ".." takes back ----------

  /** A component and the ".." after it may both be left out. */
  lemma {:induction false} TakenBack(before: seq<string>, c: string, after: seq<string>, rooted: bool)
    requires c != "" && c != "." && c != ".."
    ensures Components(before + [c, ".."] + after, rooted) == Components(before + after, rooted)
  {
    var all, kept := before + [c, ".."] + after, before + after;
    if after == [] {
      assert kept == before && all[..|all| - 1] == before + [c] && (before + [c])[..|before|] == before;
      assert Components(before + [c], rooted) == Components(before, rooted) + [c];
    } else {
      var n := |after| - 1;
      TakenBack(before, c, after[..n], rooted);
      assert all[..|all| - 1] == before + [c, ".."] + after[..n] && kept[..|kept| - 1] == before + after[..n];
    }
  }

  /** ".." drops the component before it. */
  lemma CleanTakesBack(a: string, c: string, b: string)
    requires c != "" && c != "." && c != ".." && '/' !in c
    ensures Clean(a + "/" + c + "/../" + b) == Clean(a + "/" + b)
  {
    var rooted := a == "" || Rooted(a);
    assert a + "/" + c + "/../" + b == a + "/" + c + "/" + (".." + ['/'] + b);
    TwoSlashes(a, c, ".." + ['/'] + b);
    SplitFirst("..", '/', b);
    assert Split(a, '/') + [c] + ([".."] + Split(b, '/')) == Split(a, '/') + [c, ".."] + Split(b, '/');
    TakenBack(Split(a, '/'), c, Split(b, '/'), rooted);
    OneSlash(a, b);
    StillRooted(a, b);
  }

  lemma {:induction false} NoneToTake(after: seq<string>)
    ensures Components(["", ".."] + after, true) == Components([""] + after, true)
  {
    var all, kept := ["", ".."] + after, [""] + after;
    if after == [] {
      EmptyParts(true);
      assert all[..1] == [""] && kept == [""] && [""][..0] == [];
    } else {
      var n := |after| - 1;
      NoneToTake(after[..n]);
      assert all[..|all| - 1] == ["", ".."] + after[..n] && kept[..|kept| - 1] == [""] + after[..n];
    }
  }

  /** The root has none to drop; in front of a relative path ".." stays. */
  lemma CleanUpFromTop(b: string)
    ensures Clean("/../" + b) == Clean("/" + b)
    ensures Clean("..") == ".."
  {
    assert "/../" + b == "" + "/" + ".." + "/" + b && "/" + b == "" + "/" + b;
    TwoSlashes("", "..", b);
    OneSlash("", b);
    NoneToTake(Split(b, '/'));
    assert [""] + [".."] + Split(b, '/') == ["", ".."] + Split(b, '/');
    SplitFirst("..", '/', "");
    assert [".."][..0] == [];
  }

  // ---------- mounts and paths as they are written ----------

  /** A mount at clean components counts for a file below it, written as its components with slashes between. */
  lemma MountBacksFilesBelow(mount: seq<string>, below: seq<string>, vm: VolumeMount)
    requires Proper(mount + below) && ".." !in mount + below && mount != []
    requires vm.mountPath == Absolute(mount) && vm.subPath == "" && vm.subPathExpr == ""
    ensures Eligible(vm, Clean(Absolute(mount + below))) && Clean(vm.mountPath) == vm.mountPath
  {
    var path := mount + below;
    assert forall k :: 0 <= k < |mount| ==> mount[k] == path[k];
    assert forall c :: c in mount ==> c in path;
    CleanAbsolute(mount);
    CleanAbsolute(path);
    EligibleExactly(Absolute(path), vm);
  }
}
