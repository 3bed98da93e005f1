/**
 The deepest volume mount that backs a path. Models findVolumeMountForPath of common.go,
 with `path.Clean` of the Go library written out on path components.
 */
module VolumeMounts {
  import opened Text

  // ---------- path.Clean ----------

  predicate Rooted(path: string) {
    path != "" && path[0] == '/'
  }

  /** The components after one more part: "" and "." say nothing, ".." drops a component it can drop. */
  function Push(out: seq<string>, part: string, rooted: bool): seq<string> {
    if part == "" || part == "." then out
    else if part == ".." then
      if out != [] && out[|out| - 1] != ".." then out[..|out| - 1]
      else if rooted then out
      else out + [".."]
    else out + [part]
  }

  function Components(parts: seq<string>, rooted: bool): seq<string> {
    if parts == [] then [] else Push(Components(parts[..|parts| - 1], rooted), parts[|parts| - 1], rooted)
  }

  function Parts(path: string): seq<string> {
    Components(Split(path, '/'), Rooted(path))
  }

  /** The path made of these components, from the root. */
  function Absolute(components: seq<string>): string {
    "/" + Join(components, '/')
  }

  /** The path made of these components. */
  function Shown(rooted: bool, components: seq<string>): string {
    if rooted then Absolute(components)
    else if components == [] then "."
    else Join(components, '/')
  }

  function Clean(path: string): string {
    Shown(Rooted(path), Parts(path))
  }

  /** Components as `Clean` leaves them. */
  predicate Proper(components: seq<string>) {
    forall k :: 0 <= k < |components| ==> components[k] != "" && components[k] != "." && '/' !in components[k]
  }

  lemma {:induction false} ComponentsAreProper(parts: seq<string>, rooted: bool)
    requires forall k :: 0 <= k < |parts| ==> '/' !in parts[k]
    ensures Proper(Components(parts, rooted))
  {
    if parts != [] {
      ComponentsAreProper(parts[..|parts| - 1], rooted);
    }
  }

  lemma PartsAreProper(path: string)
    ensures Proper(Parts(path))
  {
    SplitHasNoSeparator(path, '/');
    ComponentsAreProper(Split(path, '/'), Rooted(path));
  }

  // ---------- the string test ----------

  /** `clean == mp || strings.HasPrefix(clean, mp+"/")`. */
  predicate Backs(clean: string, mp: string) {
    clean == mp || mp + "/" <= clean
  }

  lemma {:induction false} JoinAppend(a: seq<string>, b: seq<string>, sep: char)
    requires a != [] && b != []
    ensures Join(a + b, sep) == Join(a, sep) + [sep] + Join(b, sep)
  {
    var all := a + b;
    if |a| == 1 {
      assert all[1..] == b;
    } else {
      JoinAppend(a[1..], b, sep);
      assert all[1..] == a[1..] + b;
    }
  }

  lemma JoinStartsProper(components: seq<string>)
    requires Proper(components) && components != []
    ensures Join(components, '/') != "" && Join(components, '/')[0] != '/'
  {
    assert components[0][0] in components[0];
  }

  /** The string test on joined components is the component-wise prefix test. */
  lemma JoinBacksExactly(path: seq<string>, mount: seq<string>)
    requires Proper(path) && Proper(mount) && path != [] && mount != []
    ensures Backs(Join(path, '/'), Join(mount, '/')) <==> mount <= path
  {
    var p, m := Join(path, '/'), Join(mount, '/');
    SplitJoin(path, '/');
    SplitJoin(mount, '/');
    if m + "/" <= p {
      var tail := p[|m| + 1..];
      assert p == m + ['/'] + tail;
      SplitAppend(m, tail, '/');
    }
    if mount <= path && mount != path {
      var rest := path[|mount|..];
      assert path == mount + rest;
      JoinAppend(mount, rest, '/');
      assert p == m + "/" + Join(rest, '/');
    }
  }

  lemma RootedBacks(path: seq<string>, mount: seq<string>)
    requires path != [] && mount != []
    ensures Backs(Absolute(path), Absolute(mount)) <==> Backs(Join(path, '/'), Join(mount, '/'))
  {
    var p, m := Join(path, '/'), Join(mount, '/');
    assert Absolute(path)[1..] == p && Absolute(mount)[1..] == m;
    if m + "/" <= p {
      assert p == m + "/" + p[|m| + 1..];
      assert Absolute(path) == Absolute(mount) + "/" + p[|m| + 1..];
    }
    if Absolute(mount) + "/" <= Absolute(path) {
      assert Absolute(path) == Absolute(mount) + "/" + Absolute(path)[|m| + 2..];
      assert p == m + "/" + Absolute(path)[|m| + 2..];
    }
  }

  lemma NotDotted(path: seq<string>)
    requires Proper(path) && path != []
    ensures Join(path, '/') != "." && !("./" <= Join(path, '/'))
  {
    var c, p := path[0], Join(path, '/');
    assert c <= p;
    if |c| == 1 {
      assert p[0] == c[0] && c == [c[0]];
      assert c[0] != '.';
    } else {
      assert p[1] == c[1] && c[1] in c;
    }
  }

  /** What `.` or `/` backs, and what backs them. */
  lemma EmptyBacks(rooted: bool, path: seq<string>)
    requires Proper(path)
    ensures Backs(Shown(rooted, path), Shown(rooted, [])) <==> path == []
    ensures Backs(Shown(rooted, []), Shown(rooted, path)) <==> path == []
  {
    if path != [] {
      JoinStartsProper(path);
      var p := Join(path, '/');
      if rooted {
        assert Absolute(path)[1] == p[0];
      } else {
        NotDotted(path);
      }
    }
  }

  /** The string test on clean paths of one kind is the prefix test, except that the top backs nothing but itself. */
  lemma BacksExactly(rooted: bool, path: seq<string>, mount: seq<string>)
    requires Proper(path) && Proper(mount)
    ensures Backs(Shown(rooted, path), Shown(rooted, mount)) <==> mount <= path && (mount == [] ==> path == [])
  {
    EmptyBacks(rooted, path);
    EmptyBacks(rooted, mount);
    if path != [] && mount != [] {
      JoinBacksExactly(path, mount);
      RootedBacks(path, mount);
    }
  }

  /** Among mounts that back one path, the longer string is the deeper mount. */
  lemma LongerIsDeeper(rooted: bool, path: seq<string>, a: seq<string>, b: seq<string>)
    requires Proper(path) && a <= path && b <= path && (a == [] || b == [] ==> rooted || path == [])
    ensures |Shown(rooted, a)| < |Shown(rooted, b)| <==> |a| < |b|
    ensures Shown(rooted, a) == Shown(rooted, b) <==> a == b
  {
    if |a| < |b| {
      ExtendingLengthens(rooted, a, b);
    } else if |b| < |a| {
      ExtendingLengthens(rooted, b, a);
    } else {
      assert a == path[..|a|] == b;
    }
  }

  lemma ExtendingLengthens(rooted: bool, a: seq<string>, b: seq<string>)
    requires Proper(b) && a <= b && |a| < |b| && (rooted || a != [])
    ensures |Shown(rooted, a)| < |Shown(rooted, b)|
  {
    var rest := b[|a|..];
    assert b == a + rest;
    if a == [] {
      JoinStartsProper(b);
    } else {
      JoinAppend(a, rest, '/');
    }
  }

  // ---------- the search ----------

  datatype VolumeMount = VolumeMount(name: string, mountPath: string, subPath: string, subPathExpr: string)
  datatype Container = Container(name: string, volumeMounts: seq<VolumeMount>)

  predicate Eligible(vm: VolumeMount, clean: string) {
    vm.subPath == "" && vm.subPathExpr == "" && Backs(clean, Clean(vm.mountPath))
  }

  /** What a mount offers: its name, and its clean path when it is eligible. */
  datatype Offer = Offer(name: string, path: string)

  function OfferOf(vm: VolumeMount, clean: string): Offer {
    Offer(vm.name, if Eligible(vm, clean) then Clean(vm.mountPath) else "")
  }

  function Offers(mounts: seq<VolumeMount>, clean: string): (r: seq<Offer>)
    ensures |r| == |mounts| && forall k :: 0 <= k < |r| ==> r[k] == OfferOf(mounts[k], clean)
  {
    seq(|mounts|, k requires 0 <= k < |mounts| => OfferOf(mounts[k], clean))
  }

  /** The mounts of the containers with this name, in order. */
  function MountsOf(containers: seq<Container>, name: string): seq<VolumeMount> {
    if containers == [] then []
    else
      var last := containers[|containers| - 1];
      MountsOf(containers[..|containers| - 1], name) + if last.name == name then last.volumeMounts else []
  }

  function Better(best: Offer, next: Offer): Offer {
    if |next.path| > |best.path| then next else best
  }

  /** The running maximum over the offers seen so far. */
  function Best(offers: seq<Offer>): Offer {
    if offers == [] then Offer("", "") else Better(Best(offers[..|offers| - 1]), offers[|offers| - 1])
  }

  lemma BestSnoc(offers: seq<Offer>, next: Offer)
    ensures Best(offers + [next]) == Better(Best(offers), next)
  {
    assert (offers + [next])[..|offers|] == offers;
  }

  lemma TakeNext(before: seq<Offer>, offers: seq<Offer>, k: nat)
    requires k < |offers|
    ensures before + offers[..k + 1] == (before + offers[..k]) + [offers[k]]
  {
  }

  /** The body of the loop over one container's mounts. */
  method Consider(vm: VolumeMount, clean: string, bestVolume: string, bestMount: string) returns (volume: string, mount: string)
    ensures Offer(volume, mount) == Better(Offer(bestVolume, bestMount), OfferOf(vm, clean))
  {
    volume, mount := bestVolume, bestMount;
    if vm.subPath != "" || vm.subPathExpr != "" {
      return;
    }
    var mp := Clean(vm.mountPath);
    if clean != mp && !(mp + "/" <= clean) {
      return;
    }
    if |mp| > |mount| {
      mount := mp;
      volume := vm.name;
    }
  }

  /** That loop, after the offers `before` of the containers so far. */
  method ConsiderAll(mounts: seq<VolumeMount>, clean: string, bestVolume: string, bestMount: string, ghost before: seq<Offer>)
    returns (volume: string, mount: string)
    requires Offer(bestVolume, bestMount) == Best(before)
    ensures Offer(volume, mount) == Best(before + Offers(mounts, clean))
  {
    volume, mount := bestVolume, bestMount;
    ghost var offers := Offers(mounts, clean);
    assert before + offers[..0] == before;
    for k := 0 to |mounts|
      invariant Offer(volume, mount) == Best(before + offers[..k])
    {
      volume, mount := Consider(mounts[k], clean, volume, mount);
      BestSnoc(before + offers[..k], offers[k]);
      TakeNext(before, offers, k);
    }
    assert offers[..|mounts|] == offers;
  }

  method FindVolumeMountForPath(containers: seq<Container>, containerName: string, absPath: string)
    returns (bestVolume: string, bestMount: string)
    ensures Offer(bestVolume, bestMount) == Best(Offers(MountsOf(containers, containerName), Clean(absPath)))
  {
    var clean := Clean(absPath);
    bestVolume, bestMount := "", "";
    for i := 0 to |containers|
      invariant Offer(bestVolume, bestMount) == Best(Offers(MountsOf(containers[..i], containerName), clean))
    {
      var c := containers[i];
      ghost var before := Offers(MountsOf(containers[..i], containerName), clean);
      NextContainer(containers, i, containerName, clean);
      if c.name == containerName {
        bestVolume, bestMount := ConsiderAll(c.volumeMounts, clean, bestVolume, bestMount, before);
      }
    }
    assert containers[..|containers|] == containers;
  }

  lemma NextContainer(containers: seq<Container>, i: nat, name: string, clean: string)
    requires i < |containers|
    ensures var before := Offers(MountsOf(containers[..i], name), clean);
            Offers(MountsOf(containers[..i + 1], name), clean)
            == if containers[i].name == name then before + Offers(containers[i].volumeMounts, clean) else before
  {
    assert containers[..i + 1][..i] == containers[..i];
    var before := MountsOf(containers[..i], name);
    assert before + [] == before;
  }

  // ---------- what the search finds ----------

  /** The mounts looked at are those of the containers with the name, in order. */
  lemma {:induction false} MountsOfPlus(a: seq<Container>, b: seq<Container>, name: string)
    ensures MountsOf(a + b, name) == MountsOf(a, name) + MountsOf(b, name)
  {
    if b == [] {
      assert a + b == a;
    } else {
      var n, all := |b| - 1, a + b;
      var last := if b[n].name == name then b[n].volumeMounts else [];
      MountsOfPlus(a, b[..n], name);
      assert all[..|all| - 1] == a + b[..n] && all[|all| - 1] == b[n];
      Regroup(MountsOf(a, name), MountsOf(b[..n], name), last);
    }
  }

  lemma Regroup(a: seq<VolumeMount>, b: seq<VolumeMount>, c: seq<VolumeMount>)
    ensures (a + b) + c == a + (b + c)
  {
  }

  lemma MountsOfOne(c: Container, name: string)
    ensures MountsOf([c], name) == if c.name == name then c.volumeMounts else []
  {
    assert [c][..0] == [];
  }

  lemma CleanIsNotEmpty(path: string)
    ensures Clean(path) != ""
    ensures Rooted(Clean(path)) <==> Rooted(path)
  {
    PartsAreProper(path);
    if !Rooted(path) && Parts(path) != [] {
      JoinStartsProper(Parts(path));
    }
  }

  /** `n` is the first of the longest offers. */
  ghost predicate IsFirstLongest(offers: seq<Offer>, n: nat) {
    && n < |offers| && offers[n].path != ""
    && (forall k :: 0 <= k < |offers| ==> |offers[k].path| <= |offers[n].path|)
    && (forall k :: 0 <= k < n ==> |offers[k].path| < |offers[n].path|)
  }

  lemma {:induction false} BestIsFirstLongest(offers: seq<Offer>) returns (n: nat)
    ensures n == |offers| ==> Best(offers) == Offer("", "") && forall k :: 0 <= k < |offers| ==> offers[k].path == ""
    ensures n != |offers| ==> IsFirstLongest(offers, n) && Best(offers) == offers[n]
  {
    if offers == [] {
      n := 0;
    } else {
      var last := |offers| - 1;
      n := BestIsFirstLongest(offers[..last]);
      if |offers[last].path| > |Best(offers[..last]).path| {
        n := last;
      } else if n == last {
        n := |offers|;
      }
    }
  }

  /** The mounts that count are those of the same kind, rooted or not, whose components the path starts with. */
  lemma EligibleExactly(absPath: string, vm: VolumeMount)
    ensures Eligible(vm, Clean(absPath)) <==>
              && vm.subPath == "" && vm.subPathExpr == "" && Rooted(vm.mountPath) == Rooted(absPath)
              && Parts(vm.mountPath) <= Parts(absPath) && (Parts(vm.mountPath) == [] ==> Parts(absPath) == [])
  {
    PartsAreProper(absPath);
    PartsAreProper(vm.mountPath);
    if Rooted(vm.mountPath) == Rooted(absPath) {
      BacksExactly(Rooted(absPath), Parts(absPath), Parts(vm.mountPath));
    } else {
      CleanIsNotEmpty(vm.mountPath);
      CleanIsNotEmpty(absPath);
      var c, mp := Clean(absPath), Clean(vm.mountPath);
      assert (mp + "/")[0] == mp[0] != c[0];
    }
  }

  /** `n` is the first of the deepest eligible mounts, counted in path components. */
  ghost predicate IsDeepest(mounts: seq<VolumeMount>, absPath: string, n: nat) {
    && n < |mounts| && Eligible(mounts[n], Clean(absPath))
    && forall k :: 0 <= k < |mounts| && Eligible(mounts[k], Clean(absPath)) ==>
         |Parts(mounts[k].mountPath)| <= |Parts(mounts[n].mountPath)|
         && (k < n ==> |Parts(mounts[k].mountPath)| < |Parts(mounts[n].mountPath)|)
  }

  /**
   The search returns the deepest eligible mount of a path, the first one where mounts share a
   path, and nothing exactly when no mount is eligible.
   */
  lemma FindsTheDeepest(mounts: seq<VolumeMount>, absPath: string)
    ensures var best := Best(Offers(mounts, Clean(absPath)));
            if forall k :: 0 <= k < |mounts| ==> !Eligible(mounts[k], Clean(absPath)) then best == Offer("", "")
            else exists n: nat :: IsDeepest(mounts, absPath, n) && best == Offer(mounts[n].name, Clean(mounts[n].mountPath))
  {
    var clean, offers := Clean(absPath), Offers(mounts, Clean(absPath));
    var n := BestIsFirstLongest(offers);
    forall k | 0 <= k < |mounts| ensures offers[k].path != "" <==> Eligible(mounts[k], clean) {
      CleanIsNotEmpty(mounts[k].mountPath);
    }
    if n != |mounts| {
      DeepestOf(mounts, absPath, n);
    }
  }

  lemma DeepestOf(mounts: seq<VolumeMount>, absPath: string, n: nat)
    requires IsFirstLongest(Offers(mounts, Clean(absPath)), n)
    ensures IsDeepest(mounts, absPath, n)
  {
    var clean, offers := Clean(absPath), Offers(mounts, Clean(absPath));
    assert Eligible(mounts[n], clean);
    forall k | 0 <= k < |mounts| && Eligible(mounts[k], clean)
      ensures |Parts(mounts[k].mountPath)| <= |Parts(mounts[n].mountPath)|
      ensures k < n ==> |Parts(mounts[k].mountPath)| < |Parts(mounts[n].mountPath)|
    {
      assert |offers[k].path| <= |offers[n].path|;
      CompareDepths(absPath, mounts[k], mounts[n]);
    }
  }

  lemma CompareDepths(absPath: string, a: VolumeMount, b: VolumeMount)
    requires Eligible(a, Clean(absPath)) && Eligible(b, Clean(absPath))
    ensures |Clean(a.mountPath)| < |Clean(b.mountPath)| <==> |Parts(a.mountPath)| < |Parts(b.mountPath)|
    ensures |Clean(b.mountPath)| < |Clean(a.mountPath)| <==> |Parts(b.mountPath)| < |Parts(a.mountPath)|
  {
    EligibleExactly(absPath, a);
    EligibleExactly(absPath, b);
    PartsAreProper(absPath);
    LongerIsDeeper(Rooted(absPath), Parts(absPath), Parts(a.mountPath), Parts(b.mountPath));
    LongerIsDeeper(Rooted(absPath), Parts(absPath), Parts(b.mountPath), Parts(a.mountPath));
  }

  /** A mount of the root is passed over for every path but the root, though it contains them all. */
  lemma RootMountBacksOnlyTheRoot(absPath: string, vm: VolumeMount)
    requires Rooted(vm.mountPath) && Parts(vm.mountPath) == []
    ensures Eligible(vm, Clean(absPath)) <==> vm.subPath == "" && vm.subPathExpr == "" && Clean(absPath) == "/"
  {
    EligibleExactly(absPath, vm);
    PartsAreProper(absPath);
    if Rooted(absPath) {
      EmptyBacks(true, Parts(absPath));
    } else {
      CleanIsNotEmpty(absPath);
    }
  }
}
