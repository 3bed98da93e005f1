/**
 Finding the latest kind image of every Kubernetes cycle, and sorting the images found.
 Models getLatestSupportedKindImages, decrementPatchVersion and sortVersions of
 update_k8s_versions.go. Looking a tag up in the registry is a fixed function of the tag.
 */
module KindImages {
  import opened Pdata
  import opened Text
  import opened Ordering

  // ---------- one tag down ----------

  /** Two of the error texts quote the tag or a part of it. */
  datatype Error = NoPatch(version: string) | InvalidPatch(part: string) | BelowZero | LookupFailed {
    function Text(): string {
      match this
      case NoPatch(version) => "version does not have a minor version: " + version
      case InvalidPatch(part) => "invalid minor version: " + part
      case BelowZero => BELOW_ZERO
      case LookupFailed => "failed to check image tag existence"
    }
  }

  const BELOW_ZERO := "minor version cannot be decremented below 0"

  datatype Result<+T> = Ok(value: T) | Err(error: Error)

  function Dotted(version: string): (parts: seq<string>)
    ensures parts != []
  {
    Split(version, '.')
  }

  /** The third part of a version, as a number. */
  function Patch(version: string): Option<int> {
    if |Dotted(version)| < 3 then None else Atoi(Dotted(version)[2])
  }

  function WithPatch(version: string, patch: int): string
    requires |Dotted(version)| >= 3
  {
    Join(Dotted(version)[2 := Itoa(patch)], '.')
  }

  /** `minor - 1` in 64 bits. */
  function Decremented(patch: int): int {
    if patch == MIN_INT then MAX_INT else patch - 1
  }

  /** It is one less, modulo 2 to the 64th. */
  lemma DecrementWraps(patch: int)
    requires MIN_INT <= patch <= MAX_INT
    ensures MIN_INT <= Decremented(patch) <= MAX_INT
    ensures (Decremented(patch) - (patch - 1)) % 0x1_0000_0000_0000_0000 == 0
  {
  }

  method DecrementPatchVersion(version: string) returns (r: Result<string>)
    ensures r.Ok? <==> Patch(version).Some? && Patch(version).value != 0
    ensures r.Ok? ==> r.value == WithPatch(version, Decremented(Patch(version).value))
    ensures r == Err(BelowZero) <==> Patch(version) == Some(0)
    ensures r == Err(NoPatch(version)) <==> |Dotted(version)| < 3
    ensures r.Err? && r.error != BelowZero && |Dotted(version)| >= 3 ==> r.error == InvalidPatch(Dotted(version)[1])
  {
    var parts := Dotted(version);
    if |parts| < 3 {
      return Err(NoPatch(version));
    }
    var minor := Atoi(parts[2]);
    if minor.None? {
      return Err(InvalidPatch(parts[1]));
    }
    if minor.value == 0 {
      return Err(BelowZero);
    }
    parts := parts[2 := Itoa(Decremented(minor.value))];
    return Ok(Join(parts, '.'));
  }

  lemma {:induction false} DigitsHaveNoDot(s: string)
    requires AllDigits(s)
    ensures '.' !in s
  {
    if s != "" {
      assert IsDigit(s[0]);
      assert AllDigits(s[1..]);
      DigitsHaveNoDot(s[1..]);
    }
  }

  /** Splitting a version with another patch gives back the parts, with that patch. */
  lemma PatchRoundTrip(version: string, patch: int)
    requires |Dotted(version)| >= 3 && MIN_INT <= patch <= MAX_INT
    ensures Dotted(WithPatch(version, patch)) == Dotted(version)[2 := Itoa(patch)]
    ensures Patch(WithPatch(version, patch)) == Some(patch)
  {
    var parts := Dotted(version)[2 := Itoa(patch)];
    SplitHasNoSeparator(version, '.');
    DigitsHaveNoDot(Decimal(if patch < 0 then -patch else patch));
    SplitJoin(parts, '.');
    AtoiItoa(patch);
  }

  lemma PatchTwice(version: string, a: int, b: int)
    requires |Dotted(version)| >= 3 && MIN_INT <= a <= MAX_INT
    ensures |Dotted(WithPatch(version, a))| >= 3
    ensures WithPatch(WithPatch(version, a), b) == WithPatch(version, b)
  {
    PatchRoundTrip(version, a);
    var parts := Dotted(version);
    assert parts[2 := Itoa(a)][2 := Itoa(b)] == parts[2 := Itoa(b)];
  }

  /** A version as it is written: two parts without dots, and a patch. */
  function Written(major: string, minor: string, patch: int): string {
    major + "." + minor + "." + Itoa(patch)
  }

  /** The patch is the part after the second dot; changing it changes nothing else. */
  lemma WrittenExactly(major: string, minor: string, patch: int, other: int)
    requires '.' !in major && '.' !in minor && MIN_INT <= patch <= MAX_INT
    ensures var tag := Written(major, minor, patch);
            && Dotted(tag) == [major, minor, Itoa(patch)] && Patch(tag) == Some(patch)
            && WithPatch(tag, other) == Written(major, minor, other)
  {
    var tag := Written(major, minor, patch);
    assert tag == major + ['.'] + (minor + ['.'] + Itoa(patch));
    DigitsHaveNoDot(Decimal(if patch < 0 then -patch else patch));
    SplitFirst(major, '.', minor + ['.'] + Itoa(patch));
    SplitFirst(minor, '.', Itoa(patch));
    SplitFirst(Itoa(patch), '.', "");
    AtoiItoa(patch);
    JoinThree(major, minor, Itoa(other));
    assert Dotted(tag)[2 := Itoa(other)] == [major, minor, Itoa(other)];
  }

  lemma JoinThree(x: string, y: string, z: string)
    ensures Join([x, y, z], '.') == x + "." + y + "." + z
  {
    assert [x, y, z][1..] == [y, z] && [y, z][1..] == [z];
    assert Join([z], '.') == z;
    assert Join([y, z], '.') == y + ['.'] + z;
    assert x + ['.'] + (y + ['.'] + z) == x + "." + y + "." + z;
  }

  // ---------- the search for one cycle ----------

  datatype Lookup = Exists | Missing | Failed
  type Registry = string -> Lookup

  datatype Outcome = Found(tag: string) | NotFound | Stopped(error: Error)

  /** How many tags there still are to look up: a negative patch wraps around before it reaches 0. */
  function Below(tag: string): nat {
    if Patch(tag).None? then 0
    else if Patch(tag).value >= 0 then Patch(tag).value
    else
      AtoiInRange(Dotted(tag)[2]);
      Patch(tag).value - MIN_INT + 1 + MAX_INT
  }

  lemma DecrementGoesDown(tag: string)
    requires Patch(tag).Some? && Patch(tag).value != 0
    ensures Below(WithPatch(tag, Decremented(Patch(tag).value))) < Below(tag)
  {
    AtoiInRange(Dotted(tag)[2]);
    PatchRoundTrip(tag, Decremented(Patch(tag).value));
  }

  lemma AtoiInRange(s: string)
    ensures Atoi(s).Some? ==> MIN_INT <= Atoi(s).value <= MAX_INT
  {
  }

  /** The loop goes on to the next cycle if the text of the error holds the phrase, and stops otherwise. */
  function After(error: Error): Outcome {
    if Contains(error.Text(), BELOW_ZERO) then NotFound else Stopped(error)
  }

  /**
   An error lets the loop go on exactly when it is the one about going below 0, or quotes text
   that holds that phrase.
   */
  lemma AfterExactly(error: Error)
    ensures After(error) == NotFound <==>
              match error
              case NoPatch(version) => Within(version, BELOW_ZERO)
              case InvalidPatch(part) => Within(part, BELOW_ZERO)
              case BelowZero => true
              case LookupFailed => false
  {
    match error
    case NoPatch(version) =>
      QuotedVersion(version);
      ContainsExactly(version, BELOW_ZERO);
    case InvalidPatch(part) =>
      QuotedPart(part);
      ContainsExactly(part, BELOW_ZERO);
    case BelowZero =>
    case LookupFailed =>
      ContainsIsLonger(LookupFailed.Text(), BELOW_ZERO);
  }

  lemma QuotedVersion(version: string)
    ensures Contains(NoPatch(version).Text(), BELOW_ZERO) <==> Contains(version, BELOW_ZERO)
  {
    var lead := "version does not have a ";
    assert NoPatch(version).Text() == lead + ("minor version: " + version);
    assert 'm' !in lead;
    PhraseAfter(lead, "minor version: " + version);
    PhraseAfterColon(version);
  }

  lemma QuotedPart(part: string)
    ensures Contains(InvalidPatch(part).Text(), BELOW_ZERO) <==> Contains(part, BELOW_ZERO)
  {
    var lead := "invalid ";
    assert InvalidPatch(part).Text() == lead + ("minor version: " + part);
    assert 'm' !in lead;
    PhraseAfter(lead, "minor version: " + part);
    PhraseAfterColon(part);
  }

  lemma PhraseStarts(s: string)
    requires BELOW_ZERO <= s
    ensures |s| > 13 && s[0] == 'm' && s[13] == ' '
  {
    assert s[0] == BELOW_ZERO[0] && s[13] == BELOW_ZERO[13];
  }

  lemma PhraseAfterColon(text: string)
    ensures Contains("minor version: " + text, BELOW_ZERO) <==> Contains(text, BELOW_ZERO)
  {
    var all, rest := "minor version: " + text, "inor version: ";
    assert all[13] == ':';
    assert !(BELOW_ZERO <= all) by {
      if BELOW_ZERO <= all {
        PhraseStarts(all);
      }
    }
    assert all[1..] == rest + text;
    assert 'm' !in rest;
    PhraseAfter(rest, text);
  }

  /** The phrase does not begin in a text without an "m". */
  lemma {:induction false} PhraseAfter(before: string, text: string)
    requires 'm' !in before
    ensures Contains(before + text, BELOW_ZERO) <==> Contains(text, BELOW_ZERO)
  {
    var all := before + text;
    if before == "" {
      assert all == text;
    } else {
      assert all[0] == before[0] && before[0] in before;
      assert !(BELOW_ZERO <= all) by {
        if BELOW_ZERO <= all {
          PhraseStarts(all);
        }
      }
      assert all[1..] == before[1..] + text;
      PhraseAfter(before[1..], text);
    }
  }

  /** The search ends for every tag. */
  function Search(registry: Registry, tag: string): Outcome
    decreases Below(tag)
  {
    match registry(tag)
    case Failed => Stopped(LookupFailed)
    case Exists => Found(tag)
    case Missing =>
      if |Dotted(tag)| < 3 then After(NoPatch(tag))
      else if Patch(tag).None? then After(InvalidPatch(Dotted(tag)[1]))
      else if Patch(tag).value == 0 then After(BelowZero)
      else
        DecrementGoesDown(tag);
        Search(registry, WithPatch(tag, Decremented(Patch(tag).value)))
  }

  /** A tag whose patch is written the way `strconv.Itoa` writes it. */
  predicate Canonical(tag: string) {
    |Dotted(tag)| >= 3 && Patch(tag).Some? && Patch(tag).value >= 0 && Dotted(tag)[2] == Itoa(Patch(tag).value)
  }

  lemma CanonicalIsItself(tag: string)
    requires Canonical(tag)
    ensures WithPatch(tag, Patch(tag).value) == tag
  {
    assert Dotted(tag)[2 := Itoa(Patch(tag).value)] == Dotted(tag);
    JoinSplit(tag, '.');
  }

  /** `q` is the greatest patch up to the tag's own whose tag is not missing. */
  ghost predicate IsGreatest(registry: Registry, tag: string, q: int)
    requires Canonical(tag)
  {
    && 0 <= q <= Patch(tag).value && registry(WithPatch(tag, q)) != Missing
    && forall r :: q < r <= Patch(tag).value ==> registry(WithPatch(tag, r)) == Missing
  }

  ghost predicate AllMissing(registry: Registry, tag: string)
    requires Canonical(tag)
  {
    forall r :: 0 <= r <= Patch(tag).value ==> registry(WithPatch(tag, r)) == Missing
  }

  /**
   From a canonical tag the search finds exactly the greatest patch at or below it that the
   registry has, nothing exactly when there is none (`q` is -1), and stops exactly when a lookup
   fails on the way.
   */
  lemma {:induction false} SearchFindsGreatest(registry: Registry, tag: string) returns (q: int)
    requires Canonical(tag)
    ensures q < 0 ==> AllMissing(registry, tag) && Search(registry, tag) == NotFound
    ensures q >= 0 ==> IsGreatest(registry, tag, q)
    ensures q >= 0 ==> Search(registry, tag) == (if registry(WithPatch(tag, q)) == Exists then Found(WithPatch(tag, q)) else Stopped(LookupFailed))
    decreases Below(tag)
  {
    CanonicalIsItself(tag);
    var p := Patch(tag).value;
    if registry(tag) != Missing {
      q := p;
    } else if p > 0 {
      var next := WithPatch(tag, p - 1);
      OneDown(registry, tag);
      q := SearchFindsGreatest(registry, next);
      if q >= 0 {
        NextGreatest(registry, tag, q);
      }
    } else {
      q := -1;
    }
  }

  /** The next tag down. */
  lemma NextTag(tag: string)
    requires Canonical(tag) && Patch(tag).value > 0
    ensures var next := WithPatch(tag, Patch(tag).value - 1);
            Canonical(next) && Patch(next).value == Patch(tag).value - 1 && Below(next) < Below(tag)
    ensures forall r :: 0 <= r < Patch(tag).value ==> WithPatch(WithPatch(tag, Patch(tag).value - 1), r) == WithPatch(tag, r)
  {
    var p := Patch(tag).value;
    DecrementGoesDown(tag);
    AtoiInRange(Dotted(tag)[2]);
    PatchRoundTrip(tag, p - 1);
    forall r | 0 <= r < p ensures WithPatch(WithPatch(tag, p - 1), r) == WithPatch(tag, r) {
      PatchTwice(tag, p - 1, r);
    }
  }

  /** The search goes on with it when this one is missing. */
  lemma OneDown(registry: Registry, tag: string)
    requires Canonical(tag) && Patch(tag).value > 0 && registry(tag) == Missing
    ensures var next := WithPatch(tag, Patch(tag).value - 1);
            && Canonical(next) && Patch(next).value == Patch(tag).value - 1 && Below(next) < Below(tag)
            && Search(registry, tag) == Search(registry, next)
            && (AllMissing(registry, tag) <==> AllMissing(registry, next))
  {
    NextTag(tag);
    CanonicalIsItself(tag);
    SearchGoesOn(registry, tag);
    AllMissingDown(registry, tag);
  }

  lemma AllMissingDown(registry: Registry, tag: string)
    requires Canonical(tag) && Patch(tag).value > 0 && registry(WithPatch(tag, Patch(tag).value)) == Missing
    requires Canonical(WithPatch(tag, Patch(tag).value - 1))
    ensures AllMissing(registry, tag) <==> AllMissing(registry, WithPatch(tag, Patch(tag).value - 1))
  {
    NextTag(tag);
    var p, next := Patch(tag).value, WithPatch(tag, Patch(tag).value - 1);
    if AllMissing(registry, tag) {
      forall r | 0 <= r <= Patch(next).value ensures registry(WithPatch(next, r)) == Missing {
        assert registry(WithPatch(tag, r)) == Missing;
      }
    }
    if AllMissing(registry, next) {
      forall r | 0 <= r <= p ensures registry(WithPatch(tag, r)) == Missing {
        if r < p {
          assert registry(WithPatch(next, r)) == Missing;
        }
      }
    }
  }

  lemma SearchGoesOn(registry: Registry, tag: string)
    requires Canonical(tag) && Patch(tag).value > 0 && registry(tag) == Missing
    ensures Search(registry, tag) == Search(registry, WithPatch(tag, Patch(tag).value - 1))
  {
    DecrementGoesDown(tag);
  }

  lemma NextGreatest(registry: Registry, tag: string, q: int)
    requires Canonical(tag) && Patch(tag).value > 0 && registry(tag) == Missing
    requires Canonical(WithPatch(tag, Patch(tag).value - 1)) && IsGreatest(registry, WithPatch(tag, Patch(tag).value - 1), q)
    ensures IsGreatest(registry, tag, q) && WithPatch(WithPatch(tag, Patch(tag).value - 1), q) == WithPatch(tag, q)
  {
    NextTag(tag);
    CanonicalIsItself(tag);
  }

  // ---------- all cycles ----------

  datatype KubernetesVersion = KubernetesVersion(cycle: string, latest: string)

  function Outcomes(registry: Registry, versions: seq<KubernetesVersion>): (r: seq<Outcome>)
    ensures |r| == |versions| && forall k :: 0 <= k < |r| ==> r[k] == Search(registry, versions[k].latest)
  {
    seq(|versions|, k requires 0 <= k < |versions| => Search(registry, versions[k].latest))
  }

  /** The images found up to the first outcome that stops, and why it stopped. */
  function Collected(outcomes: seq<Outcome>): (seq<string>, Option<Error>) {
    if outcomes == [] then ([], None)
    else
      var (images, error) := Collected(outcomes[..|outcomes| - 1]);
      if error.Some? then (images, error)
      else
        match outcomes[|outcomes| - 1]
        case Found(tag) => (images + ["v" + tag], None)
        case NotFound => (images, None)
        case Stopped(e) => (images, Some(e))
  }

  method FindKindImage(registry: Registry, latest: string) returns (r: Outcome)
    ensures r == Search(registry, latest)
  {
    var tag := latest;
    while true
      invariant Search(registry, tag) == Search(registry, latest)
      decreases Below(tag)
    {
      var exists_ := registry(tag);
      if exists_ == Failed {
        return Stopped(LookupFailed);
      }
      if exists_ == Exists {
        return Found(tag);
      }
      var next := DecrementPatchVersion(tag);
      if next.Err? {
        if Contains(next.error.Text(), BELOW_ZERO) {
          return NotFound;
        }
        return Stopped(next.error);
      }
      DecrementGoesDown(tag);
      tag := next.value;
    }
  }

  lemma {:induction false} StoppedStays(outcomes: seq<Outcome>, n: nat)
    requires n <= |outcomes| && Collected(outcomes[..n]).1.Some?
    ensures Collected(outcomes) == Collected(outcomes[..n])
  {
    if n < |outcomes| {
      var m := |outcomes| - 1;
      assert outcomes[..m][..n] == outcomes[..n];
      StoppedStays(outcomes[..m], n);
    } else {
      assert outcomes[..n] == outcomes;
    }
  }

  method GetLatestSupportedKindImages(registry: Registry, versions: seq<KubernetesVersion>)
    returns (images: seq<string>, error: Option<Error>)
    ensures (images, error) == Collected(Outcomes(registry, versions))
  {
    images := [];
    ghost var outcomes := Outcomes(registry, versions);
    for i := 0 to |versions|
      invariant (images, None) == Collected(outcomes[..i])
    {
      var outcome := FindKindImage(registry, versions[i].latest);
      assert outcomes[..i + 1][..i] == outcomes[..i];
      match outcome {
        case Found(tag) =>
          images := images + ["v" + tag];
        case NotFound =>
        case Stopped(e) =>
          StoppedStays(outcomes, i + 1);
          return images, Some(e);
      }
    }
    assert outcomes[..|versions|] == outcomes;
    error := None;
  }

  /** The image of a cycle, said without the search; there is none to say where the lookup fails. */
  ghost predicate IsImageOf(registry: Registry, version: KubernetesVersion, image: Option<string>)
    requires Canonical(version.latest)
  {
    if AllMissing(registry, version.latest) then image == None
    else exists q :: IsGreatest(registry, version.latest, q) && registry(WithPatch(version.latest, q)) == Exists
                     && image == Some("v" + WithPatch(version.latest, q))
  }

  /** The lookup fails at the greatest patch that is not missing. */
  ghost predicate FailsFor(registry: Registry, version: KubernetesVersion)
    requires Canonical(version.latest)
  {
    exists q :: IsGreatest(registry, version.latest, q) && registry(WithPatch(version.latest, q)) == Failed
  }

  function Present(images: seq<Option<string>>): seq<string> {
    if images == [] then []
    else Present(images[..|images| - 1]) + if images[|images| - 1].Some? then [images[|images| - 1].value] else []
  }

  predicate Shows(outcome: Outcome, image: Option<string>) {
    match outcome
    case Found(tag) => image == Some("v" + tag)
    case NotFound => image == None
    case Stopped(_) => false
  }

  lemma OutcomeShows(registry: Registry, version: KubernetesVersion, image: Option<string>)
    requires Canonical(version.latest) && IsImageOf(registry, version, image)
    ensures Shows(Search(registry, version.latest), image)
  {
    var q := SearchFindsGreatest(registry, version.latest);
    if q < 0 {
      assert AllMissing(registry, version.latest);
    } else {
      var g :| IsGreatest(registry, version.latest, g) && registry(WithPatch(version.latest, g)) == Exists
               && image == Some("v" + WithPatch(version.latest, g));
      assert q == g;
    }
  }

  /** There is at most one greatest patch, and the search ends there. */
  lemma SearchEndsAt(registry: Registry, tag: string, q: int)
    requires Canonical(tag) && IsGreatest(registry, tag, q)
    ensures Search(registry, tag) == if registry(WithPatch(tag, q)) == Exists then Found(WithPatch(tag, q)) else Stopped(LookupFailed)
  {
    var g := SearchFindsGreatest(registry, tag);
    assert g == q;
  }

  /** From a version as it is written, the search ends at the greatest patch at or below it that exists. */
  lemma SearchExactly(registry: Registry, major: string, minor: string, patch: int, q: int)
    requires '.' !in major && '.' !in minor && 0 <= q <= patch <= MAX_INT
    requires registry(Written(major, minor, q)) == Exists
    requires forall r :: q < r <= patch ==> registry(Written(major, minor, r)) == Missing
    ensures Search(registry, Written(major, minor, patch)) == Found(Written(major, minor, q))
  {
    var tag := Written(major, minor, patch);
    WrittenExactly(major, minor, patch, q);
    forall r: int ensures WithPatch(tag, r) == Written(major, minor, r) {
      WrittenExactly(major, minor, patch, r);
    }
    SearchEndsAt(registry, tag, q);
  }

  lemma AllShow(registry: Registry, versions: seq<KubernetesVersion>, images: seq<Option<string>>)
    requires |images| <= |versions|
    requires forall k :: 0 <= k < |images| ==> Canonical(versions[k].latest) && IsImageOf(registry, versions[k], images[k])
    ensures forall k :: 0 <= k < |images| ==> Shows(Outcomes(registry, versions)[k], images[k])
  {
    forall k | 0 <= k < |images| ensures Shows(Outcomes(registry, versions)[k], images[k]) {
      OutcomeShows(registry, versions[k], images[k]);
    }
  }

  /**
   With canonical versions the result is, in cycle order, the greatest existing patch at or below
   the latest of each cycle, and nothing for a cycle with none.
   */
  lemma ImagesExactly(registry: Registry, versions: seq<KubernetesVersion>, images: seq<Option<string>>)
    requires |images| == |versions|
    requires forall k :: 0 <= k < |versions| ==> Canonical(versions[k].latest) && IsImageOf(registry, versions[k], images[k])
    ensures Collected(Outcomes(registry, versions)) == (Present(images), None)
  {
    AllShow(registry, versions, images);
    CollectedPresent(Outcomes(registry, versions), images);
  }

  /** At the first cycle whose lookup fails it ends with that error and the images so far, whatever follows. */
  lemma ImagesUntilFailure(registry: Registry, versions: seq<KubernetesVersion>, images: seq<Option<string>>)
    requires |images| < |versions|
    requires forall k :: 0 <= k < |images| ==> Canonical(versions[k].latest) && IsImageOf(registry, versions[k], images[k])
    requires Canonical(versions[|images|].latest) && FailsFor(registry, versions[|images|])
    ensures Collected(Outcomes(registry, versions)) == (Present(images), Some(LookupFailed))
  {
    AllShow(registry, versions, images);
    OutcomeFails(registry, versions[|images|]);
    CollectedUntil(Outcomes(registry, versions), images, LookupFailed);
  }

  lemma CollectedUntil(outcomes: seq<Outcome>, images: seq<Option<string>>, error: Error)
    requires |images| < |outcomes| && outcomes[|images|] == Stopped(error)
    requires forall k :: 0 <= k < |images| ==> Shows(outcomes[k], images[k])
    ensures Collected(outcomes) == (Present(images), Some(error))
  {
    CollectedPresent(outcomes[..|images|], images);
    CollectedStops(outcomes, |images|, error);
  }

  lemma OutcomeFails(registry: Registry, version: KubernetesVersion)
    requires Canonical(version.latest) && FailsFor(registry, version)
    ensures Search(registry, version.latest) == Stopped(LookupFailed)
  {
    var q := SearchFindsGreatest(registry, version.latest);
    var g :| IsGreatest(registry, version.latest, g) && registry(WithPatch(version.latest, g)) == Failed;
    assert q == g;
  }

  lemma CollectedStops(outcomes: seq<Outcome>, n: nat, error: Error)
    requires n < |outcomes| && outcomes[n] == Stopped(error) && Collected(outcomes[..n]).1 == None
    ensures Collected(outcomes) == (Collected(outcomes[..n]).0, Some(error))
  {
    assert outcomes[..n + 1][..n] == outcomes[..n];
    StoppedStays(outcomes, n + 1);
  }

  lemma {:induction false} CollectedPresent(outcomes: seq<Outcome>, images: seq<Option<string>>)
    requires |images| == |outcomes|
    requires forall k :: 0 <= k < |outcomes| ==>
               Shows(outcomes[k], images[k])
    ensures Collected(outcomes) == (Present(images), None)
  {
    if outcomes != [] {
      var n := |outcomes| - 1;
      CollectedPresent(outcomes[..n], images[..n]);
      assert Shows(outcomes[n], images[n]);
      var before := Present(images[..n]);
      assert before + [] == before;
    }
  }

  // ---------- sorting ----------

  /** An image tag as the search produces it. */
  type Tag = s: string | s != "" && s[0] == 'v' witness "v"

  function TagParts(tag: Tag): seq<string> {
    Dotted(tag[1..])
  }

  /** Descending, part by part as strings; of two tags that agree, the longer one first. */
  predicate TagLess(a: Tag, b: Tag) {
    LexLess(StringLess, TagParts(b), TagParts(a))
  }

  /** The comparison loop of sortVersions. */
  method CompareTags(a: Tag, b: Tag) returns (less: bool)
    ensures less <==> TagLess(a, b)
  {
    var vi, vj := Dotted(a[1..]), Dotted(b[1..]);
    var k := 0;
    while k < |vi| && k < |vj|
      invariant k <= |vi| && k <= |vj|
      invariant TagLess(a, b) <==> LexLess(StringLess, vj[k..], vi[k..])
    {
      if vi[k] != vj[k] {
        return StringLess(vj[k], vi[k]);
      }
      assert vi[k..][1..] == vi[k + 1..] && vj[k..][1..] == vj[k + 1..];
      k := k + 1;
    }
    return |vi| > |vj|;
  }

  /** Tags compare equal only when they are equal. */
  lemma TagOrderIsTotal()
    ensures StrictTotal(TagLess)
  {
    StringLessIsTotal();
    forall x: Tag { LexIrreflexive(StringLess, TagParts(x)); }
    forall x: Tag, y: Tag, z: Tag | TagLess(x, y) && TagLess(y, z) ensures TagLess(x, z) {
      LexTransitive(StringLess, TagParts(z), TagParts(y), TagParts(x));
    }
    forall x: Tag, y: Tag ensures x == y || TagLess(x, y) || TagLess(y, x) {
      LexConnected(StringLess, TagParts(x), TagParts(y));
      if TagParts(x) == TagParts(y) {
        JoinSplit(x[1..], '.');
        JoinSplit(y[1..], '.');
        assert x == [x[0]] + x[1..] && y == [y[0]] + y[1..];
      }
    }
  }

  /** Of two tags of which one goes on where the other ends, the longer comes first; otherwise the first parts that differ decide. */
  lemma TagOrderExactly(a: Tag, b: Tag)
    ensures var x, y := TagParts(a), TagParts(b);
            TagLess(a, b) <==>
              (|y| < |x| && y == x[..|y|]) || exists k :: DifferAt(y, x, k) && StringLess(y[k], x[k])
  {
    LexExactly(StringLess, TagParts(b), TagParts(a));
  }

  /** What is left in the slice: the same tags, none before a tag that is less. */
  lemma SortedTags(tags: seq<Tag>)
    ensures var r := StableSort(tags, TagLess);
            |r| == |tags| && multiset(r) == multiset(tags) && SortedBy(r, TagLess)
  {
    TagOrderIsTotal();
    TotalIsWeak(TagLess);
    StableSortSorts(tags, TagLess);
    assert |multiset(StableSort(tags, TagLess))| == |StableSort(tags, TagLess)|;
  }

  /** The slice ends up with the tags it had, sorted; `SortingIsCanonical` says that this is one sequence only. */
  method SortVersions(versions: array<Tag>)
    modifies versions
    ensures multiset(versions[..]) == multiset(old(versions[..])) && SortedBy(versions[..], TagLess)
  {
    var sorted := StableSort(versions[..], TagLess);
    SortedTags(versions[..]);
    forall i | 0 <= i < versions.Length {
      versions[i] := sorted[i];
    }
    assert versions[..] == sorted;
  }

  /** Whatever the order they come in, the same tags end up in the same sequence. */
  lemma SortingIsCanonical(a: seq<Tag>, b: seq<Tag>)
    requires multiset(a) == multiset(b) && SortedBy(a, TagLess) && SortedBy(b, TagLess)
    ensures a == b
  {
    TagOrderIsTotal();
    SortedIsUnique(a, b, TagLess);
  }

  // ---------- when string order is numeric order ----------

  function Pow10(n: nat): nat {
    if n == 0 then 1 else 10 * Pow10(n - 1)
  }

  function Digit(c: char): nat
    requires IsDigit(c)
  {
    (c - '0') as nat
  }

  lemma {:induction false} NumberFromFront(s: string)
    requires AllDigits(s) && s != ""
    ensures Number(s) == Digit(s[0]) * Pow10(|s| - 1) + Number(s[1..])
  {
    var n := |s| - 1;
    if n > 0 {
      var front, tail := s[..n], s[1..];
      NumberFromFront(front);
      assert front[0] == s[0] && front[1..] == tail[..n - 1] && tail[n - 1] == s[n];
      assert Number(tail) == Number(front[1..]) * 10 + Digit(s[n]);
      TimesTen(Digit(s[0]), Pow10(n - 1), Number(front[1..]));
    } else {
      assert s[..n] == "" && s[1..] == "";
    }
  }

  lemma TimesTen(d: nat, p: nat, rest: nat)
    ensures (d * p + rest) * 10 == d * (10 * p) + rest * 10
  {
  }

  lemma {:induction false} NumberBound(s: string)
    requires AllDigits(s)
    ensures Number(s) < Pow10(|s|)
  {
    if s != "" {
      NumberBound(s[..|s| - 1]);
    }
  }

  /** For decimals of equal width, string order is numeric order. */
  lemma {:induction false} EqualWidthIsNumeric(x: string, y: string)
    requires AllDigits(x) && AllDigits(y) && |x| == |y|
    ensures StringLess(x, y) <==> Number(x) < Number(y)
    ensures x == y <==> Number(x) == Number(y)
  {
    if x != "" {
      NumberFromFront(x);
      NumberFromFront(y);
      EqualWidthIsNumeric(x[1..], y[1..]);
      var p := Pow10(|x| - 1);
      NumberBound(x[1..]);
      NumberBound(y[1..]);
      LeadingDigitDecides(Digit(x[0]), Digit(y[0]), Number(x[1..]), Number(y[1..]), p);
      assert x == [x[0]] + x[1..] && y == [y[0]] + y[1..];
    }
  }

  lemma LeadingDigitDecides(a: nat, b: nat, s: nat, t: nat, p: nat)
    requires s < p && t < p
    ensures a * p + s < b * p + t <==> a < b || (a == b && s < t)
    ensures a * p + s == b * p + t <==> a == b && s == t
  {
    if a < b {
      assert b * p >= (a + 1) * p == a * p + p;
    } else if b < a {
      assert a * p >= (b + 1) * p == b * p + p;
    }
  }

  lemma {:induction false} PrefixDecides(x: string, y: string)
    requires |x| < |y|
    ensures StringLess(x, y) <==> !StringLess(y[..|x|], x)
  {
    if x != "" {
      PrefixDecides(x[1..], y[1..]);
      assert y[..|x|][1..] == y[1..][..|x| - 1];
    }
  }

  /** A decimal without leading zeros. */
  predicate Plain(s: string) {
    s != "" && AllDigits(s) && (s[0] == '0' ==> |s| == 1)
  }

  /**
   Exactly when string order puts the smaller of two plain decimals first: their widths agree,
   or the shorter one is at most the same-width prefix of the longer one.
   */
  lemma StringOrderIsNumericExactly(x: string, y: string)
    requires Plain(x) && Plain(y) && Number(x) < Number(y)
    ensures |x| <= |y|
    ensures StringLess(x, y) <==> |x| == |y| || !StringLess(y[..|x|], x)
  {
    if |y| < |x| {
      WiderIsLarger(y, x);
    }
    if |x| == |y| {
      EqualWidthIsNumeric(x, y);
    } else {
      PrefixDecides(x, y);
    }
  }

  lemma WiderIsLarger(x: string, y: string)
    requires Plain(x) && Plain(y) && |x| < |y|
    ensures Number(x) < Number(y)
  {
    NumberBound(x);
    NumberFromFront(y);
    PowMonotone(|x|, |y| - 1);
    AtLeastOnce(Digit(y[0]), Pow10(|y| - 1));
  }

  lemma AtLeastOnce(d: nat, p: nat)
    requires d >= 1
    ensures d * p >= p
  {
  }

  lemma {:induction false} PowMonotone(m: nat, n: nat)
    requires m <= n
    ensures Pow10(m) <= Pow10(n)
  {
    if m < n {
      PowMonotone(m, n - 1);
    }
  }

  predicate NatLess(a: nat, b: nat) {
    a < b
  }

  predicate Decimals(parts: seq<string>) {
    forall k :: 0 <= k < |parts| ==> AllDigits(parts[k])
  }

  function Numbers(parts: seq<string>): seq<nat>
    requires Decimals(parts)
  {
    seq(|parts|, k requires 0 <= k < |parts| => Number(parts[k]))
  }

  predicate SameWidths(a: seq<string>, b: seq<string>) {
    forall k :: 0 <= k < |a| && k < |b| ==> |a[k]| == |b[k]|
  }

  lemma {:induction false} PartsAreNumeric(a: seq<string>, b: seq<string>)
    requires Decimals(a) && Decimals(b) && SameWidths(a, b)
    ensures LexLess(StringLess, a, b) <==> LexLess(NatLess, Numbers(a), Numbers(b))
  {
    if a != [] && b != [] {
      EqualWidthIsNumeric(a[0], b[0]);
      assert forall k :: 0 <= k < |a[1..]| && k < |b[1..]| ==> |a[1..][k]| == |a[k + 1]| && |b[1..][k]| == |b[k + 1]|;
      PartsAreNumeric(a[1..], b[1..]);
      assert Numbers(a)[1..] == Numbers(a[1..]) && Numbers(b)[1..] == Numbers(b[1..]);
    }
  }

  /** For tags whose parts are decimals of equal widths the order is numeric, descending. */
  lemma TagOrderIsNumeric(a: Tag, b: Tag)
    requires Decimals(TagParts(a)) && Decimals(TagParts(b)) && SameWidths(TagParts(b), TagParts(a))
    ensures TagLess(a, b) <==> LexLess(NatLess, Numbers(TagParts(b)), Numbers(TagParts(a)))
  {
    PartsAreNumeric(TagParts(b), TagParts(a));
  }

  /** The place of the first difference, or the length of the shorter list. */
  function FirstDifference(a: seq<string>, b: seq<string>): (d: nat)
    ensures d <= |a| && d <= |b| && (d < |a| && d < |b| ==> a[d] != b[d])
    ensures forall k :: 0 <= k < d ==> a[k] == b[k]
  {
    if a == [] || b == [] || a[0] != b[0] then 0 else 1 + FirstDifference(a[1..], b[1..])
  }

  /** Two different decimals of equal width, or of which the shorter is at most the same-width prefix of the longer. */
  predicate WidthsAgree(x: string, y: string) {
    || |x| == |y|
    || (|x| < |y| && !StringLess(y[..|x|], x))
    || (|y| < |x| && !StringLess(x[..|y|], y))
  }

  predicate PlainParts(parts: seq<string>) {
    forall k :: 0 <= k < |parts| ==> Plain(parts[k])
  }

  /** Different plain decimals are different numbers, and string order is numeric exactly when the widths agree. */
  lemma WidthsAgreeExactly(x: string, y: string)
    requires Plain(x) && Plain(y) && x != y
    ensures Number(x) != Number(y)
    ensures (StringLess(x, y) <==> Number(x) < Number(y)) <==> WidthsAgree(x, y)
  {
    if |x| == |y| {
      EqualWidthIsNumeric(x, y);
    } else if |x| < |y| {
      WiderIsLarger(x, y);
      StringOrderIsNumericExactly(x, y);
    } else {
      WiderIsLarger(y, x);
      StringOrderIsNumericExactly(y, x);
      StringLessIsTotal();
      assert StringLess(x, y) || StringLess(y, x);
    }
  }

  lemma {:induction false} PartsAreNumericExactly(a: seq<string>, b: seq<string>)
    requires PlainParts(a) && PlainParts(b)
    ensures var d := FirstDifference(a, b);
            (LexLess(StringLess, a, b) <==> LexLess(NatLess, Numbers(a), Numbers(b)))
            <==> d == |a| || d == |b| || WidthsAgree(a[d], b[d])
  {
    if a != [] && b != [] {
      if a[0] == b[0] {
        PartsAreNumericExactly(a[1..], b[1..]);
        assert Numbers(a)[1..] == Numbers(a[1..]) && Numbers(b)[1..] == Numbers(b[1..]);
      } else {
        WidthsAgreeExactly(a[0], b[0]);
      }
    }
  }

  /**
   Exactly when the order of two tags is numeric, descending: their part lists agree up to the end
   of one, or the widths of the first parts that differ agree.
   */
  lemma TagOrderIsNumericExactly(a: Tag, b: Tag)
    requires PlainParts(TagParts(a)) && PlainParts(TagParts(b))
    ensures var d := FirstDifference(TagParts(b), TagParts(a));
            (TagLess(a, b) <==> LexLess(NatLess, Numbers(TagParts(b)), Numbers(TagParts(a))))
            <==> d == |TagParts(b)| || d == |TagParts(a)| || WidthsAgree(TagParts(b)[d], TagParts(a)[d])
  {
    PartsAreNumericExactly(TagParts(b), TagParts(a));
  }

  /** Widths matter: the order puts 1.9.0 before 1.10.0, so it is not numerically descending. */
  lemma WidthsMatter()
    ensures var a: Tag, b: Tag := "v1.9.0", "v1.10.0";
            TagLess(a, b) && !TagLess(b, a)
            && TagParts(a) == ["1", "9", "0"] && TagParts(b) == ["1", "10", "0"]
  {
    var a: Tag, b: Tag := "v1.9.0", "v1.10.0";
    ThreeParts(a, "1", "9", "0");
    ThreeParts(b, "1", "10", "0");
    TenBeforeNine();
    FirstPartsEqual(["1", "10", "0"], ["1", "9", "0"]);
    FirstPartsEqual(["1", "9", "0"], ["1", "10", "0"]);
  }

  lemma TenBeforeNine()
    ensures StringLess("10", "9") && !StringLess("9", "10")
  {
  }

  lemma FirstPartsEqual(a: seq<string>, b: seq<string>)
    requires |a| > 1 && |b| > 1 && a[0] == b[0] && a[1] != b[1]
    ensures LexLess(StringLess, a, b) == StringLess(a[1], b[1])
  {
  }

  lemma ThreeParts(tag: Tag, x: string, y: string, z: string)
    requires '.' !in x && '.' !in y && '.' !in z
    requires tag[1..] == x + ['.'] + (y + ['.'] + z)
    ensures TagParts(tag) == [x, y, z]
  {
    SplitFirst(x, '.', y + ['.'] + z);
    SplitFirst(y, '.', z);
    SplitFirst(z, '.', "");
  }
}
