/**
 What an assertion document accepts, and why rewriting it only makes it accept more.
 The matcher semantics is an assumption about pmetricassert, stated here: an exact entry
 pins the value, `/exists` asks for presence, `/regex` for presence and a match, the base
 names of an attribute map are exactly the attribute names, and list items match in some
 order. Regular expressions are any relation between a pattern and a value.
 */
module Acceptance {
  import opened Pdata
  import opened Marking
  import opened Text

  type Regex = (string, Value) -> bool

  predicate EntryHolds(key: string, want: Value, actual: Attributes, rx: Regex) {
    if HasSuffix(key, EXISTS) then Base(key) in actual
    else if HasSuffix(key, REGEX) then Base(key) in actual && want.Str? && rx(want.text, actual[Base(key)])
    else key in actual && actual[key] == want
  }

  predicate AcceptsMap(entries: Attributes, actual: Attributes, rx: Regex) {
    BaseNames(entries) == actual.Keys && forall key :: key in entries ==> EntryHolds(key, entries[key], actual, rx)
  }

  /** Every pattern matches the value it replaces. */
  predicate PatternsFit(m: Attributes, rule: Rule, rx: Regex) {
    forall key :: key in m && rule(key).AsRegex? ==> rx(rule(key).pattern, m[key])
  }

  /** No attribute name looks like a matcher key. */
  predicate Plain(m: Attributes) {
    forall key :: key in m ==> !Suffixed(key)
  }

  // ---------- one attribute map ----------

  lemma MarkedEntryHolds(m: Attributes, actual: Attributes, rule: Rule, rx: Regex, t: string)
    requires KeepsMatchers(rule) && AcceptsMap(m, actual, rx) && PatternsFit(m, rule, rx)
    requires t in Marked(m, rule)
    ensures EntryHolds(t, Marked(m, rule)[t], actual, rx)
  {
    MarkedEntry(m, rule, t);
    if Moved(m, rule, t) {
      var key := Base(t);
      SuffixBase(key, rule(key));
      assert EntryHolds(key, m[key], actual, rx);
    } else {
      assert EntryHolds(t, m[t], actual, rx);
    }
  }

  /** Marking weakens a map of any entries whose patterns fit. */
  lemma MarkingWeakens(m: Attributes, actual: Attributes, rule: Rule, rx: Regex)
    requires KeepsMatchers(rule) && AcceptsMap(m, actual, rx) && PatternsFit(m, rule, rx)
    ensures AcceptsMap(Marked(m, rule), actual, rx)
  {
    MarkingKeepsBaseNames(m, rule);
    forall t | t in Marked(m, rule) ensures EntryHolds(t, Marked(m, rule)[t], actual, rx) {
      MarkedEntryHolds(m, actual, rule, rx, t);
    }
  }

  /** What a marked map still asks of an attribute. */
  predicate StillAsked(want: Value, mark: Mark, got: Value, rx: Regex) {
    match mark
    case Keep => got == want
    case AsExists => true
    case AsRegex(pattern) => rx(pattern, got)
  }

  /** What a marked map still asks about the entry at `key`: a matcher entry stays, unless marking overwrites it. */
  predicate AskedAt(m: Attributes, rule: Rule, key: string, actual: Attributes, rx: Regex)
    requires key in m
  {
    if Suffixed(key) then Moved(m, rule, key) || EntryHolds(key, m[key], actual, rx)
    else key in actual && StillAsked(m[key], rule(key), actual[key], rx)
  }

  lemma MarkedAsks(m: Attributes, actual: Attributes, rule: Rule, rx: Regex, key: string)
    requires KeepsMatchers(rule) && AcceptsMap(Marked(m, rule), actual, rx) && key in m
    ensures AskedAt(m, rule, key, actual, rx)
  {
    var r := Marked(m, rule);
    if Suffixed(key) {
      MarkedEntry(m, rule, key);
      assert key in r ==> EntryHolds(key, r[key], actual, rx);
    } else {
      MarkedKey(m, rule, key);
      var t := Target(key, rule(key));
      assert EntryHolds(t, r[t], actual, rx);
      if rule(key) != Keep {
        SuffixBase(key, rule(key));
      }
    }
  }

  lemma AskedHolds(m: Attributes, actual: Attributes, rule: Rule, rx: Regex, t: string)
    requires KeepsMatchers(rule) && t in Marked(m, rule)
    requires forall key :: key in m ==> AskedAt(m, rule, key, actual, rx)
    ensures EntryHolds(t, Marked(m, rule)[t], actual, rx)
  {
    MarkedEntry(m, rule, t);
    if Moved(m, rule, t) {
      SuffixBase(Base(t), rule(Base(t)));
      assert AskedAt(m, rule, Base(t), actual, rx);
    } else {
      assert AskedAt(m, rule, t, actual, rx);
    }
  }

  /**
   Marking weakens only where asked: a marked map accepts exactly the maps with the same names
   whose unmarked attributes are equal and whose patterned attributes match.
   */
  lemma MarkedAcceptsExactly(m: Attributes, actual: Attributes, rule: Rule, rx: Regex)
    requires KeepsMatchers(rule)
    ensures AcceptsMap(Marked(m, rule), actual, rx)
       <==> BaseNames(m) == actual.Keys && forall key :: key in m ==> AskedAt(m, rule, key, actual, rx)
  {
    MarkingKeepsBaseNames(m, rule);
    if AcceptsMap(Marked(m, rule), actual, rx) {
      forall key | key in m ensures AskedAt(m, rule, key, actual, rx) {
        MarkedAsks(m, actual, rule, rx, key);
      }
    }
    if BaseNames(m) == actual.Keys && forall key :: key in m ==> AskedAt(m, rule, key, actual, rx) {
      forall t | t in Marked(m, rule) ensures EntryHolds(t, Marked(m, rule)[t], actual, rx) {
        AskedHolds(m, actual, rule, rx, t);
      }
    }
  }

  lemma PlainBaseNames(m: Attributes)
    requires Plain(m)
    ensures BaseNames(m) == m.Keys
  {
    forall key | key in m ensures Base(key) == key && key in BaseNames(m) {
      assert !Suffixed(key);
      assert key == Base(key);
    }
  }

  /** For a map without matcher entries, that is: the same names, equal unmarked values, matching patterned ones. */
  lemma PlainMarkedAcceptsExactly(m: Attributes, actual: Attributes, rule: Rule, rx: Regex)
    requires KeepsMatchers(rule) && Plain(m)
    ensures AcceptsMap(Marked(m, rule), actual, rx)
       <==> m.Keys == actual.Keys && forall key :: key in m ==> StillAsked(m[key], rule(key), actual[key], rx)
  {
    MarkedAcceptsExactly(m, actual, rule, rx);
    PlainBaseNames(m);
    if m.Keys == actual.Keys {
      forall key | key in m
        ensures AskedAt(m, rule, key, actual, rx) <==> StillAsked(m[key], rule(key), actual[key], rx) {}
    }
  }

  ghost predicate Weakens(m: Attributes, r: Attributes, rx: Regex) {
    forall actual :: AcceptsMap(m, actual, rx) ==> AcceptsMap(r, actual, rx)
  }

  ghost predicate AcceptsNothing(m: Attributes, rx: Regex) {
    forall actual :: !AcceptsMap(m, actual, rx)
  }

  /**
   Exactly when: marking weakens a map if and only if every pattern matches the value it replaces,
   or the map accepted nothing to begin with.
   */
  lemma MarkingWeakensExactly(m: Attributes, rule: Rule, rx: Regex)
    requires KeepsMatchers(rule)
    ensures Weakens(m, Marked(m, rule), rx) <==> PatternsFit(m, rule, rx) || AcceptsNothing(m, rx)
  {
    if PatternsFit(m, rule, rx) {
      forall actual | AcceptsMap(m, actual, rx) ensures AcceptsMap(Marked(m, rule), actual, rx) {
        MarkingWeakens(m, actual, rule, rx);
      }
    }
    if Weakens(m, Marked(m, rule), rx) && !AcceptsNothing(m, rx) {
      var actual :| AcceptsMap(m, actual, rx);
      forall key | key in m && rule(key).AsRegex? ensures rx(rule(key).pattern, m[key]) {
        MarkedAsks(m, actual, rule, rx, key);
        assert EntryHolds(key, m[key], actual, rx);
      }
    }
  }

  lemma PlainAcceptsItself(m: Attributes, rx: Regex)
    requires Plain(m)
    ensures AcceptsMap(m, m, rx)
  {
    PlainBaseNames(m);
    forall key | key in m ensures EntryHolds(key, m[key], m, rx) {
      assert !Suffixed(key);
    }
  }

  // ---------- names that look like matcher keys ----------

  /** Every suffixed name of `b` is what a suffixed name of `a` speaks about. */
  ghost predicate Covered(a: set<string>, b: set<string>) {
    forall k :: CoveredName(a, b, k)
  }

  ghost predicate CoveredName(a: set<string>, b: set<string>, k: string) {
    k in b && Suffixed(k) ==> exists longer :: longer in a && Suffixed(longer) && Base(longer) == k
  }

  lemma CoveredByMore(a: set<string>, b: set<string>, moreA: set<string>, moreB: set<string>, k: string)
    requires Covered(a, b) && k in b && a <= moreA
    ensures CoveredName(moreA, moreB, k)
  {
    assert CoveredName(a, b, k);
  }

  lemma AcceptedIsCovered(m: Attributes, actual: Attributes)
    requires forall k :: k in actual && Suffixed(k) ==> k in BaseNames(m)
    ensures Covered(m.Keys, actual.Keys)
  {
    forall k ensures CoveredName(m.Keys, actual.Keys, k) {
      if k in actual.Keys && Suffixed(k) {
        assert k in BaseNames(m);
        var longer :| longer in m && k == Base(longer);
      }
    }
  }

  lemma {:induction false} LongestName(names: set<string>) returns (n: nat)
    ensures forall k :: k in names ==> |k| <= n
  {
    if names == {} {
      n := 0;
    } else {
      var k :| k in names;
      n := LongestName(names - {k});
      n := if |k| > n then |k| else n;
    }
  }

  /** Names that cover themselves would have to get longer without end. */
  lemma {:induction false} SuffixesEnd(names: set<string>, k: string, longest: nat)
    requires Covered(names, names) && k in names && Suffixed(k)
    requires forall x :: x in names ==> |x| <= longest
    ensures false
    decreases longest - |k|
  {
    assert CoveredName(names, names, k);
    var longer :| longer in names && Suffixed(longer) && Base(longer) == k;
    SuffixesEnd(names, longer, longest);
  }

  lemma CoveredArePlain(names: set<string>)
    requires Covered(names, names)
    ensures forall k :: k in names ==> !Suffixed(k)
  {
    var longest := LongestName(names);
    forall k | k in names ensures !Suffixed(k) {
      if Suffixed(k) {
        SuffixesEnd(names, k, longest);
      }
    }
  }

  /** A map of exact entries accepts the attributes it was written from if and only if no name looks like a matcher key. */
  lemma AcceptsItselfExactly(m: Attributes, rx: Regex)
    ensures AcceptsMap(m, m, rx) <==> Plain(m)
  {
    if Plain(m) {
      PlainAcceptsItself(m, rx);
    }
    if AcceptsMap(m, m, rx) {
      AcceptedIsCovered(m, m);
      CoveredArePlain(m.Keys);
    }
  }
}
