/**
 Turning exact attribute entries into `/regex` and `/exists` matchers.
 Models markAttrs and markNonIdentityAttrs of metricassert.go: the in-place loops over
 one attribute map, and the closed form they compute.
 */
module Marking {
  import opened Pdata
  import opened Text

  const EXISTS := "/exists"
  const REGEX := "/regex"

  predicate Suffixed(key: string) {
    HasSuffix(key, EXISTS) || HasSuffix(key, REGEX)
  }

  /** The attribute a key speaks about. */
  function Base(key: string): string {
    if HasSuffix(key, EXISTS) then key[..|key| - |EXISTS|]
    else if HasSuffix(key, REGEX) then key[..|key| - |REGEX|]
    else key
  }

  function BaseNames(m: Attributes): set<string> {
    set key | key in m :: Base(key)
  }

  datatype Mark = Keep | AsExists | AsRegex(pattern: string)

  type Rule = string -> Mark

  /** Marked entries are never marked again. */
  ghost predicate KeepsMatchers(rule: Rule) {
    forall key :: Suffixed(key) ==> rule(key) == Keep
  }

  /** The rule of markAttrs: a pattern beats volatility. */
  function FlexibleRule(volatile: set<string>, regex: map<string, string>): Rule {
    (key: string) =>
      if Suffixed(key) then Keep
      else if key in regex then AsRegex(regex[key])
      else if key in volatile then AsExists
      else Keep
  }

  /** The rule of markNonIdentityAttrs. */
  function NonIdentityRule(exact: set<string>): Rule {
    (key: string) => if Suffixed(key) || key in exact then Keep else AsExists
  }

  /** What the two passes over a datapoint amount to. */
  function DatapointRule(volatile: set<string>, regex: map<string, string>, exact: Option<set<string>>): Rule {
    (key: string) =>
      var mark := FlexibleRule(volatile, regex)(key);
      if mark == Keep && exact.Some? then NonIdentityRule(exact.value)(key) else mark
  }

  function Target(key: string, mark: Mark): string {
    match mark
    case Keep => key
    case AsExists => key + EXISTS
    case AsRegex(_) => key + REGEX
  }

  function NewValue(mark: Mark): Value {
    match mark
    case AsRegex(pattern) => Str(pattern)
    case _ => Bool(true)
  }

  /** The entry at `t` was put there by marking. */
  predicate Moved(m: Attributes, rule: Rule, t: string) {
    Base(t) in m && rule(Base(t)) != Keep && Target(Base(t), rule(Base(t))) == t
  }

  lemma LastOfSuffix(s: string, suffix: string)
    requires HasSuffix(s, suffix) && suffix != []
    ensures s[|s| - 1] == suffix[|suffix| - 1]
  {
    assert s[|s| - |suffix|..][|suffix| - 1] == s[|s| - 1];
  }

  lemma SuffixBase(key: string, mark: Mark)
    requires mark != Keep
    ensures Suffixed(Target(key, mark)) && Base(Target(key, mark)) == key
    ensures mark == AsExists <==> HasSuffix(Target(key, mark), EXISTS)
    ensures mark.AsRegex? <==> HasSuffix(Target(key, mark), REGEX)
  {
    var suffix := if mark == AsExists then EXISTS else REGEX;
    var t := Target(key, mark);
    assert t == key + suffix && t[|key|..] == suffix && t[..|key|] == key;
    LastOfSuffix(t, suffix);
    if HasSuffix(t, EXISTS) {
      LastOfSuffix(t, EXISTS);
    }
    if HasSuffix(t, REGEX) {
      LastOfSuffix(t, REGEX);
    }
  }

  /** The closed form: every key goes to its target, and a moved entry wins over one already there. */
  function Marked(m: Attributes, rule: Rule): Attributes {
    map t | t in (set key | key in m :: Target(key, rule(key))) ::
      if Moved(m, rule, t) then NewValue(rule(Base(t)))
      else if t in m then m[t] else Empty
  }

  /** What is in a marked map, key by key. */
  lemma MarkedEntry(m: Attributes, rule: Rule, t: string)
    requires KeepsMatchers(rule)
    ensures t in Marked(m, rule) <==> Moved(m, rule, t) || (t in m && rule(t) == Keep)
    ensures Moved(m, rule, t) ==> t in Marked(m, rule) && Marked(m, rule)[t] == NewValue(rule(Base(t)))
    ensures !Moved(m, rule, t) && t in m && rule(t) == Keep ==> Marked(m, rule)[t] == m[t]
  {
    if t in Marked(m, rule) {
      var key :| key in m && t == Target(key, rule(key));
      if rule(key) != Keep {
        SuffixBase(key, rule(key));
      }
    }
  }

  /** Where an entry goes. */
  lemma MarkedKey(m: Attributes, rule: Rule, key: string)
    requires KeepsMatchers(rule) && key in m && !Suffixed(key)
    ensures rule(key) == Keep ==> key in Marked(m, rule) && Marked(m, rule)[key] == m[key]
    ensures rule(key) != Keep ==>
              key !in Marked(m, rule) && Target(key, rule(key)) in Marked(m, rule)
              && Marked(m, rule)[Target(key, rule(key))] == NewValue(rule(key))
  {
    MarkedEntry(m, rule, key);
    assert !Moved(m, rule, key) by {
      if Moved(m, rule, key) {
        SuffixBase(Base(key), rule(Base(key)));
      }
    }
    if rule(key) != Keep {
      SuffixBase(key, rule(key));
      MarkedEntry(m, rule, Target(key, rule(key)));
    }
  }

  lemma RulesKeepMatchers(volatile: set<string>, regex: map<string, string>, exact: set<string>)
    ensures KeepsMatchers(FlexibleRule(volatile, regex)) && KeepsMatchers(NonIdentityRule(exact))
    ensures KeepsMatchers(DatapointRule(volatile, regex, None)) && KeepsMatchers(DatapointRule(volatile, regex, Some(exact)))
  {
  }

  /** Regex beats volatile, volatile beats non-identity, everything else is kept. */
  lemma MarkedByPriority(m: Attributes, volatile: set<string>, regex: map<string, string>, exact: Option<set<string>>, key: string)
    requires key in m && !Suffixed(key)
    ensures var r := Marked(m, DatapointRule(volatile, regex, exact));
            if key in regex then key !in r && key + REGEX in r && r[key + REGEX] == Str(regex[key])
            else if key in volatile || (exact.Some? && key !in exact.value) then
              key !in r && key + EXISTS in r && r[key + EXISTS] == Bool(true)
            else key in r && r[key] == m[key]
  {
    var rule := DatapointRule(volatile, regex, exact);
    RulesKeepMatchers(volatile, regex, if exact.Some? then exact.value else {});
    MarkedKey(m, rule, key);
  }

  /** Marking does not change which attributes a document names. */
  lemma MarkingKeepsBaseNames(m: Attributes, rule: Rule)
    requires KeepsMatchers(rule)
    ensures BaseNames(Marked(m, rule)) == BaseNames(m)
  {
    var r := Marked(m, rule);
    forall name | name in BaseNames(r) ensures name in BaseNames(m) {
      var t :| t in r && name == Base(t);
      MarkedEntry(m, rule, t);
      if Moved(m, rule, t) {
        assert rule(name) != Keep;
        assert Base(name) == name;
      }
    }
    forall name | name in BaseNames(m) ensures name in BaseNames(r) {
      var key :| key in m && name == Base(key);
      var t := Target(key, rule(key));
      assert t in r;
      if rule(key) != Keep {
        SuffixBase(key, rule(key));
        assert name == key;
      }
      assert Base(t) == name;
    }
  }

  /** Marking a marked map changes nothing. */
  lemma MarkingTwice(m: Attributes, rule: Rule)
    requires KeepsMatchers(rule)
    ensures Marked(Marked(m, rule), rule) == Marked(m, rule)
  {
    var once := Marked(m, rule);
    var twice := Marked(once, rule);
    forall t ensures (t in twice <==> t in once) && (t in once ==> twice[t] == once[t]) {
      MarkedEntry(m, rule, t);
      MarkedEntry(m, rule, Base(t));
      MarkedEntry(once, rule, t);
      if Moved(once, rule, t) {
        NothingLeftToMark(m, rule, Base(t));
      }
      if t in once {
        NothingLeftToMark(m, rule, t);
      }
    }
  }

  lemma NothingLeftToMark(m: Attributes, rule: Rule, key: string)
    requires KeepsMatchers(rule) && key in Marked(m, rule)
    ensures rule(key) == Keep
  {
    MarkedEntry(m, rule, key);
    if Moved(m, rule, key) {
      SuffixBase(Base(key), rule(Base(key)));
    }
  }

  /** The two passes over a datapoint are one pass with the combined rule. */
  lemma TwoPasses(m: Attributes, volatile: set<string>, regex: map<string, string>, exact: set<string>)
    ensures Marked(Marked(m, FlexibleRule(volatile, regex)), NonIdentityRule(exact))
         == Marked(m, DatapointRule(volatile, regex, Some(exact)))
  {
    var first, second := FlexibleRule(volatile, regex), NonIdentityRule(exact);
    var both := DatapointRule(volatile, regex, Some(exact));
    var once := Marked(m, first);
    var twice, direct := Marked(once, second), Marked(m, both);
    forall t ensures (t in twice <==> t in direct) && (t in twice ==> twice[t] == direct[t]) {
      MarkedEntry(m, first, t);
      MarkedEntry(m, first, Base(t));
      MarkedEntry(once, second, t);
      MarkedEntry(m, both, t);
      if second(t) == Keep && !Suffixed(t) { assert Base(t) == t; }
    }
  }

  /** Without a list of exact attributes there is one pass only. */
  lemma OnePass(m: Attributes, volatile: set<string>, regex: map<string, string>)
    ensures Marked(m, FlexibleRule(volatile, regex)) == Marked(m, DatapointRule(volatile, regex, None))
  {
    var a, b := FlexibleRule(volatile, regex), DatapointRule(volatile, regex, None);
    RulesKeepMatchers(volatile, regex, {});
    forall t ensures (t in Marked(m, a) <==> t in Marked(m, b)) && (t in Marked(m, a) ==> Marked(m, a)[t] == Marked(m, b)[t]) {
      MarkedEntry(m, a, t);
      MarkedEntry(m, b, t);
    }
  }

  // ---------- the loops ----------

  /** A mutable `map[string]any` node of a parsed document. */
  class StringMap {
    var entries: Attributes

    constructor (entries: Attributes)
      ensures this.entries == entries
    {
      this.entries := entries;
    }
  }

  /** `rule` on the keys already visited, and Keep on the others. */
  function Visited(rule: Rule, done: set<string>): Rule {
    (key: string) => if key in done then rule(key) else Keep
  }

  /** Visiting one more key moves that key only. */
  lemma VisitMoves(m: Attributes, rule: Rule, done: set<string>, key: string, t: string)
    requires key in m && key !in done
    ensures Moved(m, Visited(rule, done + {key}), t)
       <==> Moved(m, Visited(rule, done), t) || (rule(key) != Keep && t == Target(key, rule(key)))
  {
    if Base(t) == key {
      assert !Moved(m, Visited(rule, done), t);
    } else {
      assert Visited(rule, done + {key})(Base(t)) == Visited(rule, done)(Base(t));
      if rule(key) != Keep {
        SuffixBase(key, rule(key));
      }
    }
  }

  /** A key that is about to be marked is itself no moved entry. */
  lemma MarkableIsUnmoved(m: Attributes, rule: Rule, done: set<string>, key: string)
    requires KeepsMatchers(rule) && key !in done && rule(key) != Keep
    ensures !Moved(m, Visited(rule, done), key) && !Moved(m, Visited(rule, done), Target(key, rule(key)))
    ensures key != Target(key, rule(key))
  {
    SuffixBase(key, rule(key));
    if Moved(m, Visited(rule, done), key) {
      SuffixBase(Base(key), rule(Base(key)));
    }
  }

  lemma VisitKept(m: Attributes, rule: Rule, done: set<string>, key: string)
    requires KeepsMatchers(rule) && key in m && key !in done && rule(key) == Keep
    ensures Marked(m, Visited(rule, done + {key})) == Marked(m, Visited(rule, done))
  {
    var before, after := Visited(rule, done), Visited(rule, done + {key});
    var now, next := Marked(m, before), Marked(m, after);
    forall t ensures (t in next <==> t in now) && (t in now ==> next[t] == now[t]) {
      MarkedEntry(m, before, t);
      MarkedEntry(m, after, t);
      VisitMoves(m, rule, done, key, t);
    }
  }

  /** The map after marking one more entry, key by key. */
  lemma VisitMarkedAt(m: Attributes, rule: Rule, done: set<string>, key: string, t: string)
    requires KeepsMatchers(rule) && key in m && key !in done && rule(key) != Keep
    ensures var now, next, target := Marked(m, Visited(rule, done)), Marked(m, Visited(rule, done + {key})), Target(key, rule(key));
            && (t in next <==> t == target || (t in now && t != key))
            && (t in next ==> next[t] == if t == target then NewValue(rule(key)) else now[t])
  {
    var before, after := Visited(rule, done), Visited(rule, done + {key});
    MarkableIsUnmoved(m, rule, done, key);
    MarkedEntry(m, before, t);
    MarkedEntry(m, after, t);
    VisitMoves(m, rule, done, key, t);
    assert t != key ==> after(t) == before(t);
    if t == Target(key, rule(key)) {
      SuffixBase(key, rule(key));
    }
  }

  lemma VisitMarked(m: Attributes, rule: Rule, done: set<string>, key: string)
    requires KeepsMatchers(rule) && key in m && key !in done && rule(key) != Keep
    ensures Marked(m, Visited(rule, done + {key}))
         == (Marked(m, Visited(rule, done)) - {key})[Target(key, rule(key)) := NewValue(rule(key))]
  {
    forall t { VisitMarkedAt(m, rule, done, key, t); }
  }

  lemma VisitedNone(m: Attributes, rule: Rule)
    ensures Marked(m, Visited(rule, {})) == m
  {
    var r := Visited(rule, {});
    forall t ensures (t in Marked(m, r) <==> t in m) && (t in m ==> Marked(m, r)[t] == m[t]) {
      MarkedEntry(m, r, t);
    }
  }

  lemma VisitedAll(m: Attributes, rule: Rule)
    requires KeepsMatchers(rule)
    ensures Marked(m, Visited(rule, m.Keys)) == Marked(m, rule)
  {
    var r := Visited(rule, m.Keys);
    forall t ensures (t in Marked(m, r) <==> t in Marked(m, rule)) && (t in Marked(m, r) ==> Marked(m, r)[t] == Marked(m, rule)[t]) {
      MarkedEntry(m, r, t);
      MarkedEntry(m, rule, t);
    }
  }

  /** What visiting `key` must do to the map. */
  function Rewritten(now: Attributes, key: string, mark: Mark): Attributes {
    if mark == Keep then now else (now - {key})[Target(key, mark) := NewValue(mark)]
  }

  lemma VisitNext(m: Attributes, rule: Rule, keys: set<string>, key: string)
    requires KeepsMatchers(rule) && keys <= m.Keys && key in keys
    ensures Marked(m, Visited(rule, m.Keys - (keys - {key}))) == Rewritten(Marked(m, Visited(rule, m.Keys - keys)), key, rule(key))
  {
    var done := m.Keys - keys;
    assert m.Keys - (keys - {key}) == done + {key};
    if rule(key) == Keep {
      VisitKept(m, rule, done, key);
    } else {
      VisitMarked(m, rule, done, key);
    }
  }

  /** The loop body of markAttrs. */
  method MarkEntry(m: StringMap, k: string, volatile: set<string>, regex: map<string, string>)
    modifies m
    ensures m.entries == Rewritten(old(m.entries), k, FlexibleRule(volatile, regex)(k))
  {
    if HasSuffix(k, EXISTS) || HasSuffix(k, REGEX) {
      return;
    }
    if k in regex {
      m.entries := m.entries - {k};
      m.entries := m.entries[k + REGEX := Str(regex[k])];
      return;
    }
    if k in volatile {
      m.entries := m.entries - {k};
      m.entries := m.entries[k + EXISTS := Bool(true)];
    }
  }

  /** Visits the keys in any order: the result does not depend on it. */
  method MarkAttrs(m: StringMap, volatile: set<string>, regex: map<string, string>)
    modifies m
    ensures m.entries == Marked(old(m.entries), FlexibleRule(volatile, regex))
  {
    ghost var rule, before := FlexibleRule(volatile, regex), m.entries;
    var keys := m.entries.Keys;
    RulesKeepMatchers(volatile, regex, {});
    VisitedNone(before, rule);
    assert before.Keys - keys == {};
    while keys != {}
      invariant keys <= before.Keys
      invariant m.entries == Marked(before, Visited(rule, before.Keys - keys))
      decreases keys
    {
      var k :| k in keys;
      VisitNext(before, rule, keys, k);
      keys := keys - {k};
      MarkEntry(m, k, volatile, regex);
    }
    VisitedAll(before, rule);
    assert before.Keys - keys == before.Keys;
  }

  method MarkNonIdentityAttrs(m: StringMap, exact: set<string>)
    modifies m
    ensures m.entries == Marked(old(m.entries), NonIdentityRule(exact))
  {
    ghost var rule, before := NonIdentityRule(exact), m.entries;
    var keys := m.entries.Keys;
    VisitedNone(before, rule);
    assert before.Keys - keys == {};
    while keys != {}
      invariant keys <= before.Keys
      invariant m.entries == Marked(before, Visited(rule, before.Keys - keys))
      decreases keys
    {
      var k :| k in keys;
      VisitNext(before, rule, keys, k);
      keys := keys - {k};
      if HasSuffix(k, EXISTS) || HasSuffix(k, REGEX) {
        continue;
      }
      if k in exact {
        continue;
      }
      m.entries := m.entries - {k};
      m.entries := m.entries[k + EXISTS := Bool(true)];
    }
    VisitedAll(before, rule);
    assert before.Keys - keys == before.Keys;
  }
}
