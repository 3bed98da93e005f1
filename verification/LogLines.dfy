/**
 Summarizing the error and warning lines of a component: one line per distinct message, with
 its number of occurrences. Models findMatchingLogLines of component_health.go.
 */
module LogLines {
  import opened Ordering
  import opened Text

  // ---------- which lines count ----------

  /** `strings.ToLower` and the blank test of `strings.TrimSpace` are not part of this model: any functions will do. */
  datatype Filter = Filter(lower: string -> string, blank: string -> bool, component: string) {
    predicate Matches(line: string) {
      && !blank(line)
      && (Contains(lower(line), "\terror\t") || Contains(lower(line), "\twarn\t"))
      && Contains(lower(line), lower(component))
    }
  }

  function Matching(lines: seq<string>, f: Filter): seq<string> {
    if lines == [] then []
    else Matching(lines[..|lines| - 1], f) + if f.Matches(lines[|lines| - 1]) then [lines[|lines| - 1]] else []
  }

  /** What follows the first tab; the whole line when there is none. */
  function Key(line: string): string {
    if '\t' !in line then line
    else if line[0] == '\t' then line[1..]
    else Key(line[1..])
  }

  /** `strings.SplitN(line, "\t", 2)`, and the part the key is taken from. */
  method MessageKey(line: string) returns (key: string)
    ensures key == Key(line)
  {
    var i := 0;
    while i < |line| && line[i] != '\t'
      invariant i <= |line| && '\t' !in line[..i]
      invariant '\t' in line ==> Key(line[i..]) == Key(line) && '\t' in line[i..]
    {
      assert line[i..][1..] == line[i + 1..];
      assert line[i..] == [line[i]] + line[i + 1..];
      i := i + 1;
    }
    if i == |line| {
      assert line[..i] == line;
      return line;
    }
    assert line[i..][0] == line[i] && line[i] in line;
    return line[i + 1..];
  }

  /** The key of a line is what follows its first tab, and the line itself when it has none. */
  lemma {:induction false} KeyExactly(a: string, rest: string)
    requires '\t' !in a
    ensures Key(a + "\t" + rest) == rest && Key(a) == a
  {
    var line := a + "\t" + rest;
    if a == "" {
      assert line[1..] == rest;
    } else {
      KeyExactly(a[1..], rest);
      assert line[1..] == a[1..] + "\t" + rest;
      assert line[|a|] == '\t' && line[0] == a[0];
    }
  }

  /** The lines taken: not blank, with an error or a warning, and with the component somewhere, whatever the case. */
  lemma MatchesExactly(f: Filter, line: string)
    ensures f.Matches(line) <==>
              && !f.blank(line)
              && (Within(f.lower(line), "\terror\t") || Within(f.lower(line), "\twarn\t"))
              && Within(f.lower(line), f.lower(f.component))
  {
    ContainsExactly(f.lower(line), "\terror\t");
    ContainsExactly(f.lower(line), "\twarn\t");
    ContainsExactly(f.lower(line), f.lower(f.component));
  }

  lemma MatchingOne(line: string, f: Filter)
    ensures Matching([line], f) == if f.Matches(line) then [line] else []
  {
    assert [line][..0] == [];
  }

  /** Lines are taken one by one, in order. */
  lemma {:induction false} MatchingPlus(a: seq<string>, b: seq<string>, f: Filter)
    ensures Matching(a + b, f) == Matching(a, f) + Matching(b, f)
  {
    if b == [] {
      assert a + b == a;
    } else {
      var n := |b| - 1;
      var all, last := a + b, if f.Matches(b[n]) then [b[n]] else [];
      MatchingPlus(a, b[..n], f);
      assert all[..|all| - 1] == a + b[..n] && all[|all| - 1] == b[n];
      assert Matching(all, f) == Matching(a + b[..n], f) + last;
      Regroup(Matching(a, f), Matching(b[..n], f), last);
    }
  }

  lemma Regroup(a: seq<string>, b: seq<string>, c: seq<string>)
    ensures (a + b) + c == a + (b + c)
  {
  }

  // ---------- the summary ----------

  function Count(lines: seq<string>, key: string): nat {
    if lines == [] then 0
    else Count(lines[..|lines| - 1], key) + if Key(lines[|lines| - 1]) == key then 1 else 0
  }

  /** The first line with this key. */
  function First(lines: seq<string>, key: string): string {
    if lines == [] then ""
    else if Key(lines[0]) == key then lines[0]
    else First(lines[1..], key)
  }

  /** The keys of the lines, each once, in order of appearance. */
  function DistinctKeys(lines: seq<string>): seq<string> {
    if lines == [] then []
    else
      var before, key := DistinctKeys(lines[..|lines| - 1]), Key(lines[|lines| - 1]);
      if key in before then before else before + [key]
  }

  function Rendered(firstLine: string, count: nat): string {
    if count > 1 then firstLine + " (repeated " + Itoa(count) + " times)" else firstLine
  }

  function RenderedKeys(keys: seq<string>, lines: seq<string>): (r: seq<string>)
    ensures |r| == |keys| && forall k :: 0 <= k < |r| ==> r[k] == Rendered(First(lines, keys[k]), Count(lines, keys[k]))
  {
    seq(|keys|, k requires 0 <= k < |keys| => Rendered(First(lines, keys[k]), Count(lines, keys[k])))
  }

  /** One line per distinct key of the matching lines, sorted. */
  function Summary(lines: seq<string>): seq<string> {
    StableSort(RenderedKeys(DistinctKeys(lines), lines), StringLess)
  }

  // ---------- facts about keys and counts ----------

  predicate NoDuplicates(s: seq<string>) {
    forall i, j :: 0 <= i < j < |s| ==> s[i] != s[j]
  }

  lemma {:induction false} KeysAreCounted(lines: seq<string>)
    ensures NoDuplicates(DistinctKeys(lines))
    ensures forall key :: key in DistinctKeys(lines) <==> Count(lines, key) > 0
  {
    if lines != [] {
      KeysAreCounted(lines[..|lines| - 1]);
    }
  }

  lemma {:induction false} FirstSnoc(lines: seq<string>, line: string, key: string)
    ensures Count(lines + [line], key) == Count(lines, key) + if Key(line) == key then 1 else 0
    ensures First(lines + [line], key) == if Count(lines, key) > 0 then First(lines, key) else if Key(line) == key then line else ""
  {
    var all := lines + [line];
    assert all[..|lines|] == lines;
    if lines == [] {
      assert all[1..] == [];
    } else {
      FirstSnoc(lines[1..], line, key);
      assert all[1..] == lines[1..] + [line];
      CountCons(lines, key);
    }
  }

  lemma {:induction false} CountCons(lines: seq<string>, key: string)
    requires lines != []
    ensures Count(lines, key) == (if Key(lines[0]) == key then 1 else 0) + Count(lines[1..], key)
  {
    var n := |lines| - 1;
    if n > 0 {
      CountCons(lines[..n], key);
      assert lines[..n][1..] == lines[1..][..n - 1];
    } else {
      assert lines[..n] == [] && lines[1..] == [];
    }
  }

  function Sum(counts: seq<nat>): nat {
    if counts == [] then 0 else Sum(counts[..|counts| - 1]) + counts[|counts| - 1]
  }

  function Counts(keys: seq<string>, lines: seq<string>): (r: seq<nat>)
    ensures |r| == |keys| && forall k :: 0 <= k < |r| ==> r[k] == Count(lines, keys[k])
  {
    seq(|keys|, k requires 0 <= k < |keys| => Count(lines, keys[k]))
  }

  lemma {:induction false} SumGrows(a: seq<nat>, b: seq<nat>, at: nat)
    requires |a| == |b| && at < |a| && b[at] == a[at] + 1
    requires forall k :: 0 <= k < |a| && k != at ==> b[k] == a[k]
    ensures Sum(b) == Sum(a) + 1
  {
    var n := |a| - 1;
    if at == n {
      assert a[..n] == b[..n];
    } else {
      SumGrows(a[..n], b[..n], at);
    }
  }

  /** No occurrence is lost: the counts of the distinct keys add up to the number of lines. */
  lemma {:induction false} CountsAddUp(lines: seq<string>)
    ensures Sum(Counts(DistinctKeys(lines), lines)) == |lines|
  {
    if lines != [] {
      var n := |lines| - 1;
      var before, key := lines[..n], Key(lines[n]);
      CountsAddUp(before);
      KeysAreCounted(before);
      var keys := DistinctKeys(before);
      var a, b := Counts(keys, before), Counts(DistinctKeys(lines), lines);
      if key in keys {
        var at :| 0 <= at < |keys| && keys[at] == key;
        SumGrows(a, b, at);
      } else {
        assert b[..|keys|] == a;
      }
    }
  }

  // ---------- the order of a map iteration does not matter ----------

  lemma {:induction false} SameKeysPermute(a: seq<string>, b: seq<string>)
    requires NoDuplicates(a) && NoDuplicates(b) && forall k :: k in a <==> k in b
    ensures multiset(a) == multiset(b)
  {
    forall k ensures multiset(a)[k] == multiset(b)[k] {
      OnceEach(a, k);
      OnceEach(b, k);
    }
  }

  lemma {:induction false} OnceEach(s: seq<string>, k: string)
    requires NoDuplicates(s)
    ensures multiset(s)[k] == if k in s then 1 else 0
  {
    if s != [] {
      var n := |s| - 1;
      OnceEach(s[..n], k);
      assert s == s[..n] + [s[n]];
    }
  }

  function Without<T>(s: seq<T>, k: nat): (r: seq<T>)
    requires k < |s|
    ensures multiset(s) == multiset(r) + multiset{s[k]}
  {
    assert s == s[..k] + [s[k]] + s[k + 1..];
    s[..k] + s[k + 1..]
  }

  lemma RenderedWithout(keys: seq<string>, lines: seq<string>, k: nat)
    requires k < |keys|
    ensures RenderedKeys(Without(keys, k), lines) == Without(RenderedKeys(keys, lines), k)
  {}

  lemma {:induction false} RenderingPermutes(a: seq<string>, b: seq<string>, lines: seq<string>)
    requires multiset(a) == multiset(b)
    ensures multiset(RenderedKeys(a, lines)) == multiset(RenderedKeys(b, lines))
  {
    assert |a| == |multiset(a)| == |multiset(b)| == |b|;
    if a != [] {
      assert a[0] in multiset(b);
      var k :| 0 <= k < |b| && b[k] == a[0];
      var restA, restB := Without(a, 0), Without(b, k);
      assert multiset(restA) == multiset(a) - multiset{a[0]} == multiset(restB);
      RenderingPermutes(restA, restB, lines);
      RenderedWithout(a, lines, 0);
      RenderedWithout(b, lines, k);
    }
  }

  /** Rendering the keys in any order and sorting gives the same summary. */
  lemma SummaryIsCanonical(keys: seq<string>, lines: seq<string>)
    requires NoDuplicates(keys) && forall k :: k in keys <==> Count(lines, k) > 0
    ensures StableSort(RenderedKeys(keys, lines), StringLess) == Summary(lines)
  {
    KeysAreCounted(lines);
    SameKeysPermute(keys, DistinctKeys(lines));
    RenderingPermutes(keys, DistinctKeys(lines), lines);
    StringLessIsTotal();
    SortIsCanonical(RenderedKeys(keys, lines), RenderedKeys(DistinctKeys(lines), lines), StringLess);
  }

  // ---------- what the summary says ----------

  /** The places of the lines with this key. */
  function Places(lines: seq<string>, key: string): set<int> {
    set i | 0 <= i < |lines| && Key(lines[i]) == key
  }

  /** The keys that occur. */
  function KeysOf(lines: seq<string>): set<string> {
    set i | 0 <= i < |lines| :: Key(lines[i])
  }

  lemma {:induction false} CountExactly(lines: seq<string>, key: string)
    ensures Count(lines, key) == |Places(lines, key)|
  {
    if lines != [] {
      var n := |lines| - 1;
      CountExactly(lines[..n], key);
      assert Places(lines, key) == Places(lines[..n], key) + if Key(lines[n]) == key then {n} else {};
    }
  }

  lemma {:induction false} FirstIs(lines: seq<string>, key: string) returns (i: nat)
    requires Count(lines, key) > 0
    ensures i < |lines| && Key(lines[i]) == key && First(lines, key) == lines[i]
    ensures forall j :: 0 <= j < i ==> Key(lines[j]) != key
  {
    CountCons(lines, key);
    if Key(lines[0]) == key {
      i := 0;
    } else {
      i := FirstIs(lines[1..], key);
      i := i + 1;
    }
  }

  /** `entry` is the line at place `i`, the first with its key, and how often the key occurs if more than once. */
  predicate IsEntry(lines: seq<string>, i: int, entry: string) {
    && 0 <= i < |lines| && (forall j :: 0 <= j < i ==> Key(lines[j]) != Key(lines[i]))
    && var n := |Places(lines, Key(lines[i]))|;
       entry == if n > 1 then lines[i] + " (repeated " + Itoa(n) + " times)" else lines[i]
  }

  lemma EntryRendered(lines: seq<string>, key: string, i: int)
    requires Count(lines, key) > 0 && 0 <= i < |lines| && Key(lines[i]) == key
    requires forall j :: 0 <= j < i ==> Key(lines[j]) != key
    ensures IsEntry(lines, i, Rendered(First(lines, key), Count(lines, key)))
  {
    CountExactly(lines, key);
    var first := FirstIs(lines, key);
    assert first == i;
  }

  lemma SummaryMembers(lines: seq<string>, entry: string)
    ensures entry in Summary(lines) <==> entry in RenderedKeys(DistinctKeys(lines), lines)
  {
    var rendered := RenderedKeys(DistinctKeys(lines), lines);
    StringLessIsTotal();
    TotalIsWeak(StringLess);
    StableSortSorts(rendered, StringLess);
    assert entry in multiset(rendered) <==> entry in multiset(StableSort(rendered, StringLess));
  }

  /** A line is in the summary exactly when it is such an entry; there is one for every key, and they are sorted. */
  lemma SummaryExactly(lines: seq<string>, entry: string)
    ensures entry in Summary(lines) <==> exists i :: IsEntry(lines, i, entry)
    ensures |Summary(lines)| == |KeysOf(lines)|
    ensures SortedBy(Summary(lines), StringLess)
  {
    var keys := DistinctKeys(lines);
    KeysAreCounted(lines);
    SummaryMembers(lines, entry);
    if entry in Summary(lines) {
      var k :| 0 <= k < |keys| && RenderedKeys(keys, lines)[k] == entry;
      assert keys[k] in keys;
      var i := FirstIs(lines, keys[k]);
      EntryRendered(lines, keys[k], i);
    }
    if i :| IsEntry(lines, i, entry) {
      var key := Key(lines[i]);
      KeyOccurs(lines, i);
      EntryRendered(lines, key, i);
      var k :| 0 <= k < |keys| && keys[k] == key;
      assert RenderedKeys(keys, lines)[k] == entry;
    }
    SummarySize(lines);
  }

  lemma KeyOccurs(lines: seq<string>, i: int)
    requires 0 <= i < |lines|
    ensures Count(lines, Key(lines[i])) > 0
  {
    CountExactly(lines, Key(lines[i]));
    assert i in Places(lines, Key(lines[i]));
  }

  lemma {:induction false} SizeOfDistinct(s: seq<string>)
    requires NoDuplicates(s)
    ensures |set x | x in s| == |s|
  {
    if s != [] {
      var n := |s| - 1;
      SizeOfDistinct(s[..n]);
      assert (set x | x in s) == (set x | x in s[..n]) + {s[n]};
    }
  }

  lemma KeySet(lines: seq<string>)
    ensures KeysOf(lines) == set key | key in DistinctKeys(lines)
  {
    KeysAreCounted(lines);
    forall key | key in DistinctKeys(lines) ensures key in KeysOf(lines) {
      var i := FirstIs(lines, key);
    }
    forall i | 0 <= i < |lines| ensures Key(lines[i]) in DistinctKeys(lines) {
      KeyOccurs(lines, i);
    }
  }

  lemma SummarySize(lines: seq<string>)
    ensures |Summary(lines)| == |KeysOf(lines)|
    ensures SortedBy(Summary(lines), StringLess)
  {
    var rendered := RenderedKeys(DistinctKeys(lines), lines);
    StringLessIsTotal();
    TotalIsWeak(StringLess);
    StableSortSorts(rendered, StringLess);
    assert |Summary(lines)| == |multiset(Summary(lines))| == |multiset(rendered)| == |rendered|;
    KeysAreCounted(lines);
    SizeOfDistinct(DistinctKeys(lines));
    KeySet(lines);
  }

  /** Two lines that differ only before their first tab are one message. */
  lemma OneMessage(a: string, b: string, rest: string)
    requires '\t' !in a && '\t' !in b
    ensures Summary([a + "\t" + rest, b + "\t" + rest]) == [a + "\t" + rest + " (repeated " + Itoa(2) + " times)"]
  {
    KeyExactly(a, rest);
    KeyExactly(b, rest);
    TwoOfOneKey(a + "\t" + rest, b + "\t" + rest);
  }

  lemma TwoOfOneKey(x: string, y: string)
    requires Key(x) == Key(y)
    ensures Summary([x, y]) == [x + " (repeated " + Itoa(2) + " times)"]
  {
    var lines, entry := [x, y], x + " (repeated " + Itoa(2) + " times)";
    assert lines[0] == x && lines[1] == y;
    assert Places(lines, Key(x)) == {0, 1};
    assert IsEntry(lines, 0, entry);
    SummaryExactly(lines, entry);
    assert KeysOf(lines) == {Key(x)} by {
      assert Key(lines[0]) in KeysOf(lines);
    }
    OnlyMember(Summary(lines), entry);
  }

  lemma OnlyMember(s: seq<string>, x: string)
    requires x in s && |s| == 1
    ensures s == [x]
  {
  }

  // ---------- the method ----------

  class LogEntry {
    const firstLine: string
    var count: nat

    constructor (line: string)
      ensures firstLine == line && count == 1
    {
      firstLine, count := line, 1;
    }
  }

  /** The map of entries says how often each key occurred, and where first. */
  ghost predicate Recorded(seen: map<string, LogEntry>, lines: seq<string>)
    reads seen.Values
  {
    && (forall key :: key in seen <==> Count(lines, key) > 0)
    && (forall key :: key in seen ==> seen[key].count == Count(lines, key) && seen[key].firstLine == First(lines, key))
    && (forall j, k :: j in seen && k in seen && j != k ==> seen[j] != seen[k])
  }

  /** One matching line. */
  method Record(seen: map<string, LogEntry>, line: string, ghost lines: seq<string>) returns (now: map<string, LogEntry>)
    requires Recorded(seen, lines)
    modifies seen.Values
    ensures Recorded(now, lines + [line]) && fresh(now.Values - seen.Values)
  {
    var messageKey := MessageKey(line);
    forall key ensures Count(lines + [line], key) == Count(lines, key) + if Key(line) == key then 1 else 0 {
      FirstSnoc(lines, line, key);
    }
    forall key | Count(lines + [line], key) > 0
      ensures First(lines + [line], key) == if Count(lines, key) > 0 then First(lines, key) else line
    {
      FirstSnoc(lines, line, key);
    }
    if messageKey in seen {
      var entry := seen[messageKey];
      entry.count := entry.count + 1;
      now := seen;
    } else {
      var entry := new LogEntry(line);
      now := seen[messageKey := entry];
    }
  }

  method FindMatchingLogLines(logs: string, f: Filter) returns (uniqueErrorLines: seq<string>)
    ensures uniqueErrorLines == Summary(Matching(Split(logs, '\n'), f))
  {
    var lines := Split(logs, '\n');
    var seen: map<string, LogEntry> := map[];
    for i := 0 to |lines|
      invariant Recorded(seen, Matching(lines[..i], f)) && fresh(seen.Values)
    {
      assert lines[..i + 1][..i] == lines[..i];
      assert Matching(lines[..i], f) + [] == Matching(lines[..i], f);
      if f.Matches(lines[i]) {
        seen := Record(seen, lines[i], Matching(lines[..i], f));
      }
    }
    assert lines[..|lines|] == lines;
    uniqueErrorLines := RenderEntries(seen, Matching(lines, f));
    uniqueErrorLines := StableSort(uniqueErrorLines, StringLess);
  }

  /** The loop over the map, in whatever order it comes. */
  method RenderEntries(seen: map<string, LogEntry>, ghost lines: seq<string>) returns (out: seq<string>)
    requires Recorded(seen, lines)
    ensures StableSort(out, StringLess) == Summary(lines)
  {
    out := [];
    var rest := seen.Keys;
    ghost var visited: seq<string> := [];
    while rest != {}
      invariant rest <= seen.Keys && NoDuplicates(visited) && forall k :: k in visited <==> k in seen && k !in rest
      invariant out == RenderedKeys(visited, lines)
      decreases rest
    {
      var key :| key in rest;
      var entry := seen[key];
      if entry.count > 1 {
        out := out + [entry.firstLine + " (repeated " + Itoa(entry.count) + " times)"];
      } else {
        out := out + [entry.firstLine];
      }
      visited, rest := visited + [key], rest - {key};
    }
    SummaryIsCanonical(visited, lines);
  }
}
