/**
 Strict orders, lexicographic comparison and the stable sort that the Go
 programs get from their libraries (`sort.Strings`, `sort.Slice`,
 `bytes.Compare` and the `Sort` method of a datapoint slice).
 */
module Ordering {

  /** Irreflexive, transitive, and ties are an equivalence. */
  ghost predicate StrictWeak<T(!new)>(less: (T, T) -> bool) {
    && (forall x :: !less(x, x))
    && (forall x, y, z :: less(x, y) && less(y, z) ==> less(x, z))
    && (forall x, y, z :: less(x, z) ==> less(x, y) || less(y, z))
  }

  /** Irreflexive, transitive, and only equal elements tie. */
  ghost predicate StrictTotal<T(!new)>(less: (T, T) -> bool) {
    && (forall x :: !less(x, x))
    && (forall x, y, z :: less(x, y) && less(y, z) ==> less(x, z))
    && (forall x, y :: x == y || less(x, y) || less(y, x))
  }

  ghost predicate SortedBy<T>(s: seq<T>, less: (T, T) -> bool) {
    forall i, j :: 0 <= i < j < |s| ==> !less(s[j], s[i])
  }

  // ---------- lexicographic comparison ----------

  predicate LexLess<T(==)>(less: (T, T) -> bool, a: seq<T>, b: seq<T>) {
    if b == [] then false
    else if a == [] then true
    else if a[0] != b[0] then less(a[0], b[0])
    else LexLess(less, a[1..], b[1..])
  }

  lemma {:induction false} LexIrreflexive<T(!new)>(less: (T, T) -> bool, a: seq<T>)
    ensures !LexLess(less, a, a)
  {
    if a != [] {
      LexIrreflexive(less, a[1..]);
    }
  }

  lemma {:induction false} LexTransitive<T(!new)>(less: (T, T) -> bool, a: seq<T>, b: seq<T>, c: seq<T>)
    requires StrictTotal(less)
    requires LexLess(less, a, b) && LexLess(less, b, c)
    ensures LexLess(less, a, c)
  {
    if a != [] {
      if a[0] == b[0] == c[0] {
        LexTransitive(less, a[1..], b[1..], c[1..]);
      }
    }
  }

  lemma {:induction false} LexConnected<T(!new)>(less: (T, T) -> bool, a: seq<T>, b: seq<T>)
    requires StrictTotal(less)
    ensures a == b || LexLess(less, a, b) || LexLess(less, b, a)
  {
    if a != [] && b != [] && a[0] == b[0] {
      LexConnected(less, a[1..], b[1..]);
      assert a == [a[0]] + a[1..] && b == [b[0]] + b[1..];
    }
  }

  /** The sequences agree before place `k` and differ there. */
  predicate DifferAt<T(==)>(a: seq<T>, b: seq<T>, k: int) {
    0 <= k < |a| && k < |b| && a[..k] == b[..k] && a[k] != b[k]
  }

  lemma AgreeBefore<T>(a: seq<T>, b: seq<T>, k: int)
    ensures DifferAt(a, b, k) && k > 0 ==> a[0] == b[0]
  {
    if DifferAt(a, b, k) && k > 0 {
      assert a[..k][0] == b[..k][0];
    }
  }

  /** The shorter of two sequences that agree comes first; otherwise the first difference decides. */
  lemma {:induction false} LexExactly<T>(less: (T, T) -> bool, a: seq<T>, b: seq<T>)
    ensures LexLess(less, a, b) <==> (|a| < |b| && a == b[..|a|]) || exists k :: DifferAt(a, b, k) && less(a[k], b[k])
  {
    if a != [] && b != [] {
      if a[0] != b[0] {
        assert a[..0] == b[..0];
        assert DifferAt(a, b, 0);
        forall k { AgreeBefore(a, b, k); }
      } else {
        LexExactly(less, a[1..], b[1..]);
        DifferLater(a, b);
        assert |a| <= |b| ==> (a == b[..|a|] <==> a[1..] == b[1..][..|a| - 1]) by {
          assert a == [a[0]] + a[1..];
          assert |a| <= |b| ==> b[..|a|] == [b[0]] + b[1..][..|a| - 1];
        }
      }
    }
  }

  lemma DifferLater<T>(a: seq<T>, b: seq<T>)
    requires a != [] && b != [] && a[0] == b[0]
    ensures forall k :: DifferAt(a[1..], b[1..], k) ==> DifferAt(a, b, k + 1)
    ensures forall k :: DifferAt(a, b, k) ==> k > 0 && DifferAt(a[1..], b[1..], k - 1)
  {
    forall k | DifferAt(a[1..], b[1..], k) ensures DifferAt(a, b, k + 1) {
      assert a[..k + 1] == [a[0]] + a[1..][..k] && b[..k + 1] == [b[0]] + b[1..][..k];
    }
    forall k | DifferAt(a, b, k) ensures k > 0 && DifferAt(a[1..], b[1..], k - 1) {
      assert a[1..][..k - 1] == a[..k][1..] && b[1..][..k - 1] == b[..k][1..];
    }
  }

  predicate CharLess(a: char, b: char) {
    a < b
  }

  /** The order of Go's `<` on strings. */
  predicate StringLess(a: string, b: string) {
    LexLess(CharLess, a, b)
  }

  lemma StringOrderExactly(a: string, b: string)
    ensures StringLess(a, b) <==> (|a| < |b| && a == b[..|a|]) || exists k :: DifferAt(a, b, k) && a[k] < b[k]
  {
    LexExactly(CharLess, a, b);
  }

  lemma StringLessIsTotal()
    ensures StrictTotal(StringLess)
  {
    assert StrictTotal(CharLess);
    forall x: string { LexIrreflexive(CharLess, x); }
    forall x: string, y: string, z: string | StringLess(x, y) && StringLess(y, z) ensures StringLess(x, z) {
      LexTransitive(CharLess, x, y, z);
    }
    forall x: string, y: string ensures x == y || StringLess(x, y) || StringLess(y, x) {
      LexConnected(CharLess, x, y);
    }
  }

  // ---------- the stable sort ----------

  function Insert<T>(x: T, s: seq<T>, less: (T, T) -> bool): seq<T> {
    if s == [] || !less(s[0], x) then [x] + s
    else [s[0]] + Insert(x, s[1..], less)
  }

  /** The stable sort of `s`; `StableSortIsStable` says what that means. */
  function StableSort<T>(s: seq<T>, less: (T, T) -> bool): seq<T> {
    if s == [] then [] else Insert(s[0], StableSort(s[1..], less), less)
  }

  lemma {:induction false} InsertPermutes<T>(x: T, s: seq<T>, less: (T, T) -> bool)
    ensures multiset(Insert(x, s, less)) == multiset(s) + multiset{x}
  {
    if s == [] || !less(s[0], x) {
    } else {
      InsertPermutes(x, s[1..], less);
      assert s == [s[0]] + s[1..];
    }
  }

  lemma {:induction false} InsertSorts<T(!new)>(x: T, s: seq<T>, less: (T, T) -> bool)
    requires StrictWeak(less) && SortedBy(s, less)
    ensures SortedBy(Insert(x, s, less), less)
  {
    if s == [] {
    } else if !less(s[0], x) {
      forall j | 0 <= j < |s| ensures !less(s[j], x) {}
    } else {
      InsertSorts(x, s[1..], less);
      InsertPermutes(x, s[1..], less);
      var r := Insert(x, s[1..], less);
      forall j | 0 <= j < |r| ensures !less(r[j], s[0]) {
        assert r[j] in multiset(r);
        assert r[j] == x || r[j] in s[1..];
      }
    }
  }

  lemma {:induction false} StableSortSorts<T(!new)>(s: seq<T>, less: (T, T) -> bool)
    requires StrictWeak(less)
    ensures SortedBy(StableSort(s, less), less)
    ensures multiset(StableSort(s, less)) == multiset(s)
  {
    if s != [] {
      StableSortSorts(s[1..], less);
      InsertSorts(s[0], StableSort(s[1..], less), less);
      InsertPermutes(s[0], StableSort(s[1..], less), less);
      assert s == [s[0]] + s[1..];
    }
  }

  /** The elements of `s` that tie with `g`, in order. */
  ghost function Ties<T>(g: T, s: seq<T>, less: (T, T) -> bool): seq<T> {
    if s == [] then []
    else (if !less(g, s[0]) && !less(s[0], g) then [s[0]] else []) + Ties(g, s[1..], less)
  }

  lemma {:induction false} InsertKeepsTies<T(!new)>(g: T, x: T, s: seq<T>, less: (T, T) -> bool)
    requires StrictWeak(less)
    ensures Ties(g, Insert(x, s, less), less) == Ties(g, [x] + s, less)
  {
    assert ([x] + s)[1..] == s;
    if s != [] && less(s[0], x) {
      InsertKeepsTies(g, x, s[1..], less);
      assert ([x] + s[1..])[1..] == s[1..];
      var r := [s[0]] + Insert(x, s[1..], less);
      assert r[1..] == Insert(x, s[1..], less);
    }
  }

  /** Elements that the comparison cannot tell apart keep their order. */
  lemma {:induction false} StableSortIsStable<T(!new)>(g: T, s: seq<T>, less: (T, T) -> bool)
    requires StrictWeak(less)
    ensures Ties(g, StableSort(s, less), less) == Ties(g, s, less)
  {
    if s != [] {
      var rest := StableSort(s[1..], less);
      InsertKeepsTies(g, s[0], rest, less);
      StableSortIsStable(g, s[1..], less);
      assert ([s[0]] + rest)[1..] == rest;
    }
  }

  lemma SortedHead<T(!new)>(a: seq<T>, x: T, less: (T, T) -> bool)
    requires SortedBy(a, less) && x in multiset(a)
    requires forall y :: !less(y, y)
    ensures !less(x, a[0])
  {
    var i :| 0 <= i < |a| && a[i] == x;
  }

  /** Two sorted sequences with the same elements are equal when only equal elements tie. */
  lemma {:induction false} SortedIsUnique<T(!new)>(a: seq<T>, b: seq<T>, less: (T, T) -> bool)
    requires StrictTotal(less) && SortedBy(a, less) && SortedBy(b, less)
    requires multiset(a) == multiset(b)
    ensures a == b
  {
    assert |a| == |multiset(a)| == |multiset(b)| == |b|;
    if a != [] {
      var x, y := a[0], b[0];
      assert x in multiset(a) && y in multiset(b);
      assert x == y by {
        SortedHead(b, x, less);
        SortedHead(a, y, less);
        assert x == y || less(x, y) || less(y, x);
      }
      assert a == [x] + a[1..] && b == [x] + b[1..];
      assert multiset(a[1..]) == multiset(a) - multiset{x} == multiset(b[1..]);
      SortedIsUnique(a[1..], b[1..], less);
    }
  }

  lemma TotalIsWeak<T(!new)>(less: (T, T) -> bool)
    requires StrictTotal(less)
    ensures StrictWeak(less)
  {
    forall x, y, z | less(x, z) ensures less(x, y) || less(y, z) {
      assert x == y || less(x, y) || less(y, x);
    }
  }

  /** Sorting by a total order does not depend on the order of the input. */
  lemma SortIsCanonical<T(!new)>(a: seq<T>, b: seq<T>, less: (T, T) -> bool)
    requires StrictTotal(less) && multiset(a) == multiset(b)
    ensures StableSort(a, less) == StableSort(b, less)
  {
    TotalIsWeak(less);
    StableSortSorts(a, less);
    StableSortSorts(b, less);
    SortedIsUnique(StableSort(a, less), StableSort(b, less), less);
  }
}
