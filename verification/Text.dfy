/**
 The string functions of the Go library that the modelled code relies on: `strings.HasSuffix`,
 `strings.Contains`, `strings.Split` and `strings.Join` on one separator, `strconv.Atoi` and
 `strconv.Itoa`.
 */
module Text {
  import opened Pdata

  predicate HasSuffix(s: string, suffix: string) {
    |suffix| <= |s| && s[|s| - |suffix|..] == suffix
  }

  /** `strings.Contains`. */
  predicate Contains(s: string, part: string) {
    part <= s || (s != "" && Contains(s[1..], part))
  }

  lemma HasSuffixExactly(s: string, suffix: string)
    ensures HasSuffix(s, suffix) <==> exists a :: s == a + suffix
  {
    if HasSuffix(s, suffix) {
      assert s == s[..|s| - |suffix|] + suffix;
    }
  }

  /** The part stands somewhere in the string. */
  ghost predicate Within(s: string, part: string) {
    exists a, b :: s == a + part + b
  }

  lemma {:induction false} ContainsAt(a: string, part: string, b: string)
    ensures Contains(a + part + b, part)
  {
    if a != "" {
      ContainsAt(a[1..], part, b);
      assert (a + part + b)[1..] == a[1..] + part + b;
    } else {
      assert part <= a + part + b;
    }
  }

  lemma {:induction false} ContainsExactly(s: string, part: string)
    ensures Contains(s, part) <==> Within(s, part)
  {
    if Contains(s, part) {
      if part <= s {
        assert s == "" + part + s[|part|..];
      } else {
        ContainsExactly(s[1..], part);
        var a, b :| s[1..] == a + part + b;
        assert s == [s[0]] + (a + part + b) == ([s[0]] + a) + part + b;
      }
    }
    if Within(s, part) {
      var a, b :| s == a + part + b;
      ContainsAt(a, part, b);
    }
  }

  lemma {:induction false} ContainsIsLonger(s: string, part: string)
    ensures Contains(s, part) ==> |part| <= |s|
  {
    if s != "" {
      ContainsIsLonger(s[1..], part);
    }
  }

  // ---------- Split and Join ----------

  function Split(s: string, sep: char): (parts: seq<string>)
    ensures parts != []
  {
    if s == "" then [""] else Glue(s[0], sep, Split(s[1..], sep))
  }

  /** The parts of a string from its first character and the parts of the rest. */
  function Glue(c: char, sep: char, rest: seq<string>): (parts: seq<string>)
    requires rest != []
    ensures parts != []
  {
    if c == sep then [""] + rest else [[c] + rest[0]] + rest[1..]
  }

  function Join(parts: seq<string>, sep: char): string {
    if parts == [] then ""
    else if |parts| == 1 then parts[0]
    else parts[0] + [sep] + Join(parts[1..], sep)
  }

  /** Joining what was split gives the string back. */
  lemma {:induction false} JoinSplit(s: string, sep: char)
    ensures Join(Split(s, sep), sep) == s
  {
    if s != "" {
      JoinSplit(s[1..], sep);
      var rest := Split(s[1..], sep);
      var parts := Split(s, sep);
      if s[0] == sep {
        assert parts[1..] == rest;
      } else {
        assert parts[1..] == rest[1..];
      }
      assert s == [s[0]] + s[1..];
    }
  }

  lemma {:induction false} SplitHasNoSeparator(s: string, sep: char)
    ensures forall k :: 0 <= k < |Split(s, sep)| ==> sep !in Split(s, sep)[k]
  {
    if s != "" {
      SplitHasNoSeparator(s[1..], sep);
      var rest := Split(s[1..], sep);
      var parts := Split(s, sep);
      forall k | 0 <= k < |parts| ensures sep !in parts[k] {
        if s[0] == sep {
          assert k > 0 ==> parts[k] == rest[k - 1];
        } else {
          assert k > 0 ==> parts[k] == rest[k];
        }
      }
    }
  }

  lemma {:induction false} SplitFirst(a: string, sep: char, b: string)
    requires sep !in a
    ensures Split(a, sep) == [a]
    ensures Split(a + [sep] + b, sep) == [a] + Split(b, sep)
  {
    var s := a + [sep] + b;
    if a == "" {
      assert s[1..] == b;
    } else {
      SplitFirst(a[1..], sep, b);
      assert s[1..] == a[1..] + [sep] + b;
      assert a == [a[0]] + a[1..];
    }
  }

  /** Splitting what was joined gives the parts back, when no part holds the separator. */
  lemma {:induction false} SplitJoin(parts: seq<string>, sep: char)
    requires parts != [] && forall k :: 0 <= k < |parts| ==> sep !in parts[k]
    ensures Split(Join(parts, sep), sep) == parts
  {
    if |parts| == 1 {
      SplitFirst(parts[0], sep, "");
    } else {
      SplitJoin(parts[1..], sep);
      SplitFirst(parts[0], sep, Join(parts[1..], sep));
    }
  }

  lemma GlueAppend(c: char, sep: char, rest: seq<string>, more: seq<string>)
    requires rest != []
    ensures Glue(c, sep, rest + more) == Glue(c, sep, rest) + more
  {
    assert (rest + more)[1..] == rest[1..] + more;
  }

  /** Splitting around a separator splits both sides. */
  lemma {:induction false} SplitAppend(a: string, b: string, sep: char)
    ensures Split(a + [sep] + b, sep) == Split(a, sep) + Split(b, sep)
  {
    var s := a + [sep] + b;
    if a == "" {
      assert s[1..] == b;
    } else {
      SplitAppend(a[1..], b, sep);
      assert s[1..] == a[1..] + [sep] + b;
      GlueAppend(a[0], sep, Split(a[1..], sep), Split(b, sep));
    }
  }

  // ---------- Atoi and Itoa ----------

  const MAX_INT: int := 0x7FFF_FFFF_FFFF_FFFF
  const MIN_INT: int := -MAX_INT - 1

  predicate IsDigit(c: char) {
    '0' <= c <= '9'
  }

  predicate AllDigits(s: string) {
    forall k :: 0 <= k < |s| ==> IsDigit(s[k])
  }

  function Number(s: string): nat
    requires AllDigits(s)
  {
    if s == "" then 0 else Number(s[..|s| - 1]) * 10 + (s[|s| - 1] - '0') as nat
  }

  predicate Signed(s: string) {
    s != "" && (s[0] == '-' || s[0] == '+')
  }

  /** None stands for a syntax or range error. */
  function Atoi(s: string): Option<int> {
    var digits := if Signed(s) then s[1..] else s;
    if digits == "" || !AllDigits(digits) then None
    else
      var size: int := Number(digits);
      var n := if Signed(s) && s[0] == '-' then -size else size;
      if MIN_INT <= n <= MAX_INT then Some(n) else None
  }

  function Decimal(n: nat): (s: string)
    ensures s != "" && AllDigits(s)
  {
    var last := ['0' + (n % 10) as char];
    if n < 10 then last else Decimal(n / 10) + last
  }

  function Itoa(n: int): string {
    if n < 0 then "-" + Decimal(-n) else Decimal(n)
  }

  lemma {:induction false} NumberDecimal(n: nat)
    ensures Number(Decimal(n)) == n
  {
    var s := Decimal(n);
    if n < 10 {
      assert s[..|s| - 1] == "";
    } else {
      NumberDecimal(n / 10);
      assert s[..|s| - 1] == Decimal(n / 10);
    }
  }

  /** Reading a printed number gives it back. */
  lemma AtoiItoa(n: int)
    requires MIN_INT <= n <= MAX_INT
    ensures Atoi(Itoa(n)) == Some(n)
  {
    var digits := Decimal(if n < 0 then -n else n);
    NumberDecimal(if n < 0 then -n else n);
    assert IsDigit(digits[0]);
    if n < 0 {
      assert Itoa(n)[1..] == digits;
    }
  }

  lemma {:induction false} NumberOfZeros(s: string)
    requires AllDigits(s)
    ensures AllDigits("0" + s) && Number("0" + s) == Number(s)
  {
    var t := "0" + s;
    if s == "" {
      assert t[..0] == "";
    } else {
      NumberOfZeros(s[..|s| - 1]);
      assert t[..|t| - 1] == "0" + s[..|s| - 1];
    }
  }

  lemma AtoiDigits(digits: string)
    requires digits != "" && AllDigits(digits)
    ensures Atoi(digits) == if Number(digits) <= MAX_INT then Some(Number(digits)) else None
  {
    assert IsDigit(digits[0]);
  }

  lemma AtoiSigned(digits: string)
    requires digits != "" && AllDigits(digits)
    ensures Atoi("+" + digits) == Atoi(digits)
    ensures var n: int := Number(digits);
            Atoi("-" + digits) == if n <= MAX_INT + 1 then Some(-n) else None
  {
    AtoiDigits(digits);
    assert ("+" + digits)[1..] == digits == ("-" + digits)[1..];
  }

  /** The forms `strconv.Atoi` takes besides the canonical one: leading zeros and a sign. */
  lemma AtoiForms(digits: string)
    requires digits != "" && AllDigits(digits)
    ensures Atoi("0" + digits) == Atoi("+" + digits) == Atoi(digits)
    ensures var n: int := Number(digits);
            Atoi("-" + digits) == if n <= MAX_INT + 1 then Some(-n) else None
  {
    NumberOfZeros(digits);
    AtoiDigits(digits);
    AtoiDigits("0" + digits);
    AtoiSigned(digits);
  }

  /** Nothing else is a number. */
  lemma AtoiRefuses(s: string)
    ensures Atoi(s).Some? ==> s != "" && forall k :: 1 <= k < |s| ==> IsDigit(s[k])
    ensures Atoi(s).Some? ==> IsDigit(s[0]) || (|s| > 1 && (s[0] == '-' || s[0] == '+'))
  {
    if Signed(s) {
      assert forall k :: 1 <= k < |s| ==> s[k] == s[1..][k - 1];
    }
  }
}
