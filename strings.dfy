/**
 * Strings as the rotator uses them: Go's ordering of strings (byte-wise
 * lexicographic, which for UTF-8 text is the code-point order used here),
 * the least element of a list of strings, suffix tests, and the base-10
 * formatting of `strconv.FormatInt` together with its inverse.
 */
module Strings {
  import opened Wrappers

  // ---------------------------------------------------------------------
  // Lexicographic order
  // ---------------------------------------------------------------------

  /** `a <= b` in Go's string order. */
  predicate Le(a: string, b: string)
    decreases |a|
  {
    |a| == 0 || (|b| != 0 && (a[0] < b[0] || (a[0] == b[0] && Le(a[1..], b[1..]))))
  }

  lemma {:induction false} LeReflexive(a: string)
    ensures Le(a, a)
    decreases |a|
  {
    if |a| != 0 {
      LeReflexive(a[1..]);
    }
  }

  lemma {:induction false} LeTotal(a: string, b: string)
    ensures Le(a, b) || Le(b, a)
    decreases |a|
  {
    if |a| != 0 && |b| != 0 && a[0] == b[0] {
      LeTotal(a[1..], b[1..]);
    }
  }

  lemma {:induction false} LeTransitive(a: string, b: string, c: string)
    requires Le(a, b) && Le(b, c)
    ensures Le(a, c)
    decreases |a|
  {
    if |a| != 0 && a[0] == b[0] && b[0] == c[0] {
      LeTransitive(a[1..], b[1..], c[1..]);
    }
  }

  lemma {:induction false} LeAntisymmetric(a: string, b: string)
    requires Le(a, b) && Le(b, a)
    ensures a == b
    decreases |a|
  {
    if |a| != 0 {
      LeAntisymmetric(a[1..], b[1..]);
      assert a == [a[0]] + a[1..] && b == [b[0]] + b[1..];
    }
  }

  /** A common prefix does not change the order of two strings. */
  lemma {:induction false} LeCommonPrefix(p: string, a: string, b: string)
    ensures Le(p + a, p + b) <==> Le(a, b)
    decreases |p|
  {
    if |p| != 0 {
      assert (p + a)[0] == p[0] && (p + b)[0] == p[0];
      assert (p + a)[1..] == p[1..] + a && (p + b)[1..] == p[1..] + b;
      LeCommonPrefix(p[1..], a, b);
    } else {
      assert p + a == a && p + b == b;
    }
  }

  /** A string comes no later than any of its extensions. */
  lemma LePrefixOf(a: string, b: string)
    ensures Le(a, a + b)
  {
    LeCommonPrefix(a, [], b);
    assert a + [] == a;
  }

  /**
   * Of two strings of equal length, the strictly smaller one stays strictly
   * smaller whatever is appended to either.
   */
  lemma {:induction false} LessAppend(a: string, b: string, x: string, y: string)
    requires |a| == |b| && Le(a, b) && a != b
    ensures Le(a + x, b + y) && a + x != b + y
    decreases |a|
  {
    assert (a + x)[0] == a[0] && (b + y)[0] == b[0];
    if a[0] == b[0] {
      assert a == [a[0]] + a[1..] && b == [b[0]] + b[1..];
      assert a[1..] != b[1..];
      assert (a + x)[1..] == a[1..] + x && (b + y)[1..] == b[1..] + y;
      LessAppend(a[1..], b[1..], x, y);
    }
  }

  /**
   * The first element of `sort.Strings(list)`: the least string of a
   * non-empty list.
   */
  function Least(list: seq<string>): (m: string)
    requires |list| > 0
    ensures m in list
    ensures forall x :: x in list ==> Le(m, x)
  {
    if |list| == 1 then
      LeReflexive(list[0]);
      list[0]
    else
      var rest := Least(list[1..]);
      LeTotal(list[0], rest);
      LeReflexive(list[0]);
      if Le(list[0], rest) then
        LeTransitiveFrom(list[0], rest, list[1..]);
        list[0]
      else
        rest
  }

  lemma LeTransitiveFrom(a: string, b: string, list: seq<string>)
    requires Le(a, b)
    requires forall x :: x in list ==> Le(b, x)
    ensures forall x :: x in list ==> Le(a, x)
  {
    forall x | x in list
      ensures Le(a, x)
    {
      LeTransitive(a, b, x);
    }
  }

  /** Two least elements of the same set of strings are the same string. */
  lemma LeastIsUnique(list: seq<string>, m: string)
    requires |list| > 0 && m in list
    requires forall x :: x in list ==> Le(m, x)
    ensures Least(list) == m
  {
    LeAntisymmetric(Least(list), m);
  }

  // ---------------------------------------------------------------------
  // Suffixes
  // ---------------------------------------------------------------------

  /** `strings.HasSuffix(s, suffix)`. */
  predicate HasSuffix(s: string, suffix: string) {
    |s| >= |suffix| && s[|s| - |suffix|..] == suffix
  }

  lemma HasSuffixOfAppend(s: string, suffix: string)
    ensures HasSuffix(s + suffix, suffix)
  {
    assert (s + suffix)[|s|..] == suffix;
  }

  lemma HasSuffixOfExtension(s: string, t: string, suffix: string)
    requires HasSuffix(t, suffix)
    ensures HasSuffix(s + t, suffix)
  {
    assert (s + t)[|s + t| - |suffix|..] == t[|t| - |suffix|..];
  }

  // ---------------------------------------------------------------------
  // Base-10 formatting
  // ---------------------------------------------------------------------

  function DigitChar(d: int): (c: char)
    requires 0 <= d < 10
    ensures '0' <= c <= '9'
  {
    (('0' as int) + d) as char
  }

  function DigitValue(c: char): (d: nat)
    requires '0' <= c <= '9'
    ensures d < 10
  {
    (c as int) - ('0' as int)
  }

  /** The decimal digits of a natural number, most significant first, no leading zeros. */
  function Digits(n: nat): (s: string)
    ensures |s| >= 1
    decreases n
  {
    if n < 10 then [DigitChar(n)] else Digits(n / 10) + [DigitChar(n % 10)]
  }

  /** `strconv.FormatInt(i, 10)`. */
  function FormatInt(i: int): string {
    if i < 0 then "-" + Digits(-i) else Digits(i)
  }

  predicate AllDigits(s: string) {
    forall k :: 0 <= k < |s| ==> '0' <= s[k] <= '9'
  }

  /** Reads a non-empty string of decimal digits back as a number. */
  function ParseDigits(s: string): nat
    requires |s| >= 1 && AllDigits(s)
    decreases |s|
  {
    var last := DigitValue(s[|s| - 1]);
    if |s| == 1 then last else ParseDigits(s[..|s| - 1]) * 10 + last
  }

  /** The reading of a base-10 integer: the inverse of `FormatInt`. */
  function ParseInt(s: string): Option<int> {
    if |s| >= 2 && s[0] == '-' && AllDigits(s[1..]) then Some(0 - ParseDigits(s[1..]) as int)
    else if |s| >= 1 && AllDigits(s) then Some(ParseDigits(s))
    else None
  }

  lemma {:induction false} DigitsRoundTrip(n: nat)
    ensures AllDigits(Digits(n)) && ParseDigits(Digits(n)) == n
    decreases n
  {
    if n >= 10 {
      DigitsRoundTrip(n / 10);
      var s := Digits(n);
      assert s[..|s| - 1] == Digits(n / 10);
      assert s[|s| - 1] == DigitChar(n % 10);
    }
  }

  /** Formatting then parsing gives the number back. */
  lemma FormatIntRoundTrip(i: int)
    ensures ParseInt(FormatInt(i)) == Some(i)
  {
    if i < 0 {
      var d := Digits(-i);
      DigitsRoundTrip(-i);
      var s := "-" + d;
      assert s == FormatInt(i);
      assert s[0] == '-' && s[1..] == d;
      assert ParseInt(s) == Some(0 - ParseDigits(d) as int);
    } else {
      var d := Digits(i);
      DigitsRoundTrip(i);
      assert d == FormatInt(i);
      assert '0' <= d[0];
      assert ParseInt(d) == Some(ParseDigits(d) as int);
    }
  }

  /** Distinct numbers are formatted as distinct strings. */
  lemma FormatIntInjective(i: int, j: int)
    requires FormatInt(i) == FormatInt(j)
    ensures i == j
  {
    FormatIntRoundTrip(i);
    FormatIntRoundTrip(j);
  }

  /**
   * For numbers with the same count of digits, string order is numeric
   * order.
   */
  lemma {:induction false} DigitsOrder(a: nat, b: nat)
    requires a < b && |Digits(a)| == |Digits(b)|
    ensures Le(Digits(a), Digits(b)) && Digits(a) != Digits(b)
    decreases a
  {
    if a < 10 {
      assert b < 10;
      assert DigitChar(a) < DigitChar(b);
    } else {
      var p, q := Digits(a / 10), Digits(b / 10);
      var x, y := [DigitChar(a % 10)], [DigitChar(b % 10)];
      if a / 10 < b / 10 {
        DigitsOrder(a / 10, b / 10);
        LessAppend(p, q, x, y);
      } else {
        assert p == q && a % 10 < b % 10;
        LeCommonPrefix(p, x, y);
        assert DigitChar(a % 10) < DigitChar(b % 10);
        assert (p + x)[|p|] != (q + y)[|q|];
      }
    }
  }
}
