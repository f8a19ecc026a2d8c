/**
 * The java.lang behaviour the configuration code depends on: Integer.parseInt,
 * Boolean.valueOf, String.indexOf, String.split on a literal character, and
 * the decimal rendering of an int (the inverse that parseInt is checked against).
 */
module JavaLang {
  import opened Wrappers

  /** The unchecked exceptions the modelled code can raise. */
  datatype Error =
    | NumberFormat(input: string)     // NumberFormatException from Integer.parseInt
    | IndexOutOfBounds(index: int)    // ArrayIndexOutOfBoundsException
    | NullPointer(message: string)    // NullPointerException

  predicate StartsWith(s: string, prefix: string) {
    prefix <= s
  }

  predicate EndsWith(s: string, suffix: string) {
    |suffix| <= |s| && s[|s| - |suffix|..] == suffix
  }

  // ---------------------------------------------------------------------------
  // Decimal digits

  predicate IsDigit(c: char) {
    '0' <= c <= '9'
  }

  predicate AllDigits(s: string) {
    forall i :: 0 <= i < |s| ==> IsDigit(s[i])
  }

  function DigitValue(c: char): (d: nat)
    requires IsDigit(c)
    ensures d < 10
  {
    (c as int) - ('0' as int)
  }

  function DigitChar(d: nat): (c: char)
    requires d < 10
    ensures IsDigit(c) && DigitValue(c) == d
  {
    (('0' as int) + d) as char
  }

  /** The value of a string of decimal digits, most significant first. */
  function DigitsValue(s: string): nat
    requires AllDigits(s)
    decreases |s|
  {
    if s == [] then 0 else DigitsValue(s[..|s| - 1]) * 10 + DigitValue(s[|s| - 1])
  }

  /** Decimal rendering of a natural number, without leading zeros. */
  function NatToString(n: nat): (s: string)
    ensures |s| > 0 && AllDigits(s)
    decreases n
  {
    if n < 10 then [DigitChar(n)] else NatToString(n / 10) + [DigitChar(n % 10)]
  }

  /** Integer.toString: a minus sign for negative values, then the digits. */
  function IntToString(n: int): (s: string)
    ensures |s| > 0
    ensures n >= 0 ==> AllDigits(s)
    ensures n < 0 ==> s[0] == '-' && AllDigits(s[1..])
  {
    if n < 0 then "-" + NatToString(-n) else NatToString(n)
  }

  lemma {:induction false} NatToStringValue(n: nat)
    ensures DigitsValue(NatToString(n)) == n
    decreases n
  {
    if n >= 10 {
      var s := NatToString(n);
      NatToStringValue(n / 10);
      assert s[..|s| - 1] == NatToString(n / 10);
    }
  }

  // ---------------------------------------------------------------------------
  // Integer.parseInt(s), radix 10

  /**
   * Integer.parseInt: an optional leading '-' or '+', then at least one digit.
   * Empty text, a lone sign or any non-digit raises NumberFormatException.
   */
  function ParseInt(s: string): (r: Result<int, Error>)
    ensures r.Err? ==> r.error == NumberFormat(s)
    ensures AllDigits(s) && s != [] ==> r == Ok(DigitsValue(s))
    ensures s == [] ==> r.Err?
  {
    if |s| == 0 then Err(NumberFormat(s))
    else if s[0] == '-' || s[0] == '+' then
      if |s| == 1 || !AllDigits(s[1..]) then Err(NumberFormat(s))
      else
        var magnitude: int := DigitsValue(s[1..]);
        Ok(if s[0] == '-' then -magnitude else magnitude)
    else if !AllDigits(s) then Err(NumberFormat(s))
    else Ok(DigitsValue(s))
  }

  /** parseInt reads back every int that toString renders. */
  lemma ParseIntToString(n: int)
    ensures ParseInt(IntToString(n)) == Ok(n)
  {
    if n < 0 {
      var s := IntToString(n);
      assert s[1..] == NatToString(-n);
      NatToStringValue(-n);
    } else {
      NatToStringValue(n);
    }
  }

  // ---------------------------------------------------------------------------
  // Boolean.valueOf(String)

  function AsciiLower(c: char): char {
    if 'A' <= c <= 'Z' then ((c as int) + 32) as char else c
  }

  /**
   * String.equalsIgnoreCase, with case folding restricted to ASCII letters;
   * no other character folds to one of the letters of "true".
   */
  predicate EqualsIgnoreCase(a: string, b: string) {
    |a| == |b| && forall i :: 0 <= i < |a| ==> AsciiLower(a[i]) == AsciiLower(b[i])
  }

  /** Boolean.valueOf(String): true exactly for a non-null "true" in any case. */
  function ParseBoolean(s: Option<string>): (b: bool)
    ensures s.None? ==> !b
    ensures s.Some? ==> (b <==> EqualsIgnoreCase(s.value, "true"))
  {
    s.Some? && EqualsIgnoreCase(s.value, "true")
  }

  /** Letter by letter: true exactly for four characters spelling t, r, u, e, each in either case. */
  lemma ParseBooleanLetters(s: string)
    ensures ParseBoolean(Some(s)) <==>
              |s| == 4 && (s[0] == 't' || s[0] == 'T') && (s[1] == 'r' || s[1] == 'R')
              && (s[2] == 'u' || s[2] == 'U') && (s[3] == 'e' || s[3] == 'E')
  {
    if |s| == 4 {
      assert "true"[0] == 't' && "true"[1] == 'r' && "true"[2] == 'u' && "true"[3] == 'e';
    }
  }

  lemma ParseBooleanExamples()
    ensures ParseBoolean(Some("True")) && ParseBoolean(Some("TRUE"))
    ensures !ParseBoolean(Some("yes")) && !ParseBoolean(Some("false")) && !ParseBoolean(None)
  {
    assert AsciiLower('T') == 't';
    assert AsciiLower('R') == 'r' && AsciiLower('U') == 'u' && AsciiLower('E') == 'e';
  }

  // ---------------------------------------------------------------------------
  // String.indexOf(str, fromIndex)

  predicate OccursAt(s: string, p: string, j: int) {
    0 <= j && j + |p| <= |s| && s[j..j + |p|] == p
  }

  /** An occurrence of p + q is an occurrence of p followed by one of q. */
  lemma OccursAtConcat(s: string, p: string, q: string, j: int)
    ensures OccursAt(s, p + q, j) <==> OccursAt(s, p, j) && OccursAt(s, q, j + |p|)
  {
    if 0 <= j && j + |p| + |q| <= |s| {
      assert s[j..j + |p| + |q|] == s[j..j + |p|] + s[j + |p|..j + |p| + |q|];
      if s[j..j + |p| + |q|] == p + q {
        assert s[j..j + |p|] == (p + q)[..|p|];
        assert s[j + |p|..j + |p| + |q|] == (p + q)[|p|..];
      }
    }
  }

  /** The first occurrence of p at or after from, or -1. */
  function IndexOf(s: string, p: string, from: nat): (r: int)
    requires |p| > 0
    ensures r == -1 || from <= r <= |s| - |p|
    decreases |s| - from
  {
    if from + |p| > |s| then -1
    else if s[from..from + |p|] == p then from
    else IndexOf(s, p, from + 1)
  }

  /** The index found is an occurrence. */
  lemma {:induction false} IndexOfFound(s: string, p: string, from: nat)
    requires |p| > 0 && IndexOf(s, p, from) != -1
    ensures OccursAt(s, p, IndexOf(s, p, from))
    decreases |s| - from
  {
    if s[from..from + |p|] != p {
      IndexOfFound(s, p, from + 1);
    }
  }

  /** No occurrence lies between from and the index found (or the end when there is none). */
  lemma {:induction false} IndexOfIsFirst(s: string, p: string, from: nat, j: int)
    requires |p| > 0 && from <= j
    requires IndexOf(s, p, from) == -1 || j < IndexOf(s, p, from)
    ensures !OccursAt(s, p, j)
    decreases |s| - from
  {
    if from + |p| <= |s| && s[from..from + |p|] != p && from < j {
      IndexOfIsFirst(s, p, from + 1, j);
    }
  }

  // ---------------------------------------------------------------------------
  // String.split(regex) for a regex matching one literal character

  /** Every piece between separators, trailing empty pieces included. */
  function SplitAll(s: string, sep: char): (parts: seq<string>)
    ensures |parts| >= 1
    ensures forall i :: 0 <= i < |parts| ==> sep !in parts[i]
    decreases |s|
  {
    if s == [] then [[]]
    else
      var rest := SplitAll(s[1..], sep);
      if s[0] == sep then [[]] + rest else [[s[0]] + rest[0]] + rest[1..]
  }

  function DropTrailingEmpty(parts: seq<string>): (r: seq<string>)
    ensures r <= parts
    ensures r == [] || r[|r| - 1] != []
    decreases |parts|
  {
    if |parts| == 0 then []
    else if parts[|parts| - 1] == [] then DropTrailingEmpty(parts[..|parts| - 1])
    else parts
  }

  /**
   * String.split: a string without the separator comes back as the only
   * element; otherwise the pieces, with trailing empty pieces removed.
   */
  function Split(s: string, sep: char): seq<string> {
    if sep !in s then [s] else DropTrailingEmpty(SplitAll(s, sep))
  }

  lemma {:induction false} SplitAllPrefix(a: string, rest: string, sep: char)
    requires sep !in a
    ensures SplitAll(a + rest, sep) == [a + SplitAll(rest, sep)[0]] + SplitAll(rest, sep)[1..]
    decreases |a|
  {
    if a == [] {
      var parts := SplitAll(rest, sep);
      assert a + rest == rest && a + parts[0] == parts[0];
      assert parts == [parts[0]] + parts[1..];
    } else {
      assert (a + rest)[1..] == a[1..] + rest;
      SplitAllPrefix(a[1..], rest, sep);
      assert [a[0]] + (a[1..] + SplitAll(rest, sep)[0]) == a + SplitAll(rest, sep)[0];
    }
  }

  /** A separator after a separator-free piece ends exactly that piece. */
  lemma SplitAllPiece(a: string, rest: string, sep: char)
    requires sep !in a
    ensures SplitAll(a + [sep] + rest, sep) == [a] + SplitAll(rest, sep)
  {
    assert a + [sep] + rest == a + ([sep] + rest);
    SplitAllPrefix(a, [sep] + rest, sep);
    assert ([sep] + rest)[1..] == rest;
    assert a + [] == a;
  }

  lemma {:induction false} SplitAllNoSeparator(s: string, sep: char)
    requires sep !in s
    ensures SplitAll(s, sep) == [s]
    decreases |s|
  {
    if s != [] {
      SplitAllNoSeparator(s[1..], sep);
      assert [s[0]] + s[1..] == s;
    }
  }

  /** Trailing empty pieces after a non-empty piece never reach into it. */
  lemma {:induction false} DropTrailingEmptyAppend(a: seq<string>, b: seq<string>)
    requires |a| > 0 && a[|a| - 1] != []
    ensures DropTrailingEmpty(a + b) == a + DropTrailingEmpty(b)
    decreases |b|
  {
    if b == [] {
      assert a + b == a;
    } else if b[|b| - 1] == [] {
      assert (a + b)[..|a + b| - 1] == a + b[..|b| - 1];
      DropTrailingEmptyAppend(a, b[..|b| - 1]);
    }
  }
}
