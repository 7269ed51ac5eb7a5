/**
 * The two pieces of Python string handling the dashboard relies on:
 * `str.strip()` with no argument, and the decimal conversions `str(int)` and
 * `int(str)` that carry occupancy counts through the CSV file and into the
 * library column names.
 */
module Text {
  import opened Optional

  /** The characters `str.isspace()` accepts, hence the ones `str.strip()` removes. */
  predicate IsSpace(c: char) {
    || ('\t' <= c <= '\r')
    || ('\U{1C}' <= c <= '\U{1F}')
    || c == ' ' || c == '\U{85}' || c == '\U{A0}' || c == '\U{1680}'
    || ('\U{2000}' <= c <= '\U{200A}')
    || c == '\U{2028}' || c == '\U{2029}' || c == '\U{202F}' || c == '\U{205F}'
    || c == '\U{3000}'
  }

  predicate IsDigit(c: char) {
    '0' <= c <= '9'
  }

  predicate AllDigits(s: string) {
    forall i :: 0 <= i < |s| ==> IsDigit(s[i])
  }

  function DigitChar(d: nat): (c: char)
    requires d < 10
    ensures IsDigit(c)
  {
    ('0' as int + d) as char
  }

  function DigitValue(c: char): (d: nat)
    requires IsDigit(c)
    ensures d < 10 && DigitChar(d) == c
  {
    c as int - '0' as int
  }

  // ---------------------------------------------------------------- strip

  /** How many whitespace characters `s` starts with. */
  function LeadingSpaces(s: string): (n: nat)
    ensures n <= |s|
    ensures forall i :: 0 <= i < n ==> IsSpace(s[i])
    ensures n < |s| ==> !IsSpace(s[n])
    decreases |s|
  {
    if |s| > 0 && IsSpace(s[0]) then
      var m := LeadingSpaces(s[1..]);
      assert forall i :: 1 <= i < m + 1 ==> s[i] == s[1..][i - 1];
      m + 1
    else 0
  }

  /** How many whitespace characters `s` ends with. */
  function TrailingSpaces(s: string): (n: nat)
    ensures n <= |s|
    ensures forall i :: |s| - n <= i < |s| ==> IsSpace(s[i])
    ensures n < |s| ==> !IsSpace(s[|s| - n - 1])
    decreases |s|
  {
    if |s| > 0 && IsSpace(s[|s| - 1]) then
      var m := TrailingSpaces(s[..|s| - 1]);
      assert forall i :: |s| - 1 - m <= i < |s| - 1 ==> s[i] == s[..|s| - 1][i];
      m + 1
    else 0
  }

  /**
   * Python's `s.strip()`: whitespace removed from both ends, so what remains
   * neither starts nor ends with whitespace (`StripRemovesOnlySpace` says
   * what was removed).
   */
  function Strip(s: string): (r: string)
    ensures |r| <= |s|
    ensures |r| > 0 ==> !IsSpace(r[0]) && !IsSpace(r[|r| - 1])
  {
    var a := LeadingSpaces(s);
    var b := TrailingSpaces(s[a..]);
    s[a..|s| - b]
  }

  /** The strip of `s` is an infix of `s`, and everything on either side of it is whitespace. */
  lemma {:induction false} StripRemovesOnlySpace(s: string)
    ensures var a := LeadingSpaces(s); var r := Strip(s);
            && a + |r| <= |s| && r == s[a..a + |r|]
            && (forall i :: 0 <= i < a ==> IsSpace(s[i]))
            && (forall i :: a + |r| <= i < |s| ==> IsSpace(s[i]))
  {
    var a := LeadingSpaces(s);
    var b := TrailingSpaces(s[a..]);
    assert forall i :: |s| - b <= i < |s| ==> s[i] == s[a..][i - a];
  }

  /** A string that neither starts nor ends with whitespace is its own strip. */
  lemma {:induction false} StripUnchanged(s: string)
    requires |s| > 0 ==> !IsSpace(s[0]) && !IsSpace(s[|s| - 1])
    ensures Strip(s) == s
  {
  }

  /** Stripping twice is stripping once. */
  lemma {:induction false} StripIdempotent(s: string)
    ensures Strip(Strip(s)) == Strip(s)
  {
    StripUnchanged(Strip(s));
  }

  // ---------------------------------------------------------------- str(int)

  /** The decimal digits of a natural number, most significant first, without leading zeros. */
  function Digits(n: nat): (s: string)
    ensures |s| > 0 && AllDigits(s)
    ensures |s| > 1 ==> s[0] != '0'
  {
    if n < 10 then [DigitChar(n)] else Digits(n / 10) + [DigitChar(n % 10)]
  }

  /** Python's `str(n)` for an integer `n`. */
  function Decimal(n: int): (s: string)
    ensures |s| > 0 && !IsSpace(s[0]) && !IsSpace(s[|s| - 1])
    ensures forall i :: 0 <= i < |s| ==> s[i] != ' '
    ensures n >= 0 ==> AllDigits(s)
  {
    if n < 0 then "-" + Digits(-n) else Digits(n)
  }

  // ---------------------------------------------------------------- int(str)

  /** Digit strings with Python's optional single underscores between digits, as `int()` accepts them. */
  predicate WellFormedDigits(s: string) {
    && |s| > 0
    && IsDigit(s[0])
    && IsDigit(s[|s| - 1])
    && (forall i :: 0 <= i < |s| ==> IsDigit(s[i]) || s[i] == '_')
    && (forall i :: 0 <= i < |s| - 1 ==> s[i] == '_' ==> s[i + 1] != '_')
  }

  /** The number a digit string denotes, underscores ignored. */
  function DigitsValue(s: string): nat
    requires forall i :: 0 <= i < |s| ==> IsDigit(s[i]) || s[i] == '_'
  {
    if |s| == 0 then 0
    else if s[|s| - 1] == '_' then DigitsValue(s[..|s| - 1])
    else DigitsValue(s[..|s| - 1]) * 10 + DigitValue(s[|s| - 1])
  }

  /**
   * The whitespace `int()` skips around the digits: `\t`, `\n`, `\v`, `\f`,
   * `\r`, space, and every non-ASCII character `str.isspace()` accepts. The
   * ASCII separators U+001C..U+001F count as whitespace for `str.strip()`
   * but not for `int()`.
   */
  predicate IsIntSpace(c: char) {
    IsSpace(c) && !('\U{1C}' <= c <= '\U{1F}')
  }

  /** Every character of `s[lo..hi]` is whitespace to `int()`. */
  predicate IntSpaceBetween(s: string, lo: nat, hi: nat)
    requires lo <= hi <= |s|
  {
    forall i :: lo <= i < hi ==> IsIntSpace(s[i])
  }

  /**
   * Python's `int(s)` for a string: whitespace around the number is skipped
   * (`IsIntSpace`), then one optional sign and decimal digits; `None` stands
   * for the `ValueError` the conversion raises on anything else.
   */
  function ParseInt(s: string): (r: Option<int>)
    ensures r.Some? ==> exists i :: 0 <= i < |s| && IsDigit(s[i])
    ensures (forall i :: 0 <= i < |s| ==> IsSpace(s[i])) ==> r == None
  {
    StripRemovesOnlySpace(s);
    var a := LeadingSpaces(s);
    var t := Strip(s);
    if !IntSpaceBetween(s, 0, a) || !IntSpaceBetween(s, a + |t|, |s|) then None
    else if |t| > 0 && (t[0] == '-' || t[0] == '+') then
      var body := t[1..];
      if WellFormedDigits(body) then
        Some(if t[0] == '-' then -(DigitsValue(body) as int) else DigitsValue(body))
      else None
    else if WellFormedDigits(t) then Some(DigitsValue(t))
    else None
  }

  /** A separator character U+001C..U+001F at either end makes `int()` raise, though `strip()` would remove it. */
  lemma {:induction false} SeparatorRejected(s: string)
    requires |s| > 0
    requires '\U{1C}' <= s[0] <= '\U{1F}' || '\U{1C}' <= s[|s| - 1] <= '\U{1F}'
    ensures ParseInt(s) == None
  {
    StripRemovesOnlySpace(s);
    var a := LeadingSpaces(s);
    var t := Strip(s);
    if '\U{1C}' <= s[0] <= '\U{1F}' {
      assert !IsIntSpace(s[0]);
    } else {
      var j := |s| - 1;
      assert !IsIntSpace(s[j]);
      if j < a {
        assert !IntSpaceBetween(s, 0, a);
      } else {
        assert |t| > 0 ==> t[|t| - 1] == s[a + |t| - 1];
        assert a + |t| <= j;
        assert !IntSpaceBetween(s, a + |t|, |s|);
      }
    }
  }

  lemma {:induction false} DigitsValueOfDigits(n: nat)
    ensures DigitsValue(Digits(n)) == n
    decreases n
  {
    if n >= 10 {
      var s := Digits(n);
      assert s[..|s| - 1] == Digits(n / 10);
      DigitsValueOfDigits(n / 10);
    }
  }

  lemma {:induction false} DigitsWellFormed(n: nat)
    ensures WellFormedDigits(Digits(n))
    ensures Digits(n)[0] != '-' && Digits(n)[0] != '+'
  {
    var d := Digits(n);
    assert IsDigit(d[0]) && IsDigit(d[|d| - 1]);
  }

  lemma {:induction false} ParseUnsigned(t: string)
    requires Strip(t) == t && WellFormedDigits(t)
    ensures ParseInt(t) == Some(DigitsValue(t) as int)
  {
    assert t[0] != '-' && t[0] != '+';
  }

  lemma {:induction false} ParseNegative(t: string)
    requires Strip(t) == t && |t| > 0 && t[0] == '-' && WellFormedDigits(t[1..])
    ensures ParseInt(t) == Some(-(DigitsValue(t[1..]) as int))
  {
  }

  /** `int(str(n)) == n`: every count written to the CSV file reads back as itself. */
  lemma {:induction false} ParseDecimalRoundTrip(n: int)
    ensures ParseInt(Decimal(n)) == Some(n)
  {
    if n < 0 {
      NegativeRoundTrip(n);
    } else {
      NaturalRoundTrip(n);
    }
  }

  lemma {:induction false} NaturalRoundTrip(n: nat)
    ensures ParseInt(Digits(n)) == Some(n)
  {
    var s := Digits(n);
    StripUnchanged(s);
    DigitsWellFormed(n);
    DigitsValueOfDigits(n);
    ParseUnsigned(s);
  }

  lemma {:induction false} NegativeRoundTrip(n: int)
    requires n < 0
    ensures ParseInt(Decimal(n)) == Some(n)
  {
    var m: nat := -n;
    var d := Digits(m);
    var s := "-" + d;
    assert Decimal(n) == s;
    assert s[1..] == d;
    assert s[|s| - 1] == d[|d| - 1] && IsDigit(d[|d| - 1]);
    StripUnchanged(s);
    DigitsWellFormed(m);
    DigitsValueOfDigits(m);
    ParseNegative(s);
  }

  /** Distinct integers have distinct decimal renderings. */
  lemma {:induction false} DecimalInjective(a: int, b: int)
    requires Decimal(a) == Decimal(b)
    ensures a == b
  {
    ParseDecimalRoundTrip(a);
    ParseDecimalRoundTrip(b);
  }
}
