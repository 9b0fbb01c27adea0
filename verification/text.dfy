/** Character-level helpers: Python's `str.strip()` as used on the custom
    address (main.py:254) and the decimal rendering of a latency that has
    been rounded to two places (main.py:92, printed at main.py:359). */
module Text {

  import opened Wrappers

  /** The characters Python's `str.isspace()` accepts; `str.strip()` with no
      argument removes exactly these from both ends. */
  predicate IsSpace(c: char) {
    || c == ' ' || c == '\t' || c == '\n' || c == '\r'
    || c == '\U{0B}' || c == '\U{0C}'
    || ('\U{1C}' <= c <= '\U{1F}')
    || c == '\U{85}' || c == '\U{A0}' || c == '\U{1680}'
    || ('\U{2000}' <= c <= '\U{200A}')
    || c == '\U{2028}' || c == '\U{2029}' || c == '\U{202F}'
    || c == '\U{205F}' || c == '\U{3000}'
  }

  predicate AllSpace(s: string) {
    forall i :: 0 <= i < |s| ==> IsSpace(s[i])
  }

  /** Length of the whitespace run at the start of `s`. */
  function LeadingSpaces(s: string): (n: nat)
    ensures n <= |s|
    ensures AllSpace(s[..n])
    ensures n < |s| ==> !IsSpace(s[n])
  {
    if |s| > 0 && IsSpace(s[0]) then 1 + LeadingSpaces(s[1..]) else 0
  }

  /** Length of the whitespace run at the end of `s`. */
  function TrailingSpaces(s: string): (n: nat)
    ensures n <= |s|
    ensures AllSpace(s[|s| - n..])
    ensures n < |s| ==> !IsSpace(s[|s| - n - 1])
  {
    if |s| > 0 && IsSpace(s[|s| - 1]) then 1 + TrailingSpaces(s[..|s| - 1]) else 0
  }

  /** The first non-space index is determined by the two facts `LeadingSpaces`
      promises. */
  lemma LeadingSpacesUnique(s: string, n: nat)
    requires n <= |s| && AllSpace(s[..n])
    requires n < |s| ==> !IsSpace(s[n])
    ensures LeadingSpaces(s) == n
  {
    var m := LeadingSpaces(s);
    forall i | 0 <= i < |s| && i < m ensures IsSpace(s[i]) {
      assert s[..m][i] == s[i];
    }
    forall i | 0 <= i < |s| && i < n ensures IsSpace(s[i]) {
      assert s[..n][i] == s[i];
    }
  }

  lemma TrailingSpacesUnique(s: string, n: nat)
    requires n <= |s| && AllSpace(s[|s| - n..])
    requires n < |s| ==> !IsSpace(s[|s| - n - 1])
    ensures TrailingSpaces(s) == n
  {
    SpaceRunsAgree(s, |s| - TrailingSpaces(s), |s| - n);
  }

  /** Two indices from which on everything is blank, each preceded by a
      non-blank character or the start, are the same index. */
  lemma SpaceRunsAgree(s: string, a: int, b: int)
    requires 0 <= a <= |s| && AllSpace(s[a..]) && (0 < a ==> !IsSpace(s[a - 1]))
    requires 0 <= b <= |s| && AllSpace(s[b..]) && (0 < b ==> !IsSpace(s[b - 1]))
    ensures a == b
  {
    SuffixSpaceFrom(s, a);
    SuffixSpaceFrom(s, b);
    SpaceFromFirst(s, a, b);
    SpaceFromFirst(s, b, a);
  }

  lemma SuffixSpaceFrom(s: string, a: int)
    requires 0 <= a <= |s| && AllSpace(s[a..])
    ensures SpaceFrom(s, a)
  {
    forall i | a <= i < |s| ensures IsSpace(s[i]) {
      assert s[a..][i - a] == s[i];
    }
  }

  /** Every character from index `a` on is whitespace. */
  predicate SpaceFrom(s: string, a: int) {
    forall i :: 0 <= a <= i < |s| ==> IsSpace(s[i])
  }

  lemma SpaceFromFirst(s: string, a: int, b: int)
    requires 0 <= a <= |s| && 0 <= b <= |s|
    requires SpaceFrom(s, a)
    requires 0 < b ==> !IsSpace(s[b - 1])
    ensures b <= a
  {
  }

  /** Python's `str.strip()`: `s` with the whitespace at both ends removed. */
  function Strip(s: string): (r: string)
    ensures r == [] <==> AllSpace(s)
    ensures r != [] ==> !IsSpace(r[0]) && !IsSpace(r[|r| - 1])
    ensures |r| <= |s|
    ensures exists a :: 0 <= a <= |s| - |r| && r == s[a..a + |r|]
                         && AllSpace(s[..a]) && AllSpace(s[a + |r|..])
  {
    var a := LeadingSpaces(s);
    if a == |s| then
      assert s[..a] == s;
      assert s[..0] == [] && s[0..] == s;
      []
    else
      var b := |s| - TrailingSpaces(s);
      forall i | b <= i < |s| ensures IsSpace(s[i]) {
        assert s[b..][i - b] == s[i];
      }
      assert a < b;
      var r := s[a..b];
      assert s[a + |r|..] == s[b..];
      assert r[0] == s[a] && r[|r| - 1] == s[b - 1];
      assert !AllSpace(s) by { assert !IsSpace(s[a]); }
      r
  }

  /** Stripping a string whose ends are not blank, surrounded by blanks,
      gives it back: `strip` removes exactly the surrounding whitespace. */
  lemma StripSurrounded(pre: string, core: string, post: string)
    requires AllSpace(pre) && AllSpace(post)
    requires core != [] ==> !IsSpace(core[0]) && !IsSpace(core[|core| - 1])
    ensures Strip(pre + core + post) == core
  {
    var s := pre + core + post;
    if core == [] {
      assert s == pre + post;
      assert AllSpace(s) by {
        forall i | 0 <= i < |s| ensures IsSpace(s[i]) {
          if i < |pre| { assert s[i] == pre[i]; } else { assert s[i] == post[i - |pre|]; }
        }
      }
    } else {
      assert s[..|pre|] == pre;
      assert s[|pre|] == core[0];
      LeadingSpacesUnique(s, |pre|);
      assert s[|s| - |post|..] == post;
      assert s[|s| - |post| - 1] == core[|core| - 1];
      TrailingSpacesUnique(s, |post|);
      assert s[|pre|..|s| - |post|] == core;
    }
  }

  /** Stripping twice is stripping once. */
  lemma StripIdempotent(s: string)
    ensures Strip(Strip(s)) == Strip(s)
  {
    StripSurrounded([], Strip(s), []);
    assert [] + Strip(s) + [] == Strip(s);
  }

  // ---------------------------------------------------------------------------
  // Decimal numerals

  predicate IsDigit(c: char) {
    '0' <= c <= '9'
  }

  predicate AllDigits(s: string) {
    forall i :: 0 <= i < |s| ==> IsDigit(s[i])
  }

  function DigitChar(d: nat): char
    requires d < 10
  {
    ('0' as int + d) as char
  }

  function DigitValue(c: char): nat
    requires IsDigit(c)
  {
    c as int - '0' as int
  }

  /** The decimal numeral of `n`, without leading zeros. */
  function Decimal(n: nat): (r: string)
    ensures r != [] && AllDigits(r)
    ensures r[0] == '0' ==> n == 0
  {
    if n < 10 then [DigitChar(n)] else Decimal(n / 10) + [DigitChar(n % 10)]
  }

  /** The number a string of digits denotes. */
  function DigitsValue(s: string): nat
    requires AllDigits(s)
  {
    if s == [] then 0 else DigitsValue(s[..|s| - 1]) * 10 + DigitValue(s[|s| - 1])
  }

  lemma {:induction false} DecimalRoundTrip(n: nat)
    ensures DigitsValue(Decimal(n)) == n
  {
    if n >= 10 {
      var r := Decimal(n);
      assert r[..|r| - 1] == Decimal(n / 10);
      DecimalRoundTrip(n / 10);
    }
  }

  /** The first index of `c` in `s`, if any. */
  function Find(s: string, c: char): (r: Option<nat>)
    ensures r.Some? ==> r.value < |s| && s[r.value] == c
                        && forall j :: 0 <= j < r.value ==> s[j] != c
    ensures r.None? <==> c !in s
  {
    if s == [] then None
    else if s[0] == c then Some(0)
    else match Find(s[1..], c)
      case None => None
      case Some(k) => Some(k + 1)
  }

  // ---------------------------------------------------------------------------
  // Latencies in hundredths of a millisecond

  /** The digits after the point of `str(round(x, 2))` for fractional
      hundredths `f`: two digits, or one when the second would be a
      trailing zero (Python prints 12.5, not 12.50, and 12.0 for a whole
      number). */
  function Fraction(f: nat): string
    requires f < 100
  {
    if f % 10 == 0 then [DigitChar(f / 10)] else [DigitChar(f / 10), DigitChar(f % 10)]
  }

  /** How Python prints a float that `round(_, 2)` produced, for a value of
      `h` hundredths. */
  function Hundredths(h: nat): (r: string)
    ensures '.' in r
    ensures r[|r| - 1] == '0' ==> h % 100 == 0
  {
    Decimal(h / 100) + "." + Fraction(h % 100)
  }

  /** Reads back a number printed by `Hundredths`: digits, a point, then one
      or two digits. */
  function ParseHundredths(s: string): (r: Option<nat>)
    ensures r.Some? ==> '.' in s
  {
    match Find(s, '.')
    case None => None
    case Some(k) =>
      var whole, frac := s[..k], s[k + 1..];
      if whole != [] && AllDigits(whole) && 1 <= |frac| <= 2 && AllDigits(frac) then
        var cents := if |frac| == 1 then DigitValue(frac[0]) * 10
                     else DigitValue(frac[0]) * 10 + DigitValue(frac[1]);
        Some(DigitsValue(whole) * 100 + cents)
      else
        None
  }

  lemma HundredthsRoundTrip(h: nat)
    ensures ParseHundredths(Hundredths(h)) == Some(h)
  {
    var whole := Decimal(h / 100);
    var frac := Fraction(h % 100);
    var s := Hundredths(h);
    assert s == whole + "." + frac;
    assert Find(s, '.') == Some(|whole|) by {
      assert s[|whole|] == '.';
      assert forall j :: 0 <= j < |whole| ==> s[j] == whole[j];
    }
    assert s[..|whole|] == whole;
    assert s[|whole| + 1..] == frac;
    DecimalRoundTrip(h / 100);
  }

  /** Python's own output for a few rounded latencies. */
  lemma HundredthsExamples()
    ensures Hundredths(1235) == "12.35"
    ensures Hundredths(1250) == "12.5"
    ensures Hundredths(1200) == "12.0"
    ensures Hundredths(5) == "0.05"
  {
    assert Decimal(0) == "0";
    assert Decimal(12) == "12" by {
      assert Decimal(1) == "1";
    }
  }

  /** Distinct latencies print differently. */
  lemma HundredthsInjective(a: nat, b: nat)
    requires Hundredths(a) == Hundredths(b)
    ensures a == b
  {
    HundredthsRoundTrip(a);
    HundredthsRoundTrip(b);
  }
}
