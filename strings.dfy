/**
 * The two string operations the task list needs: JavaScript's
 * String.prototype.trim, and the decimal rendering of a non-negative
 * integer that a template literal performs, together with a parser that
 * reads such a rendering back.
 */
module Strings {
  import opened Wrappers

  /**
   * The code points trim removes: WhiteSpace and LineTerminator as
   * sections 12.2 and 12.3 of ECMAScript 2023 define them (tab, vertical
   * tab, form feed, the Space_Separator category, no-break space, the byte
   * order mark, line feed, carriage return and the two Unicode separators).
   */
  predicate IsWhitespace(c: char) {
    || c == '\t' || c == '\n' || c == '\U{B}' || c == '\U{C}' || c == '\r' || c == ' '
    || c == '\U{A0}' || c == '\U{1680}' || ('\U{2000}' <= c <= '\U{200A}')
    || c == '\U{2028}' || c == '\U{2029}' || c == '\U{202F}' || c == '\U{205F}'
    || c == '\U{3000}' || c == '\U{FEFF}'
  }

  predicate AllWhitespace(s: string) {
    forall k :: 0 <= k < |s| ==> IsWhitespace(s[k])
  }

  /** Non-empty, and neither starting nor ending with whitespace. */
  predicate IsTrimmed(s: string) {
    |s| > 0 && !IsWhitespace(s[0]) && !IsWhitespace(s[|s| - 1])
  }

  /** The position of the first non-whitespace character of `s` at or after `from` (|s| if none). */
  function SkipStart(s: string, from: nat): (i: nat)
    requires from <= |s|
    ensures from <= i <= |s|
    ensures forall k :: from <= k < i ==> IsWhitespace(s[k])
    ensures i < |s| ==> !IsWhitespace(s[i])
    decreases |s| - from
  {
    if from < |s| && IsWhitespace(s[from]) then SkipStart(s, from + 1) else from
  }

  /** The end of `s[lo..to]` once its trailing whitespace is dropped. */
  function SkipEnd(s: string, lo: nat, to: nat): (j: nat)
    requires lo <= to <= |s|
    ensures lo <= j <= to
    ensures forall k :: j <= k < to ==> IsWhitespace(s[k])
    ensures j > lo ==> !IsWhitespace(s[j - 1])
  {
    if to > lo && IsWhitespace(s[to - 1]) then SkipEnd(s, lo, to - 1) else to
  }

  /**
   * String.prototype.trim: the slice of `s` left once the whitespace at
   * both ends is removed. It is empty exactly when `s` is all whitespace,
   * and otherwise starts and ends with a character that is not whitespace.
   */
  function Trim(s: string): (r: string)
    ensures exists i, j ::
              && 0 <= i <= j <= |s| && r == s[i..j]
              && (forall k :: 0 <= k < i ==> IsWhitespace(s[k]))
              && (forall k :: j <= k < |s| ==> IsWhitespace(s[k]))
    ensures r == [] || IsTrimmed(r)
    ensures r == [] <==> AllWhitespace(s)
  {
    var i := SkipStart(s, 0);
    var j := SkipEnd(s, i, |s|);
    assert j > i ==> s[i..j][0] == s[i] && s[i..j][j - i - 1] == s[j - 1];
    s[i..j]
  }

  /** A string that is already trimmed is left alone by trim. */
  lemma TrimOfTrimmed(s: string)
    requires IsTrimmed(s)
    ensures Trim(s) == s
  {
    var i, j :|
      && 0 <= i <= j <= |s| && Trim(s) == s[i..j]
      && (forall k :: 0 <= k < i ==> IsWhitespace(s[k]))
      && (forall k :: j <= k < |s| ==> IsWhitespace(s[k]));
    assert i == 0 && j == |s|;
  }

  /** Trimming twice is trimming once. */
  lemma TrimIdempotent(s: string)
    ensures Trim(Trim(s)) == Trim(s)
  {
    if Trim(s) != [] {
      TrimOfTrimmed(Trim(s));
    }
  }

  predicate IsDigit(c: char) {
    '0' <= c <= '9'
  }

  function DigitChar(d: nat): (c: char)
    requires d < 10
    ensures IsDigit(c)
  {
    (('0' as int) + d) as char
  }

  function DigitValue(c: char): (d: nat)
    requires IsDigit(c)
    ensures d < 10 && DigitChar(d) == c
  {
    (c as int) - ('0' as int)
  }

  predicate AllDigits(s: string) {
    forall k :: 0 <= k < |s| ==> IsDigit(s[k])
  }

  /** The decimal numeral a template literal renders for `n`: no sign, no leading zero. */
  function NatToString(n: nat): (r: string)
    ensures |r| > 0 && AllDigits(r)
    ensures (r[0] == '0') == (n == 0)
  {
    if n < 10 then [DigitChar(n)] else NatToString(n / 10) + [DigitChar(n % 10)]
  }

  /** The value of a string of decimal digits, most significant first. */
  function DigitsValue(s: string): nat
    requires AllDigits(s)
  {
    if s == [] then 0 else DigitsValue(s[..|s| - 1]) * 10 + DigitValue(s[|s| - 1])
  }

  /** The length of the longest run of digits at the start of `s`. */
  function DigitSpan(s: string): (k: nat)
    ensures k <= |s| && AllDigits(s[..k])
    ensures k < |s| ==> !IsDigit(s[k])
  {
    if s != [] && IsDigit(s[0]) then
      var k := DigitSpan(s[1..]);
      assert s[..k + 1] == [s[0]] + s[1..][..k];
      k + 1
    else
      0
  }

  /** Reads the number at the start of `s` and returns it with the text after it. */
  function ParseNumber(s: string): Option<(nat, string)> {
    var k := DigitSpan(s);
    if k == 0 then None else Some((DigitsValue(s[..k]), s[k..]))
  }

  /** Reading a rendered numeral gives back the number. */
  lemma {:induction false} DigitsValueOfNatToString(n: nat)
    ensures DigitsValue(NatToString(n)) == n
  {
    if n >= 10 {
      DigitsValueOfNatToString(n / 10);
      var s := NatToString(n);
      assert s[..|s| - 1] == NatToString(n / 10);
    }
  }

  lemma {:induction false} DigitSpanOfDigits(d: string, rest: string)
    requires AllDigits(d)
    requires rest == [] || !IsDigit(rest[0])
    ensures DigitSpan(d + rest) == |d|
  {
    if d != [] {
      assert (d + rest)[1..] == d[1..] + rest;
      DigitSpanOfDigits(d[1..], rest);
    }
  }

  /** The numeral of `n` followed by text that does not start with a digit parses back to `n` and that text. */
  lemma ParseNumberRoundTrip(n: nat, rest: string)
    requires rest == [] || !IsDigit(rest[0])
    ensures ParseNumber(NatToString(n) + rest) == Some((n, rest))
  {
    var d := NatToString(n);
    DigitSpanOfDigits(d, rest);
    assert (d + rest)[..|d|] == d;
    assert (d + rest)[|d|..] == rest;
    DigitsValueOfNatToString(n);
  }

  /** Different numbers render differently. */
  lemma NatToStringInjective(m: nat, n: nat)
    requires NatToString(m) == NatToString(n)
    ensures m == n
  {
    DigitsValueOfNatToString(m);
    DigitsValueOfNatToString(n);
  }
}
