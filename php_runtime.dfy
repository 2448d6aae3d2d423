// The few pieces of PHP's runtime behaviour that the converter's decisions
// depend on: calls that may throw, `is_numeric` on a request parameter,
// ASCII case folding as used by a `/i` regular expression, and the substring
// test the admin script applies to a reply.

module PhpRuntime {

  datatype Option<+T> = None | Some(value: T)

  /** The outcome of a call into PHP or one of its extensions: it either
      returns a value, or it throws, and since nothing in the plugin catches,
      a throw ends the request. */
  datatype Call<+T> = Returned(value: T) | Threw

  // ---------------------------------------------------------------------
  // is_numeric on a string, following the numeric-string grammar of the
  // PHP 8 manual:  WS* [+-]? (LNUM | DNUM) ([eE] [+-]? LNUM)? WS*
  // with LNUM = [0-9]+ and DNUM = [0-9]* "." LNUM | LNUM "." [0-9]*.
  // ---------------------------------------------------------------------

  predicate IsDigit(c: char) { '0' <= c <= '9' }

  /** The whitespace PHP accepts around a numeric string. */
  predicate IsSpace(c: char) {
    c == ' ' || c == '\t' || c == '\n' || c == '\r' || c == '\U{B}' || c == '\U{C}'
  }

  predicate IsSign(c: char) { c == '+' || c == '-' }

  /** The end of the run of digits that starts at `i`. */
  function SkipDigits(s: string, i: nat): (j: nat)
    requires i <= |s|
    ensures i <= j <= |s|
    ensures forall k | i <= k < j :: IsDigit(s[k])
    ensures j < |s| ==> !IsDigit(s[j])
    decreases |s| - i
  {
    if i < |s| && IsDigit(s[i]) then SkipDigits(s, i + 1) else i
  }

  /** The end of the run of whitespace that starts at `i`. */
  function SkipSpaces(s: string, i: nat): (j: nat)
    requires i <= |s|
    ensures i <= j <= |s|
    ensures forall k | i <= k < j :: IsSpace(s[k])
    ensures j < |s| ==> !IsSpace(s[j])
    decreases |s| - i
  {
    if i < |s| && IsSpace(s[i]) then SkipSpaces(s, i + 1) else i
  }

  /** The end of an optional sign at `i`. */
  function SkipSign(s: string, i: nat): (j: nat)
    requires i <= |s|
    ensures i <= j <= |s|
  {
    if i < |s| && IsSign(s[i]) then i + 1 else i
  }

  /** Where the mantissa (LNUM or DNUM) that starts at `i` ends, if one does. */
  function MantissaEnd(s: string, i: nat): (r: Option<nat>)
    requires i <= |s|
    ensures r.Some? ==> i < r.value <= |s|
  {
    var intEnd := SkipDigits(s, i);
    if intEnd < |s| && s[intEnd] == '.' then
      var fracEnd := SkipDigits(s, intEnd + 1);
      if intEnd > i || fracEnd > intEnd + 1 then Some(fracEnd) else None
    else if intEnd > i then Some(intEnd)
    else None
  }

  /** Where an optional exponent at `i` ends: an `e` that is not followed by
      digits is not consumed, so it is left as trailing garbage. */
  function ExponentEnd(s: string, i: nat): (j: nat)
    requires i <= |s|
    ensures i <= j <= |s|
  {
    if i < |s| && (s[i] == 'e' || s[i] == 'E') then
      var digitsStart := SkipSign(s, i + 1);
      var digitsEnd := SkipDigits(s, digitsStart);
      if digitsEnd > digitsStart then digitsEnd else i
    else i
  }

  predicate IsNumeric(s: string)
    ensures IsNumeric(s) ==> |s| > 0
  {
    var start := SkipSign(s, SkipSpaces(s, 0));
    match MantissaEnd(s, start)
    case None => false
    case Some(m) => SkipSpaces(s, ExponentEnd(s, m)) == |s|
  }

  lemma {:induction false} SkipDigitsOverDigits(s: string, i: nat)
    requires i <= |s|
    requires forall k | i <= k < |s| :: IsDigit(s[k])
    ensures SkipDigits(s, i) == |s|
    decreases |s| - i
  {
    if i < |s| {
      SkipDigitsOverDigits(s, i + 1);
    }
  }

  /** Every non-empty string of decimal digits (an attachment id as the
      media list sends it) passes `is_numeric`. */
  lemma DigitsAreNumeric(s: string)
    requires |s| > 0
    requires forall k | 0 <= k < |s| :: IsDigit(s[k])
    ensures IsNumeric(s)
  {
    assert SkipSpaces(s, 0) == 0;
    assert SkipSign(s, 0) == 0;
    SkipDigitsOverDigits(s, 0);
  }

  /** A numeric string holds at least one digit; in particular the empty
      string, blanks and words are rejected. */
  lemma NumericHasDigit(s: string)
    requires IsNumeric(s)
    ensures exists k | 0 <= k < |s| :: IsDigit(s[k])
  {
    var start := SkipSign(s, SkipSpaces(s, 0));
    var intEnd := SkipDigits(s, start);
    if intEnd > start {
      assert IsDigit(s[start]);
    } else {
      assert intEnd < |s| && s[intEnd] == '.';
      assert IsDigit(s[intEnd + 1]);
    }
  }

  /** Signs, fractions and exponents are accepted, as are leading blanks. */
  lemma NumericLeadingBlank()
    ensures IsNumeric(" 42")
  {
    assert SkipSpaces(" 42", 0) == 1;
    assert SkipSign(" 42", 1) == 1;
    assert SkipDigits(" 42", 1) == 3;
  }

  lemma NumericSignedExponent()
    ensures IsNumeric("-1.5e3")
  {
    var s := "-1.5e3";
    assert SkipSpaces(s, 0) == 0 && SkipSign(s, 0) == 1;
    assert SkipDigits(s, 1) == 2;
    assert SkipDigits(s, 3) == 4;
    assert MantissaEnd(s, 1) == Some(4);
    assert SkipDigits(s, 5) == 6;
    assert ExponentEnd(s, 4) == 6;
  }

  lemma NumericBareFraction()
    ensures IsNumeric(".5")
  {
    assert SkipSpaces(".5", 0) == 0 && SkipSign(".5", 0) == 0;
    assert SkipDigits(".5", 0) == 0;
    assert SkipDigits(".5", 1) == 2;
  }

  /** The empty string is not numeric. */
  lemma EmptyIsNotNumeric()
    ensures !IsNumeric("")
  {
    assert SkipSpaces("", 0) == 0;
  }

  /** Trailing letters are rejected. */
  lemma TrailingLettersAreNotNumeric()
    ensures !IsNumeric("12abc")
  {
    var s := "12abc";
    assert SkipSpaces(s, 0) == 0 && SkipSign(s, 0) == 0;
    assert SkipDigits(s, 0) == 2;
    assert SkipSpaces(s, 2) == 2;
  }

  /** An exponent marker needs digits after it. */
  lemma BareExponentIsNotNumeric()
    ensures !IsNumeric("1e")
  {
    var s := "1e";
    assert SkipSpaces(s, 0) == 0 && SkipSign(s, 0) == 0;
    assert SkipDigits(s, 0) == 1;
    assert SkipDigits(s, 2) == 2;
    assert ExponentEnd(s, 1) == 1;
  }

  /** A dot alone is no number. */
  lemma LoneDotIsNotNumeric()
    ensures !IsNumeric(".")
  {
    var s := ".";
    assert SkipSpaces(s, 0) == 0 && SkipSign(s, 0) == 0;
    assert SkipDigits(s, 0) == 0;
    assert SkipDigits(s, 1) == 1;
  }

  // ---------------------------------------------------------------------
  // Case folding of a PCRE pattern compiled with /i and without /u: only
  // the ASCII letters fold.
  // ---------------------------------------------------------------------

  function AsciiLower(c: char): (r: char)
    ensures 'A' <= c <= 'Z' ==> r as int == c as int + 32
    ensures !('A' <= c <= 'Z') ==> r == c
  {
    if 'A' <= c <= 'Z' then (c as int + 32) as char else c
  }

  function AsciiLowerString(s: string): (r: string)
    ensures |r| == |s|
    ensures forall k | 0 <= k < |s| :: r[k] == AsciiLower(s[k])
  {
    seq(|s|, k requires 0 <= k < |s| => AsciiLower(s[k]))
  }

  // ---------------------------------------------------------------------
  // Substring test (JavaScript's String.prototype.includes).
  // ---------------------------------------------------------------------

  predicate OccursAt(s: string, sub: string, i: int) {
    0 <= i && i + |sub| <= |s| && s[i..i + |sub|] == sub
  }

  predicate Contains(s: string, sub: string)
    ensures Contains(s, sub) ==> |sub| <= |s|
  {
    exists i | 0 <= i <= |s| - |sub| :: OccursAt(s, sub, i)
  }

  /** A string without the first character of `sub` cannot contain `sub`. */
  lemma MissingFirstCharExcludes(s: string, sub: string)
    requires |sub| > 0
    requires forall k | 0 <= k < |s| :: s[k] != sub[0]
    ensures !Contains(s, sub)
  {
    forall i ensures !OccursAt(s, sub, i) {
      if 0 <= i && i + |sub| <= |s| {
        assert s[i..i + |sub|][0] == s[i];
      }
    }
  }
}
