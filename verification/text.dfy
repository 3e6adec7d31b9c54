/** String primitives the front end and the back end rely on: ECMAScript
    `String.prototype.trim`, the UTF-16 `length` of a JavaScript string, ASCII
    character classes and case folding, substring search, and the decimal
    rendering and parsing of integers used for query parameters. */
module Text {
  import opened Wrappers

  // ---------------------------------------------------------------------------
  // Character classes
  // ---------------------------------------------------------------------------

  predicate IsAsciiUpper(c: char) { 'A' <= c <= 'Z' }

  predicate IsAsciiLower(c: char) { 'a' <= c <= 'z' }

  predicate IsAsciiLetter(c: char) { IsAsciiUpper(c) || IsAsciiLower(c) }

  predicate IsAsciiDigit(c: char) { '0' <= c <= '9' }

  predicate IsAsciiAlphanumeric(c: char) { IsAsciiLetter(c) || IsAsciiDigit(c) }

  /** The ECMAScript WhiteSpace and LineTerminator code points: exactly the
      characters that `trim()` removes from either end of a string. */
  predicate IsJsWhitespace(c: char) {
    || c == '\t' || c == '\n' || c == '\U{000B}' || c == '\U{000C}' || c == '\r'
    || c == ' ' || c == '\U{00A0}' || c == '\U{1680}'
    || ('\U{2000}' <= c <= '\U{200A}')
    || c == '\U{2028}' || c == '\U{2029}' || c == '\U{202F}' || c == '\U{205F}'
    || c == '\U{3000}' || c == '\U{FEFF}'
  }

  /** Java's `Character.isWhitespace`: the space, line and paragraph
      separators other than the three no-break spaces, and the control
      characters tab to carriage return and U+001C to U+001F. */
  predicate IsJavaWhitespace(c: char) {
    || ('\t' <= c <= '\r') || ('\U{001C}' <= c <= '\U{001F}')
    || c == ' ' || c == '\U{1680}'
    || ('\U{2000}' <= c <= '\U{200A}' && c != '\U{2007}')
    || c == '\U{2028}' || c == '\U{2029}' || c == '\U{205F}' || c == '\U{3000}'
  }

  /** Spring's `StringUtils.hasText`: some character is not Java whitespace. */
  predicate HasText(s: string) {
    exists i :: 0 <= i < |s| && !IsJavaWhitespace(s[i])
  }

  /** A code point that takes one UTF-16 code unit (the Basic Multilingual Plane). */
  predicate IsBmp(c: char) { c as int <= 0xFFFF }

  // ---------------------------------------------------------------------------
  // JavaScript string length
  // ---------------------------------------------------------------------------

  /** `s.length` in JavaScript: the number of UTF-16 code units, so a code
      point outside the Basic Multilingual Plane counts twice. */
  function JsLength(s: string): (n: nat)
    ensures |s| <= n <= 2 * |s|
    ensures n == |s| <==> forall i :: 0 <= i < |s| ==> IsBmp(s[i])
    ensures n == 0 <==> s == []
  {
    if s == [] then 0
    else (if IsBmp(s[0]) then 1 else 2) + JsLength(s[1..])
  }

  // ---------------------------------------------------------------------------
  // trim()
  // ---------------------------------------------------------------------------

  /** Drops the leading whitespace of `s`. */
  function TrimStart(s: string): (r: string)
    ensures |r| <= |s| && r == s[|s| - |r|..]
    ensures forall i :: 0 <= i < |s| - |r| ==> IsJsWhitespace(s[i])
    ensures r == [] || !IsJsWhitespace(r[0])
  {
    if |s| > 0 && IsJsWhitespace(s[0]) then TrimStart(s[1..]) else s
  }

  /** Drops the trailing whitespace of `s`. */
  function TrimEnd(s: string): (r: string)
    ensures |r| <= |s| && r == s[..|r|]
    ensures forall i :: |r| <= i < |s| ==> IsJsWhitespace(s[i])
    ensures r == [] || !IsJsWhitespace(r[|r| - 1])
  {
    if |s| > 0 && IsJsWhitespace(s[|s| - 1]) then TrimEnd(s[..|s| - 1]) else s
  }

  /** `r` is `s[a..b]` and everything outside that slice is whitespace. */
  predicate TrimmedAt(s: string, r: string, a: int, b: int) {
    && 0 <= a <= b <= |s| && r == s[a..b]
    && (forall i :: 0 <= i < a ==> IsJsWhitespace(s[i]))
    && (forall i :: b <= i < |s| ==> IsJsWhitespace(s[i]))
  }

  /** Cutting whitespace off the front of `s`, then off the back of what is
      left, cuts `s` down to a slice with whitespace outside it. */
  lemma TrimmedAtBothEnds(s: string, t: string, r: string)
    requires |t| <= |s| && t == s[|s| - |t|..]
    requires forall i :: 0 <= i < |s| - |t| ==> IsJsWhitespace(s[i])
    requires |r| <= |t| && r == t[..|r|]
    requires forall j :: |r| <= j < |t| ==> IsJsWhitespace(t[j])
    ensures TrimmedAt(s, r, |s| - |t|, |s| - |t| + |r|)
  {
    var a := |s| - |t|;
    forall i | a + |r| <= i < |s|
      ensures IsJsWhitespace(s[i])
    {
      assert s[i] == t[i - a];
    }
  }

  /** `s.trim()`: neither starts nor ends with whitespace. */
  function Trim(s: string): (r: string)
    ensures |r| <= |s|
    ensures r == [] || (!IsJsWhitespace(r[0]) && !IsJsWhitespace(r[|r| - 1]))
  {
    TrimEnd(TrimStart(s))
  }

  /** What `trim()` returns is a contiguous slice of `s`, and everything cut
      off on either side is whitespace. */
  lemma TrimIsSlice(s: string)
    ensures exists a, b :: TrimmedAt(s, Trim(s), a, b)
  {
    TrimmedAtBothEnds(s, TrimStart(s), Trim(s));
  }

  /** A string is blank, that is `!s.trim()` holds, iff it is made of whitespace only. */
  lemma TrimEmptyIffBlank(s: string)
    ensures Trim(s) == [] <==> forall i :: 0 <= i < |s| ==> IsJsWhitespace(s[i])
  {
    var r := Trim(s);
    TrimIsSlice(s);
    var a, b :| TrimmedAt(s, r, a, b);
    if r != [] {
      assert s[a] == r[0];
    } else {
      forall i | 0 <= i < |s|
        ensures IsJsWhitespace(s[i])
      {
        assert i < a || b <= i;
      }
    }
  }

  /** Trimming twice is trimming once. */
  lemma TrimIdempotent(s: string)
    ensures Trim(Trim(s)) == Trim(s)
  {
    var r := Trim(s);
    if r != [] {
      assert TrimStart(r) == r;
      assert TrimEnd(r) == r;
    }
  }

  // ---------------------------------------------------------------------------
  // ASCII case folding and substring search
  // ---------------------------------------------------------------------------

  /** Lower-cases an ASCII capital letter and leaves every other character alone. */
  function LowerChar(c: char): (r: char)
    ensures IsAsciiUpper(c) ==> IsAsciiLower(r) && r as int == c as int + 32
    ensures !IsAsciiUpper(c) ==> r == c
    ensures !IsAsciiUpper(r)
  {
    if IsAsciiUpper(c) then (c as int + 32) as char else c
  }

  /** Lower-cases every character of `s`. */
  function Lower(s: string): (r: string)
    ensures |r| == |s|
    ensures forall i :: 0 <= i < |s| ==> r[i] == LowerChar(s[i])
  {
    seq(|s|, i requires 0 <= i < |s| => LowerChar(s[i]))
  }

  /** Two characters that are the same letter up to ASCII case. */
  predicate SameIgnoringCase(a: char, b: char) {
    LowerChar(a) == LowerChar(b)
  }

  /** Java's `a.equalsIgnoreCase(b)` on ASCII: equal lengths and the same
      letters position by position up to case. */
  predicate EqualsIgnoreCase(a: string, b: string) {
    |a| == |b| && forall i :: 0 <= i < |a| ==> SameIgnoringCase(a[i], b[i])
  }

  /** `t` occurs in `s` starting at position `i`. */
  predicate OccursAt(t: string, s: string, i: int) {
    0 <= i <= |s| - |t| && s[i..i + |t|] == t
  }

  /** `t` occurs in `s` at some position. */
  ghost predicate OccursIn(t: string, s: string) {
    exists i :: OccursAt(t, s, i)
  }

  /** Substring search by scanning `s` from the left. */
  function Contains(s: string, t: string): (b: bool)
    ensures b <==> OccursIn(t, s)
    decreases |s|
  {
    if |t| <= |s| && s[..|t|] == t then
      assert OccursAt(t, s, 0);
      true
    else if |s| <= |t| then
      assert !OccursIn(t, s) by {
        if |s| == |t| {
          assert s[..|t|] == s[0..0 + |t|];
        }
      }
      false
    else
      var rest := Contains(s[1..], t);
      assert OccursIn(t, s) <==> OccursIn(t, s[1..]) by {
        if OccursIn(t, s) {
          var i :| OccursAt(t, s, i);
          assert i != 0;
          OccursAfterFirst(t, s, i - 1);
        }
        if OccursIn(t, s[1..]) {
          var i :| OccursAt(t, s[1..], i);
          OccursAfterFirst(t, s, i);
        }
      }
      rest
  }

  /** Dropping the first character of `s` moves every occurrence one place left. */
  lemma OccursAfterFirst(t: string, s: string, i: int)
    requires s != [] && i >= 0
    ensures OccursAt(t, s[1..], i) <==> OccursAt(t, s, i + 1)
  {
    if i <= |s| - 1 - |t| {
      assert s[1..][i..i + |t|] == s[i + 1..i + 1 + |t|];
    }
  }

  /** The empty string occurs in every string. */
  lemma EmptyOccursEverywhere(s: string)
    ensures Contains(s, [])
  {
    assert OccursAt([], s, 0);
  }

  // ---------------------------------------------------------------------------
  // Decimal integers
  // ---------------------------------------------------------------------------

  function DigitChar(d: int): (c: char)
    requires 0 <= d < 10
    ensures IsAsciiDigit(c) && c as int - '0' as int == d
  {
    ('0' as int + d) as char
  }

  predicate AllDigits(s: string) {
    forall i :: 0 <= i < |s| ==> IsAsciiDigit(s[i])
  }

  /** The value of a string of decimal digits, most significant first. */
  function DigitsValue(s: string): (n: nat)
    requires AllDigits(s)
  {
    if s == [] then 0
    else DigitsValue(s[..|s| - 1]) * 10 + (s[|s| - 1] as int - '0' as int)
  }

  /** The shortest decimal rendering of a natural number. */
  function NatToDecimal(n: nat): (s: string)
    ensures |s| >= 1 && AllDigits(s)
    ensures |s| > 1 ==> s[0] != '0'
    ensures DigitsValue(s) == n
  {
    if n < 10 then [DigitChar(n)]
    else
      var s := NatToDecimal(n / 10) + [DigitChar(n % 10)];
      assert s[..|s| - 1] == NatToDecimal(n / 10);
      s
  }

  /** `n.toString()` for an integer-valued JavaScript number. */
  function IntToDecimal(n: int): (s: string)
    ensures |s| >= 1
    ensures n < 0 <==> s[0] == '-'
  {
    if n < 0 then "-" + NatToDecimal(-n) else NatToDecimal(n)
  }

  /** `Integer.parseInt(s)` on ASCII input: an optional sign followed by at
      least one digit; anything else is rejected. */
  function ParseInt(s: string): (r: Option<int>)
    ensures r.Some? ==> |s| >= 1
    ensures AllDigits(s) && s != [] ==> r == Some(DigitsValue(s))
  {
    if s == [] then None
    else if s[0] == '-' || s[0] == '+' then
      if |s| == 1 || !AllDigits(s[1..]) then None
      else if s[0] == '-' then Some(0 - DigitsValue(s[1..]) as int)
      else Some(DigitsValue(s[1..]))
    else if AllDigits(s) then Some(DigitsValue(s))
    else None
  }

  /** Parsing a rendered integer gives it back: a page number written into a
      query string is the page number the server reads. */
  lemma ParseIntRoundTrip(n: int)
    ensures ParseInt(IntToDecimal(n)) == Some(n)
  {
    if n < 0 {
      var s := IntToDecimal(n);
      assert s[1..] == NatToDecimal(-n);
    }
  }
}
