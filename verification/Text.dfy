/** Python strings as the register machine reads them: white space, stripping and
    decimal numbers. */
module Text {
  /** `str.isspace`, which is also what `\s` matches in a text pattern. */
  predicate IsSpace(c: char) {
    || '\t' <= c <= '\r'
    || '\U{1C}' <= c <= ' '
    || c == '\U{85}' || c == '\U{A0}' || c == '\U{1680}'
    || '\U{2000}' <= c <= '\U{200A}'
    || c == '\U{2028}' || c == '\U{2029}' || c == '\U{202F}' || c == '\U{205F}' || c == '\U{3000}'
  }

  predicate AllSpace(s: string) {
    forall i :: 0 <= i < |s| ==> IsSpace(s[i])
  }

  /** How many leading characters are white space. */
  function SpacesBefore(s: string): (n: nat)
    ensures n <= |s| && AllSpace(s[..n])
    ensures n < |s| ==> !IsSpace(s[n])
  {
    if s == "" || !IsSpace(s[0]) then 0
    else
      var n := SpacesBefore(s[1..]);
      assert s[..n + 1] == [s[0]] + s[1..][..n];
      n + 1
  }

  /** How many characters are left once trailing white space is gone. */
  function LengthTrimmed(s: string): (n: nat)
    ensures n <= |s| && AllSpace(s[n..])
    ensures n > 0 ==> !IsSpace(s[n - 1])
  {
    if s == "" || !IsSpace(s[|s| - 1]) then |s|
    else
      var n := LengthTrimmed(s[..|s| - 1]);
      assert s[n..] == s[..|s| - 1][n..] + [s[|s| - 1]];
      n
  }

  function Strip(s: string): string {
    var kept := s[..LengthTrimmed(s)];
    kept[SpacesBefore(kept)..]
  }

  lemma {:induction false} SpacesBeforeIs(s: string, n: nat)
    requires n <= |s| && AllSpace(s[..n]) && (n < |s| ==> !IsSpace(s[n]))
    ensures SpacesBefore(s) == n
  {
    if n > 0 {
      assert s[0] == s[..n][0];
      assert s[1..][..n - 1] == s[..n][1..];
      SpacesBeforeIs(s[1..], n - 1);
    }
  }

  lemma {:induction false} LengthTrimmedIs(s: string, n: nat)
    requires n <= |s| && AllSpace(s[n..]) && (n > 0 ==> !IsSpace(s[n - 1]))
    ensures LengthTrimmed(s) == n
    decreases |s|
  {
    if n < |s| {
      assert s[|s| - 1] == s[n..][|s| - 1 - n];
      assert s[..|s| - 1][n..] == s[n..][..|s| - 1 - n];
      LengthTrimmedIs(s[..|s| - 1], n);
    }
  }

  /** Stripping is the only cut that leaves no white space at either end. */
  lemma StripIs(s: string, before: string, core: string, after: string)
    requires s == before + core + after && AllSpace(before) && AllSpace(after)
    requires core != "" ==> !IsSpace(core[0]) && !IsSpace(core[|core| - 1])
    ensures Strip(s) == core
  {
    var n := if core == "" then 0 else |before| + |core|;
    assert core != "" ==> s[n..] == after && s[..n] == before + core;
    LengthTrimmedIs(s, n);
    var kept := s[..n];
    var b := if core == "" then 0 else |before|;
    assert core != "" ==> kept[..b] == before;
    SpacesBeforeIs(kept, b);
  }

  /** Stripping only removes white space. */
  lemma StripSplits(s: string) returns (before: string, after: string)
    ensures s == before + Strip(s) + after && AllSpace(before) && AllSpace(after)
    ensures Strip(s) != "" ==> !IsSpace(Strip(s)[0]) && !IsSpace(Strip(s)[|Strip(s)| - 1])
  {
    var n := LengthTrimmed(s);
    var kept := s[..n];
    var b := SpacesBefore(kept);
    before, after := kept[..b], s[n..];
  }

  // ----- decimal numbers

  predicate IsDigit(c: char) {
    '0' <= c <= '9'
  }

  predicate AllDigits(s: string) {
    forall i :: 0 <= i < |s| ==> IsDigit(s[i])
  }

  function DigitOf(n: nat): (c: char)
    requires n < 10
    ensures IsDigit(c)
  {
    '0' + n as char
  }

  function DigitValue(c: char): (n: nat)
    requires IsDigit(c)
    ensures n < 10 && DigitOf(n) == c
  {
    (c - '0') as nat
  }

  /** `str(n)`. */
  function Decimal(n: nat): (s: string)
    ensures s != "" && AllDigits(s)
  {
    if n < 10 then [DigitOf(n)] else Decimal(n / 10) + [DigitOf(n % 10)]
  }

  /** `int(s)` of a string of ASCII digits. */
  function DecimalValue(s: string): nat
    requires AllDigits(s)
  {
    if s == "" then 0 else 10 * DecimalValue(s[..|s| - 1]) + DigitValue(s[|s| - 1])
  }

  lemma {:induction false} DecimalReadsBack(n: nat)
    ensures DecimalValue(Decimal(n)) == n
  {
    if n < 10 {
      assert Decimal(n)[..0] == "";
    } else {
      DecimalReadsBack(n / 10);
      assert Decimal(n)[..|Decimal(n)| - 1] == Decimal(n / 10);
    }
  }
}
