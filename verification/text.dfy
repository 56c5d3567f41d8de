/**
 * Character and string helpers that mirror the few Python `str` operations
 * the pipeline uses: `lower`, `replace` of one character, `endswith`,
 * the whitespace test behind `strip`, and `str` of a non-negative integer.
 */
module Text {

  // ---------------------------------------------------------------------------
  // Case

  predicate IsAsciiUpper(c: char) {
    'A' <= c <= 'Z'
  }

  predicate IsAsciiLower(c: char) {
    'a' <= c <= 'z'
  }

  /** `c.lower()` restricted to ASCII: `A`..`Z` become `a`..`z`, all else is kept. */
  function LowerChar(c: char): (d: char)
    ensures !IsAsciiUpper(d)
    ensures d == c <==> !IsAsciiUpper(c)
    ensures IsAsciiUpper(c) ==> IsAsciiLower(d) && d as int - c as int == 32
  {
    if IsAsciiUpper(c) then (c as int + 32) as char else c
  }

  /** `s.lower()`: no upper-case ASCII letter survives, every other character stays. */
  function Lower(s: string): (r: string)
    ensures |r| == |s|
    ensures forall i :: 0 <= i < |r| ==> !IsAsciiUpper(r[i])
    ensures forall i :: 0 <= i < |r| ==> (r[i] == s[i] <==> !IsAsciiUpper(s[i]))
    ensures forall i :: 0 <= i < |r| ==> r[i] == LowerChar(s[i])
  {
    seq(|s|, i requires 0 <= i < |s| => LowerChar(s[i]))
  }

  // ---------------------------------------------------------------------------
  // Replacement of one character

  /** `s.replace(target, replacement)` for one-character `target` and `replacement`. */
  function Replace(s: string, target: char, replacement: char): (r: string)
    ensures |r| == |s|
    ensures target != replacement ==> target !in r
    ensures forall i :: 0 <= i < |s| && s[i] == target ==> r[i] == replacement
    ensures forall i :: 0 <= i < |s| && s[i] != target ==> r[i] == s[i]
  {
    seq(|s|, i requires 0 <= i < |s| => if s[i] == target then replacement else s[i])
  }

  // ---------------------------------------------------------------------------
  // Suffix

  /**
   * `s.endswith(suffix)`: `s` is some prefix followed by exactly `suffix`,
   * compared character for character (so case-sensitively).
   */
  predicate EndsWith(s: string, suffix: string)
    ensures EndsWith(s, suffix) <==>
      |suffix| <= |s| && forall k :: 0 <= k < |suffix| ==> s[|s| - |suffix| + k] == suffix[k]
  {
    |suffix| <= |s| && s[|s| - |suffix|..] == suffix
  }

  /** Any string followed by `suffix` ends with it, whatever comes before. */
  lemma EndsWithAppended(prefix: string, suffix: string)
    ensures EndsWith(prefix + suffix, suffix)
  {
    assert (prefix + suffix)[|prefix|..] == suffix;
  }

  // ---------------------------------------------------------------------------
  // Whitespace

  /**
   * The characters Python's `str.isspace` (and so `str.strip()`) treats as
   * whitespace: the ASCII controls tab to carriage return, the separators
   * 0x1C-0x1F, space, NEL, no-break space, and the Unicode space separators.
   */
  predicate IsSpace(c: char)
    ensures c == ' ' || c == '\t' || c == '\n' || c == '\r' ==> IsSpace(c)
    ensures IsSpace(c) ==> !IsDigit(c) && !IsAsciiUpper(c) && !IsAsciiLower(c) && c != '_'
  {
    var n := c as int;
    || 0x09 <= n <= 0x0D
    || 0x1C <= n <= 0x20
    || n == 0x85 || n == 0xA0 || n == 0x1680
    || 0x2000 <= n <= 0x200A
    || n == 0x2028 || n == 0x2029 || n == 0x202F || n == 0x205F || n == 0x3000
  }

  /** The number of whitespace characters `s` starts with. */
  function LeadingSpaces(s: string): (n: nat)
    ensures n <= |s|
    ensures forall i :: 0 <= i < n ==> IsSpace(s[i])
    ensures n < |s| ==> !IsSpace(s[n])
  {
    if |s| > 0 && IsSpace(s[0]) then 1 + LeadingSpaces(s[1..]) else 0
  }

  /** The length of `s` without the whitespace it ends with. */
  function KeptLength(s: string): (n: nat)
    ensures n <= |s|
    ensures forall i :: n <= i < |s| ==> IsSpace(s[i])
    ensures n > 0 ==> !IsSpace(s[n - 1])
  {
    if |s| > 0 && IsSpace(s[|s| - 1]) then KeptLength(s[..|s| - 1]) else |s|
  }

  /** `s.lstrip()`: the suffix left after dropping the leading whitespace. */
  function TrimStart(s: string): (r: string)
    ensures |r| <= |s|
    ensures forall k :: 0 <= k < |r| ==> r[k] == s[|s| - |r| + k]
    ensures forall i :: 0 <= i < |s| - |r| ==> IsSpace(s[i])
    ensures |r| > 0 ==> !IsSpace(r[0])
  {
    s[LeadingSpaces(s)..]
  }

  /** `s.rstrip()`: the prefix left after dropping the trailing whitespace. */
  function TrimEnd(s: string): (r: string)
    ensures |r| <= |s|
    ensures forall k :: 0 <= k < |r| ==> r[k] == s[k]
    ensures forall i :: |r| <= i < |s| ==> IsSpace(s[i])
    ensures |r| > 0 ==> !IsSpace(r[|r| - 1])
  {
    s[..KeptLength(s)]
  }

  /**
   * `r` is the slice of `s` from `lo` on, character for character; everything before and after it is
   * whitespace, and `r` neither starts nor ends with whitespace.
   */
  ghost predicate StrippedAt(s: string, r: string, lo: nat) {
    && lo + |r| <= |s|
    && (forall k :: 0 <= k < |r| ==> r[k] == s[lo + k])
    && (forall i :: 0 <= i < lo ==> IsSpace(s[i]))
    && (forall i :: lo + |r| <= i < |s| ==> IsSpace(s[i]))
    && (|r| > 0 ==> !IsSpace(r[0]) && !IsSpace(r[|r| - 1]))
  }

  /** `s.strip()` with no argument: the slice left once leading and trailing whitespace is dropped. */
  function Strip(s: string): (r: string)
    ensures exists lo :: StrippedAt(s, r, lo)
  {
    TrimsAt(s);
    TrimEnd(TrimStart(s))
  }

  /** Trimming the front and then the back leaves the slice that starts after the leading whitespace. */
  lemma TrimsAt(s: string)
    ensures StrippedAt(s, TrimEnd(TrimStart(s)), LeadingSpaces(s))
  {
    var lo := LeadingSpaces(s);
    var m := KeptLength(s[lo..]);
    SpacesAfterSlice(s, lo, m);
    if m > 0 {
      assert s[lo..][m - 1] == s[lo + m - 1];
    }
    StrippedSlice(s, lo, m);
    assert TrimEnd(TrimStart(s)) == s[lo..][..m];
  }

  /** The slice of `m` characters from `lo` is stripped when it is framed by whitespace and not bordered by it. */
  lemma StrippedSlice(s: string, lo: nat, m: nat)
    requires lo + m <= |s|
    requires forall i :: 0 <= i < lo ==> IsSpace(s[i])
    requires forall i :: lo + m <= i < |s| ==> IsSpace(s[i])
    requires m > 0 ==> !IsSpace(s[lo]) && !IsSpace(s[lo + m - 1])
    ensures StrippedAt(s, s[lo..][..m], lo)
  {
    SliceOfSuffix(s, lo, m);
  }

  /** Taking `m` characters of the suffix from `lo` gives the characters of `s` from `lo` on. */
  lemma SliceOfSuffix(s: string, lo: nat, m: nat)
    requires lo + m <= |s|
    ensures |s[lo..][..m]| == m
    ensures forall k :: 0 <= k < m ==> s[lo..][..m][k] == s[lo + k]
  {
  }

  /** Whitespace after position `m` of the suffix from `lo` is whitespace after `lo + m` in `s`. */
  lemma SpacesAfterSlice(s: string, lo: nat, m: nat)
    requires lo + m <= |s|
    requires forall i :: m <= i < |s| - lo ==> IsSpace(s[lo..][i])
    ensures forall i :: lo + m <= i < |s| ==> IsSpace(s[i])
  {
    forall i | lo + m <= i < |s|
      ensures IsSpace(s[i])
    {
      assert s[i] == s[lo..][i - lo];
    }
  }

  /**
   * `not s.strip()`: nothing is left once whitespace is stripped, which
   * happens exactly when the string is empty or made only of whitespace.
   */
  predicate IsBlank(s: string)
    ensures IsBlank(s) <==> forall i :: 0 <= i < |s| ==> IsSpace(s[i])
  {
    TrimsAt(s);
    StrippedEmpty(s, TrimEnd(TrimStart(s)), LeadingSpaces(s));
    |Strip(s)| == 0
  }

  /** A stripped slice is empty exactly when the whole string is whitespace. */
  lemma StrippedEmpty(s: string, r: string, lo: nat)
    requires StrippedAt(s, r, lo)
    ensures |r| == 0 <==> forall i :: 0 <= i < |s| ==> IsSpace(s[i])
  {
    if |r| > 0 {
      assert r[0] == s[lo];
    }
  }

  // ---------------------------------------------------------------------------
  // Decimal representation of a natural number, Python's `str(n)` for `n >= 0`

  predicate IsDigit(c: char) {
    '0' <= c <= '9'
  }

  predicate IsDigits(s: string) {
    forall i :: 0 <= i < |s| ==> IsDigit(s[i])
  }

  function DigitChar(d: nat): (c: char)
    requires d < 10
    ensures IsDigit(c)
    ensures c as int - '0' as int == d
  {
    ('0' as int + d) as char
  }

  function DigitValue(c: char): (d: nat)
    requires IsDigit(c)
    ensures d < 10
    ensures DigitChar(d) == c
  {
    c as int - '0' as int
  }

  /** `str(n)`: non-empty, digits only, and a leading `0` only for zero itself. */
  function DecimalString(n: nat): (s: string)
    ensures |s| >= 1
    ensures IsDigits(s)
    ensures s[0] == '0' ==> n == 0
    ensures n < 10 <==> |s| == 1
  {
    if n < 10 then [DigitChar(n)] else DecimalString(n / 10) + [DigitChar(n % 10)]
  }

  /** The value of a string of decimal digits, `int(s)`; the empty string reads as zero. */
  function ParseDecimal(s: string): nat
    requires IsDigits(s)
  {
    if |s| == 0 then 0 else ParseDecimal(s[..|s| - 1]) * 10 + DigitValue(s[|s| - 1])
  }

  /** A canonical decimal string: non-empty digits without a superfluous leading zero. */
  predicate IsCanonicalDecimal(s: string) {
    |s| >= 1 && IsDigits(s) && (s[0] == '0' ==> |s| == 1)
  }

  /** Reading back `str(n)` gives `n`. */
  lemma {:induction false} ParseDecimalString(n: nat)
    ensures ParseDecimal(DecimalString(n)) == n
  {
    var s := DecimalString(n);
    if n < 10 {
      assert s[..|s| - 1] == [];
    } else {
      assert s[..|s| - 1] == DecimalString(n / 10);
      ParseDecimalString(n / 10);
    }
  }

  /** A canonical decimal string with a non-zero leading digit has a positive value. */
  lemma {:induction false} ParseDecimalPositive(s: string)
    requires |s| >= 1 && IsDigits(s) && s[0] != '0'
    ensures ParseDecimal(s) >= 1
  {
    if |s| > 1 {
      ParseDecimalPositive(s[..|s| - 1]);
    }
  }

  /** Writing out the value of a canonical decimal string gives the string back. */
  lemma {:induction false} DecimalStringOfParse(s: string)
    requires IsCanonicalDecimal(s)
    ensures DecimalString(ParseDecimal(s)) == s
  {
    var p := s[..|s| - 1];
    var c := s[|s| - 1];
    assert s == p + [c];
    if |s| == 1 {
      assert p == [];
    } else {
      ParseDecimalPositive(p);
      DecimalStringOfParse(p);
      var v := ParseDecimal(p);
      assert ParseDecimal(s) == v * 10 + DigitValue(c);
      assert ParseDecimal(s) / 10 == v && ParseDecimal(s) % 10 == DigitValue(c);
    }
  }

  /** Distinct numbers have distinct decimal strings. */
  lemma DecimalStringInjective(m: nat, n: nat)
    ensures DecimalString(m) == DecimalString(n) <==> m == n
  {
    ParseDecimalString(m);
    ParseDecimalString(n);
  }
}
