/**
  The text operations the bot applies to spreadsheet cells and to message
  text: Python's `str.isspace`, `str.isdigit`, `str.isalnum`, `str.upper`,
  `str.lower`, `str.strip`, `str(int)`, the substring test `p in s` and the
  slice `s[:n]`. Python's Unicode predicates are modelled on the Latin-1
  range: a character above U+00FF counts as neither whitespace nor
  alphanumeric and has no case.
 */
module Strings {

  /** Python's `str.isspace`, exactly as it behaves on Latin-1. */
  predicate IsSpace(c: char) {
    c == ' ' || ('\t' <= c <= '\r') || ('\U{1C}' <= c <= '\U{1F}') || c == '\U{85}' || c == '\U{A0}'
  }

  /** Decimal digits `0`-`9`. */
  predicate IsDigit(c: char) {
    '0' <= c <= '9'
  }

  /** Upper-case letters that have a one-character lower-case partner. */
  predicate IsUpperLetter(c: char) {
    ('A' <= c <= 'Z') || ('\U{C0}' <= c <= '\U{DE}' && c != '\U{D7}')
  }

  /** Lower-case letters that have a one-character upper-case partner. */
  predicate IsLowerLetter(c: char) {
    ('a' <= c <= 'z') || ('\U{E0}' <= c <= '\U{FE}' && c != '\U{F7}')
  }

  /** Python's `str.isalnum` on digits and Latin-1 letters (ß and ÿ have no one-character partner). */
  predicate IsAlnum(c: char) {
    IsDigit(c) || IsUpperLetter(c) || IsLowerLetter(c) || c == '\U{DF}' || c == '\U{FF}'
  }

  predicate AllSpace(s: string) {
    forall i :: 0 <= i < |s| ==> IsSpace(s[i])
  }

  predicate AllDigits(s: string) {
    forall i :: 0 <= i < |s| ==> IsDigit(s[i])
  }

  function ToUpper(c: char): (u: char)
    ensures IsLowerLetter(c) ==> IsUpperLetter(u) && u as int == c as int - 32
    ensures !IsLowerLetter(c) ==> u == c
    ensures !IsLowerLetter(u)
    ensures IsAlnum(u) <==> IsAlnum(c)
  {
    if IsLowerLetter(c) then (c as int - 32) as char else c
  }

  function ToLower(c: char): (l: char)
    ensures IsUpperLetter(c) ==> IsLowerLetter(l) && l as int == c as int + 32
    ensures !IsUpperLetter(c) ==> l == c
    ensures !IsUpperLetter(l)
    ensures IsAlnum(l) <==> IsAlnum(c)
  {
    if IsUpperLetter(c) then (c as int + 32) as char else c
  }

  /** Python's `s.upper()`: every character mapped on its own, length kept. */
  function Upper(s: string): (r: string)
    ensures |r| == |s|
    ensures forall i :: 0 <= i < |s| ==> r[i] == ToUpper(s[i])
  {
    if s == [] then [] else [ToUpper(s[0])] + Upper(s[1..])
  }

  /** Upper-casing works character by character, so it distributes over concatenation. */
  lemma UpperAppend(a: string, b: string)
    ensures Upper(a + b) == Upper(a) + Upper(b)
  {
    assert forall i :: 0 <= i < |a| ==> (a + b)[i] == a[i];
    assert forall i :: |a| <= i < |a + b| ==> (a + b)[i] == b[i - |a|];
  }

  /** Python's `s.lower()`: every character mapped on its own, length kept. */
  function Lower(s: string): (r: string)
    ensures |r| == |s|
    ensures forall i :: 0 <= i < |s| ==> r[i] == ToLower(s[i])
  {
    if s == [] then [] else [ToLower(s[0])] + Lower(s[1..])
  }

  /** The first position at or after `i` that does not hold whitespace, or `|s|`. */
  function SkipSpaceForward(s: string, i: nat): (k: nat)
    requires i <= |s|
    ensures i <= k <= |s|
    ensures forall j :: i <= j < k ==> IsSpace(s[j])
    ensures k == |s| || !IsSpace(s[k])
    decreases |s| - i
  {
    if i == |s| || !IsSpace(s[i]) then i else SkipSpaceForward(s, i + 1)
  }

  /** The end of the last non-space character in `s[lo..j]`, or `lo`. */
  function SkipSpaceBackward(s: string, lo: nat, j: nat): (k: nat)
    requires lo <= j <= |s|
    ensures lo <= k <= j
    ensures forall m :: k <= m < j ==> IsSpace(s[m])
    ensures k == lo || !IsSpace(s[k - 1])
    decreases j
  {
    if j == lo || !IsSpace(s[j - 1]) then j else SkipSpaceBackward(s, lo, j - 1)
  }

  /** Where `Strip(s)` starts in `s`. */
  function StripStart(s: string): nat {
    SkipSpaceForward(s, 0)
  }

  /** Where `Strip(s)` ends in `s`. */
  function StripEnd(s: string): nat {
    SkipSpaceBackward(s, StripStart(s), |s|)
  }

  /** Python's `s.strip()`: the part of `s` between leading and trailing whitespace. */
  function Strip(s: string): (r: string)
    ensures |r| <= |s|
    ensures r == [] || (!IsSpace(r[0]) && !IsSpace(r[|r| - 1]))
  {
    s[StripStart(s)..StripEnd(s)]
  }

  /** `s` is `Strip(s)` with whitespace on both sides. */
  lemma StripSplits(s: string)
    ensures 0 <= StripStart(s) <= StripEnd(s) <= |s|
    ensures s == s[..StripStart(s)] + Strip(s) + s[StripEnd(s)..]
    ensures AllSpace(s[..StripStart(s)]) && AllSpace(s[StripEnd(s)..])
  {
    var lo, hi := StripStart(s), StripEnd(s);
    assert s == s[..lo] + s[lo..hi] + s[hi..];
  }

  /**
    Strip characterised: whitespace added around a string with non-space ends
    is exactly what strip removes.
   */
  lemma StripPadded(a: string, m: string, b: string)
    requires AllSpace(a) && AllSpace(b)
    requires m == [] || (!IsSpace(m[0]) && !IsSpace(m[|m| - 1]))
    ensures Strip(a + m + b) == m
  {
    var s := a + m + b;
    var lo, hi := StripStart(s), StripEnd(s);
    assert forall j :: 0 <= j < |a| ==> s[j] == a[j];
    assert forall j :: |a| + |m| <= j < |s| ==> s[j] == b[j - |a| - |m|];
    if m == [] {
      assert forall j :: 0 <= j < |s| ==> IsSpace(s[j]);
      assert lo == |s|;
    } else {
      assert s[|a|] == m[0];
      assert s[|a| + |m| - 1] == m[|m| - 1];
      assert lo == |a|;
      assert hi == |a| + |m|;
      assert s[lo..hi] == m;
    }
  }

  /** The characters of `s` that `keep` accepts, in order (Python's `filter` joined back). */
  function Filter(keep: char -> bool, s: string): (r: string)
    ensures |r| <= |s|
    ensures forall i :: 0 <= i < |r| ==> keep(r[i])
  {
    if s == [] then [] else (if keep(s[0]) then [s[0]] else []) + Filter(keep, s[1..])
  }

  /** Every character that survives filtering has each property all characters of the input have. */
  lemma {:induction false} FilterKeepsProperty(keep: char -> bool, p: char -> bool, s: string)
    requires forall i :: 0 <= i < |s| ==> p(s[i])
    ensures forall i :: 0 <= i < |Filter(keep, s)| ==> p(Filter(keep, s)[i])
    decreases |s|
  {
    if s != [] {
      FilterKeepsProperty(keep, p, s[1..]);
    }
  }

  /** Filtering distributes over concatenation. */
  lemma {:induction false} FilterAppend(keep: char -> bool, a: string, b: string)
    ensures Filter(keep, a + b) == Filter(keep, a) + Filter(keep, b)
    decreases |a|
  {
    if a == [] {
      assert a + b == b;
    } else {
      assert (a + b)[0] == a[0];
      assert (a + b)[1..] == a[1..] + b;
      FilterAppend(keep, a[1..], b);
    }
  }

  /** A string whose every character is kept passes through unchanged. */
  lemma {:induction false} FilterKeepsAll(keep: char -> bool, s: string)
    requires forall i :: 0 <= i < |s| ==> keep(s[i])
    ensures Filter(keep, s) == s
    decreases |s|
  {
    if s != [] {
      FilterKeepsAll(keep, s[1..]);
    }
  }

  /** Filtering leaves nothing exactly when no character is kept. */
  lemma {:induction false} FilterEmptyIff(keep: char -> bool, s: string)
    ensures Filter(keep, s) == [] <==> forall i :: 0 <= i < |s| ==> !keep(s[i])
    decreases |s|
  {
    if s != [] {
      FilterEmptyIff(keep, s[1..]);
      if forall i :: 0 <= i < |s[1..]| ==> !keep(s[1..][i]) {
        assert forall i :: 1 <= i < |s| ==> !keep(s[i]) by {
          forall i | 1 <= i < |s| ensures !keep(s[i]) {
            assert s[i] == s[1..][i - 1];
          }
        }
      }
    }
  }

  /** Python's `''.join(filter(str.isdigit, s))`. */
  function DigitsOf(s: string): (r: string)
    ensures AllDigits(r)
  {
    Filter(IsDigit, s)
  }

  /** Python's substring test `p in s`. */
  predicate Contains(s: string, p: string) {
    exists i :: 0 <= i <= |s| && p <= s[i..]
  }

  lemma ContainsNeedsLength(s: string, p: string)
    requires Contains(s, p)
    ensures |p| <= |s|
  {
    var i :| 0 <= i <= |s| && p <= s[i..];
  }

  /** Python's slice `s[:n]`. */
  function Take(s: string, n: nat): (r: string)
    ensures |r| == if |s| <= n then |s| else n
    ensures r <= s
  {
    if |s| <= n then s else s[..n]
  }

  function DigitChar(d: nat): (c: char)
    requires d < 10
    ensures IsDigit(c)
  {
    ('0' as int + d) as char
  }

  function DigitValue(c: char): (d: nat)
    requires IsDigit(c)
    ensures d < 10 && DigitChar(d) == c
  {
    c as int - '0' as int
  }

  /** Python's `str(n)` for `n >= 0`: decimal digits, no leading zero. */
  function NatToString(n: nat): (r: string)
    ensures r != [] && AllDigits(r)
    ensures r[0] == '0' ==> r == "0"
    decreases n
  {
    if n < 10 then [DigitChar(n)] else NatToString(n / 10) + [DigitChar(n % 10)]
  }

  /** The value of a string of decimal digits. */
  function ParseNat(s: string): nat
    requires AllDigits(s)
  {
    if s == [] then 0 else ParseNat(s[..|s| - 1]) * 10 + DigitValue(s[|s| - 1])
  }

  /** Reading back the decimal rendering of `n` gives `n`. */
  lemma {:induction false} ParseNatToString(n: nat)
    ensures ParseNat(NatToString(n)) == n
    decreases n
  {
    if n >= 10 {
      var s := NatToString(n);
      var front := NatToString(n / 10);
      assert s[..|s| - 1] == front;
      assert DigitValue(s[|s| - 1]) == n % 10;
      ParseNatToString(n / 10);
    }
  }

  /** Python's `str(n)`: a minus sign, then the digits of `|n|`, with no leading zero. */
  function IntToString(n: int): (r: string)
    ensures r != []
    ensures n >= 0 ==> AllDigits(r)
    ensures n < 0 ==> r[0] == '-' && AllDigits(r[1..])
    ensures n >= 0 ==> (r[0] == '0' ==> r == "0")
    ensures n < 0 ==> |r| >= 2 && r[1] != '0'
  {
    if n < 0 then "-" + NatToString(-n) else NatToString(n)
  }

  predicate IsDecimal(s: string) {
    AllDigits(s) || (s != [] && s[0] == '-' && AllDigits(s[1..]))
  }

  /** Python's `int(s)` on an optional minus sign followed by digits. */
  function ParseInt(s: string): int
    requires IsDecimal(s)
  {
    if AllDigits(s) then ParseNat(s) else 0 - ParseNat(s[1..])
  }

  /** `str` on integers has `int` as inverse. */
  lemma IntToStringRoundTrip(n: int)
    ensures IsDecimal(IntToString(n)) && ParseInt(IntToString(n)) == n
  {
    var r := IntToString(n);
    if n < 0 {
      assert !IsDigit(r[0]);
      assert r[1..] == NatToString(-n);
      ParseNatToString(-n);
    } else {
      ParseNatToString(n);
    }
  }

  /** Distinct integers have distinct decimal renderings. */
  lemma IntToStringInjective(a: int, b: int)
    requires IntToString(a) == IntToString(b)
    ensures a == b
  {
    IntToStringRoundTrip(a);
    IntToStringRoundTrip(b);
  }
}
