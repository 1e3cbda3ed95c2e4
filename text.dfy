/** The parts of Python's string runtime that app.py relies on: str.isspace
    and str.strip, str.lower, str.endswith, str.rfind of one character,
    and str(int). Strings are sequences of
    code points, as Python 3 strings are. */
module Text {

  /** Python's str.isspace on one code point: the 29 code points whose
      bidirectional class is WS, B or S, or whose category is Zs. */
  predicate IsSpace(c: char) {
    var n := c as int;
    (0x09 <= n <= 0x0D) || (0x1C <= n <= 0x20) || n == 0x85 || n == 0xA0
    || n == 0x1680 || (0x2000 <= n <= 0x200A) || n == 0x2028 || n == 0x2029
    || n == 0x202F || n == 0x205F || n == 0x3000
  }

  /** Number of whitespace code points at the front of s. */
  function LeadingSpaces(s: string): (n: nat)
    ensures n <= |s|
    ensures forall k :: 0 <= k < n ==> IsSpace(s[k])
    ensures n < |s| ==> !IsSpace(s[n])
  {
    if |s| > 0 && IsSpace(s[0]) then 1 + LeadingSpaces(s[1..]) else 0
  }

  /** Number of whitespace code points at the end of s. */
  function TrailingSpaces(s: string): (n: nat)
    ensures n <= |s|
    ensures forall k :: |s| - n <= k < |s| ==> IsSpace(s[k])
    ensures n < |s| ==> !IsSpace(s[|s| - 1 - n])
  {
    if |s| > 0 && IsSpace(s[|s| - 1]) then 1 + TrailingSpaces(s[..|s| - 1]) else 0
  }

  /** Python's str.strip() with no argument: s without its leading and
      trailing whitespace. The result is the one slice of s that is
      bordered by whitespace only and that neither starts nor ends with
      whitespace. */
  function Strip(s: string): (r: string)
    ensures LeadingSpaces(s) + |r| <= |s|
    ensures r == s[LeadingSpaces(s)..LeadingSpaces(s) + |r|]
    ensures forall k :: 0 <= k < |s| && !(LeadingSpaces(s) <= k < LeadingSpaces(s) + |r|) ==> IsSpace(s[k])
    ensures r != [] ==> !IsSpace(r[0]) && !IsSpace(r[|r| - 1])
  {
    var i := LeadingSpaces(s);
    var rest := s[i..];
    rest[..|rest| - TrailingSpaces(rest)]
  }

  /** Stripping twice strips nothing more. */
  lemma StripIdempotent(s: string)
    ensures Strip(Strip(s)) == Strip(s)
  {
    var r := Strip(s);
    assert LeadingSpaces(r) == 0;
    if r != [] {
      assert TrailingSpaces(r[LeadingSpaces(r)..]) == 0 by {
        assert r[LeadingSpaces(r)..] == r;
      }
    }
  }

  /** Python's str.lower on one code point, for the code points whose lower
      case can take part in an ASCII comparison: A-Z, and U+212A KELVIN
      SIGN, which lowers to 'k'. The ensures only spell out the three
      cases of the body. */
  function LowerChar(c: char): (l: char)
    ensures 'A' <= c <= 'Z' ==> l as int == c as int + 32
    ensures c as int == 0x212A ==> l == 'k'
    ensures !('A' <= c <= 'Z') && c as int != 0x212A ==> l == c
  {
    if 'A' <= c <= 'Z' then (c as int + 32) as char
    else if c as int == 0x212A then 'k'
    else c
  }

  /** Python's str.lower, code point by code point. The ensures only
      expose the comprehension to callers. */
  function Lower(s: string): (r: string)
    ensures |r| == |s|
    ensures forall k :: 0 <= k < |s| ==> r[k] == LowerChar(s[k])
  {
    seq(|s|, k requires 0 <= k < |s| => LowerChar(s[k]))
  }

  /** Lower-casing never creates nor removes a '.' or a '/'. */
  lemma LowerKeepsPunctuation(c: char)
    ensures LowerChar(c) == '.' <==> c == '.'
    ensures LowerChar(c) == '/' <==> c == '/'
  {
  }

  /** Python's str.endswith. */
  predicate EndsWith(s: string, suffix: string) {
    |suffix| <= |s| && s[|s| - |suffix|..] == suffix
  }

  /** Python's str.rfind for a single character: the index of the last c
      in s, or -1 when there is none. */
  function RFind(s: string, c: char): (r: int)
    ensures -1 <= r < |s|
    ensures r >= 0 ==> s[r] == c
    ensures forall k :: r < k < |s| ==> s[k] != c
  {
    if |s| == 0 then -1
    else if s[|s| - 1] == c then |s| - 1
    else RFind(s[..|s| - 1], c)
  }

  /** The number of occurrences of c in s. */
  function Count(s: string, c: char): (n: nat)
    ensures n <= |s|
    ensures n == 0 <==> c !in s
  {
    if s == [] then 0 else (if s[0] == c then 1 else 0) + Count(s[1..], c)
  }

  /** The count is the multiplicity of c in the multiset of s. */
  lemma {:induction false} CountMultiset(s: string, c: char)
    ensures Count(s, c) == multiset(s)[c]
  {
    if s != [] {
      CountMultiset(s[1..], c);
      assert s == [s[0]] + s[1..];
    }
  }

  lemma {:induction false} CountConcat(a: string, b: string, c: char)
    ensures Count(a + b, c) == Count(a, c) + Count(b, c)
  {
    if a == [] {
      assert a + b == b;
    } else {
      assert (a + b)[1..] == a[1..] + b;
      CountConcat(a[1..], b, c);
    }
  }

  predicate IsDigit(c: char) {
    '0' <= c <= '9'
  }

  /** Every character of s[i..j] is a decimal digit. */
  predicate DigitsBetween(s: string, i: nat, j: nat) {
    i <= j <= |s| && forall x :: i <= x < j ==> IsDigit(s[x])
  }

  predicate AllDigits(s: string) {
    DigitsBetween(s, 0, |s|)
  }

  /** The value of one decimal digit. */
  function DigitValue(c: char): (d: nat)
    requires IsDigit(c)
    ensures d < 10
  {
    c as int - '0' as int
  }

  function DigitChar(d: nat): (c: char)
    requires d < 10
    ensures IsDigit(c) && DigitValue(c) == d
  {
    ('0' as int + d) as char
  }

  /** The number the digits s[i..j] denote (leading zeros allowed), read
      by position so that no slice of s is formed. */
  function RangeValue(s: string, i: nat, j: nat): nat
    requires DigitsBetween(s, i, j)
    decreases j - i
  {
    if j == i then 0 else RangeValue(s, i, j - 1) * 10 + DigitValue(s[j - 1])
  }

  /** The number a string of decimal digits denotes. */
  function DigitsValue(s: string): nat
    requires AllDigits(s)
  {
    RangeValue(s, 0, |s|)
  }

  /** Equal digits at corresponding positions denote equal numbers. */
  lemma {:induction false} RangeValueShift(a: string, i: nat, b: string, p: nat, m: nat)
    requires DigitsBetween(a, i, i + m) && DigitsBetween(b, p, p + m)
    requires forall x :: i <= x < i + m ==> a[x] == b[x - i + p]
    ensures RangeValue(a, i, i + m) == RangeValue(b, p, p + m)
  {
    if m > 0 {
      assert a[i + m - 1] == b[p + m - 1];
      RangeValueShift(a, i, b, p, m - 1);
    }
  }

  /** The value of three digits. */
  lemma ThreeDigits(s: string, i: nat)
    requires DigitsBetween(s, i, i + 3)
    ensures RangeValue(s, i, i + 3) == DigitValue(s[i]) * 100 + DigitValue(s[i + 1]) * 10 + DigitValue(s[i + 2])
  {
    assert RangeValue(s, i, i + 1) == DigitValue(s[i]);
    assert RangeValue(s, i, i + 2) == DigitValue(s[i]) * 10 + DigitValue(s[i + 1]);
  }

  /** Python's str(n) for a non-negative int: its decimal digits, without
      leading zeros ("0" for zero). */
  function Decimal(n: nat): (r: string)
    ensures |r| >= 1 && AllDigits(r)
    ensures r[0] == '0' ==> n == 0 && r == "0"
    ensures DigitsValue(r) == n
  {
    if n < 10 then
      var r := [DigitChar(n)];
      assert RangeValue(r, 0, 0) == 0;
      r
    else
      var d := Decimal(n / 10);
      var r := d + [DigitChar(n % 10)];
      RangeValueShift(r, 0, d, 0, |d|);
      r
  }

  /** Length of the maximal run of digits in s from index i on. */
  function DigitRun(s: string, i: nat): (n: nat)
    requires i <= |s|
    ensures i + n <= |s|
    decreases |s| - i
  {
    if i < |s| && IsDigit(s[i]) then 1 + DigitRun(s, i + 1) else 0
  }

  /** The run at i is made of digits and ends at a non-digit or at the end
      of s. */
  lemma {:induction false} DigitRunDigits(s: string, i: nat)
    requires i <= |s|
    ensures DigitsBetween(s, i, i + DigitRun(s, i))
    ensures i + DigitRun(s, i) < |s| ==> !IsDigit(s[i + DigitRun(s, i)])
    decreases |s| - i
  {
    if i < |s| && IsDigit(s[i]) {
      DigitRunDigits(s, i + 1);
    }
  }

  /** m digits from i on, followed by a non-digit or by the end of s, are
      the run of digits at i. */
  lemma {:induction false} DigitRunExact(s: string, i: nat, m: nat)
    requires DigitsBetween(s, i, i + m)
    requires i + m < |s| ==> !IsDigit(s[i + m])
    ensures DigitRun(s, i) == m
    decreases m
  {
    if m > 0 {
      DigitRunExact(s, i + 1, m - 1);
    }
  }
}
