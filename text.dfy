/**
 * The java.lang.String and java.lang.Integer behaviour the registry relies on:
 * String.trim, the whitespace class of java.util.regex, Integer.parseInt,
 * decimal rendering of an int, the "%3d" left padding of String.format, and the
 * ordering of String.compareTo.
 */
module Text {
  import opened Wrappers

  const MinInt32: int := -0x8000_0000
  const MaxInt32: int := 0x7FFF_FFFF

  /** The characters String.trim removes from both ends: every code point up to U+0020. */
  predicate IsTrimmable(c: char) {
    c <= ' '
  }

  /** The regex class \s: space, tab, line feed, vertical tab, form feed and carriage return. */
  predicate IsRegexSpace(c: char) {
    c == ' ' || '\t' <= c <= '\r'
  }

  /** The longest suffix of s whose first character does not satisfy p. */
  function StripStart(s: string, p: char -> bool): (r: string)
    ensures |r| <= |s| && r == s[|s| - |r|..]
    ensures r != [] ==> !p(r[0])
    ensures forall k :: 0 <= k < |s| - |r| ==> p(s[k])
  {
    if s != [] && p(s[0]) then
      var r := StripStart(s[1..], p);
      assert forall k :: 1 <= k < |s| - |r| ==> s[k] == s[1..][k - 1];
      r
    else s
  }

  /** The longest prefix of s whose last character does not satisfy p. */
  function StripEnd(s: string, p: char -> bool): (r: string)
    ensures |r| <= |s| && r == s[..|r|]
    ensures r != [] ==> !p(r[|r| - 1])
    ensures forall k :: |r| <= k < |s| ==> p(s[k])
  {
    if s != [] && p(s[|s| - 1]) then StripEnd(s[..|s| - 1], p) else s
  }

  /** The slice s[i..j] is what remains when only characters satisfying p are removed from the ends of s. */
  predicate StrippedAround(s: string, i: int, j: int, p: char -> bool) {
    && 0 <= i <= j <= |s|
    && (forall k :: 0 <= k < i ==> p(s[k]))
    && (forall k :: j <= k < |s| ==> p(s[k]))
  }

  /** Removes the characters satisfying p from both ends of s. */
  function StripAround(s: string, p: char -> bool): (r: string)
    ensures exists i, j :: StrippedAround(s, i, j, p) && r == s[i..j]
    ensures r == [] || (!p(r[0]) && !p(r[|r| - 1]))
    ensures s == [] || (!p(s[0]) && !p(s[|s| - 1])) ==> r == s
  {
    var a := StripStart(s, p);
    var r := StripEnd(a, p);
    StripBoth(s, a, r, p);
    var i := |s| - |a|;
    assert StrippedAround(s, i, i + |r|, p) && r == s[i..i + |r|];
    r
  }

  /** String.trim: the text between the leading and the trailing trimmable characters. */
  function Trim(s: string): (r: string)
    ensures exists i, j :: StrippedAround(s, i, j, IsTrimmable) && r == s[i..j]
    ensures r == [] || (!IsTrimmable(r[0]) && !IsTrimmable(r[|r| - 1]))
    ensures s == [] || (!IsTrimmable(s[0]) && !IsTrimmable(s[|s| - 1])) ==> r == s
  {
    StripAround(s, IsTrimmable)
  }

  /** Stripping both ends leaves a slice whose surroundings all satisfy p. */
  lemma StripBoth(s: string, a: string, r: string, p: char -> bool)
    requires |a| <= |s| && a == s[|s| - |a|..] && forall k :: 0 <= k < |s| - |a| ==> p(s[k])
    requires |r| <= |a| && r == a[..|r|] && forall k :: |r| <= k < |a| ==> p(a[k])
    ensures var i := |s| - |a|; r == s[i..i + |r|] && forall k :: i + |r| <= k < |s| ==> p(s[k])
  {
    var i := |s| - |a|;
    forall k | i + |r| <= k < |s|
      ensures p(s[k])
    {
      assert s[k] == a[k - i];
    }
  }

  predicate IsDigit(c: char) {
    '0' <= c <= '9'
  }

  predicate IsDigits(s: string) {
    forall i :: 0 <= i < |s| ==> IsDigit(s[i])
  }

  function DigitChar(d: nat): (c: char)
    requires d < 10
    ensures IsDigit(c) && c as int - '0' as int == d
  {
    ('0' as int + d) as char
  }

  /** The value of a string of decimal digits, most significant first. */
  function DigitsValue(s: string): nat
    requires IsDigits(s)
  {
    if s == [] then 0 else DigitsValue(s[..|s| - 1]) * 10 + (s[|s| - 1] as int - '0' as int)
  }

  /** The shortest decimal rendering of a natural number. */
  function NatToString(n: nat): (r: string)
    ensures r != [] && IsDigits(r)
    decreases n
  {
    if n < 10 then [DigitChar(n)] else NatToString(n / 10) + [DigitChar(n % 10)]
  }

  lemma {:induction false} NatToStringValue(n: nat)
    ensures DigitsValue(NatToString(n)) == n
    decreases n
  {
    if n >= 10 {
      NatToStringValue(n / 10);
      var s := NatToString(n / 10);
      assert NatToString(n)[..|s|] == s;
    }
  }

  /** Decimal rendering of an int, as string concatenation and "%d" produce it. */
  function IntToString(n: int): (r: string)
    ensures r != []
    ensures n < 0 <==> r[0] == '-'
  {
    if n < 0 then "-" + NatToString(-n) else NatToString(n)
  }

  /** The text after an optional leading sign. */
  function Unsigned(s: string): string {
    if s != [] && (s[0] == '-' || s[0] == '+') then s[1..] else s
  }

  /** The value of an optionally signed string of digits. */
  function SignedValue(s: string): int
    requires IsDigits(Unsigned(s))
  {
    if s != [] && s[0] == '-' then -(DigitsValue(Unsigned(s)) as int) else DigitsValue(Unsigned(s))
  }

  /**
   * Integer.parseInt with radix 10: an optional '+' or '-', at least one
   * decimal digit, and a value inside the 32-bit range. None stands for the
   * NumberFormatException.
   */
  function ParseInt(s: string): (r: Option<int>)
    ensures r.Some? <==> (Unsigned(s) != [] && IsDigits(Unsigned(s)) && MinInt32 <= SignedValue(s) <= MaxInt32)
    ensures r.Some? ==> r.value == SignedValue(s)
  {
    var digits := Unsigned(s);
    if digits == [] || !IsDigits(digits) then None
    else if MinInt32 <= SignedValue(s) <= MaxInt32 then Some(SignedValue(s))
    else None
  }

  /** Rendering an int and parsing it back gives the int, exactly for the 32-bit range. */
  lemma ParseIntRoundTrip(n: int)
    ensures ParseInt(IntToString(n)) == if MinInt32 <= n <= MaxInt32 then Some(n) else None
  {
    var s := IntToString(n);
    if n < 0 {
      NatToStringValue(-n);
      assert Unsigned(s) == NatToString(-n);
    } else {
      NatToStringValue(n);
      assert Unsigned(s) == NatToString(n);
    }
  }

  function Spaces(k: nat): (r: string)
    ensures |r| == k && forall i :: 0 <= i < k ==> r[i] == ' '
  {
    seq(k, _ => ' ')
  }

  /** String.format("%3d", n) for a natural number: the digits, right-aligned in a field of width 3. */
  function PadLeft3(n: nat): (r: string)
    ensures |r| == if |NatToString(n)| < 3 then 3 else |NatToString(n)|
    ensures r[|r| - |NatToString(n)|..] == NatToString(n)
    ensures forall i :: 0 <= i < |r| - |NatToString(n)| ==> r[i] == ' '
  {
    var d := NatToString(n);
    if |d| < 3 then Spaces(3 - |d|) + d else d
  }

  /** a.compareTo(b) <= 0: lexicographic by character code, a proper prefix first. */
  predicate LexLe(a: string, b: string) {
    if a == [] then true
    else if b == [] then false
    else if a[0] != b[0] then a[0] < b[0]
    else LexLe(a[1..], b[1..])
  }

  lemma {:induction false} LexLeReflexive(a: string)
    ensures LexLe(a, a)
  {
    if a != [] {
      LexLeReflexive(a[1..]);
    }
  }

  lemma {:induction false} LexLeTotal(a: string, b: string)
    ensures LexLe(a, b) || LexLe(b, a)
  {
    if a != [] && b != [] && a[0] == b[0] {
      LexLeTotal(a[1..], b[1..]);
    }
  }

  lemma {:induction false} LexLeAntisymmetric(a: string, b: string)
    ensures LexLe(a, b) && LexLe(b, a) ==> a == b
  {
    if a != [] && b != [] && a[0] == b[0] {
      LexLeAntisymmetric(a[1..], b[1..]);
      assert a == [a[0]] + a[1..] && b == [b[0]] + b[1..];
    }
  }

  lemma {:induction false} LexLeTransitive(a: string, b: string, c: string)
    ensures LexLe(a, b) && LexLe(b, c) ==> LexLe(a, c)
  {
    if a != [] && b != [] && c != [] && a[0] == b[0] == c[0] {
      LexLeTransitive(a[1..], b[1..], c[1..]);
    }
  }
}
