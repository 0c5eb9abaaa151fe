/**
 * String helpers shared by the model: concatenation of a sequence of strings,
 * PHP's truthiness test on strings, PHP's `(string)` of an integer and PHP's
 * `(int)` of a string.
 */
module Strings {

  /** The concatenation of all strings of `parts`, in order. */
  function Concat(parts: seq<string>): (r: string)
    ensures parts == [] ==> r == ""
  {
    if parts == [] then "" else parts[0] + Concat(parts[1..])
  }

  lemma {:induction false} ConcatSnoc(parts: seq<string>, last: string)
    ensures Concat(parts + [last]) == Concat(parts) + last
  {
    if parts != [] {
      assert (parts + [last])[1..] == parts[1..] + [last];
      ConcatSnoc(parts[1..], last);
    }
  }

  predicate StartsWith(s: string, prefix: string) {
    |prefix| <= |s| && s[..|prefix|] == prefix
  }

  /** PHP's boolean conversion of a string: only "" and "0" are false. */
  predicate PhpTruthy(s: string) {
    s != "" && s != "0"
  }

  predicate IsDigit(c: char) {
    '0' <= c <= '9'
  }

  function DigitValue(c: char): (d: nat)
    requires IsDigit(c)
    ensures d < 10
  {
    (c as int) - ('0' as int)
  }

  function DigitChar(d: nat): (c: char)
    requires d < 10
    ensures IsDigit(c) && DigitValue(c) == d
  {
    (('0' as int) + d) as char
  }

  /** Decimal digits of `n`, most significant first, without leading zeros. */
  function NatToString(n: nat): (s: string)
    ensures |s| >= 1
    ensures forall i :: 0 <= i < |s| ==> IsDigit(s[i])
    decreases n
  {
    if n < 10 then [DigitChar(n)] else NatToString(n / 10) + [DigitChar(n % 10)]
  }

  /** PHP's `(string)` of an integer. */
  function IntToString(n: int): (s: string)
    ensures |s| >= 1
  {
    if n < 0 then "-" + NatToString(-n) else NatToString(n)
  }

  /** The value of a string made only of decimal digits. */
  function DigitsValue(s: string): nat
    requires forall i :: 0 <= i < |s| ==> IsDigit(s[i])
  {
    if s == [] then 0 else DigitsValue(s[..|s| - 1]) * 10 + DigitValue(s[|s| - 1])
  }

  /** Length of the longest prefix of `s` made of decimal digits. */
  function LeadingDigits(s: string): (k: nat)
    ensures k <= |s|
    ensures forall i :: 0 <= i < k ==> IsDigit(s[i])
    ensures k < |s| ==> !IsDigit(s[k])
  {
    if s == [] || !IsDigit(s[0]) then 0 else 1 + LeadingDigits(s[1..])
  }

  predicate IsSpace(c: char) {
    c == ' ' || c == '\t' || c == '\n' || c == '\r' || c == '\U{B}' || c == '\U{C}'
  }

  function SkipSpace(s: string): (r: string)
    ensures r == [] || !IsSpace(r[0])
    ensures |r| <= |s| && r == s[|s| - |r|..]
  {
    if s != [] && IsSpace(s[0]) then SkipSpace(s[1..]) else s
  }

  /**
   * PHP's `(int)` of a string: leading white space is skipped, then an
   * optional sign, then the longest run of decimal digits is read; a string
   * with no digits there reads as 0.
   */
  function ParseInt(s: string): (n: int)
    ensures n < 0 ==> SkipSpace(s) != [] && SkipSpace(s)[0] == '-'
    ensures SkipSpace(s) == [] || !(IsDigit(SkipSpace(s)[0]) || SkipSpace(s)[0] == '-' || SkipSpace(s)[0] == '+') ==> n == 0
  {
    ParseSigned(SkipSpace(s))
  }

  /** `(int)` of a string that does not start with white space. */
  function ParseSigned(t: string): (n: int)
    ensures n < 0 ==> t != [] && t[0] == '-'
    ensures t == [] || !(IsDigit(t[0]) || t[0] == '-' || t[0] == '+') ==> n == 0
  {
    if t != [] && (t[0] == '-' || t[0] == '+') then
      var u := t[1..];
      var v: int := DigitsValue(u[..LeadingDigits(u)]);
      if t[0] == '-' then -v else v
    else
      DigitsValue(t[..LeadingDigits(t)])
  }

  lemma {:induction false} DigitsValueOfNat(n: nat)
    ensures DigitsValue(NatToString(n)) == n
    decreases n
  {
    var s := NatToString(n);
    if n >= 10 {
      DigitsValueOfNat(n / 10);
      assert s[..|s| - 1] == NatToString(n / 10);
    }
  }

  lemma LeadingDigitsOfAllDigits(s: string)
    requires forall i :: 0 <= i < |s| ==> IsDigit(s[i])
    ensures LeadingDigits(s) == |s|
  {
  }

  lemma SkipNoSpace(s: string)
    requires s != [] && !IsSpace(s[0])
    ensures SkipSpace(s) == s
  {
  }

  /** An unsigned run of digits reads as its value. */
  lemma ParseSignedDigits(d: string)
    requires d != [] && forall i :: 0 <= i < |d| ==> IsDigit(d[i])
    ensures ParseSigned(d) == DigitsValue(d)
  {
    assert IsDigit(d[0]);
    LeadingDigitsOfAllDigits(d);
    assert d[..LeadingDigits(d)] == d;
  }

  /** A minus sign followed by a run of digits reads as minus their value. */
  lemma ParseSignedNegative(t: string)
    requires |t| >= 2 && t[0] == '-' && forall i :: 1 <= i < |t| ==> IsDigit(t[i])
    ensures ParseSigned(t) == -(DigitsValue(t[1..]) as int)
  {
    var u := t[1..];
    assert forall i :: 0 <= i < |u| ==> IsDigit(u[i]) by {
      forall i | 0 <= i < |u| ensures IsDigit(u[i]) {
        assert u[i] == t[i + 1];
      }
    }
    LeadingDigitsOfAllDigits(u);
    assert u[..LeadingDigits(u)] == u;
  }

  lemma ParseDigits(d: string)
    requires d != [] && forall i :: 0 <= i < |d| ==> IsDigit(d[i])
    ensures ParseInt(d) == DigitsValue(d)
  {
    SkipNoSpace(d);
    ParseSignedDigits(d);
  }

  lemma ParseNegativeDigits(d: string)
    requires d != [] && forall i :: 0 <= i < |d| ==> IsDigit(d[i])
    ensures ParseInt("-" + d) == -(DigitsValue(d) as int)
  {
    var s := "-" + d;
    assert s[0] == '-' && s[1..] == d;
    SkipNoSpace(s);
    ParseSignedNegative(s);
  }

  /** Reading back a printed integer gives the integer. */
  lemma IntRoundTrip(n: int)
    ensures ParseInt(IntToString(n)) == n
  {
    var m: nat := if n < 0 then -n else n;
    DigitsValueOfNat(m);
    if n < 0 {
      ParseNegativeDigits(NatToString(m));
    } else {
      ParseDigits(NatToString(m));
    }
  }

  /** Printing is injective, so distinct numbers never give the same xref. */
  lemma IntToStringInjective(a: int, b: int)
    ensures IntToString(a) == IntToString(b) ==> a == b
  {
    IntRoundTrip(a);
    IntRoundTrip(b);
  }
}
