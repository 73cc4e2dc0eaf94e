/** Python's `str(n)` for integers: the canonical decimal rendering used in
    the jog G-code (`f"G0 {axis}{position[axis]}"`). */
module Decimal {

  import opened Results

  predicate IsDigit(c: char) {
    '0' <= c <= '9'
  }

  predicate AllDigits(s: string) {
    forall k :: 0 <= k < |s| ==> IsDigit(s[k])
  }

  function DigitChar(d: nat): (c: char)
    requires d < 10
    ensures IsDigit(c)
  {
    ['0', '1', '2', '3', '4', '5', '6', '7', '8', '9'][d]
  }

  function DigitValue(c: char): nat
    requires IsDigit(c)
  {
    (c as int - '0' as int) as nat
  }

  /** The number a string of decimal digits denotes (most significant first). */
  function DigitsValue(s: string): nat
    requires AllDigits(s)
  {
    if |s| == 0 then 0 else DigitsValue(s[..|s| - 1]) * 10 + DigitValue(s[|s| - 1])
  }

  /** Digits with no superfluous leading zero: "0" itself, or a string not starting with '0'. */
  predicate Canonical(s: string) {
    |s| > 0 && AllDigits(s) && (s[0] != '0' || s == "0")
  }

  /** The decimal digits of a natural number. */
  function NatToString(n: nat): (r: string)
    ensures Canonical(r)
    ensures DigitsValue(r) == n
  {
    if n < 10 then
      [DigitChar(n)]
    else
      var init := NatToString(n / 10);
      var r := init + [DigitChar(n % 10)];
      assert r[..|r| - 1] == init;
      r
  }

  /** Python's `str(n)`: a minus sign for negative values, then the canonical digits of |n|. */
  function IntToString(n: int): (r: string)
    ensures |r| > 0
    ensures n < 0 <==> r[0] == '-'
    ensures n < 0 ==> Canonical(r[1..]) && DigitsValue(r[1..]) == -n
    ensures n >= 0 ==> Canonical(r) && DigitsValue(r) == n
  {
    if n < 0 then "-" + NatToString(-n) else NatToString(n)
  }

  /** Reads back a rendering produced by `IntToString`; None for anything else. */
  function ParseInt(s: string): (r: Option<int>)
    ensures r.Some? ==> |s| > 0
  {
    if |s| > 0 && s[0] == '-' && Canonical(s[1..]) && s[1..] != "0" then
      Some(0 - DigitsValue(s[1..]))
    else if Canonical(s) then
      Some(DigitsValue(s))
    else
      None
  }

  /** Equal digit strings of the same length denote equal values, and conversely
      canonical strings with equal values are equal. */
  lemma {:induction false} CanonicalInjective(a: string, b: string)
    requires Canonical(a) && Canonical(b)
    requires DigitsValue(a) == DigitsValue(b)
    ensures a == b
  {
    CanonicalBounds(a);
    CanonicalBounds(b);
    if |a| == 1 || |b| == 1 {
      assert |a| == |b|;
      assert a[0] == b[0];
    } else {
      var a', b' := a[..|a| - 1], b[..|b| - 1];
      assert a'[0] == a[0] && b'[0] == b[0];
      assert DigitsValue(a') == DigitsValue(b') && DigitValue(a[|a| - 1]) == DigitValue(b[|b| - 1]);
      CanonicalInjective(a', b');
      assert a == a' + [a[|a| - 1]];
      assert b == b' + [b[|b| - 1]];
    }
  }

  function Pow10(k: nat): (r: nat)
    ensures r >= 1
  {
    if k == 0 then 1 else 10 * Pow10(k - 1)
  }

  /** A canonical string of k digits denotes a value in [10^(k-1), 10^k), except "0". */
  lemma {:induction false} CanonicalBounds(s: string)
    requires Canonical(s)
    ensures DigitsValue(s) < Pow10(|s|)
    ensures |s| > 1 ==> Pow10(|s| - 1) <= DigitsValue(s)
  {
    if |s| > 1 {
      var init := s[..|s| - 1];
      assert init[0] == s[0];
      CanonicalBounds(init);
    } else {
      assert s[0] == s[|s| - 1];
    }
  }

  /** Round trip: reading back a rendered integer gives the integer. */
  lemma IntRoundTrip(n: int)
    ensures ParseInt(IntToString(n)) == Some(n)
  {
    var r := IntToString(n);
    if n < 0 {
      assert r[1..] != "0";
    } else {
      assert r[0] != '-';
    }
  }

  /** Distinct integers render to distinct strings. */
  lemma IntToStringInjective(a: int, b: int)
    requires IntToString(a) == IntToString(b)
    ensures a == b
  {
    IntRoundTrip(a);
    IntRoundTrip(b);
  }

  /** Every string `ParseInt` accepts is the rendering of the value it reads. */
  lemma ParseIntOnlyCanonical(s: string, n: int)
    requires ParseInt(s) == Some(n)
    ensures IntToString(n) == s
  {
    var r := IntToString(n);
    if n < 0 {
      assert s == "-" + s[1..];
      CanonicalInjective(r[1..], s[1..]);
      assert r == "-" + r[1..];
    } else {
      if |s| > 0 && s[0] == '-' && Canonical(s[1..]) && s[1..] != "0" {
        CanonicalBounds(s[1..]);
        assert false;
      }
      CanonicalInjective(r, s);
    }
  }
}
