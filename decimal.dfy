/** The number <-> text conversions the grade dialog relies on: `parseFloat` on
    decimal notation with an optional exponent part and
    `Number.prototype.toString` on non-negative multiples of 0.01. */
module Decimal {
  import opened Wrappers
  import opened Types
  import opened Rounding

  predicate IsDigit(c: char)
  {
    '0' <= c <= '9'
  }

  predicate AllDigits(s: string)
  {
    forall k :: 0 <= k < |s| ==> IsDigit(s[k])
  }

  function DigitValue(c: char): nat
    requires IsDigit(c)
  {
    c as int - '0' as int
  }

  function DigitChar(d: nat): (c: char)
    requires d < 10
    ensures IsDigit(c) && DigitValue(c) == d
  {
    ('0' as int + d) as char
  }

  /** The value of a string of decimal digits, read left to right. */
  function DigitsValue(s: string): nat
    requires AllDigits(s)
  {
    if s == [] then 0 else 10 * DigitsValue(s[..|s| - 1]) + DigitValue(s[|s| - 1])
  }

  function Pow10(k: nat): (p: nat)
    ensures p >= 1
  {
    if k == 0 then 1 else 10 * Pow10(k - 1)
  }

  /** The length of the run of digits that s starts with. */
  function LeadingDigits(s: string): (n: nat)
    ensures n <= |s| && AllDigits(s[..n])
    ensures n < |s| ==> !IsDigit(s[n])
  {
    if s == [] || !IsDigit(s[0]) then 0
    else
      var n := LeadingDigits(s[1..]);
      assert s[..n + 1] == [s[0]] + s[1..][..n];
      n + 1
  }

  /** The fraction digits after the integer digits t[..n]: those following a
      '.' right there, or none. */
  function FractionDigits(t: string, n: nat): (f: string)
    requires n <= |t|
    ensures AllDigits(f)
    ensures n < |t| && t[n] == '.' ==> n + 1 + |f| <= |t|
    ensures !(n < |t| && t[n] == '.') ==> f == []
  {
    var rest := t[n..];
    if rest != [] && rest[0] == '.' then rest[1..][..LeadingDigits(rest[1..])] else []
  }

  /** `parseFloat` for text of the form [-] digits [. digits] [exponent]
      followed by anything: the longest such prefix is read; without a digit on
      either side of the point the result is NaN. */
  function ParseFloat(s: string): (r: Number)
  {
    if s != [] && s[0] == '-' then
      match ParseUnsigned(s[1..])
      case NaN => NaN
      case Real(v) => Real(-v)
    else ParseUnsigned(s)
  }

  /** ParseFloat without the sign. */
  function ParseUnsigned(t: string): (r: Number)
  {
    var n := LeadingDigits(t);
    var f := FractionDigits(t, n);
    if n == 0 && f == [] then NaN
    else Real(ApplyExponent(MantissaValue(t[..n], f), Exponent(t[MantissaEnd(t, n)..])))
  }

  /** The value of integer digits a and fraction digits f. */
  function MantissaValue(a: string, f: string): real
    requires AllDigits(a) && AllDigits(f)
  {
    DigitsValue(a) as real + DigitsValue(f) as real / Pow10(|f|) as real
  }

  function ApplyExponent(m: real, e: Option<int>): real
  {
    match e
    case None => m
    case Some(x) => Scale(m, x)
  }

  /** The position right after the integer digits t[..n], the point and the
      fraction digits. */
  function MantissaEnd(t: string, n: nat): (m: nat)
    requires n <= |t|
    ensures n <= m <= |t|
  {
    if n < |t| && t[n] == '.' then n + 1 + |FractionDigits(t, n)| else n
  }

  /** The exponent part u starts with: 'e' or 'E', an optional sign and at
      least one digit. Without a digit there is no exponent part and the
      'e' is where reading stops. */
  function Exponent(u: string): (r: Option<int>)
    ensures r.Some? ==> |u| >= 2 && (u[0] == 'e' || u[0] == 'E')
    ensures u == [] || (u[0] != 'e' && u[0] != 'E') ==> r.None?
  {
    if u == [] || (u[0] != 'e' && u[0] != 'E') then None else SignedDigits(u[1..])
  }

  /** An optional sign and the digits v starts with, if there is one. */
  function SignedDigits(v: string): (r: Option<int>)
    ensures r.Some? ==> v != []
  {
    if v != [] && v[0] == '-' then
      match UnsignedDigits(v[1..])
      case None => None
      case Some(k) => Some(-k)
    else if v != [] && v[0] == '+' then UnsignedDigits(v[1..])
    else UnsignedDigits(v)
  }

  /** The value of the digits w starts with, if there is one. */
  function UnsignedDigits(w: string): (r: Option<int>)
    ensures r.Some? ==> w != [] && r.value >= 0
  {
    var k := LeadingDigits(w);
    if k == 0 then None else Some(DigitsValue(w[..k]))
  }

  /** m times ten to the power e, one factor of ten at a time (ScaleUp and
      ScaleDown give the closed forms). */
  function Scale(m: real, e: int): real
    decreases if e >= 0 then e else -e
  {
    if e == 0 then m
    else if e > 0 then 10.0 * Scale(m, e - 1)
    else Scale(m, e + 1) / 10.0
  }

  /** The decimal numeral of n, without leading zeros. */
  function NatToString(n: nat): (s: string)
    ensures s != [] && AllDigits(s) && DigitsValue(s) == n
    ensures s[0] == '0' ==> n == 0
  {
    if n < 10 then [DigitChar(n)]
    else
      var s := NatToString(n / 10) + [DigitChar(n % 10)];
      assert s[..|s| - 1] == NatToString(n / 10);
      s
  }

  /** `x.toString()` for a non-negative multiple of 0.01: the integer part,
      then '.' and one or two fraction digits unless they are zero (trailing
      zeros are not written). */
  function Format(x: real): string
    requires x >= 0.0 && IsCentMultiple(x)
  {
    var c := (100.0 * x).Floor;
    FormatParts(c / 100, c % 100)
  }

  /** The numeral of whole + cents / 100. */
  function FormatParts(whole: nat, cents: nat): string
    requires cents < 100
  {
    if cents == 0 then NatToString(whole)
    else if cents % 10 == 0 then NatToString(whole) + "." + [DigitChar(cents / 10)]
    else NatToString(whole) + "." + [DigitChar(cents / 10), DigitChar(cents % 10)]
  }

  /** A run of digits followed by a non-digit (or nothing) is read in full. */
  lemma {:induction false} LeadingDigitsOfNumeral(a: string, b: string)
    requires AllDigits(a) && (b == [] || !IsDigit(b[0]))
    ensures LeadingDigits(a + b) == |a|
  {
    if a != [] {
      assert (a + b)[1..] == a[1..] + b;
      LeadingDigitsOfNumeral(a[1..], b);
    }
  }

  /** The value of one and of two digits. */
  lemma SmallDigitsValue(d1: nat, d2: nat)
    requires d1 < 10 && d2 < 10
    ensures DigitsValue([DigitChar(d1)]) == d1
    ensures DigitsValue([DigitChar(d1), DigitChar(d2)]) == 10 * d1 + d2
  {
    assert [DigitChar(d1), DigitChar(d2)][..1] == [DigitChar(d1)];
    assert [DigitChar(d1)][..0] == [];
  }

  /** The integer digits and the fraction digits of a numeral a "." d. */
  lemma NumeralParts(a: string, d: string)
    requires a != [] && AllDigits(a) && AllDigits(d) && d != []
    ensures var t := a + "." + d;
      LeadingDigits(t) == |a| && t[..|a|] == a && FractionDigits(t, |a|) == d
  {
    var t := a + "." + d;
    assert t == a + ("." + d);
    LeadingDigitsOfNumeral(a, "." + d);
    assert t[..|a|] == a;
    assert t[|a|..] == "." + d;
    assert ("." + d)[1..] == d;
    LeadingDigitsOfNumeral(d, []);
    assert d + [] == d;
  }

  /** Reading a numeral with a fraction part. */
  lemma ParseNumeral(a: string, d: string)
    requires a != [] && AllDigits(a) && AllDigits(d) && d != []
    ensures ParseFloat(a + "." + d) == Real(DigitsValue(a) as real + DigitsValue(d) as real / Pow10(|d|) as real)
  {
    var t := a + "." + d;
    NumeralParts(a, d);
    assert t[|a|] == '.';
    assert t[0] == a[0];
    assert ParseFloat(t) == ParseUnsigned(t);
    ParseByParts(t, a, d);
  }

  /** ParseUnsigned once the integer and fraction digits are known. */
  lemma ParseByParts(t: string, a: string, f: string)
    requires AllDigits(a) && AllDigits(f) && a != []
    requires LeadingDigits(t) == |a| && t[..|a|] == a && FractionDigits(t, |a|) == f
    requires MantissaEnd(t, |a|) == |t|
    ensures ParseUnsigned(t) == Real(DigitsValue(a) as real + DigitsValue(f) as real / Pow10(|f|) as real)
  {
  }

  /** Reading the numeral of a whole number. */
  lemma ParseWhole(whole: nat)
    ensures ParseFloat(NatToString(whole)) == Real(whole as real)
  {
    var a := NatToString(whole);
    LeadingDigitsOfNumeral(a, []);
    assert a + [] == a;
    assert a[..|a|] == a;
    assert a[|a|..] == [];
    assert MantissaEnd(a, |a|) == |a|;
  }

  /** A non-negative multiple of 0.01 in whole units and cents. */
  lemma CentsSplit(x: real)
    requires x >= 0.0 && IsCentMultiple(x)
    ensures var c := (100.0 * x).Floor;
      c >= 0 && x == (c / 100) as real + (c % 100) as real / 100.0
  {
    var c := (100.0 * x).Floor;
    assert c == 100 * (c / 100) + c % 100;
    assert 100.0 * x == c as real;
  }

  /** Round trip: parseFloat reads back exactly the number toString wrote. */
  lemma FormatRoundTrip(x: real)
    requires x >= 0.0 && IsCentMultiple(x)
    ensures ParseFloat(Format(x)) == Real(x)
  {
    var c := (100.0 * x).Floor;
    CentsSplit(x);
    PartsRoundTrip(c / 100, c % 100);
  }

  lemma PartsRoundTrip(whole: nat, cents: nat)
    requires cents < 100
    ensures ParseFloat(FormatParts(whole, cents)) == Real(whole as real + cents as real / 100.0)
  {
    var d1, d2 := cents / 10, cents % 10;
    assert cents == 10 * d1 + d2;
    if cents == 0 {
      ParseWhole(whole);
    } else if d2 == 0 {
      OneFractionDigit(whole, d1);
    } else {
      TwoFractionDigits(whole, d1, d2);
    }
  }

  lemma OneFractionDigit(whole: nat, d1: nat)
    requires d1 < 10
    ensures ParseFloat(NatToString(whole) + "." + [DigitChar(d1)]) == Real(whole as real + d1 as real / 10.0)
  {
    SmallDigitsValue(d1, 0);
    assert Pow10(1) == 10;
    ReadFraction(whole, [DigitChar(d1)], d1, 10);
  }

  lemma TwoFractionDigits(whole: nat, d1: nat, d2: nat)
    requires d1 < 10 && d2 < 10
    ensures ParseFloat(NatToString(whole) + "." + [DigitChar(d1), DigitChar(d2)])
      == Real(whole as real + (10 * d1 + d2) as real / 100.0)
  {
    SmallDigitsValue(d1, d2);
    assert Pow10(2) == 100;
    ReadFraction(whole, [DigitChar(d1), DigitChar(d2)], 10 * d1 + d2, 100);
  }

  /** Reading whole "." d once the value of d and its power of ten are known. */
  lemma ReadFraction(whole: nat, d: string, v: nat, p: nat)
    requires d != [] && AllDigits(d) && DigitsValue(d) == v && Pow10(|d|) == p
    ensures ParseFloat(NatToString(whole) + "." + d) == Real(whole as real + v as real / p as real)
  {
    ParseNumeral(NatToString(whole), d);
  }

  /** Reading digits a followed by an exponent part: a "e" d is a scaled up
      by d places, which ScaleUp puts in closed form. */
  lemma ParsePositiveExponent(a: string, d: string)
    requires a != [] && AllDigits(a) && d != [] && AllDigits(d)
    ensures ParseFloat(a + ("e" + d)) == Real(Scale(DigitsValue(a) as real, DigitsValue(d)))
  {
    var u := "e" + d;
    ExponentPositive(d);
    assert u[0] == 'e';
    ParseWithExponentPart(a, u, DigitsValue(d));
  }

  /** a "e-" d is a / 10^d. */
  lemma ParseNegativeExponent(a: string, d: string)
    requires a != [] && AllDigits(a) && d != [] && AllDigits(d)
    ensures ParseFloat(a + ("e-" + d)) == Real(DigitsValue(a) as real / Pow10(DigitsValue(d)) as real)
  {
    var u := "e-" + d;
    ExponentNegative(d);
    assert u[0] == 'e';
    ParseWithExponentPart(a, u, -(DigitsValue(d) as int));
    ScaleDown(DigitsValue(a) as real, DigitsValue(d));
  }

  /** Scaling by a non-negative and by a negative exponent. */
  lemma {:induction false} ScaleUp(m: real, k: nat)
    ensures Scale(m, k) == m * Pow10(k) as real
  {
    if k > 0 {
      ScaleUp(m, k - 1);
      var p := Pow10(k - 1) as real;
      assert Pow10(k) as real == 10.0 * p;
      assert m * (10.0 * p) == 10.0 * (m * p);
    }
  }

  lemma {:induction false} ScaleDown(m: real, k: nat)
    ensures Scale(m, -(k as int)) == m / Pow10(k) as real
  {
    if k > 0 {
      ScaleDown(m, k - 1);
      var p := Pow10(k - 1) as real;
      assert Pow10(k) as real == 10.0 * p;
      assert -(k as int) + 1 == -((k - 1) as int);
      assert (m / p) / 10.0 == m / (10.0 * p);
    }
  }

  /** Digits followed by a text u that neither continues the digits nor starts
      a fraction end the mantissa. */
  lemma ReadBeforeExponent(a: string, u: string)
    requires a != [] && AllDigits(a) && u != [] && !IsDigit(u[0]) && u[0] != '.'
    ensures var t := a + u;
      && LeadingDigits(t) == |a| && t[..|a|] == a && FractionDigits(t, |a|) == []
      && MantissaEnd(t, |a|) == |a| && t[|a|..] == u
  {
    LeadingDigitsOfNumeral(a, u);
    var t := a + u;
    assert t[..|a|] == a && t[|a|..] == u;
  }

  lemma ParseWithExponentPart(a: string, u: string, e: int)
    requires a != [] && AllDigits(a) && u != [] && !IsDigit(u[0]) && u[0] != '.'
    requires Exponent(u) == Some(e)
    ensures ParseFloat(a + u) == Real(Scale(DigitsValue(a) as real, e))
  {
    ReadBeforeExponent(a, u);
    var t := a + u;
    assert t[0] == a[0];
    assert ParseUnsigned(t) == Real(ApplyExponent(MantissaValue(a, []), Some(e)));
    WholeMantissa(a);
  }

  lemma WholeMantissa(a: string)
    requires AllDigits(a)
    ensures MantissaValue(a, []) == DigitsValue(a) as real
  {
    assert DigitsValue([]) == 0 && Pow10(0) == 1;
  }

  lemma ExponentPositive(d: string)
    requires d != [] && AllDigits(d)
    ensures Exponent("e" + d) == Some(DigitsValue(d) as int)
  {
    WholeDigits(d);
    var u := "e" + d;
    assert u[0] == 'e' && u[1..] == d;
    assert IsDigit(d[0]);
  }

  lemma ExponentNegative(d: string)
    requires d != [] && AllDigits(d)
    ensures Exponent("e-" + d) == Some(-(DigitsValue(d) as int))
  {
    var k := DigitsValue(d) as int;
    WholeDigits(d);
    SignedNegative("-" + d, d, k);
    ExponentMarker("e-" + d, "-" + d);
  }

  /** Proof helper: a '-' in front of digits read as k gives -k. */
  lemma SignedNegative(v: string, w: string, k: int)
    requires v == "-" + w && UnsignedDigits(w) == Some(k)
    ensures SignedDigits(v) == Some(-k)
  {
    assert v[0] == '-' && v[1..] == w;
  }

  /** Proof helper: after the 'e' come the sign and the digits. */
  lemma ExponentMarker(u: string, v: string)
    requires u != [] && u[0] == 'e' && u[1..] == v
    ensures Exponent(u) == SignedDigits(v)
  {
  }

  /** A string of digits is read in full. */
  lemma WholeDigits(d: string)
    requires d != [] && AllDigits(d)
    ensures UnsignedDigits(d) == Some(DigitsValue(d) as int)
  {
    LeadingDigitsOfNumeral(d, []);
    assert d + [] == d;
    assert d[..|d|] == d;
  }
}
