/** Exact decimal numbers standing in for JavaScript's `number`, with the two
    conversions the scraper uses: `parseFloat` (text scraped from a cell to a
    number) and `Number.prototype.toFixed(1)` (a number to the text typed into
    a cell). Binary floating point is not modelled: a `Decimal` is the exact
    value `mantissa / 10^scale`.
 */
module Decimals {
  import opened Wrappers

  datatype Decimal = Decimal(mantissa: int, scale: nat)

  function Pow10(n: nat): (p: nat)
    ensures p >= 1
  {
    if n == 0 then 1 else 10 * Pow10(n - 1)
  }

  /** `a` and `b` denote the same number. */
  predicate SameValue(a: Decimal, b: Decimal) {
    a.mantissa * Pow10(b.scale) == b.mantissa * Pow10(a.scale)
  }

  function Signed(neg: bool, n: nat): (r: int)
    ensures neg ==> r == -(n as int)
    ensures !neg ==> r == n
  {
    if neg then -(n as int) else n
  }

  function Abs(x: int): (r: nat)
    ensures r == x || r == -x
  {
    if x < 0 then -x else x
  }

  // ---------------------------------------------------------------- digits

  predicate IsDigit(c: char) {
    '0' <= c <= '9'
  }

  predicate AllDigits(s: string) {
    forall i :: 0 <= i < |s| ==> IsDigit(s[i])
  }

  function DigitValue(c: char): (d: nat)
    requires IsDigit(c)
    ensures d < 10
  {
    c as int - '0' as int
  }

  function DigitChar(d: nat): (c: char)
    requires d < 10
    ensures IsDigit(c) && DigitValue(c) == d
  {
    ('0' as int + d) as char
  }

  /** The value of a string of decimal digits, most significant first. */
  function DigitsValue(s: string): nat
    requires AllDigits(s)
  {
    if s == [] then 0 else 10 * DigitsValue(s[..|s| - 1]) + DigitValue(s[|s| - 1])
  }

  /** The decimal numeral of `n` without leading zeros ("0" for zero). */
  function NatToString(n: nat): (s: string)
    ensures s != [] && AllDigits(s)
    ensures DigitsValue(s) == n
    ensures s[0] == '0' ==> n == 0
  {
    if n < 10 then [DigitChar(n)]
    else
      var s := NatToString(n / 10) + [DigitChar(n % 10)];
      assert s[..|s| - 1] == NatToString(n / 10);
      s
  }

  lemma {:induction false} DigitsBound(s: string)
    requires AllDigits(s)
    ensures DigitsValue(s) < Pow10(|s|)
  {
    if s != [] {
      DigitsBound(s[..|s| - 1]);
    }
  }

  /** `n` written with at least `width` digits, zero-padded on the left. */
  function PadNat(n: nat, width: nat): (s: string)
    ensures AllDigits(s) && DigitsValue(s) == n
    ensures |s| >= width
    ensures n < Pow10(width) ==> |s| == width
    decreases width
  {
    if width == 0 then (if n == 0 then "" else NatToString(n))
    else
      var s := PadNat(n / 10, width - 1) + [DigitChar(n % 10)];
      assert s[..|s| - 1] == PadNat(n / 10, width - 1);
      s
  }

  /** A digit string is the zero-padded numeral of its value. */
  lemma {:induction false} PadDigits(s: string)
    requires AllDigits(s)
    ensures PadNat(DigitsValue(s), |s|) == s
  {
    if s != [] {
      var p := s[..|s| - 1];
      var c := s[|s| - 1];
      PadDigits(p);
      var n := DigitsValue(s);
      assert n / 10 == DigitsValue(p) && n % 10 == DigitValue(c);
      assert s == p + [c];
    }
  }

  /** The longest prefix of `s` made of digits. */
  function TakeDigits(s: string): (p: string)
    ensures p <= s && AllDigits(p)
    ensures |p| < |s| ==> !IsDigit(s[|p|])
  {
    if s != [] && IsDigit(s[0]) then [s[0]] + TakeDigits(s[1..]) else []
  }

  lemma {:induction false} TakeDigitsOf(p: string, rest: string)
    requires AllDigits(p)
    requires rest == [] || !IsDigit(rest[0])
    ensures TakeDigits(p + rest) == p
  {
    if p != [] {
      assert (p + rest)[1..] == p[1..] + rest;
      TakeDigitsOf(p[1..], rest);
    }
  }

  // ---------------------------------------------------------------- parseFloat

  /** ECMAScript white space and line terminators (section 12.2 and 12.3 of
      ECMA-262): what `parseFloat` skips before the number. */
  predicate IsJsSpace(c: char) {
    var n := c as int;
    n == 0x09 || n == 0x0A || n == 0x0B || n == 0x0C || n == 0x0D || n == 0x20
    || n == 0xA0 || n == 0x1680 || (0x2000 <= n <= 0x200A) || n == 0x2028
    || n == 0x2029 || n == 0x202F || n == 0x205F || n == 0x3000 || n == 0xFEFF
  }

  function TrimStart(s: string): string {
    if s != [] && IsJsSpace(s[0]) then TrimStart(s[1..]) else s
  }

  /** `TrimStart` removes exactly the leading white space. */
  lemma {:induction false} TrimStartSpec(s: string)
    ensures var r := TrimStart(s);
      |r| <= |s| && r == s[|s| - |r|..]
      && (r == [] || !IsJsSpace(r[0]))
      && forall i :: 0 <= i < |s| - |r| ==> IsJsSpace(s[i])
  {
    if s != [] && IsJsSpace(s[0]) {
      TrimStartSpec(s[1..]);
      var r := TrimStart(s);
      assert s[1..][|s| - 1 - |r|..] == s[|s| - |r|..];
      forall i | 0 <= i < |s| - |r| ensures IsJsSpace(s[i]) {
        if i > 0 {
          assert s[i] == s[1..][i - 1];
        }
      }
    }
  }

  /** The exponent written at the start of `s` (`e12`, `E-3`), or 0 when `s`
      does not start with a complete exponent part (which `parseFloat` then
      leaves unread). */
  function Exponent(s: string): int {
    if |s| >= 2 && (s[0] == 'e' || s[0] == 'E') then
      var neg := s[1] == '-';
      var body := if s[1] == '-' || s[1] == '+' then s[2..] else s[1..];
      var ds := TakeDigits(body);
      if ds == [] then 0 else Signed(neg, DigitsValue(ds))
    else 0
  }

  /** `mantissa * 10^exponent / 10^scale` written as a `Decimal`. */
  function Scaled(m: int, scale: nat, e: int): Decimal {
    if e >= scale then Decimal(m * Pow10(e - scale), 0) else Decimal(m, scale - e)
  }

  /** An unsigned decimal literal at the start of `u`: digits, optionally a
      dot and more digits (at least one digit in all), optionally an exponent;
      whatever follows is ignored. */
  function ParseUnsigned(u: string): (r: Option<Decimal>)
  {
    var ip := TakeDigits(u);
    var rest := u[|ip|..];
    var dot := rest != [] && rest[0] == '.';
    var fp := if dot then TakeDigits(rest[1..]) else [];
    if ip == [] && fp == [] then None
    else
      var after := if dot then rest[1 + |fp|..] else rest;
      Some(Scaled(DigitsValue(ip + fp), |fp|, Exponent(after)))
  }

  function Negate(d: Decimal): Decimal {
    Decimal(-d.mantissa, d.scale)
  }

  /** JavaScript's `parseFloat`: skip leading white space, read an optional
      sign and the longest prefix that is a decimal literal, and ignore the
      rest; `None` is `NaN`, returned when no digit can be read. */
  function ParseFloat(s: string): (r: Option<Decimal>) {
    var t := TrimStart(s);
    if t != [] && (t[0] == '+' || t[0] == '-') then
      var v :- ParseUnsigned(t[1..]);
      Some(if t[0] == '-' then Negate(v) else v)
    else ParseUnsigned(t)
  }

  /** `parseFloat` yields `NaN` exactly when, after white space and a sign,
      the text starts with neither a digit nor a dot followed by a digit. */
  lemma ParseFloatNaN(s: string)
    ensures var t := TrimStart(s);
      var u := if t != [] && (t[0] == '+' || t[0] == '-') then t[1..] else t;
      ParseFloat(s).None? <==> !(u != [] && IsDigit(u[0])) && !(|u| >= 2 && u[0] == '.' && IsDigit(u[1]))
  {
    var t := TrimStart(s);
    var u := if t != [] && (t[0] == '+' || t[0] == '-') then t[1..] else t;
    assert ParseFloat(s).None? <==> ParseUnsigned(u).None?;
    var ip := TakeDigits(u);
    if u != [] && IsDigit(u[0]) {
      assert ip != [];
    } else {
      assert ip == [];
      assert u[|ip|..] == u;
      if |u| >= 2 && u[0] == '.' && IsDigit(u[1]) {
        assert TakeDigits(u[1..]) != [];
      }
    }
  }

  // ---------------------------------------------------------------- toFixed(1)

  /** `|d|` rounded to tenths, halves rounded up: the integer `n` that
      `toFixed(1)` picks so that `n / 10 - |d|` is as close to zero as possible,
      the larger one on a tie (section 21.1.3.3 of ECMA-262). */
  function Tenths(d: Decimal): (n: nat)
    ensures var p := Pow10(d.scale);
      2 * p * n <= 20 * Abs(d.mantissa) + p < 2 * p * n + 2 * p
  {
    var p := Pow10(d.scale);
    Quotient(20 * Abs(d.mantissa) + p, 2 * p)
  }

  /** Integer division, characterised by the bounds on its result. */
  function Quotient(x: nat, q: nat): (n: nat)
    requires q > 0
    ensures q * n <= x < q * n + q
  {
    assert x == q * (x / q) + x % q;
    x / q
  }

  /** The numeral `a.b` for a count of tenths. */
  function TenthsText(n: nat): string {
    NatToString(n / 10) + "." + [DigitChar(n % 10)]
  }

  // ---------------------------------------------------------------- exponent form

  /** 10^21, from which `toFixed` gives up the fixed-point form. */
  const Limit: nat := 1_000_000_000_000_000_000_000

  lemma LimitIsPower()
    ensures Pow10(21) == Limit
  {
    assert Pow10(7) == 10_000_000;
    Pow10Add(7, 7);
    Pow10Add(14, 7);
  }

  /** `|d|` is at least 10^21, where `toFixed` gives up the fixed-point form. */
  predicate IsBig(d: Decimal) {
    Abs(d.mantissa) >= Limit * Pow10(d.scale)
  }

  /** A positive integer as its significand, without trailing zeros, and the
      number of zeros removed. */
  datatype Stripped = Stripped(sig: nat, zeros: nat)

  /** The significant digits of a number and its decimal exponent. */
  datatype Significant = Significant(digits: string, exp: nat)

  /** A positive integer split into the significand without trailing zeros
      and the number of zeros removed. */
  function StripZeros(m: nat): (r: Stripped)
    requires m > 0
    ensures r.sig > 0 && r.sig % 10 != 0
  {
    if m % 10 == 0 then
      var r := StripZeros(m / 10);
      Stripped(r.sig, r.zeros + 1)
    else Stripped(m, 0)
  }

  /** The significand followed by the removed zeros is the number again. */
  lemma {:induction false} StripZerosValue(m: nat)
    requires m > 0
    ensures StripZeros(m).sig * Pow10(StripZeros(m).zeros) == m
  {
    if m % 10 == 0 {
      var q := m / 10;
      StripZerosValue(q);
      var Stripped(s, z) := StripZeros(q);
      assert StripZeros(m) == Stripped(s, z + 1);
      MulTen(s, Pow10(z));
      assert m == 10 * q;
    }
  }

  lemma MulTen(a: nat, b: nat)
    ensures a * (10 * b) == 10 * (a * b)
  {
  }

  /** The text has the exponent form: something, then `e+` and an exponent
      of at least 21 written in digits. */
  predicate ExponentForm(r: string) {
    exists i :: 0 < i < |r| - 2 && r[i] == 'e' && r[i + 1] == '+' && AllDigits(r[i + 2..]) && DigitsValue(r[i + 2..]) >= 21
  }

  /** The significant digits of `m / 10^scale`, its exponent `n - 1` in the
      terms of Number::toString (ECMA-262), and that exponent is at least 21
      when the number is. */
  function Significand(m: nat, scale: nat): (r: Significant)
    requires m >= Limit * Pow10(scale)
    ensures r.digits != [] && AllDigits(r.digits) && r.digits[0] != '0' && r.exp >= 21
    ensures r.digits == NatToString(StripZeros(m).sig)
    ensures r.exp + scale == |r.digits| - 1 + StripZeros(m).zeros
  {
    LimitIsPower();
    Pow10Add(21, scale);
    StripZerosValue(m);
    var Stripped(s, z) := StripZeros(m);
    var ds := NatToString(s);
    SignificandBound(s, z, scale, ds);
    Significant(ds, |ds| - 1 + z - scale)
  }

  /** Number::toString of a number of at least 10^21 (ECMA-262), which
      `toFixed` returns unchanged: the first significant digit, a dot and
      the others when there are others, then `e+` and the exponent. */
  function ExpText(m: nat, scale: nat): string
    requires m >= Limit * Pow10(scale)
  {
    var Significant(ds, e) := Significand(m, scale);
    ExpNumeral(ds, e)
  }

  /** The significant digits `ds` and the exponent `e` written in exponent
      form. */
  function ExpNumeral(ds: string, e: nat): string
    requires ds != []
  {
    WithExponent(ds, "e+" + NatToString(e))
  }

  /** The significant digits as Number::toString lays them out before an
      exponent part `tail`: the first digit, then a dot and the others when
      there are others. */
  function WithExponent(ds: string, tail: string): string
    requires ds != []
  {
    if |ds| == 1 then ds + tail else [ds[0]] + (['.'] + (ds[1..] + tail))
  }

  /** The exponent form starts with a significant digit, has an exponent of
      at least 21, and does not end like a fixed-point numeral. */
  lemma ExpNumeralForm(ds: string, e: nat)
    requires ds != [] && AllDigits(ds) && ds[0] != '0' && e >= 21
    ensures var r := ExpNumeral(ds, e);
      |r| >= 4 && IsDigit(r[0]) && r[0] != '0' && ExponentForm(r) && r[|r| - 2] != '.'
  {
    var mant := if |ds| == 1 then ds else [ds[0], '.'] + ds[1..];
    var es := NatToString(e);
    var r := mant + ("e+" + es);
    assert r == ExpNumeral(ds, e) by {
      if |ds| > 1 {
        assert [ds[0]] + (['.'] + (ds[1..] + ("e+" + es))) == r;
      }
    }
    NatToStringLength(e);
    assert r[|mant|] == 'e' && r[|mant| + 1] == '+' && r[|mant| + 2..] == es;
    assert r[0] == ds[0];
    assert r[|r| - 2] == es[|es| - 2];
  }

  /** `d.toFixed(1)`: a minus sign for a negative number (even one that rounds
      to zero), then the rounded magnitude with exactly one fractional digit;
      from 10^21 on, the magnitude as Number::toString writes it. */
  function Fmt1(d: Decimal): (r: string)
    ensures |r| >= 3
    ensures (r[0] == '-') <==> d.mantissa < 0
    ensures !IsBig(d) ==> r[|r| - 2] == '.' && IsDigit(r[|r| - 1]) && 'e' !in r
    ensures IsBig(d) ==> ExponentForm(r) && r[|r| - 2] != '.'
  {
    var sign := if d.mantissa < 0 then "-" else "";
    if IsBig(d) then
      ExpTextShape(sign, Abs(d.mantissa), d.scale);
      sign + ExpText(Abs(d.mantissa), d.scale)
    else
      FixedShape(sign, Tenths(d));
      sign + TenthsText(Tenths(d))
  }

  lemma ExpTextShape(sign: string, m: nat, scale: nat)
    requires sign == "" || sign == "-"
    requires m >= Limit * Pow10(scale)
    ensures var r := sign + ExpText(m, scale);
      |r| >= 3 && (r[0] == '-' <==> sign == "-") && ExponentForm(r) && r[|r| - 2] != '.'
  {
    var Significant(ds, e) := Significand(m, scale);
    ExpNumeralForm(ds, e);
    SignedShape(sign, ExpText(m, scale));
  }

  lemma SignedShape(sign: string, x: string)
    requires sign == "" || sign == "-"
    requires |x| >= 4 && IsDigit(x[0]) && ExponentForm(x) && x[|x| - 2] != '.'
    ensures var r := sign + x;
      |r| >= 3 && (r[0] == '-' <==> sign == "-") && ExponentForm(r) && r[|r| - 2] != '.'
  {
    ExponentFormShift(sign, x);
    var r := sign + x;
    assert r[|r| - 2] == x[|x| - 2];
    assert r[0] == (if sign == "-" then '-' else x[0]);
  }

  lemma FixedShape(sign: string, n: nat)
    requires sign == "" || sign == "-"
    ensures var r := sign + TenthsText(n);
      |r| >= 3 && (r[0] == '-' <==> sign == "-") && r[|r| - 2] == '.' && IsDigit(r[|r| - 1]) && 'e' !in r
  {
    var a := NatToString(n / 10);
    NoExponent(n);
    var r := sign + TenthsText(n);
    assert r == sign + a + ['.', DigitChar(n % 10)];
    assert r[0] == (if sign == "-" then '-' else a[0]);
  }

  lemma {:induction false} Pow10Add(a: nat, b: nat)
    ensures Pow10(a + b) == Pow10(a) * Pow10(b)
    decreases a
  {
    if a > 0 {
      Pow10Add(a - 1, b);
    }
  }

  lemma {:induction false} Pow10Mono(a: nat, b: nat)
    requires a <= b
    ensures Pow10(a) <= Pow10(b)
    decreases b
  {
    if a < b {
      Pow10Mono(a, b - 1);
    }
  }

  /** A numeral of `k` digits without leading zero lies in [10^(k-1), 10^k). */
  lemma {:induction false} NatToStringLength(n: nat)
    ensures var k := |NatToString(n)|;
      n < Pow10(k) && (n > 0 ==> Pow10(k - 1) <= n) && (n >= 10 ==> k >= 2)
  {
    if n >= 10 {
      NatToStringLength(n / 10);
    }
  }

  lemma SignificandBound(s: nat, z: nat, scale: nat, ds: string)
    requires s > 0 && ds == NatToString(s)
    requires s * Pow10(z) >= Pow10(21 + scale)
    ensures |ds| + z >= 22 + scale
  {
    NatToStringLength(s);
    Pow10Add(|ds|, z);
    MulLess(s, Pow10(|ds|), Pow10(z));
    if |ds| + z < 22 + scale {
      Pow10Mono(|ds| + z, 21 + scale);
      assert false;
    }
  }

  lemma MulLess(a: nat, b: nat, c: nat)
    requires a < b && c > 0
    ensures a * c < b * c
  {
  }

  lemma ExponentFormShift(sign: string, x: string)
    requires ExponentForm(x)
    ensures ExponentForm(sign + x)
  {
    var i :| 0 < i < |x| - 2 && x[i] == 'e' && x[i + 1] == '+' && AllDigits(x[i + 2..]) && DigitsValue(x[i + 2..]) >= 21;
    var r := sign + x;
    assert r[|sign| + i] == 'e' && r[|sign| + i + 1] == '+' && r[|sign| + i + 2..] == x[i + 2..];
  }

  /** The fixed-point numeral holds digits and a dot only. */
  lemma NoExponent(n: nat)
    ensures 'e' !in TenthsText(n)
  {
    var a := NatToString(n / 10);
    assert TenthsText(n) == a + ['.', DigitChar(n % 10)];
    assert forall j :: 0 <= j < |a| ==> IsDigit(a[j]);
  }

  lemma {:induction false} DigitsValueSnoc(a: string, c: char)
    requires AllDigits(a) && IsDigit(c)
    ensures AllDigits(a + [c])
    ensures DigitsValue(a + [c]) == 10 * DigitsValue(a) + DigitValue(c)
  {
    assert (a + [c])[..|a|] == a;
  }

  /** `parseFloat` reads the numeral `a.b` as `a.b`. */
  lemma ParseUnsignedTenths(n: nat)
    ensures ParseUnsigned(TenthsText(n)) == Some(Decimal(n, 1))
  {
    var a := NatToString(n / 10);
    var c := DigitChar(n % 10);
    var u := TenthsText(n);
    assert u == a + ['.', c];
    TakeDigitsOf(a, ['.', c]);
    var rest := u[|a|..];
    assert rest == ['.', c];
    assert rest[1..] == [c] + [];
    TakeDigitsOf([c], []);
    assert rest[2..] == [];
    DigitsValueSnoc(a, c);
    assert Exponent([]) == 0;
  }

  /** Text starting with a digit, possibly after a minus sign, is read
      without trimming anything. */
  lemma ParseFloatDigitStart(u: string)
    requires u != [] && IsDigit(u[0])
    ensures ParseFloat(u) == ParseUnsigned(u)
    ensures ParseUnsigned(u).Some? ==> ParseFloat("-" + u) == Some(Negate(ParseUnsigned(u).value))
  {
    assert TrimStart(u) == u;
    var t := "-" + u;
    assert TrimStart(t) == t;
    assert t[1..] == u;
  }

  /** `parseFloat` reads back exactly the tenths a fixed-point numeral shows. */
  lemma ParseTenthsText(neg: bool, n: nat)
    ensures ParseFloat((if neg then "-" else "") + TenthsText(n)) == Some(Decimal(Signed(neg, n), 1))
  {
    var u := TenthsText(n);
    ParseUnsignedTenths(n);
    assert u[0] == NatToString(n / 10)[0];
    ParseFloatDigitStart(u);
    if neg {
      assert (if neg then "-" else "") + u == "-" + u;
      assert Negate(Decimal(n, 1)) == Decimal(Signed(neg, n), 1);
    } else {
      assert (if neg then "-" else "") + u == u;
    }
  }

  /** The exponent part `e+n` is read as `n`. */
  lemma ExponentOf(e: nat)
    ensures Exponent("e+" + NatToString(e)) == e
  {
    var es := NatToString(e);
    var t := "e+" + es;
    assert t[2..] == es + [];
    TakeDigitsOf(es, []);
  }

  /** `parseFloat` reads the exponent form back digit by digit. */
  lemma ExpTextDigits(m: nat, scale: nat)
    requires m >= Limit * Pow10(scale)
    ensures var Significant(ds, e) := Significand(m, scale);
      ParseUnsigned(ExpText(m, scale)) == Some(Scaled(DigitsValue(ds), |ds| - 1, e))
  {
    var Significant(ds, e) := Significand(m, scale);
    if |ds| == 1 {
      ParseOneDigit(ds, e);
    } else {
      ParseManyDigits(ds, e);
    }
  }

  lemma ParseOneDigit(ds: string, e: nat)
    requires |ds| == 1 && AllDigits(ds) && ds[0] != '0' && e >= 21
    ensures ParseUnsigned(ExpNumeral(ds, e)) == Some(Scaled(DigitsValue(ds), 0, e))
  {
    var tail := "e+" + NatToString(e);
    ExponentOf(e);
    ParseWhole(ds, tail);
  }

  lemma ParseManyDigits(ds: string, e: nat)
    requires |ds| > 1 && AllDigits(ds) && ds[0] != '0' && e >= 21
    ensures ParseUnsigned(ExpNumeral(ds, e)) == Some(Scaled(DigitsValue(ds), |ds| - 1, e))
  {
    var tail := "e+" + NatToString(e);
    ExponentOf(e);
    ParseDigitsDotDigits(ds, tail, e);
  }

  lemma ParseDigitsDotDigits(ds: string, tail: string, e: int)
    requires |ds| > 1 && AllDigits(ds)
    requires tail != [] && tail[0] == 'e' && Exponent(tail) == e
    ensures ParseUnsigned([ds[0]] + (['.'] + (ds[1..] + tail))) == Some(Scaled(DigitsValue(ds), |ds| - 1, e))
  {
    ParseFractional([ds[0]], ds[1..], tail);
    assert [ds[0]] + ds[1..] == ds;
  }

  /** Digits followed by something that is neither a digit nor a dot are
      read as an integer with the exponent that follows. */
  lemma ParseWhole(ip: string, after: string)
    requires ip != [] && AllDigits(ip)
    requires after != [] && !IsDigit(after[0]) && after[0] != '.'
    ensures ParseUnsigned(ip + after) == Some(Scaled(DigitsValue(ip), 0, Exponent(after)))
  {
    var u := ip + after;
    TakeDigitsOf(ip, after);
    assert u[|ip|..] == after;
    assert ip + [] == ip;
  }

  /** Digits, a dot and more digits, followed by something that is not a
      digit, are read as a number with fractional digits. */
  lemma ParseFractional(ip: string, fp: string, after: string)
    requires ip != [] && AllDigits(ip) && AllDigits(fp)
    requires after == [] || !IsDigit(after[0])
    ensures ParseUnsigned(ip + (['.'] + (fp + after))) == Some(Scaled(DigitsValue(ip + fp), |fp|, Exponent(after)))
  {
    var rest := ['.'] + (fp + after);
    var u := ip + rest;
    TakeDigitsOf(ip, rest);
    assert u[|ip|..] == rest;
    assert rest[1..] == fp + after;
    TakeDigitsOf(fp, after);
    assert rest[1 + |fp|..] == after;
  }

  /** `s * 10^(e - f)` is `s * 10^z / 10^scale` when the exponents agree. */
  lemma ScaledValue(s: nat, f: nat, e: nat, z: nat, scale: nat)
    requires e + scale == f + z
    ensures SameValue(Scaled(s, f, e), Decimal(s * Pow10(z), scale))
  {
    if e >= f {
      var a, b := Pow10(e - f), Pow10(scale);
      Pow10Add(e - f, scale);
      assert Pow10(z) == a * b;
      MulAssoc(s, a, b);
      assert Scaled(s, f, e) == Decimal(s * a, 0);
    } else {
      var a, b := Pow10(z), Pow10(f - e);
      Pow10Add(z, f - e);
      assert Pow10(scale) == a * b;
      MulAssoc(s, a, b);
      assert Scaled(s, f, e) == Decimal(s, f - e);
    }
  }

  lemma MulAssoc(a: nat, b: nat, c: nat)
    ensures a * b * c == a * (b * c)
  {
  }

  /** The exponent form reads back as the number itself. */
  lemma ExpTextParse(m: nat, scale: nat)
    requires m >= Limit * Pow10(scale)
    ensures ParseUnsigned(ExpText(m, scale)).Some?
    ensures var v := ParseUnsigned(ExpText(m, scale)).value;
      v.mantissa > 0 && SameValue(v, Decimal(m, scale))
  {
    var Significant(ds, e) := Significand(m, scale);
    ExpTextDigits(m, scale);
    var Stripped(s, z) := StripZeros(m);
    StripZerosValue(m);
    ReadBackValue(m, scale, s, z, ds, e);
  }

  /** The significant digits `ds` of `s` with exponent `e` denote
      `s * 10^z / 10^scale` when the exponents agree. */
  lemma ReadBackValue(m: nat, scale: nat, s: nat, z: nat, ds: string, e: nat)
    requires s > 0 && s * Pow10(z) == m && ds == NatToString(s)
    requires e + scale == |ds| - 1 + z
    ensures var v := Scaled(DigitsValue(ds), |ds| - 1, e);
      v.mantissa > 0 && SameValue(v, Decimal(m, scale))
  {
    ScaledValue(s, |ds| - 1, e, z, scale);
    PositiveScaled(s, |ds| - 1, e);
  }

  lemma PositiveScaled(s: nat, f: nat, e: int)
    requires s > 0
    ensures Scaled(s, f, e).mantissa > 0
  {
    if e >= f {
      assert s * Pow10(e - f) >= s;
    }
  }

  /** Removing the zeros of `s * 10^j` gives back `s` and `j`. */
  lemma {:induction false} StripZerosOf(s: nat, j: nat)
    requires s > 0 && s % 10 != 0
    ensures StripZeros(s * Pow10(j)) == Stripped(s, j)
  {
    if j > 0 {
      assert s * Pow10(j) == 10 * (s * Pow10(j - 1));
      StripZerosOf(s, j - 1);
    }
  }

  /** The number read back from the exponent form is written the same way
      again: the form depends on the value only. */
  lemma ExpTextCanonical(m: nat, scale: nat)
    requires m >= Limit * Pow10(scale)
    ensures var Significant(ds, e) := Significand(m, scale);
      var v := Scaled(DigitsValue(ds), |ds| - 1, e);
      v.mantissa > 0 && IsBig(v) && ExpText(v.mantissa, v.scale) == ExpText(m, scale)
  {
    var Significant(ds, e) := Significand(m, scale);
    var s, f := DigitsValue(ds), |ds| - 1;
    assert ds == NatToString(StripZeros(m).sig);
    NatToStringLength(s);
    if e >= f {
      CanonicalWide(s, f, e, ds);
    } else {
      CanonicalNarrow(s, f, e, ds);
    }
  }

  /** Read back with no fractional digits: `s * 10^(e - f)`. */
  lemma CanonicalWide(s: nat, f: nat, e: nat, ds: string)
    requires s > 0 && s % 10 != 0 && ds == NatToString(s) && |ds| == f + 1
    requires Pow10(f) <= s && f <= e && e >= 21
    ensures var v := Decimal(s * Pow10(e - f), 0);
      Scaled(s, f, e) == v && v.mantissa > 0 && IsBig(v) && Significand(v.mantissa, 0) == Significant(ds, e)
  {
    var big := s * Pow10(e - f);
    StripZerosOf(s, e - f);
    WideBig(s, f, e);
    SignificandOf(big, 0, s, e - f, ds);
  }

  lemma WideBig(s: nat, f: nat, e: nat)
    requires Pow10(f) <= s && f <= e && e >= 21
    ensures s * Pow10(e - f) >= Limit * Pow10(0)
  {
    var p := Pow10(e - f);
    LimitIsPower();
    Pow10Add(f, e - f);
    MulLessEq(Pow10(f), s, p);
    Pow10Mono(21, e);
    assert Pow10(0) == 1;
  }

  lemma SignificandOf(m: nat, scale: nat, s: nat, z: nat, ds: string)
    requires m >= Limit * Pow10(scale)
    requires StripZeros(m) == Stripped(s, z) && ds == NatToString(s)
    ensures Significand(m, scale) == Significant(ds, |ds| - 1 + z - scale)
  {
  }

  /** Read back with fractional digits: `s / 10^(f - e)`. */
  lemma CanonicalNarrow(s: nat, f: nat, e: nat, ds: string)
    requires s > 0 && s % 10 != 0 && ds == NatToString(s) && |ds| == f + 1
    requires Pow10(f) <= s && e < f && e >= 21
    ensures var v := Decimal(s, f - e);
      Scaled(s, f, e) == v && IsBig(v) && Significand(v.mantissa, v.scale) == Significant(ds, e)
  {
    StripZerosOf(s, 0);
    assert s * Pow10(0) == s;
    NarrowBig(s, f, e);
    SignificandOf(s, f - e, s, 0, ds);
  }

  lemma NarrowBig(s: nat, f: nat, e: nat)
    requires Pow10(f) <= s && e < f && e >= 21
    ensures s >= Limit * Pow10(f - e)
  {
    LimitIsPower();
    Pow10Add(21, f - e);
    Pow10Mono(21 + (f - e), f);
  }

  lemma MulLessEq(a: nat, b: nat, c: nat)
    requires a <= b
    ensures a * c <= b * c
  {
  }

  /** Formatting then parsing yields the number rounded to tenths, and from
      10^21 on the number itself. */
  lemma Fmt1Parse(d: Decimal)
    ensures ParseFloat(Fmt1(d)).Some?
    ensures !IsBig(d) ==> ParseFloat(Fmt1(d)) == Some(Decimal(Signed(d.mantissa < 0, Tenths(d)), 1))
    ensures IsBig(d) ==> SameValue(ParseFloat(Fmt1(d)).value, d)
  {
    if IsBig(d) {
      Fmt1ParseBig(d);
    } else {
      ParseTenthsText(d.mantissa < 0, Tenths(d));
    }
  }

  lemma Fmt1ParseBig(d: Decimal)
    requires IsBig(d)
    ensures ParseFloat(Fmt1(d)).Some? && SameValue(ParseFloat(Fmt1(d)).value, d)
  {
    var m := Abs(d.mantissa);
    var neg := d.mantissa < 0;
    Fmt1BigText(d);
    SignedExpTextParse(neg, m, d.scale);
    assert d == Decimal(Signed(neg, m), d.scale);
  }

  lemma Fmt1BigText(d: Decimal)
    requires IsBig(d)
    ensures Fmt1(d) == (if d.mantissa < 0 then "-" else "") + ExpText(Abs(d.mantissa), d.scale)
  {
  }

  /** The exponent form starts with a digit. */
  lemma ExpTextStart(m: nat, scale: nat)
    requires m >= Limit * Pow10(scale)
    ensures |ExpText(m, scale)| >= 4 && IsDigit(ExpText(m, scale)[0])
  {
    var Significant(ds, e) := Significand(m, scale);
    ExpNumeralForm(ds, e);
  }

  /** A signed exponent form reads back as the signed number. */
  lemma SignedExpTextParse(neg: bool, m: nat, scale: nat)
    requires m >= Limit * Pow10(scale)
    ensures var t := (if neg then "-" else "") + ExpText(m, scale);
      ParseFloat(t).Some? && SameValue(ParseFloat(t).value, Decimal(Signed(neg, m), scale))
  {
    var x := ExpText(m, scale);
    ExpTextStart(m, scale);
    ExpTextParse(m, scale);
    ParseFloatDigitStart(x);
    var v := ParseUnsigned(x).value;
    if neg {
      assert (if neg then "-" else "") + x == "-" + x;
      NegateSame(v, m, scale);
    } else {
      assert (if neg then "-" else "") + x == x;
    }
  }

  lemma NegateSame(v: Decimal, m: nat, scale: nat)
    requires SameValue(v, Decimal(m, scale))
    ensures SameValue(Negate(v), Decimal(-(m as int), scale))
  {
    assert v.mantissa * Pow10(scale) == m * Pow10(v.scale);
    assert (-v.mantissa) * Pow10(scale) == -(v.mantissa * Pow10(scale));
    assert (-(m as int)) * Pow10(v.scale) == -(m * Pow10(v.scale));
  }

  /** Below 10^21 means a tenths count below 10^22. */
  lemma BigTenths(t: int)
    ensures IsBig(Decimal(t, 1)) <==> Abs(t) >= 10 * Limit
  {
    assert Pow10(1) == 10;
    Pow10Add(21, 1);
  }

  /** A number with at most one fractional digit is formatted exactly and
      read back as itself. */
  lemma Fmt1Exact(t: int)
    ensures Tenths(Decimal(t, 1)) == Abs(t)
    ensures Abs(t) < 10 * Limit ==> Fmt1(Decimal(t, 1)) == (if t < 0 then "-" else "") + TenthsText(Abs(t))
    ensures Abs(t) < 10 * Limit ==> ParseFloat(Fmt1(Decimal(t, 1))) == Some(Decimal(t, 1))
    ensures ParseFloat(Fmt1(Decimal(t, 1))).Some? && SameValue(ParseFloat(Fmt1(Decimal(t, 1))).value, Decimal(t, 1))
  {
    assert Pow10(1) == 10;
    var n := Tenths(Decimal(t, 1));
    assert 20 * n <= 20 * Abs(t) + 10 < 20 * n + 20;
    BigTenths(t);
    Fmt1Parse(Decimal(t, 1));
    assert Signed(t < 0, Abs(t)) == t;
  }

  /** Text in the fixed-point form `toFixed(1)` writes (a magnitude below
      10^21) survives a `parseFloat` then `toFixed(1)` round trip, except
      "-0.0", which comes back as "0.0". */
  lemma FixedTextRoundTrip(neg: bool, n: nat)
    requires !(neg && n == 0) && n < 10 * Limit
    ensures var t := (if neg then "-" else "") + TenthsText(n);
      ParseFloat(t).Some? && Fmt1(ParseFloat(t).value) == t
  {
    ParseTenthsText(neg, n);
    var v := Signed(neg, n);
    Fmt1Exact(v);
    assert (v < 0) == neg && Abs(v) == n;
  }

  /** The exponent form survives a `parseFloat` then `toFixed(1)` round
      trip. */
  lemma ExpTextRoundTrip(neg: bool, m: nat, scale: nat)
    requires m >= Limit * Pow10(scale)
    ensures var t := (if neg then "-" else "") + ExpText(m, scale);
      ParseFloat(t).Some? && Fmt1(ParseFloat(t).value) == t
  {
    var v := ExpTextReadsBack(m, scale);
    SignedRoundTrip(neg, ExpText(m, scale), v);
  }

  lemma SignedRoundTrip(neg: bool, x: string, v: Decimal)
    requires x != [] && IsDigit(x[0]) && ParseUnsigned(x) == Some(v)
    requires v.mantissa > 0 && IsBig(v) && ExpText(v.mantissa, v.scale) == x
    ensures var t := (if neg then "-" else "") + x;
      ParseFloat(t).Some? && Fmt1(ParseFloat(t).value) == t
  {
    var t := (if neg then "-" else "") + x;
    if neg {
      assert t == "-" + x;
      NegativeRoundTrip(x, v);
    } else {
      assert t == x;
      PositiveRoundTrip(x, v);
    }
  }

  lemma PositiveRoundTrip(x: string, v: Decimal)
    requires x != [] && IsDigit(x[0]) && ParseUnsigned(x) == Some(v)
    requires v.mantissa > 0 && IsBig(v) && ExpText(v.mantissa, v.scale) == x
    ensures ParseFloat(x) == Some(v) && Fmt1(v) == x
  {
    ParseFloatDigitStart(x);
    Fmt1BigText(v);
    assert Fmt1(v) == "" + x;
  }

  lemma NegativeRoundTrip(x: string, v: Decimal)
    requires x != [] && IsDigit(x[0]) && ParseUnsigned(x) == Some(v)
    requires v.mantissa > 0 && IsBig(v) && ExpText(v.mantissa, v.scale) == x
    ensures ParseFloat("-" + x) == Some(Negate(v)) && Fmt1(Negate(v)) == "-" + x
  {
    ParseFloatDigitStart(x);
    var w := Negate(v);
    assert w.mantissa < 0 && Abs(w.mantissa) == v.mantissa && w.scale == v.scale;
    assert IsBig(w);
    Fmt1BigText(w);
  }

  /** The exponent form reads back, without its sign, as a positive big
      number whose own exponent form is the same text. */
  lemma ExpTextReadsBack(m: nat, scale: nat) returns (v: Decimal)
    requires m >= Limit * Pow10(scale)
    ensures ExpText(m, scale) != [] && IsDigit(ExpText(m, scale)[0])
    ensures ParseUnsigned(ExpText(m, scale)) == Some(v)
    ensures v.mantissa > 0 && IsBig(v) && ExpText(v.mantissa, v.scale) == ExpText(m, scale)
  {
    var Significant(ds, e) := Significand(m, scale);
    ExpTextStart(m, scale);
    ExpTextDigits(m, scale);
    ExpTextCanonical(m, scale);
    v := Scaled(DigitsValue(ds), |ds| - 1, e);
  }

  /** "-0.0" is the one `toFixed(1)` text that does not survive the round
      trip: `parseFloat` reads it as zero, which formats as "0.0". */
  lemma NegativeZeroRoundTrip()
    ensures var t := "-" + TenthsText(0);
      ParseFloat(t) == Some(Decimal(0, 1)) && Fmt1(ParseFloat(t).value) == TenthsText(0) != t
  {
    ParseTenthsText(true, 0);
    Fmt1Exact(0);
    assert Fmt1(Decimal(0, 1)) == "" + TenthsText(0);
  }

  /** Formatting is idempotent: reading back the text of `toFixed(1)` and
      formatting again gives the same text, unless the number is a negative
      that rounds to zero, or lies within 0.05 below 10^21 (see
      `Fmt1RoundsToLimit`). */
  lemma Fmt1Idempotent(d: Decimal)
    requires !(d.mantissa < 0 && Tenths(d) == 0)
    requires IsBig(d) || Tenths(d) < 10 * Limit
    ensures ParseFloat(Fmt1(d)).Some? && Fmt1(ParseFloat(Fmt1(d)).value) == Fmt1(d)
  {
    if IsBig(d) {
      ExpTextRoundTrip(d.mantissa < 0, Abs(d.mantissa), d.scale);
    } else {
      FixedTextRoundTrip(d.mantissa < 0, Tenths(d));
    }
  }

  /** The exponent form of `m / 10^scale` where `m` is the significand `s`
      followed by `j` zeros. */
  lemma ExpTextOf(m: nat, scale: nat, s: nat, j: nat, e: nat)
    requires m >= Limit * Pow10(scale)
    requires StripZeros(m) == Stripped(s, j)
    requires e + scale == |NatToString(s)| - 1 + j
    ensures ExpText(m, scale) == ExpNumeral(NatToString(s), e)
  {
    SignificandOf(m, scale, s, j, NatToString(s));
  }

  lemma SmallNumerals()
    ensures NatToString(1) == "1" && NatToString(15) == "15" && NatToString(21) == "21"
  {
    assert NatToString(15) == NatToString(1) + "5";
    assert NatToString(21) == NatToString(2) + "1";
  }

  lemma Assoc(a: string, b: string, c: string)
    ensures a + (b + c) == a + b + c
  {
  }

  /** A power of ten from 10^21 on is written `1e+n`, with the sign kept:
      10^21 is "1e+21". */
  lemma Fmt1PowerOfTen(j: nat, neg: bool)
    requires j >= 21
    ensures Fmt1(Decimal(Signed(neg, Pow10(j)), 0)) == (if neg then "-" else "") + "1e+" + NatToString(j)
  {
    PowerOfTenText(Signed(neg, Pow10(j)), j);
  }

  lemma PowerOfTenText(m: int, j: nat)
    requires j >= 21 && Abs(m) == Pow10(j)
    ensures Fmt1(Decimal(m, 0)) == (if m < 0 then "-" else "") + "1e+" + NatToString(j)
  {
    assert 21 + (j - 21) == j;
    BigAt(Pow10(j), j - 21);
    Fmt1BigText(Decimal(m, 0));
    StripZerosOne(j);
    ExpTextOne(Pow10(j), 0, j, j);
  }

  /** `m` from 10^(21 + k) on is big. */
  lemma BigAt(m: nat, k: nat)
    requires m >= Pow10(21 + k)
    ensures m >= Limit * Pow10(0)
  {
    Pow10Mono(21, 21 + k);
    LimitIsPower();
    assert Pow10(0) == 1;
  }

  lemma StripZerosOne(j: nat)
    ensures StripZeros(Pow10(j)) == Stripped(1, j)
  {
    StripZerosOf(1, j);
    assert 1 * Pow10(j) == Pow10(j);
  }

  /** A significand of one digit, 1, is written without a dot. */
  lemma ExpTextOne(m: nat, scale: nat, j: nat, e: nat)
    requires m >= Limit * Pow10(scale) && StripZeros(m) == Stripped(1, j) && e + scale == j
    ensures ExpText(m, scale) == "1e+" + NatToString(e)
  {
    SmallNumerals();
    ExpTextOf(m, scale, 1, j, e);
    var es := NatToString(e);
    assert ExpNumeral("1", e) == "1" + ("e+" + es);
    Assoc("1", "e+", es);
    assert "1" + "e+" == "1e+";
  }

  /** Fifteen times 10^(j - 1) is written `1.5e+j`: 1.5 * 10^21 is
      "1.5e+21". */
  lemma Fmt1OneAndAHalf(j: nat)
    requires j >= 21
    ensures Fmt1(Decimal(15 * Pow10(j - 1), 0)) == "1.5e+" + NatToString(j)
  {
    var m := 15 * Pow10(j - 1);
    OneAndAHalfBig(j);
    Fmt1BigText(Decimal(m, 0));
    StripZerosOf(15, j - 1);
    ExpTextOneAndAHalf(m, j);
  }

  lemma OneAndAHalfBig(j: nat)
    requires j >= 21
    ensures 15 * Pow10(j - 1) >= Limit * Pow10(0)
  {
    Pow10Mono(21, j);
    LimitIsPower();
    assert Pow10(0) == 1 && Pow10(j) == 10 * Pow10(j - 1);
  }

  /** The significand 15 is written `1.5`. */
  lemma ExpTextOneAndAHalf(m: nat, j: nat)
    requires j >= 21 && m >= Limit * Pow10(0) && StripZeros(m) == Stripped(15, j - 1)
    ensures ExpText(m, 0) == "1.5e+" + NatToString(j)
  {
    SmallNumerals();
    ExpTextOf(m, 0, 15, j - 1, j);
    var es := NatToString(j);
    assert ExpNumeral("15", j) == ['1'] + (['.'] + (['5'] + ("e+" + es)));
    Assoc4("1", ".", "5", "e+", es);
    assert "1" + "." + "5" + "e+" == "1.5e+";
  }

  lemma Assoc4(a: string, b: string, c: string, d: string, e: string)
    ensures a + (b + (c + (d + e))) == a + b + c + d + e
  {
  }

  /** A number within 0.05 below 10^21, here 10^21 - 0.01, rounds to the
      fixed-point text of 10^21, which reads back as 10^21 and is then
      written in exponent form: the one place where formatting is not
      idempotent for a positive number. */
  lemma Fmt1RoundsToLimit(p: nat)
    requires p == Limit
    ensures Fmt1(Decimal(100 * p - 1, 2)) == TenthsText(10 * p)
    ensures ParseFloat(TenthsText(10 * p)) == Some(Decimal(10 * p, 1))
    ensures Fmt1(Decimal(10 * p, 1)) == "1e+21"
  {
    RoundsUp(p);
    ParseTenthsText(false, 10 * p);
    assert "" + TenthsText(10 * p) == TenthsText(10 * p);
    LimitTenths(10 * p);
  }

  lemma RoundsUp(p: nat)
    requires p == Limit
    ensures Fmt1(Decimal(100 * p - 1, 2)) == TenthsText(10 * p)
  {
    assert Pow10(2) == 100;
    var d := Decimal(100 * p - 1, 2);
    assert !IsBig(d);
    var n := Tenths(d);
    assert 200 * n <= 20 * (100 * p - 1) + 100 < 200 * n + 200;
    assert n == 10 * p;
    assert Fmt1(d) == "" + TenthsText(n);
  }

  lemma LimitTenths(q: nat)
    requires q == 10 * Limit
    ensures Fmt1(Decimal(q, 1)) == "1e+21"
  {
    LimitBig(q);
    Fmt1BigText(Decimal(q, 1));
    ExpTextOne(q, 1, 22, 21);
    SmallNumerals();
    assert "" + ("1e+" + "21") == "1e+21";
  }

  lemma LimitBig(q: nat)
    requires q == 10 * Limit
    ensures q >= Limit * Pow10(1) && StripZeros(q) == Stripped(1, 22)
  {
    assert Pow10(1) == 10;
    LimitIsPower();
    assert Pow10(22) == 10 * Pow10(21);
    StripZerosOne(22);
  }
}
