/** Number::toString (section 6.1.6.1.20 of ECMA-262) on the exact decimals
    of `Decimals`: the text a number becomes when it is used as a property
    key or placed in a template literal. Between 10^-6 and 10^21 it is the
    shortest fixed-point numeral; from 10^21 on it is the exponent form that
    `toFixed` also returns there; below 10^-6 it is the exponent form with a
    negative exponent.
 */
module NumberText {
  import opened Wrappers
  import opened Decimals

  /** A nonzero magnitude below 10^-6, where Number::toString gives up the
      fixed-point numeral for `d.ddde-n`. */
  predicate IsTiny(d: Decimal) {
    d.mantissa != 0 && Abs(d.mantissa) * 1_000_000 < Pow10(d.scale)
  }

  /** The significant digits of a magnitude below 10^-6 and the size of its
      negative exponent: `m / 10^scale` is `d.ddd * 10^-exp`. */
  function TinySignificand(m: nat, scale: nat): (r: Significant)
    requires 0 < m && m * 1_000_000 < Pow10(scale)
    ensures r.digits == NatToString(StripZeros(m).sig)
    ensures r.exp >= 7
    ensures r.exp + |r.digits| + StripZeros(m).zeros == scale + 1
  {
    StripZerosValue(m);
    var Stripped(s, z) := StripZeros(m);
    var ds := NatToString(s);
    TinyBound(s, z, scale, ds);
    Significant(ds, scale + 1 - z - |ds|)
  }

  /** A significand of `k` digits followed by `z` zeros stays below
      10^(scale - 6) only if `k + z + 6 <= scale`. */
  lemma TinyBound(s: nat, z: nat, scale: nat, ds: string)
    requires s > 0 && ds == NatToString(s)
    requires s * Pow10(z) * 1_000_000 < Pow10(scale)
    ensures |ds| + z + 6 <= scale
  {
    NatToStringLength(s);
    DigitsBelow(s, z, scale, |ds|);
  }

  /** A number of at least 10^(k-1) followed by `z` zeros stays below
      10^(scale - 6) only if `k + z + 6 <= scale`. */
  lemma DigitsBelow(s: nat, z: nat, scale: nat, k: nat)
    requires k > 0 && Pow10(k - 1) <= s
    requires s * Pow10(z) * 1_000_000 < Pow10(scale)
    ensures k + z + 6 <= scale
  {
    var p, t := Pow10(k - 1), Pow10(z);
    MulLessEq(p, s, t);
    MulLessEq(p * t, s * t, 1_000_000);
    assert Pow10(6) == 1_000_000;
    Pow10Add(k - 1, z);
    Pow10Add(k - 1 + z, 6);
    PowLess(k - 1 + z + 6, scale);
  }

  /** Powers of ten grow with the exponent. */
  lemma PowLess(a: nat, b: nat)
    requires Pow10(a) < Pow10(b)
    ensures a < b
  {
    if b <= a {
      Pow10Mono(b, a);
    }
  }

  /** Number::toString of a magnitude below 10^-6. */
  function TinyText(m: nat, scale: nat): (r: string)
    requires 0 < m && m * 1_000_000 < Pow10(scale)
    ensures r != [] && IsDigit(r[0]) && 'e' in r
  {
    var Significant(ds, x) := TinySignificand(m, scale);
    var r := WithExponent(ds, "e-" + NatToString(x));
    assert r[0] == ds[0];
    assert r[|r| - |NatToString(x)| - 2] == 'e';
    r
  }

  /** Number::toString between 10^-6 and 10^21: trailing fractional zeros
      dropped, then the integer part, and a dot and the fractional digits
      when any are left. */
  function PlainText(a: nat, scale: nat): (r: string)
    ensures r != [] && IsDigit(r[0])
    ensures forall i :: 0 <= i < |r| ==> IsDigit(r[i]) || r[i] == '.'
    decreases scale
  {
    if scale > 0 && a % 10 == 0 then PlainText(a / 10, scale - 1)
    else if scale == 0 then NatToString(a)
    else Fraction(a, scale)
  }

  /** A magnitude with `scale` fractional digits, written with its point. */
  function Fraction(a: nat, scale: nat): (r: string)
    ensures r != [] && IsDigit(r[0])
    ensures forall i :: 0 <= i < |r| ==> IsDigit(r[i]) || r[i] == '.'
  {
    var p := Pow10(scale);
    var q := Quotient(a, p);
    var ip := NatToString(q);
    var r := ip + "." + PadNat(a - p * q, scale);
    assert r[0] == ip[0];
    r
  }

  /** Number::toString: a minus sign for a negative number, then the
      magnitude in exponent form from 10^21 on or below 10^-6 and as the
      shortest fixed-point numeral in between. */
  function NumberToString(d: Decimal): (r: string)
    ensures r != [] && (r[0] == '-' <==> d.mantissa < 0)
  {
    var sign := if d.mantissa < 0 then "-" else "";
    var a := Abs(d.mantissa);
    if IsBig(d) then
      ExpTextStart(a, d.scale);
      sign + ExpText(a, d.scale)
    else if IsTiny(d) then sign + TinyText(a, d.scale)
    else sign + PlainText(a, d.scale)
  }

  // ---------------------------------------------------------------- reading back

  /** Every text Number::toString writes is read back by `parseFloat` as the
      same number. */
  lemma NumberToStringReadsBack(d: Decimal)
    ensures ParseFloat(NumberToString(d)).Some?
    ensures SameValue(ParseFloat(NumberToString(d)).value, d)
  {
    var a := Abs(d.mantissa);
    var x := Magnitude(d);
    var v := MagnitudeReadsBack(d);
    ParseFloatDigitStart(x);
    if d.mantissa < 0 {
      assert NumberToString(d) == "-" + x;
      NegateSame(v, a, d.scale);
      assert d == Decimal(-(a as int), d.scale);
    } else {
      assert NumberToString(d) == x;
      assert d == Decimal(a, d.scale);
    }
  }

  /** The text of `|d|`, which `NumberToString` puts after the sign. */
  function Magnitude(d: Decimal): (x: string)
    ensures NumberToString(d) == (if d.mantissa < 0 then "-" else "") + x
  {
    var a := Abs(d.mantissa);
    if IsBig(d) then ExpText(a, d.scale)
    else if IsTiny(d) then TinyText(a, d.scale)
    else PlainText(a, d.scale)
  }

  /** The magnitude's text starts with a digit and reads back as `|d|`. */
  lemma MagnitudeReadsBack(d: Decimal) returns (v: Decimal)
    ensures Magnitude(d) != [] && IsDigit(Magnitude(d)[0])
    ensures ParseUnsigned(Magnitude(d)) == Some(v)
    ensures SameValue(v, Decimal(Abs(d.mantissa), d.scale))
  {
    var a := Abs(d.mantissa);
    if IsBig(d) {
      ExpTextStart(a, d.scale);
      ExpTextParse(a, d.scale);
      v := ParseUnsigned(ExpText(a, d.scale)).value;
    } else if IsTiny(d) {
      v := TinyReadsBack(a, d.scale);
    } else {
      v := PlainReadsBack(a, d.scale);
    }
  }

  /** `parseFloat` reads a numeral of digits alone as that integer. */
  lemma ParseInteger(ip: string)
    requires ip != [] && AllDigits(ip)
    ensures ParseUnsigned(ip) == Some(Decimal(DigitsValue(ip), 0))
  {
    TakeDigitsOf(ip, []);
    assert ip + [] == ip;
    assert ip[|ip|..] == [];
  }

  /** The digits of `ip` followed by those of `fp` denote
      `ip * 10^|fp| + fp`. */
  lemma {:induction false} DigitsValueAppend(ip: string, fp: string)
    requires AllDigits(ip) && AllDigits(fp)
    ensures AllDigits(ip + fp)
    ensures DigitsValue(ip + fp) == DigitsValue(ip) * Pow10(|fp|) + DigitsValue(fp)
    decreases |fp|
  {
    if fp == [] {
      assert ip + fp == ip;
    } else {
      var f := fp[..|fp| - 1];
      var c := fp[|fp| - 1];
      DigitsValueAppend(ip, f);
      assert fp == f + [c];
      assert ip + fp == (ip + f) + [c];
      DigitsValueSnoc(ip + f, c);
      DigitsValueSnoc(f, c);
      AppendStep(DigitsValue(ip), Pow10(|f|), DigitsValue(f), DigitValue(c));
    }
  }

  lemma AppendStep(n: nat, p: nat, f: nat, c: nat)
    ensures 10 * (n * p + f) + c == n * (10 * p) + (10 * f + c)
  {
  }

  /** The fraction numeral reads back as the number it writes. */
  lemma FractionReadsBack(a: nat, scale: nat)
    requires scale > 0
    ensures ParseUnsigned(Fraction(a, scale)) == Some(Decimal(a, scale))
  {
    var p := Pow10(scale);
    var q := Quotient(a, p);
    var ip := NatToString(q);
    var fp := PadNat(a - p * q, scale);
    assert |fp| == scale;
    assert Fraction(a, scale) == ip + (['.'] + (fp + []));
    ParseFractional(ip, fp, []);
    DigitsValueAppend(ip, fp);
    assert DigitsValue(ip + fp) == q * p + (a - p * q);
  }

  /** Dropping a trailing fractional zero keeps the value. */
  lemma DropZero(v: Decimal, a: nat, scale: nat)
    requires scale > 0 && a % 10 == 0
    requires SameValue(v, Decimal(a / 10, scale - 1))
    ensures SameValue(v, Decimal(a, scale))
  {
    var p := Pow10(scale - 1);
    assert Pow10(scale) == 10 * p;
    assert v.mantissa * p == (a / 10) * Pow10(v.scale);
    calc {
      v.mantissa * Pow10(scale);
      10 * (v.mantissa * p);
      10 * ((a / 10) * Pow10(v.scale));
      (10 * (a / 10)) * Pow10(v.scale);
    }
  }

  /** The fixed-point numeral reads back as the number it writes. */
  lemma {:induction false} PlainReadsBack(a: nat, scale: nat) returns (v: Decimal)
    ensures ParseUnsigned(PlainText(a, scale)) == Some(v)
    ensures SameValue(v, Decimal(a, scale))
    decreases scale
  {
    if scale > 0 && a % 10 == 0 {
      v := PlainReadsBack(a / 10, scale - 1);
      DropZero(v, a, scale);
    } else if scale == 0 {
      ParseInteger(NatToString(a));
      v := Decimal(a, 0);
    } else {
      FractionReadsBack(a, scale);
      v := Decimal(a, scale);
    }
  }

  /** The exponent part `e-n` is read as `-n`. */
  lemma NegativeExponentOf(x: nat)
    ensures Exponent("e-" + NatToString(x)) == -(x as int)
  {
    var xs := NatToString(x);
    var t := "e-" + xs;
    assert t[2..] == xs + [];
    TakeDigitsOf(xs, []);
  }

  /** `s / 10^(scale - z)` is `s * 10^z / 10^scale`. */
  lemma ShiftedValue(s: nat, z: nat, scale: nat)
    requires z <= scale
    ensures SameValue(Decimal(s, scale - z), Decimal(s * Pow10(z), scale))
  {
    Pow10Add(z, scale - z);
    assert z + (scale - z) == scale;
    MulAssoc(s, Pow10(z), Pow10(scale - z));
  }

  /** The exponent form below 10^-6 reads back as the number it writes. */
  lemma TinyReadsBack(m: nat, scale: nat) returns (v: Decimal)
    requires 0 < m && m * 1_000_000 < Pow10(scale)
    ensures ParseUnsigned(TinyText(m, scale)) == Some(v)
    ensures SameValue(v, Decimal(m, scale))
  {
    var Significant(ds, x) := TinySignificand(m, scale);
    var tail := "e-" + NatToString(x);
    NegativeExponentOf(x);
    if |ds| == 1 {
      ParseWhole(ds, tail);
    } else {
      ParseDigitsDotDigits(ds, tail, -(x as int));
    }
    StripZerosValue(m);
    var Stripped(s, z) := StripZeros(m);
    v := Decimal(s, scale - z);
    assert Scaled(DigitsValue(ds), |ds| - 1, -(x as int)) == v;
    ShiftedValue(s, z, scale);
  }

  // ---------------------------------------------------------------- forms

  /** The text carries an exponent exactly from 10^21 on and below 10^-6,
      and from 10^21 on it is what `toFixed(1)` writes as well. */
  lemma NumberToStringForm(d: Decimal)
    ensures 'e' in NumberToString(d) <==> IsBig(d) || IsTiny(d)
    ensures IsBig(d) ==> NumberToString(d) == Fmt1(d)
  {
    var sign := if d.mantissa < 0 then "-" else "";
    var x := Magnitude(d);
    assert 'e' !in sign;
    assert 'e' in NumberToString(d) <==> 'e' in x;
    if IsBig(d) {
      var a := Abs(d.mantissa);
      var Significant(ds, e) := Significand(a, d.scale);
      ExpNumeralForm(ds, e);
      Fmt1BigText(d);
    } else if !IsTiny(d) {
      assert forall i :: 0 <= i < |x| ==> x[i] != 'e';
    }
  }

  /** 10^21 is the smallest power of ten written with an exponent. */
  lemma NumberToStringLimit()
    ensures NumberToString(Decimal(Limit, 0)) == "1e+21"
  {
    LimitIsPower();
    StripZerosOne(21);
    ExpTextOne(Limit, 0, 21, 21);
    SmallNumerals();
    assert IsBig(Decimal(Limit, 0));
    assert NumberToString(Decimal(Limit, 0)) == "" + ExpText(Limit, 0);
    assert "" + ("1e+" + "21") == "1e+21";
  }

  /** 10^-6 is the smallest power of ten written without an exponent. */
  lemma NumberToStringMillionth()
    ensures 'e' !in NumberToString(Decimal(1, 6))
  {
    assert Pow10(6) == 1_000_000;
    NumberToStringForm(Decimal(1, 6));
  }

  /** 10^-7 is written with a negative exponent. */
  lemma NumberToStringTenMillionth()
    ensures NumberToString(Decimal(1, 7)) == "1e-7"
  {
    assert Pow10(7) == 10_000_000;
    assert IsTiny(Decimal(1, 7)) && !IsBig(Decimal(1, 7));
    assert StripZeros(1) == Stripped(1, 0);
    assert TinySignificand(1, 7) == Significant("1", 7);
  }
}
