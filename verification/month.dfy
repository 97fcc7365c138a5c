/** The month the program works on: the `yyyy-mm` parser of the `--month`
    option and the previous-month default computed from the clock.
 */
module Months {
  import opened Wrappers
  import opened Decimals

  // ---------------------------------------------------------------- yyyy-mm

  /** The text matches `^(\d{4})-(\d{2})$` (`\d` is an ASCII digit). */
  predicate IsMonthText(s: string) {
    |s| == 7 && AllDigits(s[..4]) && s[4] == '-' && AllDigits(s[5..])
  }

  /** `parseMonth`/`cliParseMonth`: the year and month written in a
      `yyyy-mm` text, as decimal numbers and with no range check ("2006-13"
      is accepted); anything else is rejected with the option's message. */
  function ParseMonth(s: string): (r: Result<(int, int), string>)
    ensures r.Success? <==> IsMonthText(s)
    ensures r.Success? ==> 0 <= r.value.0 <= 9999 && 0 <= r.value.1 <= 99
    ensures r.Failure? ==> r.error == "KOUSU_MONTH must be yyyy-mm (given: " + s + ")"
  {
    if IsMonthText(s) then
      DigitsBound(s[..4]);
      DigitsBound(s[5..]);
      Success((DigitsValue(s[..4]), DigitsValue(s[5..])))
    else Failure("KOUSU_MONTH must be yyyy-mm (given: " + s + ")")
  }

  /** The `month` flag parser of the older command set: the same check,
      setting the year and month aside and handing back the text unchanged. */
  function MonthFlag(s: string): (r: Result<(string, int, int), string>)
    ensures r.Success? <==> ParseMonth(s).Success?
    ensures r.Success? ==> r.value == (s, ParseMonth(s).value.0, ParseMonth(s).value.1)
  {
    var ym :- ParseMonth(s);
    Success((s, ym.0, ym.1))
  }

  /** The `yyyy-mm` text of a year and month. */
  function FormatMonth(year: nat, month: nat): string
    requires year <= 9999 && month <= 99
  {
    PadNat(year, 4) + "-" + PadNat(month, 2)
  }

  lemma SmallPowers()
    ensures Pow10(2) == 100 && Pow10(4) == 10000
  {
    assert Pow10(1) == 10;
  }

  /** Formatting then parsing gives back the year and month. */
  lemma ParseFormatMonth(year: nat, month: nat)
    requires year <= 9999 && month <= 99
    ensures ParseMonth(FormatMonth(year, month)) == Success((year, month))
  {
    SmallPowers();
    var a, b := PadNat(year, 4), PadNat(month, 2);
    assert |a| == 4 && |b| == 2;
    var s := FormatMonth(year, month);
    assert s[..4] == a && s[4] == '-' && s[5..] == b;
    assert IsMonthText(s);
  }

  /** Parsing then formatting gives back the text: the parser loses nothing. */
  lemma FormatParseMonth(s: string)
    requires ParseMonth(s).Success?
    ensures var (y, m) := ParseMonth(s).value; FormatMonth(y, m) == s
  {
    var a, b := s[..4], s[5..];
    PadDigits(a);
    PadDigits(b);
    assert s == a + "-" + b;
  }

  /** "2006-13" is accepted: the month is not range-checked. */
  lemma MonthNotRangeChecked()
    ensures ParseMonth("2006-13") == Success((2006, 13))
  {
    var s := "2006-13";
    assert s[..4] == "2006" && s[5..] == "13";
    assert "2006"[..3] == "200" && "200"[..2] == "20" && "20"[..1] == "2";
    assert DigitsValue("2006") == 2006;
    assert "13"[..1] == "1";
    assert DigitsValue("13") == 13;
  }

  // ---------------------------------------------------------------- calendar

  predicate IsLeapYear(y: int) {
    y % 4 == 0 && (y % 100 != 0 || y % 400 == 0)
  }

  /** Days in `month` (1 to 12) of `year` in the proleptic Gregorian
      calendar JavaScript dates use. */
  function DaysInMonth(year: int, month: int): (d: nat)
    requires 1 <= month <= 12
    ensures 28 <= d <= 31
    ensures month == 2 ==> (d == 29 <==> IsLeapYear(year))
  {
    if month == 2 then (if IsLeapYear(year) then 29 else 28)
    else if month in {4, 6, 9, 11} then 30
    else 31
  }

  /** What the clock reports: `getFullYear()` and the zero-based
      `getMonth()`. The time zone shift the source applies makes the UTC date
      of the constructed time equal the intended local date, so it drops out. */
  datatype Clock = Clock(year: int, month0: int)

  predicate ValidClock(c: Clock) {
    0 <= c.month0 <= 11
  }

  /** `new Date(year, …)` reads a year from 0 to 99 as 1900 to 1999. */
  function ConstructorYear(y: int): (r: int)
    ensures 0 <= y <= 99 ==> r == 1900 + y
    ensures !(0 <= y <= 99) ==> r == y
  {
    if 0 <= y <= 99 then 1900 + y else y
  }

  /** `new Date(year, month0 - 1, …)`: the month before, carrying into the
      previous year for January; returns the year and the month from 1 to 12. */
  function PrevMonthOf(c: Clock): (r: (int, int))
    requires ValidClock(c)
    ensures 1 <= r.1 <= 12
    ensures 12 * r.0 + r.1 == 12 * ConstructorYear(c.year) + c.month0
  {
    var y := ConstructorYear(c.year);
    if c.month0 == 0 then (y - 1, 12) else (y, c.month0)
  }

  /** The year as `toISOString` writes it: four digits from 0 to 9999,
      otherwise a sign and six digits. */
  function IsoYear(y: int): (s: string)
    ensures 0 <= y <= 9999 ==> |s| == 4 && AllDigits(s) && DigitsValue(s) == y
    ensures !(0 <= y <= 9999) ==> |s| >= 7 && s[0] in {'+', '-'}
  {
    if 0 <= y <= 9999 then
      assert Pow10(4) == 10000;
      PadNat(y, 4)
    else (if y < 0 then "-" else "+") + PadNat(Abs(y), 6)
  }

  /** The first ten characters of `toISOString()`: `yyyy-mm-dd`. */
  function IsoDate(y: int, m: nat, d: nat): string
    requires 1 <= m <= 12 && 1 <= d <= 31
  {
    IsoYear(y) + "-" + PadNat(m, 2) + "-" + PadNat(d, 2)
  }

  /** `prevMonthFirst`: the first day of the previous month. */
  function PrevMonthFirst(c: Clock): string
    requires ValidClock(c)
  {
    var (y, m) := PrevMonthOf(c);
    IsoDate(y, m, 1)
  }

  /** `prevMonthLast`: day 0 of the current month, which is the last day of
      the previous one. */
  function PrevMonthLast(c: Clock): string
    requires ValidClock(c)
  {
    var (y, m) := PrevMonthOf(c);
    IsoDate(y, m, DaysInMonth(y, m))
  }

  /** `prevMonth`: the first seven characters of `prevMonthFirst`. */
  function PrevMonth(c: Clock): (s: string)
    requires ValidClock(c)
  {
    var f := PrevMonthFirst(c);
    if |f| >= 7 then f[..7] else f
  }

  /** The default `--month` is the previous month: it parses back to the
      year and month before the clock's, provided that year has four
      digits; January goes back to December of the year before. */
  lemma PrevMonthParses(c: Clock)
    requires ValidClock(c)
    ensures var (y, m) := PrevMonthOf(c);
      0 <= y <= 9999 ==> ParseMonth(PrevMonth(c)) == Success((y, m))
    ensures c.month0 == 0 && c.year >= 100 ==> PrevMonthOf(c) == (c.year - 1, 12)
  {
    var (y, m) := PrevMonthOf(c);
    if 0 <= y <= 9999 {
      IsoDateMonth(y, m, 1);
      ParseFormatMonth(y, m);
    }
  }

  /** The `yyyy-mm` part of a date with a four-digit year. */
  lemma IsoDateMonth(y: int, m: nat, d: nat)
    requires 0 <= y <= 9999 && 1 <= m <= 12 && 1 <= d <= 31
    ensures |IsoDate(y, m, d)| >= 7 && IsoDate(y, m, d)[..7] == FormatMonth(y, m)
  {
    SmallPowers();
    var x := IsoYear(y) + "-" + PadNat(m, 2);
    assert x == FormatMonth(y, m) && |x| == 7;
    var rest := "-" + PadNat(d, 2);
    assert IsoDate(y, m, d) == x + rest;
    assert (x + rest)[..7] == x;
  }

  /** A text that does not start with a digit is not a `yyyy-mm` text. */
  lemma NotMonthText(s: string)
    requires s != [] && !IsDigit(s[0])
    ensures ParseMonth(s).Failure?
  {
    if |s| == 7 {
      assert s[..4][0] == s[0];
    }
  }

  /** A year outside 0 to 9999 is written in the extended form, which the
      `yyyy-mm` parser rejects. */
  lemma PrevMonthExtendedYear(c: Clock)
    requires ValidClock(c)
    requires !(0 <= PrevMonthOf(c).0 <= 9999)
    ensures ParseMonth(PrevMonth(c)).Failure?
  {
    var f := PrevMonthFirst(c);
    assert f[0] in {'+', '-'};
    NotMonthText(PrevMonth(c));
  }

  /** The first and last day of the previous month share the `yyyy-mm`
      part; the last one is the month's day count. */
  lemma PrevMonthFirstLast(c: Clock)
    requires ValidClock(c)
    ensures var (y, m) := PrevMonthOf(c);
      var p := IsoYear(y) + "-" + PadNat(m, 2);
      PrevMonthFirst(c) == p + "-01" && PrevMonthLast(c) == p + "-" + PadNat(DaysInMonth(y, m), 2)
  {
    var (y, m) := PrevMonthOf(c);
    var p := IsoYear(y) + "-" + PadNat(m, 2);
    PadOne();
    assert PrevMonthFirst(c) == p + "-01";
    assert PrevMonthLast(c) == p + "-" + PadNat(DaysInMonth(y, m), 2);
  }

  lemma PadOne()
    ensures PadNat(1, 2) == "01"
  {
    assert "01"[..1] == "0";
    assert DigitsValue("01") == 1;
    PadDigits("01");
  }
}
