/**
 * Calendar dates as the dashboard's `Date` objects use them: the proleptic
 * Gregorian calendar, day numbers counted from 1970-01-01 (the epoch of
 * JavaScript time values), weekdays with 0 for Sunday (`getDay`), and the
 * `YYYY-MM-DD` text that due dates are stored as.
 */
module Dates {
  import opened Base
  import opened Strings

  /** A calendar date; `month` runs 1..12 (JavaScript's `getMonth() + 1`). */
  datatype Date = Date(year: int, month: int, day: int)

  predicate IsLeapYear(y: int) {
    (y % 4 == 0 && y % 100 != 0) || y % 400 == 0
  }

  /** The Gregorian length of month `m` of year `y`. */
  function DaysInMonth(y: int, m: int): int
    requires 1 <= m <= 12
  {
    if m == 2 then (if IsLeapYear(y) then 29 else 28)
    else if m == 4 || m == 6 || m == 9 || m == 11 then 30
    else 31
  }

  predicate Valid(d: Date) {
    1 <= d.month <= 12 && 1 <= d.day <= DaysInMonth(d.year, d.month)
  }

  function YearLength(y: int): int {
    if IsLeapYear(y) then 366 else 365
  }

  /** Days in the months of year `y` before month `m`. */
  function DaysBeforeMonth(y: int, m: int): (n: int)
    requires 1 <= m <= 13
    ensures 0 <= n
  {
    if m == 1 then 0 else DaysBeforeMonth(y, m - 1) + DaysInMonth(y, m - 1)
  }

  /** Leap years among 1 .. y-1 (extended to all integers through floor division). */
  function LeapYearsBefore(y: int): int {
    (y - 1) / 4 - (y - 1) / 100 + (y - 1) / 400
  }

  /** Days from 1970-01-01 to January 1st of year `y` (negative before 1970). */
  function DaysBeforeYear(y: int): int {
    365 * (y - 1970) + LeapYearsBefore(y) - LeapYearsBefore(1970)
  }

  /** Days since 1970-01-01: the date's JavaScript time value divided by 86 400 000. */
  function DayNumber(d: Date): int
    requires Valid(d)
  {
    DaysBeforeYear(d.year) + DaysBeforeMonth(d.year, d.month) + d.day - 1
  }

  // ---------------------------------------------------------------------
  // Arithmetic facts behind the day numbering
  // ---------------------------------------------------------------------

  lemma DivStep(y: int, k: int)
    requires k == 4 || k == 100 || k == 400
    ensures y / k - (y - 1) / k == if y % k == 0 then 1 else 0
  {
  }

  /** A multiple of `a * b` is a multiple of `a`. */
  lemma MultipleOfProduct(y: int, a: int, b: int)
    requires a > 0 && b > 0 && y % (a * b) == 0
    ensures y % a == 0
  {
    var k := y / (a * b);
    assert y == (a * b) * k;
    assert y == a * (b * k);
  }

  lemma YearStep(y: int)
    ensures DaysBeforeYear(y + 1) == DaysBeforeYear(y) + YearLength(y)
  {
    DivStep(y, 4);
    DivStep(y, 100);
    DivStep(y, 400);
    if y % 400 == 0 {
      MultipleOfProduct(y, 100, 4);
    }
    if y % 100 == 0 {
      MultipleOfProduct(y, 4, 25);
    }
    var a := y / 4 - (y - 1) / 4;
    var b := y / 100 - (y - 1) / 100;
    var c := y / 400 - (y - 1) / 400;
    assert LeapYearsBefore(y + 1) - LeapYearsBefore(y) == a - b + c;
    assert a - b + c == YearLength(y) - 365;
  }

  lemma YearLengthIsMonthTotal(y: int)
    ensures DaysBeforeMonth(y, 13) == YearLength(y)
  {
    var leap := if IsLeapYear(y) then 1 else 0;
    assert DaysBeforeMonth(y, 2) == 31;
    assert DaysBeforeMonth(y, 3) == 59 + leap;
    assert DaysBeforeMonth(y, 4) == 90 + leap;
    assert DaysBeforeMonth(y, 5) == 120 + leap;
    assert DaysBeforeMonth(y, 6) == 151 + leap;
    assert DaysBeforeMonth(y, 7) == 181 + leap;
    assert DaysBeforeMonth(y, 8) == 212 + leap;
    assert DaysBeforeMonth(y, 9) == 243 + leap;
    assert DaysBeforeMonth(y, 10) == 273 + leap;
    assert DaysBeforeMonth(y, 11) == 304 + leap;
    assert DaysBeforeMonth(y, 12) == 334 + leap;
  }

  lemma {:induction false} YearsIncrease(y1: int, y2: int)
    requires y1 < y2
    ensures DaysBeforeYear(y1 + 1) <= DaysBeforeYear(y2)
    decreases y2 - y1
  {
    if y1 + 1 < y2 {
      YearsIncrease(y1, y2 - 1);
      YearStep(y2 - 1);
    }
  }

  lemma {:induction false} MonthsIncrease(y: int, m1: int, m2: int)
    requires 1 <= m1 < m2 <= 13
    ensures DaysBeforeMonth(y, m1 + 1) <= DaysBeforeMonth(y, m2)
    decreases m2 - m1
  {
    if m1 + 1 < m2 {
      MonthsIncrease(y, m1, m2 - 1);
    }
  }

  /** A valid date's number falls inside its own year. */
  lemma DayNumberInYear(d: Date)
    requires Valid(d)
    ensures DaysBeforeYear(d.year) <= DayNumber(d) < DaysBeforeYear(d.year + 1)
  {
    YearStep(d.year);
    YearLengthIsMonthTotal(d.year);
    assert DaysBeforeMonth(d.year, d.month + 1)
        == DaysBeforeMonth(d.year, d.month) + DaysInMonth(d.year, d.month);
    if d.month < 12 {
      MonthsIncrease(d.year, d.month, 13);
    }
  }

  /** Different valid dates have different day numbers. */
  lemma DayNumberInjective(a: Date, b: Date)
    requires Valid(a) && Valid(b)
    requires DayNumber(a) == DayNumber(b)
    ensures a == b
  {
    DayNumberInYear(a);
    DayNumberInYear(b);
    if a.year < b.year {
      YearsIncrease(a.year, b.year);
    } else if b.year < a.year {
      YearsIncrease(b.year, a.year);
    }
    assert a.year == b.year;
    if a.month < b.month {
      MonthsIncrease(a.year, a.month, b.month);
    } else if b.month < a.month {
      MonthsIncrease(a.year, b.month, a.month);
    }
  }

  // ---------------------------------------------------------------------
  // Moving through the calendar
  // ---------------------------------------------------------------------

  /** The following day (`setDate(getDate() + 1)`). */
  function NextDay(d: Date): (r: Date)
    requires Valid(d)
    ensures Valid(r) && DayNumber(r) == DayNumber(d) + 1
  {
    if d.day < DaysInMonth(d.year, d.month) then Date(d.year, d.month, d.day + 1)
    else if d.month < 12 then Date(d.year, d.month + 1, 1)
    else
      YearStep(d.year);
      YearLengthIsMonthTotal(d.year);
      Date(d.year + 1, 1, 1)
  }

  /** The preceding day (`setDate(getDate() - 1)`). */
  function PrevDay(d: Date): (r: Date)
    requires Valid(d)
    ensures Valid(r) && DayNumber(r) == DayNumber(d) - 1
  {
    if d.day > 1 then Date(d.year, d.month, d.day - 1)
    else if d.month > 1 then Date(d.year, d.month - 1, DaysInMonth(d.year, d.month - 1))
    else
      YearStep(d.year - 1);
      YearLengthIsMonthTotal(d.year - 1);
      Date(d.year - 1, 12, 31)
  }

  /** `n` days later (earlier when `n` is negative): `setDate(getDate() + n)`. */
  function AddDays(d: Date, n: int): (r: Date)
    requires Valid(d)
    ensures Valid(r) && DayNumber(r) == DayNumber(d) + n
    decreases if n < 0 then -n else n
  {
    if n == 0 then d
    else if n > 0 then AddDays(NextDay(d), n - 1)
    else AddDays(PrevDay(d), n + 1)
  }

  /** Moving forward then back by the same number of days returns to the start. */
  lemma AddDaysInverse(d: Date, n: int)
    requires Valid(d)
    ensures AddDays(AddDays(d, n), -n) == d
    ensures PrevDay(NextDay(d)) == d && NextDay(PrevDay(d)) == d
  {
    DayNumberInjective(AddDays(AddDays(d, n), -n), d);
    DayNumberInjective(PrevDay(NextDay(d)), d);
    DayNumberInjective(NextDay(PrevDay(d)), d);
  }

  /** `getDay()`: 0 for Sunday through 6 for Saturday; 1970-01-01 was a Thursday. */
  function Weekday(d: Date): (w: int)
    requires Valid(d)
    ensures 0 <= w < 7
  {
    (DayNumber(d) + 4) % 7
  }

  lemma ModSeven(x: int, k: int)
    ensures (x + k) % 7 == (x % 7 + k) % 7
  {
    var q := x / 7;
    assert x == 7 * q + x % 7;
  }

  lemma ModSevenSmall(a: int, x: int)
    requires 0 <= a < 7 && x == a % 7
    ensures x == a
  {
  }

  lemma ModSevenPeriod(w: int, n: int, x: int)
    requires 0 <= w < 7 && n % 7 == 0 && x == (w + n) % 7
    ensures x == w
  {
    var q := n / 7;
    assert n == 7 * q;
    assert w + n == 7 * q + w;
  }

  /** Weekdays advance with the day count, wrapping every seven days. */
  lemma WeekdayShift(a: Date, b: Date)
    requires Valid(a) && Valid(b)
    ensures Weekday(b) == (Weekday(a) + DayNumber(b) - DayNumber(a)) % 7
  {
    ModSeven(DayNumber(a) + 4, DayNumber(b) - DayNumber(a));
  }

  // ---------------------------------------------------------------------
  // YYYY-MM-DD text
  // ---------------------------------------------------------------------

  /** The year as `toISOString` writes it: four digits, or a sign and six digits outside 0..9999. */
  function YearText(y: int): string {
    if 0 <= y <= 9999 then PadLeft(NatToString(y), 4, '0')
    else if y < 0 then "-" + PadLeft(NatToString(-y), 6, '0')
    else "+" + PadLeft(NatToString(y), 6, '0')
  }

  /** The date part of `toISOString()`. */
  function IsoString(d: Date): string
    requires Valid(d)
  {
    YearText(d.year) + "-" + Pad2(d.month) + "-" + Pad2(d.day)
  }

  /** Reads a `YYYY-MM-DD` date-only string; anything else, or a day the month does not have, is None. */
  function ParseIso(s: string): (r: Option<Date>)
    ensures r.Some? ==> Valid(r.value)
  {
    if |s| == 10 && AllDigits(s[..4]) && s[4] == '-' && AllDigits(s[5..7]) && s[7] == '-'
       && AllDigits(s[8..])
    then
      var d := Date(DigitsValue(s[..4]), DigitsValue(s[5..7]), DigitsValue(s[8..]));
      if Valid(d) then Some(d) else None
    else None
  }

  function Pow10(k: nat): nat {
    if k == 0 then 1 else 10 * Pow10(k - 1)
  }

  lemma {:induction false} NatToStringLength(n: nat, k: nat)
    requires 1 <= k && n < Pow10(k)
    ensures |NatToString(n)| <= k
    decreases k
  {
    if n >= 10 {
      NatToStringLength(n / 10, k - 1);
    }
  }

  /** A digit run of length `k` is the `k`-wide zero-padded text of its own value. */
  lemma {:induction false} DigitsCanonical(t: string)
    requires |t| >= 1 && AllDigits(t)
    ensures PadLeft(NatToString(DigitsValue(t)), |t|, '0') == t
    decreases |t|
  {
    var u := t[..|t| - 1];
    var c := t[|t| - 1];
    assert t == u + [c];
    var v := DigitsValue(t);
    if DigitsValue(u) == 0 {
      AllZeros(u);
      assert NatToString(v) == [c];
    } else {
      DigitsCanonical(u);
      assert v / 10 == DigitsValue(u) && v % 10 == DigitValue(c);
      assert NatToString(v) == NatToString(DigitsValue(u)) + [c];
      var pad := |t| - |NatToString(v)|;
      assert seq(pad, _ => '0') + NatToString(v) == (seq(pad, _ => '0') + NatToString(DigitsValue(u))) + [c];
    }
  }

  lemma {:induction false} AllZeros(u: string)
    requires AllDigits(u) && DigitsValue(u) == 0
    ensures u == seq(|u|, _ => '0')
  {
    if |u| > 0 {
      AllZeros(u[..|u| - 1]);
      assert u == u[..|u| - 1] + [u[|u| - 1]];
    }
  }

  /** The zero-padded text of a value below `10^k` reads back as that value, `k` digits wide. */
  lemma PaddedDigits(n: nat, k: nat)
    requires 1 <= k && n < Pow10(k)
    ensures |PadLeft(NatToString(n), k, '0')| == k
    ensures AllDigits(PadLeft(NatToString(n), k, '0'))
    ensures DigitsValue(PadLeft(NatToString(n), k, '0')) == n
  {
    NatToStringLength(n, k);
    LeadingZeros(k - |NatToString(n)|, NatToString(n));
  }

  /** For years 0..9999 every valid date prints to text that parses back to it. */
  lemma IsoParsesBack(d: Date)
    requires Valid(d) && 0 <= d.year <= 9999
    ensures ParseIso(IsoString(d)) == Some(d)
  {
    PaddedDigits(d.year, 4);
    Pad2Width(d.month);
    Pad2Width(d.day);
    ParseIsoPieces(YearText(d.year), Pad2(d.month), Pad2(d.day));
  }

  lemma Pad2Width(n: nat)
    requires n < 100
    ensures |Pad2(n)| == 2 && AllDigits(Pad2(n)) && DigitsValue(Pad2(n)) == n
  {
  }

  /** Four digits, '-', two digits, '-', two digits read as the date those digits spell, when it exists. */
  lemma ParseIsoPieces(y: string, m: string, d: string)
    requires |y| == 4 && |m| == 2 && |d| == 2 && AllDigits(y) && AllDigits(m) && AllDigits(d)
    ensures var date := Date(DigitsValue(y), DigitsValue(m), DigitsValue(d));
      ParseIso(y + "-" + m + "-" + d) == if Valid(date) then Some(date) else None
  {
    var t := y + "-" + m + "-" + d;
    assert t[..4] == y;
    assert t[5..7] == m;
    assert t[8..] == d;
  }

  /** Every string that parses is exactly the printed form of its date. */
  lemma IsoCanonical(s: string)
    requires ParseIso(s).Some?
    ensures IsoString(ParseIso(s).value) == s
  {
    var d := ParseIso(s).value;
    DigitsCanonical(s[..4]);
    DigitsCanonical(s[5..7]);
    DigitsCanonical(s[8..]);
    assert 0 <= d.year <= 9999 by {
      DigitsBelow(s[..4]);
    }
    assert s == s[..4] + "-" + s[5..7] + "-" + s[8..];
  }

  lemma {:induction false} DigitsBelow(t: string)
    requires AllDigits(t)
    ensures DigitsValue(t) < Pow10(|t|)
  {
    if |t| > 0 {
      DigitsBelow(t[..|t| - 1]);
    }
  }

  /**
   * For years 0..9999 the date text and the parser are inverse: a date-only
   * string denotes date `d` exactly when it is `d`'s printed form.
   */
  lemma IsoRoundTrip(d: Date, s: string)
    requires Valid(d) && 0 <= d.year <= 9999
    ensures ParseIso(s) == Some(d) <==> s == IsoString(d)
  {
    IsoParsesBack(d);
    if ParseIso(s) == Some(d) {
      IsoCanonical(s);
    }
  }
}
