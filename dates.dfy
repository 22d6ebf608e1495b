/**
 * Calendar dates and instants as the services use them: .NET's DateOnly
 * (years 1 to 9999, proleptic Gregorian calendar) and the UTC DateTime of the
 * expiration sweep, reduced to a date and a second of the day.
 *
 * Dates travel as text in the `yyyy-MM-dd` form, which is the `full-date`
 * production of section 5.6 of RFC 3339; the day-of-month limits are those of
 * section 5.7 of RFC 3339 (28, 29, 30 or 31 by month and leap year).
 */
module Dates {
  import opened Wrappers

  datatype Date = Date(year: int, month: int, day: int)

  const MinYear := 1
  const MaxYear := 9999

  predicate IsLeapYear(y: int) {
    y % 4 == 0 && (y % 100 != 0 || y % 400 == 0)
  }

  function DaysInMonth(y: int, m: int): int
    requires 1 <= m <= 12
  {
    if m == 2 then (if IsLeapYear(y) then 29 else 28)
    else if m == 4 || m == 6 || m == 9 || m == 11 then 30
    else 31
  }

  /** A year, month and day that name a real day of the calendar. */
  predicate IsValid(d: Date) {
    MinYear <= d.year <= MaxYear && 1 <= d.month <= 12 && 1 <= d.day <= DaysInMonth(d.year, d.month)
  }

  /** .NET's DateOnly: it cannot hold an impossible date. */
  type DateOnly = d: Date | IsValid(d) witness Date(1, 1, 1)

  const MinDate: DateOnly := Date(MinYear, 1, 1)
  const MaxDate: DateOnly := Date(MaxYear, 12, 31)

  /** Day-of-month limits by month and leap year: February 30 never exists,
      February 29 exactly in leap years, and the 31st only in long months. */
  lemma DayLimits(y: int)
    requires MinYear <= y <= MaxYear
    ensures !IsValid(Date(y, 2, 30))
    ensures IsValid(Date(y, 2, 29)) <==> IsLeapYear(y)
    ensures forall m :: 1 <= m <= 12 ==> (IsValid(Date(y, m, 31)) <==> m in {1, 3, 5, 7, 8, 10, 12})
    ensures forall m :: 1 <= m <= 12 ==> IsValid(Date(y, m, 28))
  {
  }

  // ---------------------------------------------------------------------------
  // Ordering

  /** Chronological order of dates (year, then month, then day). */
  predicate Le(a: Date, b: Date) {
    a.year < b.year
    || (a.year == b.year && (a.month < b.month || (a.month == b.month && a.day <= b.day)))
  }

  predicate Lt(a: Date, b: Date) {
    Le(a, b) && a != b
  }

  lemma LeIsTotalOrder(a: Date, b: Date, c: Date)
    ensures Le(a, a)
    ensures Le(a, b) && Le(b, a) ==> a == b
    ensures Le(a, b) && Le(b, c) ==> Le(a, c)
    ensures Le(a, b) || Le(b, a)
  {
  }

  // ---------------------------------------------------------------------------
  // Day numbers: the number of days since 0001-01-01, which is how DateOnly
  // stores a date. It is an independent account of the ordering and of the
  // next and previous day.

  function DaysInYear(y: int): int {
    if IsLeapYear(y) then 366 else 365
  }

  function DaysBeforeYear(y: int): int
    requires y >= 1
  {
    var p := y - 1;
    365 * p + p / 4 - p / 100 + p / 400
  }

  function DaysBeforeMonth(y: int, m: int): int
    requires 1 <= m <= 12
  {
    (if m == 1 then 0 else if m == 2 then 31 else if m == 3 then 59
     else if m == 4 then 90 else if m == 5 then 120 else if m == 6 then 151
     else if m == 7 then 181 else if m == 8 then 212 else if m == 9 then 243
     else if m == 10 then 273 else if m == 11 then 304 else 334)
    + (if m > 2 && IsLeapYear(y) then 1 else 0)
  }

  function DayNumber(d: DateOnly): int {
    DaysBeforeYear(d.year) + DaysBeforeMonth(d.year, d.month) + d.day - 1
  }

  lemma DivStep(y: int)
    ensures y / 4 - (y - 1) / 4 == (if y % 4 == 0 then 1 else 0)
    ensures y / 100 - (y - 1) / 100 == (if y % 100 == 0 then 1 else 0)
    ensures y / 400 - (y - 1) / 400 == (if y % 400 == 0 then 1 else 0)
  {
  }

  lemma Divisors(y: int)
    ensures y % 400 == 0 ==> y % 100 == 0
    ensures y % 100 == 0 ==> y % 4 == 0
  {
    if y % 400 == 0 {
      assert y == 400 * (y / 400);
      assert y == 100 * (4 * (y / 400));
    }
    if y % 100 == 0 {
      assert y == 100 * (y / 100);
      assert y == 4 * (25 * (y / 100));
    }
  }

  lemma DaysBeforeYearStep(y: int)
    requires y >= 1
    ensures DaysBeforeYear(y + 1) == DaysBeforeYear(y) + DaysInYear(y)
  {
    DivStep(y);
    Divisors(y);
  }

  lemma {:induction false} DaysBeforeYearGrows(y1: int, y2: int)
    requires 1 <= y1 < y2
    ensures DaysBeforeYear(y1) + DaysInYear(y1) <= DaysBeforeYear(y2)
    decreases y2 - y1
  {
    DaysBeforeYearStep(y1);
    if y1 + 1 < y2 {
      DaysBeforeYearGrows(y1 + 1, y2);
    }
  }

  lemma DaysBeforeMonthGrows(y: int, m1: int, m2: int)
    requires 1 <= m1 < m2 <= 12
    ensures DaysBeforeMonth(y, m1) + DaysInMonth(y, m1) <= DaysBeforeMonth(y, m2)
  {
  }

  lemma WithinYear(d: DateOnly)
    ensures 0 <= DaysBeforeMonth(d.year, d.month) + d.day - 1 < DaysInYear(d.year)
  {
  }

  lemma DaysBeforeYearNonNegative(y: int)
    requires y >= 1
    ensures DaysBeforeYear(y) >= 0
  {
  }

  lemma EarlierHasSmallerDayNumber(a: DateOnly, b: DateOnly)
    requires Lt(a, b)
    ensures DayNumber(a) < DayNumber(b)
  {
    WithinYear(a);
    WithinYear(b);
    if a.year < b.year {
      DaysBeforeYearGrows(a.year, b.year);
    } else if a.month < b.month {
      DaysBeforeMonthGrows(a.year, a.month, b.month);
    }
  }

  /** The day number orders dates exactly as the calendar does. */
  lemma DayNumberOrder(a: DateOnly, b: DateOnly)
    ensures Le(a, b) <==> DayNumber(a) <= DayNumber(b)
    ensures Lt(a, b) <==> DayNumber(a) < DayNumber(b)
  {
    if a != b {
      if Le(a, b) {
        EarlierHasSmallerDayNumber(a, b);
      } else {
        EarlierHasSmallerDayNumber(b, a);
      }
    }
  }

  lemma DayNumberRange(d: DateOnly)
    ensures 0 <= DayNumber(d)
    ensures DayNumber(d) == 0 <==> d == MinDate
  {
    DaysBeforeYearNonNegative(d.year);
    if d != MinDate {
      DayNumberOrder(MinDate, d);
    }
  }

  // ---------------------------------------------------------------------------
  // Next and previous day

  function NextDay(d: DateOnly): (r: DateOnly)
    requires d != MaxDate
    ensures DayNumber(r) == DayNumber(d) + 1
  {
    if d.day < DaysInMonth(d.year, d.month) then Date(d.year, d.month, d.day + 1)
    else if d.month < 12 then Date(d.year, d.month + 1, 1)
    else DaysBeforeYearStep(d.year); Date(d.year + 1, 1, 1)
  }

  function PrevDay(d: DateOnly): (r: DateOnly)
    requires d != MinDate
    ensures DayNumber(r) + 1 == DayNumber(d)
  {
    if d.day > 1 then Date(d.year, d.month, d.day - 1)
    else if d.month > 1 then Date(d.year, d.month - 1, DaysInMonth(d.year, d.month - 1))
    else DaysBeforeYearStep(d.year - 1); Date(d.year - 1, 12, 31)
  }

  /** The next day is the first day after d: nothing lies strictly between. */
  lemma NextDayIsSuccessor(d: DateOnly, x: DateOnly)
    requires d != MaxDate
    ensures Lt(d, NextDay(d))
    ensures Lt(d, x) <==> Le(NextDay(d), x)
  {
    DayNumberOrder(d, NextDay(d));
    DayNumberOrder(d, x);
    DayNumberOrder(NextDay(d), x);
  }

  /** The previous day is the last day before d: nothing lies strictly between. */
  lemma PrevDayIsPredecessor(d: DateOnly, x: DateOnly)
    requires d != MinDate
    ensures Lt(PrevDay(d), d)
    ensures Lt(x, d) <==> Le(x, PrevDay(d))
  {
    DayNumberOrder(PrevDay(d), d);
    DayNumberOrder(x, d);
    DayNumberOrder(x, PrevDay(d));
  }

  lemma PrevDayOfNextDay(d: DateOnly)
    requires d != MaxDate
    ensures NextDay(d) != MinDate && PrevDay(NextDay(d)) == d
  {
    DayNumberRange(NextDay(d));
    var p := PrevDay(NextDay(d));
    DayNumberOrder(p, d);
    DayNumberOrder(d, p);
  }

  /** DateTime.AddYears: the same month and day n years on, except that
      February 29 becomes February 28 in a year that is not a leap year. */
  function AddYears(d: DateOnly, n: int): (r: DateOnly)
    requires MinYear <= d.year + n <= MaxYear
    ensures r.year == d.year + n && r.month == d.month
    ensures r.day == d.day || (d.month == 2 && d.day == 29 && r.day == 28 && !IsLeapYear(r.year))
  {
    var y := d.year + n;
    Date(y, d.month, if d.month == 2 && d.day == 29 && !IsLeapYear(y) then 28 else d.day)
  }

  // ---------------------------------------------------------------------------
  // The yyyy-MM-dd text form

  predicate IsDigit(c: char) {
    '0' <= c <= '9'
  }

  predicate AllDigits(s: string) {
    forall i :: 0 <= i < |s| ==> IsDigit(s[i])
  }

  function DigitChar(v: int): (c: char)
    requires 0 <= v <= 9
    ensures IsDigit(c)
  {
    (('0' as int) + v) as char
  }

  function DigitValue(c: char): (v: int)
    requires IsDigit(c)
    ensures 0 <= v <= 9
  {
    (c as int) - ('0' as int)
  }

  /** The value of a string of decimal digits, most significant first. */
  function DecimalValue(s: string): nat
    requires AllDigits(s)
  {
    if s == [] then 0 else 10 * DecimalValue(s[..|s| - 1]) + DigitValue(s[|s| - 1])
  }

  function Pow10(width: nat): nat {
    if width == 0 then 1 else 10 * Pow10(width - 1)
  }

  /** n in exactly `width` decimal digits, zero-padded on the left: the yyyy,
      MM and dd fields. */
  function Digits(n: nat, width: nat): (s: string)
    ensures |s| == width && AllDigits(s)
  {
    if width == 0 then [] else Digits(n / 10, width - 1) + [DigitChar(n % 10)]
  }

  /** A number that fits the width reads back from its digits. */
  lemma {:induction false} DigitsRoundTrip(n: nat, width: nat)
    requires n < Pow10(width)
    ensures DecimalValue(Digits(n, width)) == n
  {
    if width > 0 {
      DigitsRoundTrip(n / 10, width - 1);
      var s := Digits(n, width);
      assert s[..|s| - 1] == Digits(n / 10, width - 1);
    }
  }

  /** Digit strings are exactly the padded renderings of their values. */
  lemma {:induction false} DecimalValueRoundTrip(s: string)
    requires AllDigits(s)
    ensures DecimalValue(s) < Pow10(|s|) && Digits(DecimalValue(s), |s|) == s
  {
    if s != [] {
      var t, c := s[..|s| - 1], s[|s| - 1];
      DecimalValueRoundTrip(t);
      var v := DecimalValue(s);
      assert v / 10 == DecimalValue(t) && v % 10 == DigitValue(c);
      assert DigitChar(DigitValue(c)) == c;
      assert s == t + [c];
    }
  }

  /** DateOnly.ToString("yyyy-MM-dd"). */
  function Format(d: DateOnly): (s: string)
    ensures |s| == 10 && s[4] == '-' && s[7] == '-'
    ensures AllDigits(s[..4]) && AllDigits(s[5..7]) && AllDigits(s[8..])
  {
    var s := Digits(d.year, 4) + "-" + Digits(d.month, 2) + "-" + Digits(d.day, 2);
    assert s[..4] == Digits(d.year, 4) && s[5..7] == Digits(d.month, 2) && s[8..] == Digits(d.day, 2);
    s
  }

  /** The strict reading of yyyy-MM-dd: ten characters, dashes at positions 4
      and 7, digits elsewhere, and a date that exists. */
  function Parse(s: string): (r: Option<DateOnly>)
  {
    if |s| == 10 && s[4] == '-' && s[7] == '-'
       && AllDigits(s[..4]) && AllDigits(s[5..7]) && AllDigits(s[8..])
    then
      var d := Date(DecimalValue(s[..4]), DecimalValue(s[5..7]), DecimalValue(s[8..]));
      if IsValid(d) then Some(d) else None
    else None
  }

  /** Formatting then parsing gives the date back. */
  lemma ParseFormat(d: DateOnly)
    ensures Parse(Format(d)) == Some(d)
  {
    var s := Format(d);
    assert s[..4] == Digits(d.year, 4) && s[5..7] == Digits(d.month, 2) && s[8..] == Digits(d.day, 2);
    assert Pow10(2) == 100 && Pow10(4) == 10000;
    DigitsRoundTrip(d.year, 4);
    DigitsRoundTrip(d.month, 2);
    DigitsRoundTrip(d.day, 2);
  }

  /** The parser is strict: it accepts only the text that Format produces. */
  lemma FormatParse(s: string)
    ensures Parse(s).Some? ==> Format(Parse(s).value) == s
  {
    if Parse(s).Some? {
      var d := Parse(s).value;
      DecimalValueRoundTrip(s[..4]);
      DecimalValueRoundTrip(s[5..7]);
      DecimalValueRoundTrip(s[8..]);
      assert s == s[..4] + "-" + s[5..7] + "-" + s[8..];
    }
  }

  /** Parsing and formatting are mutually inverse on the strict form. */
  lemma ParseIffFormat(s: string, d: DateOnly)
    ensures Parse(s) == Some(d) <==> s == Format(d)
  {
    ParseFormat(d);
    FormatParse(s);
  }

  lemma TwoDigits(s: string)
    requires |s| == 2 && AllDigits(s)
    ensures DecimalValue(s) == 10 * DigitValue(s[0]) + DigitValue(s[1])
  {
    assert s[..1][..0] == [];
    assert DecimalValue(s[..1]) == DigitValue(s[0]);
  }

  lemma FourDigits(s: string)
    requires |s| == 4 && AllDigits(s)
    ensures DecimalValue(s) == 1000 * DigitValue(s[0]) + 100 * DigitValue(s[1]) + 10 * DigitValue(s[2]) + DigitValue(s[3])
  {
    var a, b, c := s[..3], s[..3][..2], s[..3][..2][..1];
    assert c[..0] == [];
    assert DecimalValue(c) == DigitValue(s[0]);
    assert DecimalValue(b) == 10 * DigitValue(s[0]) + DigitValue(s[1]);
    assert DecimalValue(a) == 100 * DigitValue(s[0]) + 10 * DigitValue(s[1]) + DigitValue(s[2]);
  }

  /** Parsing text made of three digit fields reads each field. */
  lemma ParseDigits(y: string, m: string, d: string)
    requires |y| == 4 && |m| == 2 && |d| == 2 && AllDigits(y) && AllDigits(m) && AllDigits(d)
    ensures var s := y + "-" + m + "-" + d;
            var date := Date(DecimalValue(y), DecimalValue(m), DecimalValue(d));
            Parse(s) == if IsValid(date) then Some(date) else None
  {
    var s := y + "-" + m + "-" + d;
    assert s[..4] == y && s[5..7] == m && s[8..] == d;
  }

  /** The strict parser rejects an impossible calendar date. */
  lemma ImpossibleDateRejected()
    ensures Parse("2024-02-30") == None
  {
    FourDigits("2024");
    TwoDigits("02");
    TwoDigits("30");
    ParseDigits("2024", "02", "30");
    assert "2024" + "-" + "02" + "-" + "30" == "2024-02-30";
  }

  /** February 29 does not exist outside a leap year. */
  lemma NonLeapDayRejected()
    ensures Parse("2023-02-29") == None
  {
    FourDigits("2023");
    TwoDigits("02");
    TwoDigits("29");
    ParseDigits("2023", "02", "29");
    assert "2023" + "-" + "02" + "-" + "29" == "2023-02-29";
  }

  /** February 29 exists in a leap year. */
  lemma LeapDayAccepted()
    ensures Parse("2024-02-29") == Some(Date(2024, 2, 29))
  {
    FourDigits("2024");
    TwoDigits("02");
    TwoDigits("29");
    ParseDigits("2024", "02", "29");
    assert "2024" + "-" + "02" + "-" + "29" == "2024-02-29";
  }

  // ---------------------------------------------------------------------------
  // Instants

  const SecondsPerHour := 3600
  const SecondsPerDay := 86400

  datatype Instant = Instant(date: DateOnly, secondOfDay: int)

  /** A UTC DateTime to the second: its calendar date and the time of day. */
  type DateTime = t: Instant | 0 <= t.secondOfDay < SecondsPerDay witness Instant(Date(1, 1, 1), 0)

  /** Seconds since 0001-01-01 00:00:00. */
  function Seconds(t: DateTime): int {
    DayNumber(t.date) * SecondsPerDay + t.secondOfDay
  }

  /** DateTime.AddHours(-1); None where .NET throws, at the very start of its range. */
  function HourEarlier(t: DateTime): (r: Option<DateTime>)
    ensures r.None? <==> Seconds(t) < SecondsPerHour
    ensures r.Some? ==> Seconds(r.value) + SecondsPerHour == Seconds(t)
  {
    DayNumberRange(t.date);
    if t.secondOfDay >= SecondsPerHour then Some(Instant(t.date, t.secondOfDay - SecondsPerHour))
    else if t.date == MinDate then None
    else Some(Instant(PrevDay(t.date), t.secondOfDay + SecondsPerDay - SecondsPerHour))
  }

  /** An hour back stays on the same calendar date exactly when the time of
      day is 01:00 or later; otherwise it lands on the previous date. */
  lemma HourEarlierDate(t: DateTime)
    requires HourEarlier(t).Some?
    ensures HourEarlier(t).value.date == t.date <==> t.secondOfDay >= SecondsPerHour
    ensures t.secondOfDay < SecondsPerHour ==> t.date != MinDate && HourEarlier(t).value.date == PrevDay(t.date)
  {
    if t.secondOfDay < SecondsPerHour {
      DayNumberRange(t.date);
      assert t.date != MinDate;
      assert DayNumber(PrevDay(t.date)) != DayNumber(t.date);
    }
  }
}
