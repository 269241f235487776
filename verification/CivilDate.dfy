/** Epoch seconds to a civil date (src/osm/pbf_header.rs). */
module CivilDate {
  import opened Basics

  const I64_MIN: int := -0x8000_0000_0000_0000
  const I64_MAX: int := 0x7fff_ffff_ffff_ffff
  const DAY_SECONDS: int := 86400

  /** The first midnight in the 64-bit range. */
  const EARLIEST: int := -9223372036854720000

  /** Rust's division truncates toward zero. */
  function Div(a: int, b: int): int
    requires b > 0
  {
    if a >= 0 then a / b else -((-a) / b)
  }

  datatype DateTime = DateTime(year: int, month: int, day: int, hour: int, minute: int, second: int)

  /** In the computation of the era the division applies to the whole conditional. */
  function EraOf(z: int): int {
    Div(if z >= 0 then z else z - 146096, 146097)
  }

  function YearInEra(doe: int): int {
    Div(doe - Div(doe, 1460) + Div(doe, 36524) - Div(doe, 146096), 365)
  }

  function DayInYear(doe: int, yoe: int): int {
    doe - (365 * yoe + Div(yoe, 4) - Div(yoe, 100))
  }

  /** The month, counted from March, and the day of the month. */
  function MonthAndDay(doy: int): (int, int) {
    var mp := Div(5 * doy + 2, 153);
    (mp, doy - Div(153 * mp + 2, 5) + 1)
  }

  /** Hinnant's algorithm, on a day count from 1970-01-01: year, month and day. */
  function CivilFromDays(days: int): (int, int, int) {
    var z := days + 719468;
    var era := EraOf(z);
    var doe := z - era * 146097;
    var yoe := YearInEra(doe);
    var y := yoe + era * 400;
    var md := MonthAndDay(DayInYear(doe, yoe));
    var m := if md.0 < 10 then md.0 + 3 else md.0 - 9;
    (if m <= 2 then y + 1 else y, m, md.1)
  }

  /** None where the subtraction of the time of day leaves the 64-bit range: with overflow checks on,
      as the release profile has them, the conversion panics there. */
  function FromEpoch(secs: int): Option<DateTime>
    requires I64_MIN <= secs <= I64_MAX
  {
    var timeOfDay := secs % DAY_SECONDS;
    if secs - timeOfDay < I64_MIN then None
    else
      var date := CivilFromDays(Div(secs - timeOfDay, DAY_SECONDS));
      Some(DateTime(date.0, date.1, date.2, Div(timeOfDay, 3600), Div(timeOfDay % 3600, 60), timeOfDay % 60))
  }

  // ---- the calendar, counted independently ----

  /** The leap rule of RFC 3339, appendix C, on the proleptic Gregorian calendar. */
  predicate Leap(year: int) {
    year % 4 == 0 && (year % 100 != 0 || year % 400 == 0)
  }

  function DaysInYear(year: int): int {
    if Leap(year) then 366 else 365
  }

  function DaysInMonth(year: int, month: int): int {
    if month == 2 then (if Leap(year) then 29 else 28)
    else if month in {4, 6, 9, 11} then 30
    else 31
  }

  /** Days from 1970-01-01 to the first of January, counted year by year. */
  function DaysToYear(year: int): int
    decreases if year >= 1970 then year - 1970 else 1970 - year
  {
    if year == 1970 then 0
    else if year > 1970 then DaysToYear(year - 1) + DaysInYear(year - 1)
    else DaysToYear(year + 1) - DaysInYear(year)
  }

  /** Days from the first of January to the first of the month, counted month by month. */
  function DaysToMonth(year: int, month: int): int
    decreases month
  {
    if month <= 1 then 0 else DaysToMonth(year, month - 1) + DaysInMonth(year, month - 1)
  }

  function DayNumber(year: int, month: int, day: int): int {
    DaysToYear(year) + DaysToMonth(year, month) + day - 1
  }

  predicate ValidDate(year: int, month: int, day: int) {
    1 <= month <= 12 && 1 <= day <= DaysInMonth(year, month)
  }

  predicate ValidDateTime(t: DateTime) {
    ValidDate(t.year, t.month, t.day) && 0 <= t.hour < 24 && 0 <= t.minute < 60 && 0 <= t.second < 60
  }

  function ToEpoch(t: DateTime): int {
    DayNumber(t.year, t.month, t.day) * DAY_SECONDS + t.hour * 3600 + t.minute * 60 + t.second
  }

  // ---- closed form of the independent count ----

  /** The number of leap years up to and including `year`, up to a constant. */
  function LeapsTo(year: int): int {
    year / 4 - year / 100 + year / 400
  }

  lemma FourStep(y: int)
    ensures y / 4 - (y - 1) / 4 == if y % 4 == 0 then 1 else 0
  {
  }

  lemma HundredStep(y: int)
    ensures y / 100 - (y - 1) / 100 == if y % 100 == 0 then 1 else 0
  {
  }

  lemma FourHundredStep(y: int)
    ensures y / 400 - (y - 1) / 400 == if y % 400 == 0 then 1 else 0
  {
  }

  lemma LeapStep(y: int)
    ensures LeapsTo(y) - LeapsTo(y - 1) == if Leap(y) then 1 else 0
  {
    FourStep(y);
    HundredStep(y);
    FourHundredStep(y);
    assert y % 400 == 0 ==> y % 100 == 0;
    assert y % 100 == 0 ==> y % 4 == 0;
  }

  lemma {:induction false} DaysToYearClosed(year: int)
    ensures DaysToYear(year) == 365 * (year - 1970) + LeapsTo(year - 1) - LeapsTo(1969)
    decreases if year >= 1970 then year - 1970 else 1970 - year
  {
    hide LeapsTo, Leap;
    if year > 1970 {
      DaysToYearClosed(year - 1);
      LeapStep(year - 1);
    } else if year < 1970 {
      DaysToYearClosed(year + 1);
      LeapStep(year);
    }
  }

  // ---- the era arithmetic ----

  /** The day within the 400-year era split into centuries, four-year blocks and years, each
      starting in March. */
  lemma EraSplit(doe: int) returns (c: int, b: int, k: int, doy: int)
    requires 0 <= doe < 146097
    ensures 0 <= c <= 3 && 0 <= b <= 24 && 0 <= k <= 3 && 0 <= doy <= 365
    ensures doe == 36524 * c + 1461 * b + 365 * k + doy
    ensures doy == 365 ==> k == 3 && (b == 24 ==> c == 3)
  {
    c := if doe == 146096 then 3 else doe / 36524;
    var r := doe - 36524 * c;
    b := r / 1461;
    var s := r - 1461 * b;
    k := if s == 1460 then 3 else s / 365;
    doy := s - 365 * k;
  }

  /** The year of the era comes out as the split says. */
  lemma YearOfEra(doe: int, c: int, b: int, k: int, doy: int)
    requires 0 <= doe < 146097
    requires 0 <= c <= 3 && 0 <= b <= 24 && 0 <= k <= 3 && 0 <= doy <= 365
    requires doe == 36524 * c + 1461 * b + 365 * k + doy
    requires doy == 365 ==> k == 3 && (b == 24 ==> c == 3)
    ensures YearInEra(doe) == 100 * c + 4 * b + k
  {
    var s := 365 * k + doy;
    var extra := if b + s + 24 * c >= 1460 then 1 else 0;
    assert doe / 1460 == 25 * c + b + extra by {
      assert doe == 1460 * (25 * c + b + extra) + (b + s + 24 * c - 1460 * extra);
    }
    if doe == 146096 {
      assert c == 3 && b == 24 && k == 3 && doy == 365;
    } else {
      assert doe / 36524 == c by {
        assert doe == 36524 * c + (1461 * b + s);
      }
      var n := doe - doe / 1460 + doe / 36524 - doe / 146096;
      assert n == 365 * (100 * c + 4 * b + k) + (doy - extra);
      assert n / 365 == 100 * c + 4 * b + k;
    }
  }

  /** March-based months: where each begins, and that the algorithm finds it. */
  function MarchMonth(mp: int): int {
    [0, 31, 61, 92, 122, 153, 184, 214, 245, 275, 306, 337][if 0 <= mp < 12 then mp else 0]
  }

  lemma MonthOfYear(doy: int)
    requires 0 <= doy <= 365
    ensures var md := MonthAndDay(doy);
            && 0 <= md.0 <= 11 && md.1 == doy - MarchMonth(md.0) + 1
            && MarchMonth(md.0) <= doy && (md.0 < 11 ==> doy < MarchMonth(md.0 + 1))
  {
    var mp := (5 * doy + 2) / 153;
    assert 153 * mp <= 5 * doy + 2 < 153 * mp + 153;
    assert mp == 0 || mp == 1 || mp == 2 || mp == 3 || mp == 4 || mp == 5 || mp == 6 || mp == 7 || mp == 8 || mp == 9
           || mp == 10 || mp == 11;
  }

  /** The March-based months are the months of the calendar: March to December lie in `year`, January
      and February in the next. */
  lemma MonthsAgree(year: int, mp: int)
    requires 0 <= mp <= 11
    ensures mp < 10 ==> DaysToMonth(year, mp + 3) == DaysToMonth(year, 3) + MarchMonth(mp)
                        && DaysInMonth(year, mp + 3) == MarchMonth(mp + 1) - MarchMonth(mp)
    ensures mp >= 10 ==> DaysToMonth(year + 1, mp - 9) == MarchMonth(mp) - 306
    ensures mp == 10 ==> DaysInMonth(year + 1, 1) == 31 == MarchMonth(11) - MarchMonth(10)
    ensures mp == 11 ==> DaysInMonth(year + 1, 2) == if Leap(year + 1) then 29 else 28
    ensures DaysToMonth(year, 3) == if Leap(year) then 60 else 59
  {
    hide Leap;
    var y := year;
    assert DaysToMonth(y, 2) == 31;
    assert DaysToMonth(y, 4) == DaysToMonth(y, 3) + 31;
    assert DaysToMonth(y, 5) == DaysToMonth(y, 4) + 30;
    assert DaysToMonth(y, 6) == DaysToMonth(y, 5) + 31;
    assert DaysToMonth(y, 7) == DaysToMonth(y, 6) + 30;
    assert DaysToMonth(y, 8) == DaysToMonth(y, 7) + 31;
    assert DaysToMonth(y, 9) == DaysToMonth(y, 8) + 31;
    assert DaysToMonth(y, 10) == DaysToMonth(y, 9) + 30;
    assert DaysToMonth(y, 11) == DaysToMonth(y, 10) + 31;
    assert DaysToMonth(y, 12) == DaysToMonth(y, 11) + 30;
    assert DaysToMonth(y + 1, 1) == 0 && DaysToMonth(y + 1, 2) == 31;
    assert mp == 0 || mp == 1 || mp == 2 || mp == 3 || mp == 4 || mp == 5 || mp == 6 || mp == 7 || mp == 8 || mp == 9
           || mp == 10 || mp == 11;
  }

  /** The first of March of `year`, counted from the first of March of the year 0. */
  lemma FirstOfMarch(year: int)
    ensures DaysToYear(year) + DaysToMonth(year, 3) + 719468 == 365 * year + LeapsTo(year)
    ensures DaysToYear(year + 1) + 719468 == 365 * year + LeapsTo(year) + 306
  {
    DaysToYearClosed(year);
    DaysToYearClosed(year + 1);
    MonthsAgree(year, 0);
    LeapStep(year);
    assert LeapsTo(1969) == 477;
  }

  lemma LeapsInEra(era: int, yoe: int, c: int, b: int, k: int)
    requires 0 <= c <= 3 && 0 <= b <= 24 && 0 <= k <= 3 && yoe == 100 * c + 4 * b + k
    ensures yoe / 4 == 25 * c + b && yoe / 100 == c
    ensures LeapsTo(yoe + 400 * era) == 97 * era + 24 * c + b
    ensures k == 3 && (b == 24 ==> c == 3) ==> Leap(yoe + 1 + 400 * era)
  {
    hide Leap;
    var y := yoe + 400 * era;
    QuotientIs(yoe, 25 * c + b, k);
    assert yoe / 100 == c by { assert yoe == 100 * c + (4 * b + k); }
    QuotientIs(y, 25 * c + b + 100 * era, k);
    assert y / 100 == c + 4 * era by { assert y == 100 * (c + 4 * era) + (4 * b + k); }
    assert y / 400 == era by { assert y == 400 * era + yoe; }
    if k == 3 && (b == 24 ==> c == 3) {
      EndOfBlockIsLeap(era, y + 1, c, b);
    }
  }

  lemma QuotientIs(y: int, q: int, k: int)
    requires y == 4 * q + k && 0 <= k <= 3
    ensures y / 4 == q
  {
  }

  /** The year after a four-year block is a leap year, unless it ends a century other than the last. */
  lemma EndOfBlockIsLeap(era: int, y: int, c: int, b: int)
    requires 0 <= c <= 3 && 0 <= b <= 24 && (b == 24 ==> c == 3)
    requires y == 100 * c + 4 * b + 4 + 400 * era
    ensures Leap(y)
  {
    assert y % 4 == 0 by { assert y == 4 * (25 * c + b + 1 + 100 * era); }
    if b < 24 {
      assert y % 100 == 4 * b + 4 by { assert y == 100 * (c + 4 * era) + (4 * b + 4); }
    } else {
      assert y % 400 == 0 by { assert y == 400 * (era + 1); }
    }
  }

  /** The era is the floor of the day count over the days of an era. */
  lemma EraBounds(z: int)
    ensures 0 <= z - EraOf(z) * 146097 < 146097
  {
  }

  /** The date is a date of the calendar and counts back to the day it came from. */
  lemma CivilFromDaysIsExact(days: int)
    ensures var date := CivilFromDays(days);
            ValidDate(date.0, date.1, date.2) && DayNumber(date.0, date.1, date.2) == days
  {
    hide LeapsTo, Leap, MarchMonth, DaysToMonth, DaysToYear, EraOf, YearInEra, MonthAndDay;
    var z := days + 719468;
    EraBounds(z);
    var era := EraOf(z);
    var doe := z - era * 146097;
    var c, b, k, doy := EraSplit(doe);
    YearOfEra(doe, c, b, k, doy);
    LeapsInEra(era, YearInEra(doe), c, b, k);
    assert DayInYear(doe, YearInEra(doe)) == doy;
    MonthOfYear(doy);
    DateFromParts(days, era, c, b, k, doy, MonthAndDay(doy).0);
  }

  lemma DateFromParts(days: int, era: int, c: int, b: int, k: int, doy: int, mp: int)
    requires 0 <= c <= 3 && 0 <= b <= 24 && 0 <= k <= 3 && 0 <= doy <= 365 && 0 <= mp <= 11
    requires days + 719468 == era * 146097 + 36524 * c + 1461 * b + 365 * k + doy
    requires doy == 365 ==> k == 3 && (b == 24 ==> c == 3)
    requires MarchMonth(mp) <= doy && (mp < 11 ==> doy < MarchMonth(mp + 1))
    ensures var year := 100 * c + 4 * b + k + 400 * era;
            var d := doy - MarchMonth(mp) + 1;
            if mp < 10 then ValidDate(year, mp + 3, d) && DayNumber(year, mp + 3, d) == days
            else ValidDate(year + 1, mp - 9, d) && DayNumber(year + 1, mp - 9, d) == days
  {
    hide LeapsTo, Leap, DaysToMonth, DaysToYear;
    var yoe := 100 * c + 4 * b + k;
    var year := yoe + 400 * era;
    LeapsInEra(era, yoe, c, b, k);
    FirstOfMarch(year);
    MonthsAgree(year, mp);
  }

  // ---- the conversion ----

  /** Wherever it does not overflow, the conversion yields a valid date and time that counts back to
      its input; and it overflows exactly on the last part-day of the range, which begins before the
      smallest 64-bit integer. */
  lemma FromEpochIsExact(secs: int)
    requires -0x8000_0000_0000_0000 <= secs <= 0x7fff_ffff_ffff_ffff
    ensures FromEpoch(secs).Some? <==> secs >= -9223372036854720000
    ensures FromEpoch(secs).Some? ==> ValidDateTime(FromEpoch(secs).value) && ToEpoch(FromEpoch(secs).value) == secs
  {
    hide CivilFromDays, ValidDate, DayNumber;
    var timeOfDay := secs % DAY_SECONDS;
    assert EARLIEST == -106751991167300 * DAY_SECONDS;
    if FromEpoch(secs).Some? {
      var days := secs / DAY_SECONDS;
      assert secs - timeOfDay == days * DAY_SECONDS;
      WholeDays(days);
      CivilFromDaysIsExact(days);
    }
  }

  lemma WholeDays(days: int)
    ensures Div(days * DAY_SECONDS, DAY_SECONDS) == days
  {
  }

  /** Calendar order. */
  predicate Before(a: DateTime, b: DateTime) {
    || a.year < b.year
    || (a.year == b.year && (|| a.month < b.month
       || (a.month == b.month && (|| a.day < b.day
         || (a.day == b.day && (|| a.hour < b.hour
           || (a.hour == b.hour && (|| a.minute < b.minute
             || (a.minute == b.minute && a.second < b.second)))))))))
  }

  lemma {:induction false} YearsGrow(a: int, b: int)
    requires a < b
    ensures DaysToYear(a) + DaysInYear(a) <= DaysToYear(b)
    decreases b - a
  {
    hide Leap;
    if a + 1 < b {
      YearsGrow(a + 1, b);
    }
    if a < 1970 {
      assert DaysToYear(a) == DaysToYear(a + 1) - DaysInYear(a);
    }
  }

  lemma {:induction false} MonthsGrow(year: int, a: int, b: int)
    requires 1 <= a < b
    ensures DaysToMonth(year, a) + DaysInMonth(year, a) <= DaysToMonth(year, b)
    decreases b
  {
    hide Leap;
    if a + 1 < b {
      MonthsGrow(year, a, b - 1);
    }
  }

  lemma WholeYear(year: int)
    ensures DaysToMonth(year, 12) + DaysInMonth(year, 12) == DaysInYear(year)
  {
    hide Leap;
    MonthsAgree(year, 9);
    MonthsAgree(year, 0);
  }

  lemma DayNumberGrows(y: int, m: int, d: int, y': int, m': int, d': int)
    requires ValidDate(y, m, d) && ValidDate(y', m', d')
    requires y < y' || (y == y' && (m < m' || (m == m' && d < d')))
    ensures DayNumber(y, m, d) < DayNumber(y', m', d')
  {
    hide Leap, DaysToYear;
    if y < y' {
      YearsGrow(y, y');
      WholeYear(y);
      if m < 12 { MonthsGrow(y, m, 12); }
      MonthsNonNegative(y', m');
    } else if m < m' {
      MonthsGrow(y, m, m');
    }
  }

  lemma {:induction false} MonthsNonNegative(year: int, month: int)
    ensures DaysToMonth(year, month) >= 0
    decreases month
  {
    if month > 1 {
      MonthsNonNegative(year, month - 1);
    }
  }

  /** Valid dates in calendar order count up, so the conversion is strictly increasing: a later second
      has a later date and time. */
  lemma ToEpochGrows(a: DateTime, b: DateTime)
    requires ValidDateTime(a) && ValidDateTime(b) && Before(a, b)
    ensures ToEpoch(a) < ToEpoch(b)
  {
    hide ValidDate, DayNumber;
    if a.year == b.year && a.month == b.month && a.day == b.day {
    } else {
      DayNumberGrows(a.year, a.month, a.day, b.year, b.month, b.day);
    }
  }

  lemma FromEpochIncreases(s: int, t: int)
    requires -9223372036854720000 <= s < t <= 0x7fff_ffff_ffff_ffff
    ensures FromEpoch(s).Some? && FromEpoch(t).Some? && Before(FromEpoch(s).value, FromEpoch(t).value)
  {
    hide FromEpoch, ToEpoch, ValidDate;
    FromEpochIsExact(s);
    FromEpochIsExact(t);
    var a, b := FromEpoch(s).value, FromEpoch(t).value;
    if !Before(a, b) && a != b {
      ToEpochGrows(b, a);
    }
  }
}
