/** Proleptic-Gregorian calendar arithmetic standing in for the `mktime`
    normalisation, `std::get_time` and `std::put_time` that `dates_of_week`
    and `week_file_name` rely on.  Days are counted from 0001-01-01, which is
    a Monday. */
module Calendar {
  import opened Wrappers
  import opened Text

  /** A `std::tm` reduced to its date: year, month 1..12, day of month. */
  datatype Date = Date(year: int, month: int, day: int)

  predicate IsLeap(y: int) { (y % 4 == 0 && y % 100 != 0) || y % 400 == 0 }

  function YearLength(y: int): int { if IsLeap(y) then 366 else 365 }

  function DaysInMonth(y: int, m: int): (n: int)
    requires 1 <= m <= 12
    ensures 28 <= n <= 31
  {
    if m == 2 then (if IsLeap(y) then 29 else 28)
    else if m == 4 || m == 6 || m == 9 || m == 11 then 30
    else 31
  }

  /** A date `mktime` leaves unchanged, from year 1 on. */
  predicate ValidDate(d: Date) {
    d.year >= 1 && 1 <= d.month <= 12 && 1 <= d.day <= DaysInMonth(d.year, d.month)
  }

  /** Days of year `y` in the months before month `m`. */
  function DaysBeforeMonth(y: int, m: int): (n: nat)
    requires 1 <= m <= 13
  {
    [0, 31, 59, 90, 120, 151, 181, 212, 243, 273, 304, 334, 365][m - 1]
      + (if m > 2 && IsLeap(y) then 1 else 0)
  }

  /** Consecutive months start `DaysInMonth` days apart. */
  lemma DaysBeforeNextMonth(y: int, m: int)
    requires 1 <= m <= 12
    ensures DaysBeforeMonth(y, m + 1) == DaysBeforeMonth(y, m) + DaysInMonth(y, m)
  {
  }

  /** Days from 0001-01-01 to the first day of year `y`; with Euclidean
      division the formula also holds for the years before 1. */
  function DaysBeforeYear(y: int): int {
    var a := y - 1;
    365 * a + a / 4 - a / 100 + a / 400
  }

  /** Days elapsed since 0001-01-01. */
  function DayNumber(d: Date): int
    requires ValidDate(d)
  {
    DaysBeforeYear(d.year) + DaysBeforeMonth(d.year, d.month) + d.day - 1
  }

  lemma TwelveMonths(y: int)
    ensures DaysBeforeMonth(y, 13) == YearLength(y)
    ensures DaysBeforeMonth(y, 12) + 31 == YearLength(y)
  {
  }

  lemma DivSteps(a: int)
    ensures (a + 1) / 4 == a / 4 + (if (a + 1) % 4 == 0 then 1 else 0)
    ensures (a + 1) / 100 == a / 100 + (if (a + 1) % 100 == 0 then 1 else 0)
    ensures (a + 1) / 400 == a / 400 + (if (a + 1) % 400 == 0 then 1 else 0)
  {
  }

  lemma ModChain(y: int)
    ensures y % 100 == 0 ==> y % 4 == 0
    ensures y % 400 == 0 ==> y % 100 == 0
  {
    if y % 100 == 0 {
      var k := y / 100;
      assert y == 4 * (25 * k);
    }
    if y % 400 == 0 {
      var k := y / 400;
      assert y == 100 * (4 * k);
    }
  }

  /** Consecutive years start `YearLength` days apart. */
  lemma DaysBeforeNextYear(y: int)
    ensures DaysBeforeYear(y + 1) == DaysBeforeYear(y) + YearLength(y)
  {
    DivSteps(y - 1);
    ModChain(y);
  }

  lemma ModSeven(x: int)
    ensures (x + 1) % 7 == if x % 7 == 6 then 0 else x % 7 + 1
  {
  }

  lemma ModShift(x: int, i: int)
    requires 0 <= i < 7
    ensures (x - x % 7 + i) % 7 == i
  {
    var q := x / 7;
    assert x - x % 7 == 7 * q;
  }

  lemma DayNumberNonNegative(d: Date)
    requires ValidDate(d)
    ensures DayNumber(d) >= 0
  {
    assert DaysBeforeYear(d.year) >= 0;
  }

  /** The day after `d`, as `tm_mday += 1` followed by `mktime` gives it. */
  function NextDay(d: Date): (r: Date)
    requires ValidDate(d)
    ensures ValidDate(r)
    ensures DayNumber(r) == DayNumber(d) + 1
    ensures r.year == d.year || r.year == d.year + 1
  {
    if d.day < DaysInMonth(d.year, d.month) then Date(d.year, d.month, d.day + 1)
    else if d.month < 12 then
      DaysBeforeNextMonth(d.year, d.month);
      Date(d.year, d.month + 1, 1)
    else
      DaysBeforeNextYear(d.year);
      TwelveMonths(d.year);
      Date(d.year + 1, 1, 1)
  }

  /** The day before `d`, as `tm_mday -= 1` followed by `mktime` gives it;
      0001-01-01 has none. */
  function PrevDay(d: Date): (r: Date)
    requires ValidDate(d) && DayNumber(d) > 0
    ensures ValidDate(r)
    ensures DayNumber(r) + 1 == DayNumber(d)
    ensures r.year == d.year || r.year + 1 == d.year
  {
    if d.day > 1 then Date(d.year, d.month, d.day - 1)
    else if d.month > 1 then
      DaysBeforeNextMonth(d.year, d.month - 1);
      Date(d.year, d.month - 1, DaysInMonth(d.year, d.month - 1))
    else
      assert d.year > 1;
      DaysBeforeNextYear(d.year - 1);
      TwelveMonths(d.year - 1);
      Date(d.year - 1, 12, 31)
  }

  function Abs(k: int): nat { if k < 0 then -k else k }

  /** `tm_mday += k` followed by `mktime`: the date `k` days away. */
  function AddDays(d: Date, k: int): (r: Date)
    requires ValidDate(d) && DayNumber(d) + k >= 0
    decreases Abs(k)
    ensures ValidDate(r)
    ensures DayNumber(r) == DayNumber(d) + k
    ensures d.year - Abs(k) <= r.year <= d.year + Abs(k)
  {
    if k == 0 then d
    else if k > 0 then AddDays(NextDay(d), k - 1)
    else AddDays(PrevDay(d), k + 1)
  }

  /** `tm_wday` after `mktime`: 0 is Sunday, 1 Monday, ..., 6 Saturday. */
  function Weekday(d: Date): (w: int)
    requires ValidDate(d)
    ensures 0 <= w < 7
  {
    (DayNumber(d) + 1) % 7
  }

  /** The ISO 8601 day of the week: 1 is Monday, ..., 7 Sunday. */
  function IsoWeekday(d: Date): (w: int)
    requires ValidDate(d)
    ensures 1 <= w <= 7
  {
    DayNumber(d) % 7 + 1
  }

  /** The two numberings name the same day: Sunday is 0 for `tm_wday` and 7
      in ISO 8601. */
  lemma WeekdayIso(d: Date)
    requires ValidDate(d)
    ensures Weekday(d) == IsoWeekday(d) % 7
    ensures IsoWeekday(d) == if Weekday(d) == 0 then 7 else Weekday(d)
  {
    SundayNumbering(DayNumber(d));
  }

  lemma SundayNumbering(x: int)
    ensures (x + 1) % 7 == (x % 7 + 1) % 7
    ensures x % 7 + 1 == if (x + 1) % 7 == 0 then 7 else (x + 1) % 7
  {
    ModSeven(x);
  }

  /** The day after a given weekday is the next weekday. */
  lemma NextDayWeekday(d: Date)
    requires ValidDate(d)
    ensures IsoWeekday(NextDay(d)) == if IsoWeekday(d) == 7 then 1 else IsoWeekday(d) + 1
  {
    ModSeven(DayNumber(d));
  }

  /** 2022-01-08, the date of the worked example in tgrp.cpp, was a
      Saturday. */
  lemma SaturdayExample()
    ensures ValidDate(Date(2022, 1, 8)) && Weekday(Date(2022, 1, 8)) == 6
  {
  }

  // ---------------------------------------------------------------------------
  // ISO 8601 week numbers (`%V`)
  // ---------------------------------------------------------------------------

  /** Day of the year, 1-based (`tm_yday + 1`). */
  function Ordinal(d: Date): (n: int)
    requires ValidDate(d)
    ensures 1 <= n <= YearLength(d.year)
  {
    TwelveMonths(d.year);
    MonthsBounded(d.year, d.month);
    DaysBeforeMonth(d.year, d.month) + d.day
  }

  lemma MonthsBounded(y: int, m: int)
    requires 1 <= m <= 12
    ensures DaysBeforeMonth(y, m) + DaysInMonth(y, m) <= DaysBeforeMonth(y, 13)
  {
    DaysBeforeNextMonth(y, m);
  }

  /** ISO weekday of January 1 of year `y`. */
  function Jan1IsoWeekday(y: int): (w: int)
    ensures 1 <= w <= 7
  {
    DaysBeforeYear(y) % 7 + 1
  }

  /** Number of ISO weeks in year `y`: 53 when the year starts on a
      Thursday, or on a Wednesday in a leap year; 52 otherwise. */
  function WeeksInYear(y: int): (n: int)
    ensures n == 52 || n == 53
  {
    var w := Jan1IsoWeekday(y);
    if w == 4 || (IsLeap(y) && w == 3) then 53 else 52
  }

  /** `%V`: the ISO 8601 week number.  Week 1 is the week holding the
      year's first Thursday; days before it belong to the last week of the
      previous year, and days after the last week to week 1 of the next. */
  function IsoWeek(d: Date): (w: int)
    requires ValidDate(d)
    ensures 1 <= w <= 53
  {
    var n := (Ordinal(d) - IsoWeekday(d) + 10) / 7;
    if n < 1 then WeeksInYear(d.year - 1)
    else if n > WeeksInYear(d.year) then 1
    else n
  }

  /** 2022-01-08 falls in ISO week 1 of 2022, and 2022-01-02 (a Sunday)
      still in week 52 of 2021. */
  lemma IsoWeekExamples()
    ensures ValidDate(Date(2022, 1, 8)) && IsoWeek(Date(2022, 1, 8)) == 1
    ensures ValidDate(Date(2022, 1, 2)) && IsoWeek(Date(2022, 1, 2)) == 52
  {
  }

  /** Day number of the Thursday of `d`'s Monday-to-Sunday week (day 0,
      0001-01-01, was a Monday). */
  function WeekThursday(d: Date): (t: int)
    requires ValidDate(d)
    ensures t % 7 == 3
    ensures DayNumber(d) - 3 <= t <= DayNumber(d) + 3
  {
    var x := DayNumber(d);
    ModShift(x, 3);
    x - x % 7 + 3
  }

  /** Year `y` holds the day numbered `t`. */
  predicate YearHolds(y: int, t: int) {
    DaysBeforeYear(y) <= t < DaysBeforeYear(y + 1)
  }

  /** A Thursday `q` days after January 1 that falls in the last seven days
      of the year is in the year's last ISO week. */
  lemma LastThursday(y: int, q: int)
    requires YearLength(y) - 7 <= q < YearLength(y)
    requires (q + Jan1IsoWeekday(y) - 4) % 7 == 0
    ensures q / 7 + 1 == WeeksInYear(y)
  {
  }

  /** A Thursday's offset from January 1 of any year and that year's first
      weekday add up to a Thursday. */
  lemma ThursdayResidue(t: int, y: int)
    requires t % 7 == 3
    ensures (t - DaysBeforeYear(y) + Jan1IsoWeekday(y) - 4) % 7 == 0
  {
    Residue(t, DaysBeforeYear(y));
  }

  lemma Residue(t: int, D: int)
    requires t % 7 == 3
    ensures (t - D + D % 7 + 1 - 4) % 7 == 0
  {
    assert t - D + D % 7 + 1 - 4 == 7 * (t / 7 - D / 7);
  }

  /** The week `%V` assigns to quotient `n` of year `y`: quotients below 1
      belong to the previous year's last week, those past the year's last
      week to week 1. */
  function IsoWeekFrom(n: int, y: int): int {
    if n < 1 then WeeksInYear(y - 1)
    else if n > WeeksInYear(y) then 1
    else n
  }

  /** The quotient `%V` starts from is the block of seven days, counted from
      January 1 of the date's own year, that holds the week's Thursday. */
  lemma IsoWeekQuotient(d: Date)
    requires ValidDate(d)
    ensures IsoWeek(d) == IsoWeekFrom((WeekThursday(d) - DaysBeforeYear(d.year)) / 7 + 1, d.year)
  {
  }

  /** A Thursday in the last days of the previous year. */
  lemma ThursdayBefore(t: int, y: int)
    requires t % 7 == 3
    requires DaysBeforeYear(y) - 3 <= t < DaysBeforeYear(y)
    ensures IsoWeekFrom((t - DaysBeforeYear(y)) / 7 + 1, y) == (t - DaysBeforeYear(y - 1)) / 7 + 1
  {
    DaysBeforeNextYear(y - 1);
    ThursdayResidue(t, y - 1);
    LastThursday(y - 1, t - DaysBeforeYear(y - 1));
  }

  /** A Thursday in the year itself. */
  lemma ThursdayWithin(t: int, y: int)
    requires t % 7 == 3
    requires YearHolds(y, t)
    ensures IsoWeekFrom((t - DaysBeforeYear(y)) / 7 + 1, y) == (t - DaysBeforeYear(y)) / 7 + 1
  {
    DaysBeforeNextYear(y);
    var q := t - DaysBeforeYear(y);
    if q >= YearLength(y) - 7 {
      ThursdayResidue(t, y);
      LastThursday(y, q);
    }
  }

  /** A Thursday in the first days of the next year. */
  lemma ThursdayAfter(t: int, y: int)
    requires t % 7 == 3
    requires DaysBeforeYear(y + 1) <= t <= DaysBeforeYear(y + 1) + 2
    ensures IsoWeekFrom((t - DaysBeforeYear(y)) / 7 + 1, y) == 1
  {
    DaysBeforeNextYear(y);
    ThursdayResidue(t, y);
    LastThursday(y, t - DaysBeforeYear(y) - 7);
  }

  /** ISO 8601 numbers a week by its Thursday: `%V` is the position of that
      Thursday's seven-day block, counted from January 1 of the year that
      holds it. */
  lemma IsoWeekThursday(d: Date, y: int)
    requires ValidDate(d) && YearHolds(y, WeekThursday(d))
    ensures IsoWeek(d) == (WeekThursday(d) - DaysBeforeYear(y)) / 7 + 1
  {
    IsoWeekQuotient(d);
    ThursdayYear(d, y);
    ThursdayWeek(WeekThursday(d), d.year, y);
  }

  /** The three places a week's Thursday can fall, seen from a date of
      year `y0`, give the same week number as counting in year `y`. */
  lemma ThursdayWeek(t: int, y0: int, y: int)
    requires t % 7 == 3
    requires (y == y0 - 1 && DaysBeforeYear(y0) - 3 <= t < DaysBeforeYear(y0))
             || (y == y0 && YearHolds(y, t))
             || (y == y0 + 1 && DaysBeforeYear(y) <= t <= DaysBeforeYear(y) + 2)
    ensures IsoWeekFrom((t - DaysBeforeYear(y0)) / 7 + 1, y0) == (t - DaysBeforeYear(y)) / 7 + 1
  {
    if y == y0 - 1 {
      ThursdayBefore(t, y0);
    } else if y == y0 {
      ThursdayWithin(t, y);
    } else {
      ThursdayAfter(t, y0);
    }
  }

  /** The year holding a date's week Thursday is the date's own year or
      one of its neighbours, and the Thursday lies within three days of the
      boundary it crosses. */
  lemma ThursdayYear(d: Date, y: int)
    requires ValidDate(d) && YearHolds(y, WeekThursday(d))
    ensures var t := WeekThursday(d);
            (y == d.year - 1 && DaysBeforeYear(d.year) - 3 <= t < DaysBeforeYear(d.year))
            || (y == d.year && YearHolds(y, t))
            || (y == d.year + 1 && DaysBeforeYear(y) <= t <= DaysBeforeYear(y) + 2)
  {
    DayNumberInYear(d);
    NearbyDays(d.year, y, DayNumber(d), WeekThursday(d));
  }

  /** Years holding two days less than a week apart are at most one year
      apart. */
  lemma NearbyDays(y1: int, y2: int, x1: int, x2: int)
    requires YearHolds(y1, x1) && YearHolds(y2, x2)
    requires -6 <= x2 - x1 <= 6
    ensures y1 - 1 <= y2 <= y1 + 1
  {
  }

  // ---------------------------------------------------------------------------
  // `%Y-%m-%d`
  // ---------------------------------------------------------------------------

  /** `std::put_time(&tm, "%Y-%m-%d")`. */
  function FormatDate(d: Date): string
    requires ValidDate(d)
  {
    NatStr(d.year) + "-" + Pad2(d.month) + "-" + Pad2(d.day)
  }

  predicate AllDigits(s: string) {
    forall k :: 0 <= k < |s| ==> IsDigit(s[k])
  }

  /** Reads a date written the way `FormatDate` writes one with a four-digit
      year; any other string gives `None`. */
  function ParseDate(s: string): (r: Option<Date>)
    ensures r.Some? ==> ValidDate(r.value) && FormatDate(r.value) == s
    ensures r.Some? ==> 1000 <= r.value.year <= 9999
  {
    if |s| == 10 && s[4] == '-' && s[7] == '-'
       && AllDigits(s[..4]) && AllDigits(s[5..7]) && AllDigits(s[8..])
    then
      var d := Date(DigitsValue(s[..4]), DigitsValue(s[5..7]), DigitsValue(s[8..]));
      if 1000 <= d.year <= 9999 && ValidDate(d) && FormatDate(d) == s then Some(d) else None
    else None
  }

  lemma NatStrFourDigits(n: nat)
    requires 1000 <= n <= 9999
    ensures |NatStr(n)| == 4
  {
    var b := n / 10;
    var a := b / 10;
    assert 10 <= a < 100;
    assert |NatStr(a)| == 2;
    assert |NatStr(b)| == 3;
  }

  /** Every date with a four-digit year reads back from its rendering. */
  lemma ParseFormatDate(d: Date)
    requires ValidDate(d) && 1000 <= d.year <= 9999
    ensures ParseDate(FormatDate(d)) == Some(d)
  {
    var s := FormatDate(d);
    NatStrFourDigits(d.year);
    assert s[..4] == NatStr(d.year);
    assert s[5..7] == Pad2(d.month);
    assert s[8..] == Pad2(d.day);
    NatStrValue(d.year);
    Pad2Value(d.month);
    Pad2Value(d.day);
  }

  /** Distinct dates are written differently, whatever the width of their
      years. */
  lemma FormatDateInjective(a: Date, b: Date)
    requires ValidDate(a) && ValidDate(b)
    requires FormatDate(a) == FormatDate(b)
    ensures a == b
  {
    DashedParts(NatStr(a.year), Pad2(a.month), Pad2(a.day), NatStr(b.year), Pad2(b.month), Pad2(b.day));
    NatStrValue(a.year);
    NatStrValue(b.year);
    Pad2Injective(a.month, b.month);
    Pad2Injective(a.day, b.day);
  }

  /** Three fields joined by dashes, the last two of width two, split back
      apart. */
  lemma DashedParts(x1: string, y1: string, z1: string, x2: string, y2: string, z2: string)
    requires |y1| == |z1| == |y2| == |z2| == 2
    requires x1 + "-" + y1 + "-" + z1 == x2 + "-" + y2 + "-" + z2
    ensures x1 == x2 && y1 == y2 && z1 == z2
  {
    var s := x1 + "-" + y1 + "-" + z1;
    var n := |x1|;
    assert s[..n] == x1 && s[..n] == x2;
    assert s[n + 1..n + 3] == y1 && s[n + 1..n + 3] == y2;
    assert s[n + 4..] == z1 && s[n + 4..] == z2;
  }

  // ---------------------------------------------------------------------------
  // dates_of_week
  // ---------------------------------------------------------------------------

  /** Offset of day `i` of the loop in `dates_of_week` from the date: the
      month day is first set to `tm_mday - tm_wday` (the Sunday before), a
      Sunday input steps back seven more days, and every round adds one. */
  function WeekOffset(wday: int, i: int): int {
    i + 1 - wday - (if wday == 0 then 7 else 0)
  }

  lemma WeekOffsetIsMonday(d: Date)
    requires ValidDate(d)
    ensures WeekOffset(Weekday(d), 0) == 1 - IsoWeekday(d)
    ensures DayNumber(d) + WeekOffset(Weekday(d), 0) >= 0
  {
    DayNumberNonNegative(d);
    ModSeven(DayNumber(d));
  }

  /** The dates `dates_of_week` visits, before they are written out. */
  function WeekDates(d: Date): (r: seq<Date>)
    requires ValidDate(d)
    ensures |r| == 7
    ensures forall i :: 0 <= i < 7 ==> ValidDate(r[i])
  {
    WeekOffsetIsMonday(d);
    var w := Weekday(d);
    seq(7, i requires 0 <= i < 7 => AddDays(d, WeekOffset(w, i)))
  }

  lemma WeekDateNumber(d: Date, i: int)
    requires ValidDate(d) && 0 <= i < 7
    ensures DayNumber(WeekDates(d)[i]) == DayNumber(d) - DayNumber(d) % 7 + i
  {
    WeekOffsetIsMonday(d);
  }

  lemma WeekdayOfNumber(e: Date, x: int, i: int)
    requires ValidDate(e) && 0 <= i < 7
    requires DayNumber(e) == x - x % 7 + i
    ensures IsoWeekday(e) == i + 1
  {
    ModShift(x, i);
  }

  /** `dates_of_week`: seven consecutive dates, Monday first, holding `d`
      at the position of its ISO weekday, so a Sunday closes the week that
      began on the preceding Monday. */
  lemma WeekDatesSpec(d: Date)
    requires ValidDate(d)
    ensures var r := WeekDates(d);
            (forall i :: 0 <= i < 7 ==> IsoWeekday(r[i]) == i + 1)
            && (forall i :: 0 <= i < 6 ==> DayNumber(r[i + 1]) == DayNumber(r[i]) + 1)
            && r[IsoWeekday(d) - 1] == d
  {
    var r := WeekDates(d);
    var x := DayNumber(d);
    forall i | 0 <= i < 7
      ensures IsoWeekday(r[i]) == i + 1
      ensures DayNumber(r[i]) == x - x % 7 + i
    {
      WeekDateNumber(d, i);
      WeekdayOfNumber(r[i], x, i);
    }
    WeekOffsetIsMonday(d);
  }

  /** A date's day number lies within the days of its year. */
  lemma DayNumberInYear(e: Date)
    requires ValidDate(e)
    ensures DaysBeforeYear(e.year) <= DayNumber(e) < DaysBeforeYear(e.year + 1)
  {
    assert Ordinal(e) <= YearLength(e.year);
    DaysBeforeNextYear(e.year);
  }

  /** Two dates less than a week apart are at most one year apart. */
  lemma NearbyYears(a: Date, b: Date)
    requires ValidDate(a) && ValidDate(b)
    requires -6 <= DayNumber(b) - DayNumber(a) <= 6
    ensures a.year - 1 <= b.year <= a.year + 1
  {
    DayNumberInYear(a);
    DayNumberInYear(b);
  }

  /** Every week date lies within six days of `d`, so at most one year
      away from it. */
  lemma WeekDatesYears(d: Date)
    requires ValidDate(d)
    ensures forall i :: 0 <= i < 7 ==> d.year - 1 <= WeekDates(d)[i].year <= d.year + 1
  {
    var w := WeekDates(d);
    forall i | 0 <= i < 7
      ensures d.year - 1 <= w[i].year <= d.year + 1
    {
      WeekDateNumber(d, i);
      NearbyYears(d, w[i]);
    }
  }

  /** The seven days `dates_of_week` lists share one ISO week number, the
      one `%V` gives the date itself. */
  lemma IsoWeekSharedByWeek(d: Date)
    requires ValidDate(d)
    ensures forall i :: 0 <= i < 7 ==> IsoWeek(WeekDates(d)[i]) == IsoWeek(d)
  {
    var w := WeekDates(d);
    var y := ThursdayHolder(d);
    IsoWeekThursday(d, y);
    forall i | 0 <= i < 7
      ensures IsoWeek(w[i]) == IsoWeek(d)
    {
      SameThursday(d, i);
      IsoWeekThursday(w[i], y);
    }
  }

  /** Some year holds the week's Thursday. */
  lemma ThursdayHolder(d: Date) returns (y: int)
    requires ValidDate(d)
    ensures YearHolds(y, WeekThursday(d))
  {
    var t := WeekThursday(d);
    DayNumberInYear(d);
    DaysBeforeNextYear(d.year - 1);
    DaysBeforeNextYear(d.year);
    DaysBeforeNextYear(d.year + 1);
    y := if t < DaysBeforeYear(d.year) then d.year - 1
         else if t >= DaysBeforeYear(d.year + 1) then d.year + 1
         else d.year;
  }

  /** Every day of the week has the same Thursday. */
  lemma SameThursday(d: Date, i: int)
    requires ValidDate(d) && 0 <= i < 7
    ensures WeekThursday(WeekDates(d)[i]) == WeekThursday(d)
  {
    WeekDateNumber(d, i);
    ThursdayOfNumber(WeekDates(d)[i], DayNumber(d), i);
  }

  lemma ThursdayOfNumber(e: Date, x: int, i: int)
    requires ValidDate(e) && 0 <= i < 7
    requires DayNumber(e) == x - x % 7 + i
    ensures WeekThursday(e) == x - x % 7 + 3
  {
    ModShift(x, i);
  }

  /** `dates_of_week` of a date: the week dates written as `%Y-%m-%d`. */
  function DatesOfWeek(d: Date): (r: seq<string>)
    requires ValidDate(d)
    ensures |r| == 7
  {
    var w := WeekDates(d);
    seq(7, i requires 0 <= i < 7 => FormatDate(w[i]))
  }
}
