/** The calendar of the service (src/RESTAPI/RESTAPI_mcp_helpers.h, IsLeapYear to DaysInMonth). The C library
    calls timegm and gmtime_r are given their meaning here: timegm by the closed formula of "Seconds Since the
    Epoch" (section 4.16 of IEEE Std 1003.1-2017), gmtime_r by counting off whole years and months. */
module Calendar {
  /** First second of the year 10000. */
  const LIMIT: nat := 253402300800

  datatype Tm = Tm(year: int, month: int, day: int, hour: int, minute: int, second: int)

  predicate IsLeapYear(year: int) { (year % 4 == 0 && year % 100 != 0) || year % 400 == 0 }

  function DaysInMonth(year: int, month: int): nat {
    if month == 2 && IsLeapYear(year) then 29
    else if month < 1 || month > 12 then 0
    else [31, 28, 31, 30, 31, 30, 31, 31, 30, 31, 30, 31][month - 1]
  }

  predicate ValidDate(tm: Tm) {
    && 1 <= tm.month <= 12 && 1 <= tm.day <= DaysInMonth(tm.year, tm.month)
    && 0 <= tm.hour <= 23 && 0 <= tm.minute <= 59 && 0 <= tm.second <= 59
  }

  // ---- timegm ----

  function DaysBeforeYear(year: int): int {
    365 * (year - 1970) + (year - 1969) / 4 - (year - 1901) / 100 + (year - 1601) / 400
  }

  function DaysBeforeMonth(year: int, month: int): nat
    decreases month
  {
    if month <= 1 then 0 else DaysBeforeMonth(year, month - 1) + DaysInMonth(year, month - 1)
  }

  function DayNumber(tm: Tm): int { DaysBeforeYear(tm.year) + DaysBeforeMonth(tm.year, tm.month) + tm.day - 1 }

  function Timegm(tm: Tm): int { DayNumber(tm) * 86400 + tm.hour * 3600 + tm.minute * 60 + tm.second }

  // ---- gmtime_r ----

  function YearLength(year: int): nat { if IsLeapYear(year) then 366 else 365 }

  /** The year, counting from `year`, that holds day `days`, and the day's place in it. */
  function CivilYear(days: nat, year: int): (int, nat)
    decreases days
  {
    if days < YearLength(year) then (year, days) else CivilYear(days - YearLength(year), year + 1)
  }

  function CivilMonth(year: int, days: nat, month: int): (int, nat)
    decreases 12 - month
  {
    if month >= 12 || days < DaysInMonth(year, month) then (month, days + 1)
    else CivilMonth(year, days - DaysInMonth(year, month), month + 1)
  }

  function Gmtime(t: nat): Tm {
    var (year, yday) := CivilYear(t / 86400, 1970);
    var (month, day) := CivilMonth(year, yday, 1);
    var rest := t % 86400;
    Tm(year, month, day, rest / 3600, rest / 60 % 60, rest % 60)
  }

  // ---- They are inverse ----

  lemma YearStep(year: int)
    ensures DaysBeforeYear(year + 1) == DaysBeforeYear(year) + YearLength(year)
  {
    assert (year - 1968) / 4 == (year - 1969) / 4 + if year % 4 == 0 then 1 else 0;
    assert (year - 1900) / 100 == (year - 1901) / 100 + if year % 100 == 0 then 1 else 0;
    assert (year - 1600) / 400 == (year - 1601) / 400 + if year % 400 == 0 then 1 else 0;
    LeapDivisors(year);
  }

  lemma LeapDivisors(year: int)
    ensures year % 400 == 0 ==> year % 100 == 0
    ensures year % 100 == 0 ==> year % 4 == 0
  {}

  lemma {:induction false} YearsMonotone(a: int, b: int)
    requires a <= b
    ensures DaysBeforeYear(a) + 365 * (b - a) <= DaysBeforeYear(b)
    decreases b - a
  {
    if a < b { YearsMonotone(a, b - 1); YearStep(b - 1); }
  }

  lemma WholeYear(year: int)
    ensures DaysBeforeMonth(year, 13) == YearLength(year)
  {
    MonthTableIsGregorian(year, 13);
  }

  /** The month table against the classical formula for a year that begins in March. */
  lemma {:induction false} MonthTableIsGregorian(year: int, month: int)
    requires 3 <= month <= 13
    ensures DaysBeforeMonth(year, month) == 31 + DaysInMonth(year, 2) + (153 * (month - 3) + 2) / 5
    decreases month
  {
    if month > 3 {
      MonthTableIsGregorian(year, month - 1);
      MonthLength(year, month - 1);
    }
  }

  lemma MonthLength(year: int, month: int)
    requires 3 <= month <= 12
    ensures DaysInMonth(year, month) == (153 * (month - 2) + 2) / 5 - (153 * (month - 3) + 2) / 5
  {}

  /** Day d of year y is the day that many days after the first of the given year. */
  ghost predicate SameDay(days: nat, year: int, y: int, d: nat) {
    year <= y && d < YearLength(y) && DaysBeforeYear(y) + d == DaysBeforeYear(year) + days
  }

  lemma {:induction false} CivilYearSplits(days: nat, year: int)
    ensures var (y, d) := CivilYear(days, year); SameDay(days, year, y, d)
    decreases days
  {
    if days >= YearLength(year) { CivilYearSplits(days - YearLength(year), year + 1); YearStep(year); }
  }

  lemma {:induction false} CivilYearFinds(days: nat, year: int, y: int, d: nat)
    requires SameDay(days, year, y, d)
    ensures CivilYear(days, year) == (y, d)
    decreases days
  {
    YearStep(year);
    if year < y {
      YearsMonotone(year + 1, y);
      CivilYearFinds(days - YearLength(year), year + 1, y, d);
    }
  }

  lemma {:induction false} CivilMonthSplits(year: int, days: nat, month: int)
    requires 1 <= month <= 12 && DaysBeforeMonth(year, month) + days < YearLength(year)
    ensures var (m, d) := CivilMonth(year, days, month);
            && month <= m <= 12 && 1 <= d <= DaysInMonth(year, m)
            && DaysBeforeMonth(year, m) + d - 1 == DaysBeforeMonth(year, month) + days
    decreases 12 - month
  {
    if month == 12 { WholeYear(year); }
    else if days >= DaysInMonth(year, month) { CivilMonthSplits(year, days - DaysInMonth(year, month), month + 1); }
  }

  lemma {:induction false} MonthsMonotone(year: int, a: int, b: int)
    requires 1 <= a <= b
    ensures DaysBeforeMonth(year, a) <= DaysBeforeMonth(year, b)
    decreases b
  {
    if a < b { MonthsMonotone(year, a, b - 1); }
  }

  lemma {:induction false} CivilMonthFinds(year: int, days: nat, month: int, m: int, d: nat)
    requires 1 <= month <= m <= 12 && 1 <= d <= DaysInMonth(year, m)
    requires DaysBeforeMonth(year, m) + d - 1 == DaysBeforeMonth(year, month) + days
    ensures CivilMonth(year, days, month) == (m, d)
    decreases 12 - month
  {
    if month < m {
      MonthsMonotone(year, month + 1, m);
      CivilMonthFinds(year, days - DaysInMonth(year, month), month + 1, m, d);
    }
  }

  lemma DayInYear(tm: Tm)
    requires ValidDate(tm)
    ensures 0 <= DaysBeforeMonth(tm.year, tm.month) + tm.day - 1 < YearLength(tm.year)
  {
    MonthsMonotone(tm.year, tm.month + 1, 13);
    WholeYear(tm.year);
  }

  lemma SplitSeconds(days: int, h: int, m: int, s: int)
    requires 0 <= h <= 23 && 0 <= m <= 59 && 0 <= s <= 59
    ensures var t := days * 86400 + h * 3600 + m * 60 + s;
            t / 86400 == days && t % 86400 / 3600 == h && t % 86400 / 60 % 60 == m && t % 86400 % 60 == s
  {
    var rest := h * 3600 + m * 60 + s;
    assert 0 <= rest < 86400;
    assert rest / 60 == h * 60 + m;
  }

  /** Every instant has a calendar date, and the date gives the instant back. */
  lemma GmtimeThenTimegm(t: nat)
    ensures ValidDate(Gmtime(t)) && Gmtime(t).year >= 1970 && Timegm(Gmtime(t)) == t
  {
    var days, rest := t / 86400, t % 86400;
    CivilYearSplits(days, 1970);
    var (year, yday) := CivilYear(days, 1970);
    CivilMonthSplits(year, yday, 1);
    assert DaysBeforeYear(1970) == 0 && DayNumber(Gmtime(t)) == days;
    assert rest == rest / 3600 * 3600 + rest / 60 % 60 * 60 + rest % 60 by {
      assert rest == rest / 60 * 60 + rest % 60;
      assert rest / 60 == rest / 60 / 60 * 60 + rest / 60 % 60;
      assert rest / 60 / 60 == rest / 3600;
    }
  }

  lemma DatesBeforeEpoch(tm: Tm)
    requires ValidDate(tm)
    ensures Timegm(tm) >= 0 <==> tm.year >= 1970
  {
    DayInYear(tm);
    assert DaysBeforeYear(1970) == 0;
    if tm.year >= 1970 { YearsMonotone(1970, tm.year); } else { YearsMonotone(tm.year + 1, 1970); YearStep(tm.year); }
  }

  /** Every date from 1970 on that passes the field checks survives timegm and gmtime_r. */
  lemma TimegmThenGmtime(tm: Tm)
    requires ValidDate(tm) && tm.year >= 1970
    ensures Timegm(tm) >= 0 && Gmtime(Timegm(tm)) == tm
  {
    DatesBeforeEpoch(tm);
    DayInYear(tm);
    SplitSeconds(DayNumber(tm), tm.hour, tm.minute, tm.second);
    YearsMonotone(1970, tm.year);
    assert DaysBeforeYear(1970) == 0;
    CivilYearFinds(DayNumber(tm), 1970, tm.year, DaysBeforeMonth(tm.year, tm.month) + tm.day - 1);
    CivilMonthFinds(tm.year, DaysBeforeMonth(tm.year, tm.month) + tm.day - 1, 1, tm.month, tm.day);
  }

  lemma FourDigitYears(t: nat)
    ensures t < LIMIT <==> Gmtime(t).year <= 9999
  {
    GmtimeThenTimegm(t);
    var tm := Gmtime(t);
    DayInYear(tm);
    assert DaysBeforeYear(10000) * 86400 == LIMIT;
    if tm.year <= 9999 { YearsMonotone(tm.year + 1, 10000); YearStep(tm.year); } else { YearsMonotone(10000, tm.year); }
  }
}
