/** The proleptic Gregorian calendar of java.time's ISO chronology: the leap-year
    rule, month lengths, valid civil dates, the numbering of days from a fixed
    origin (and its inverse), and the ISO day of the week. Years are unbounded. */
module Calendar {

  /** The Gregorian leap-year rule (ISO 8601:2004, section 3.2.1), written as
      IsoChronology.isLeapYear tests it. */
  predicate IsLeapYear(year: int) {
    year % 4 == 0 && (year % 100 != 0 || year % 400 == 0)
  }

  function YearLength(year: int): int {
    if IsLeapYear(year) then 366 else 365
  }

  /** LocalDate.lengthOfMonth for a month numbered 1..12. */
  function MonthLength(year: int, month: int): (n: int)
    requires 1 <= month <= 12
    ensures 28 <= n <= 31
    ensures n == 29 <==> month == 2 && IsLeapYear(year)
    ensures n == 28 <==> month == 2 && !IsLeapYear(year)
  {
    if month == 2 then (if IsLeapYear(year) then 29 else 28)
    else if month == 4 || month == 6 || month == 9 || month == 11 then 30
    else 31
  }

  /** Year, month and day fields of a civil date, not yet known to be valid. */
  datatype Date = Date(year: int, month: int, day: int)

  predicate IsValidDate(d: Date) {
    1 <= d.month <= 12 && 1 <= d.day <= MonthLength(d.year, d.month)
  }

  /** A java.time LocalDate: a date that exists in the calendar. */
  type LocalDate = d: Date | IsValidDate(d) witness Date(1970, 1, 1)

  /** Number of days in the years 1 .. year-1 (negative for years before 1). */
  function DaysBeforeYear(year: int): int {
    var p := year - 1;
    365 * p + p / 4 - p / 100 + p / 400
  }

  /** Number of days in the months 1 .. month-1 of the given year. */
  function DaysBeforeMonth(year: int, month: int): int
    requires 1 <= month <= 12
  {
    (match month
     case 1 => 0
     case 2 => 31
     case 3 => 59
     case 4 => 90
     case 5 => 120
     case 6 => 151
     case 7 => 181
     case 8 => 212
     case 9 => 243
     case 10 => 273
     case 11 => 304
     case _ => 334)
    + (if month > 2 && IsLeapYear(year) then 1 else 0)
  }

  /** Days elapsed from 0001-01-01 to d. */
  function DayNumber(d: LocalDate): int {
    DaysBeforeYear(d.year) + DaysBeforeMonth(d.year, d.month) + d.day - 1
  }

  /** DayNumber of 1970-01-01, the origin of java.time's epoch day. */
  const EpochOffset := 719162

  /** Length of the 400-year Gregorian cycle in days. */
  const CycleDays := 146097

  /** LocalDate.toEpochDay: days elapsed from 1970-01-01 to d. */
  function EpochDay(d: LocalDate): int {
    DayNumber(d) - EpochOffset
  }

  lemma NextYear(year: int)
    ensures DaysBeforeYear(year + 1) == DaysBeforeYear(year) + YearLength(year)
  {
    StepQuotient4(year);
    StepQuotient100(year);
    StepQuotient400(year);
  }

  lemma StepQuotient4(year: int)
    ensures year / 4 == (year - 1) / 4 + (if year % 4 == 0 then 1 else 0)
  {
    var q, r := (year - 1) / 4, (year - 1) % 4;
    if r == 3 { assert year == 4 * (q + 1); } else { assert year == 4 * q + (r + 1); }
  }

  lemma StepQuotient100(year: int)
    ensures year / 100 == (year - 1) / 100 + (if year % 100 == 0 then 1 else 0)
  {
    var q, r := (year - 1) / 100, (year - 1) % 100;
    if r == 99 { assert year == 100 * (q + 1); } else { assert year == 100 * q + (r + 1); }
  }

  lemma StepQuotient400(year: int)
    ensures year / 400 == (year - 1) / 400 + (if year % 400 == 0 then 1 else 0)
  {
    var q, r := (year - 1) / 400, (year - 1) % 400;
    if r == 399 { assert year == 400 * (q + 1); } else { assert year == 400 * q + (r + 1); }
  }

  lemma NextMonth(year: int, month: int)
    requires 1 <= month <= 12
    ensures month < 12 ==> DaysBeforeMonth(year, month + 1) == DaysBeforeMonth(year, month) + MonthLength(year, month)
    ensures month == 12 ==> DaysBeforeMonth(year, 12) + MonthLength(year, 12) == YearLength(year)
  {
  }

  /** The leap-year rule agrees with the day count: a year has 366 days exactly
      when it is a leap year, and a 400-year cycle has 146097 days. */
  lemma LeapYearsHaveOneMoreDay(year: int)
    ensures DaysBeforeYear(year + 1) - DaysBeforeYear(year) == (if IsLeapYear(year) then 366 else 365)
    ensures DaysBeforeYear(year + 400) - DaysBeforeYear(year) == CycleDays
  {
    NextYear(year);
    CycleShift(1, year);
  }

  /** Shifting a year by whole 400-year cycles shifts its day count by whole
      cycles and keeps its leap status. */
  lemma CycleShift(q: int, k: int)
    ensures DaysBeforeYear(400 * q + k) == CycleDays * q + DaysBeforeYear(k)
    ensures IsLeapYear(400 * q + k) == IsLeapYear(k)
  {
    QuotientShift4(q, k - 1);
    QuotientShift100(q, k - 1);
    QuotientShift400(q, k - 1);
    QuotientShift4(q, k);
    QuotientShift100(q, k);
    QuotientShift400(q, k);
  }

  lemma QuotientShift4(q: int, p: int)
    ensures (400 * q + p) / 4 == 100 * q + p / 4 && (400 * q + p) % 4 == p % 4
  {
    assert 400 * q + p == 4 * (100 * q + p / 4) + p % 4;
  }

  lemma QuotientShift100(q: int, p: int)
    ensures (400 * q + p) / 100 == 4 * q + p / 100 && (400 * q + p) % 100 == p % 100
  {
    assert 400 * q + p == 100 * (4 * q + p / 100) + p % 100;
  }

  lemma QuotientShift400(q: int, p: int)
    ensures (400 * q + p) / 400 == q + p / 400 && (400 * q + p) % 400 == p % 400
  {
    assert 400 * q + p == 400 * (q + p / 400) + p % 400;
  }

  lemma {:induction false} DaysBeforeYearMonotone(a: int, b: int)
    requires a <= b
    ensures DaysBeforeYear(a) + 365 * (b - a) <= DaysBeforeYear(b)
    decreases b - a
  {
    if a < b {
      NextYear(a);
      DaysBeforeYearMonotone(a + 1, b);
    }
  }

  lemma {:induction false} DaysBeforeMonthMonotone(year: int, a: int, b: int)
    requires 1 <= a <= b <= 12
    ensures DaysBeforeMonth(year, a) + 28 * (b - a) <= DaysBeforeMonth(year, b)
    decreases b - a
  {
    if a < b {
      NextMonth(year, a);
      DaysBeforeMonthMonotone(year, a + 1, b);
    }
  }

  /** Every day of a month lies inside its year. */
  lemma MonthInsideYear(year: int, month: int)
    requires 1 <= month <= 12
    ensures DaysBeforeMonth(year, month) + MonthLength(year, month) <= YearLength(year)
  {
    NextMonth(year, month);
    if month < 12 {
      DaysBeforeMonthMonotone(year, month + 1, 12);
      NextMonth(year, 12);
    }
  }

  /** Finds the year of the first 400-year cycle holding day `rest` of year `year`:
      the year k and the index r.1 of the day within that year. */
  function YearWalk(year: int, rest: int): (r: (int, int))
    requires 1 <= year <= 400 && 0 <= rest
    requires DaysBeforeYear(year) + rest < CycleDays
    ensures 1 <= r.0 <= 400 && 0 <= r.1 < YearLength(r.0)
    ensures DaysBeforeYear(r.0) + r.1 == DaysBeforeYear(year) + rest
    decreases rest
  {
    if rest < YearLength(year) then (year, rest)
    else
      NextYear(year);
      NextYear(400);
      YearWalk(year + 1, rest - YearLength(year))
  }

  /** Finds the month holding day `rest` of month `month` of `year`. */
  function MonthWalk(year: int, month: int, rest: int): (r: (int, int))
    requires 1 <= month <= 12 && 0 <= rest
    requires DaysBeforeMonth(year, month) + rest < YearLength(year)
    ensures month <= r.0 <= 12 && 0 <= r.1 < MonthLength(year, r.0)
    ensures DaysBeforeMonth(year, r.0) + r.1 == DaysBeforeMonth(year, month) + rest
    decreases 12 - month
  {
    if rest < MonthLength(year, month) then (month, rest)
    else
      NextMonth(year, month);
      MonthWalk(year, month + 1, rest - MonthLength(year, month))
  }

  /** The year holding day n, and the index of that day within its year. */
  function YearAndDay(n: int): (r: (int, int))
    ensures 0 <= r.1 < YearLength(r.0) && DaysBeforeYear(r.0) + r.1 == n
  {
    var q := n / CycleDays;
    var yw := YearWalk(1, n % CycleDays);
    CycleShift(q, yw.0);
    (400 * q + yw.0, yw.1)
  }

  /** The date whose DayNumber is n. */
  function FromDayNumber(n: int): (d: LocalDate)
    ensures DayNumber(d) == n
  {
    var yd := YearAndDay(n);
    var mw := MonthWalk(yd.0, 1, yd.1);
    Date(yd.0, mw.0, mw.1 + 1)
  }

  /** LocalDate.ofEpochDay: the date e days after 1970-01-01. */
  function FromEpochDay(e: int): (d: LocalDate)
    ensures EpochDay(d) == e
  {
    FromDayNumber(e + EpochOffset)
  }

  lemma {:induction false} YearWalkFinds(year: int, target: int, rest: int, r: int)
    requires 1 <= year <= target <= 400 && 0 <= rest < YearLength(target)
    requires r == DaysBeforeYear(target) - DaysBeforeYear(year) + rest
    requires 0 <= r && DaysBeforeYear(year) + r < CycleDays
    ensures YearWalk(year, r) == (target, rest)
    decreases target - year
  {
    if year < target {
      NextYear(year);
      DaysBeforeYearMonotone(year + 1, target);
      YearWalkFinds(year + 1, target, rest, r - YearLength(year));
    }
  }

  lemma {:induction false} MonthWalkFinds(year: int, month: int, target: int, rest: int, r: int)
    requires 1 <= month <= target <= 12 && 0 <= rest < MonthLength(year, target)
    requires r == DaysBeforeMonth(year, target) - DaysBeforeMonth(year, month) + rest
    requires 0 <= r && DaysBeforeMonth(year, month) + r < YearLength(year)
    ensures MonthWalk(year, month, r) == (target, rest)
    decreases target - month
  {
    if month < target {
      NextMonth(year, month);
      DaysBeforeMonthMonotone(year, month + 1, target);
      MonthWalkFinds(year, month + 1, target, rest, r - MonthLength(year, month));
    }
  }

  lemma CycleSplit(q: int, s: int)
    requires 0 <= s < CycleDays
    ensures (CycleDays * q + s) / CycleDays == q && (CycleDays * q + s) % CycleDays == s
  {
  }

  lemma YearInCycle(year: int) returns (q: int, k: int)
    ensures 1 <= k <= 400 && year == 400 * q + k
  {
    q := (year - 1) / 400;
    k := year - 400 * q;
  }

  /** Day `rest` of `year` is found in `year` again. */
  lemma YearAndDayFinds(year: int, rest: int)
    requires 0 <= rest < YearLength(year)
    ensures YearAndDay(DaysBeforeYear(year) + rest) == (year, rest)
  {
    var q, k := YearInCycle(year);
    CycleShift(q, k);
    var s := DaysBeforeYear(k) + rest;
    assert 0 <= s < CycleDays by {
      NextYear(k);
      DaysBeforeYearMonotone(k + 1, 401);
    }
    var n := DaysBeforeYear(year) + rest;
    assert n / CycleDays == q && n % CycleDays == s by {
      assert n == CycleDays * q + s;
      CycleSplit(q, s);
    }
    assert YearWalk(1, s) == (k, rest) by {
      YearWalkFinds(1, k, rest, s);
    }
  }

  /** Numbering the days is a bijection: the date is recovered from its number. */
  lemma DayNumberRoundTrip(d: LocalDate)
    ensures FromDayNumber(DayNumber(d)) == d
  {
    var rest := DaysBeforeMonth(d.year, d.month) + d.day - 1;
    MonthInsideYear(d.year, d.month);
    var n := DayNumber(d);
    assert n == DaysBeforeYear(d.year) + rest;
    YearAndDayFinds(d.year, rest);
    assert YearAndDay(n) == (d.year, rest);
    MonthWalkFinds(d.year, 1, d.month, d.day - 1, rest);
    assert MonthWalk(d.year, 1, rest) == (d.month, d.day - 1);
  }

  /** LocalDate.ofEpochDay inverts LocalDate.toEpochDay. */
  lemma EpochDayRoundTrip(d: LocalDate)
    ensures FromEpochDay(EpochDay(d)) == d
  {
    DayNumberRoundTrip(d);
  }

  /** Distinct dates have distinct epoch days. */
  lemma EpochDayInjective(a: LocalDate, b: LocalDate)
    ensures EpochDay(a) == EpochDay(b) <==> a == b
  {
    if EpochDay(a) == EpochDay(b) {
      EpochDayRoundTrip(a);
      EpochDayRoundTrip(b);
    }
  }

  /** Field order of dates is chronological order: a date whose (year, month,
      day) comes first lexicographically has the smaller epoch day. */
  lemma {:induction false} EpochDayOrder(a: LocalDate, b: LocalDate)
    requires a.year < b.year || (a.year == b.year && (a.month < b.month || (a.month == b.month && a.day < b.day)))
    ensures EpochDay(a) < EpochDay(b)
  {
    MonthInsideYear(a.year, a.month);
    if a.year < b.year {
      NextYear(a.year);
      DaysBeforeYearMonotone(a.year + 1, b.year);
    } else if a.month < b.month {
      NextMonth(a.year, a.month);
      DaysBeforeMonthMonotone(a.year, a.month + 1, b.month);
    }
  }

  /** DayOfWeek.getValue of LocalDate.getDayOfWeek: the ISO 8601:2004 week-day
      number (section 4.1.4), Monday = 1 .. Sunday = 7. */
  function DayOfWeek(d: LocalDate): (w: int)
    ensures 1 <= w <= 7
  {
    (EpochDay(d) + 3) % 7 + 1
  }

  /** 1970-01-01 was a Thursday and 2000-01-01 a Saturday. */
  lemma KnownWeekDays()
    ensures DayOfWeek(Date(1970, 1, 1)) == 4
    ensures DayOfWeek(Date(2000, 1, 1)) == 6
    ensures DayOfWeek(Date(2024, 1, 1)) == 1
  {
  }

  /** The leap years the Gregorian rule names as its examples. */
  lemma KnownLeapYears()
    ensures !IsLeapYear(1900) && IsLeapYear(2000) && IsLeapYear(2024) && !IsLeapYear(2023)
  {
  }
}
