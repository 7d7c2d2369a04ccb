/** Operations on LocalDate values that DateUtils delegates to java.time: day,
    month and year arithmetic, differences, comparison, and the month and week
    boundaries chosen by TemporalAdjusters. */
module LocalDates {
  import opened Calendar

  /** The day after d, by the calendar's rules alone (a reference for PlusDays). */
  function NextDay(d: LocalDate): LocalDate {
    if d.day < MonthLength(d.year, d.month) then Date(d.year, d.month, d.day + 1)
    else if d.month < 12 then Date(d.year, d.month + 1, 1)
    else Date(d.year + 1, 1, 1)
  }

  /** LocalDate.plusDays: the date n days later (earlier when n < 0). */
  function PlusDays(d: LocalDate, n: int): (r: LocalDate)
    ensures EpochDay(r) == EpochDay(d) + n
  {
    FromEpochDay(EpochDay(d) + n)
  }

  /** Adding one day is moving to the next day of the calendar. */
  lemma PlusOneDayIsNextDay(d: LocalDate)
    ensures PlusDays(d, 1) == NextDay(d)
  {
    var e := NextDay(d);
    if d.day < MonthLength(d.year, d.month) {
    } else if d.month < 12 {
      NextMonth(d.year, d.month);
    } else {
      NextMonth(d.year, 12);
      NextYear(d.year);
    }
    assert EpochDay(e) == EpochDay(d) + 1;
    EpochDayInjective(e, PlusDays(d, 1));
  }

  lemma PlusZeroDays(d: LocalDate)
    ensures PlusDays(d, 0) == d
  {
    EpochDayRoundTrip(d);
  }

  /** Going n days forward and n days back returns to the same date. */
  lemma PlusDaysInverse(d: LocalDate, n: int)
    ensures PlusDays(PlusDays(d, n), -n) == d
  {
    EpochDayInjective(PlusDays(PlusDays(d, n), -n), d);
  }

  /** Two moves by a and b days are one move by a + b days. */
  lemma PlusDaysAdditive(d: LocalDate, a: int, b: int)
    ensures PlusDays(PlusDays(d, a), b) == PlusDays(d, a + b)
  {
    EpochDayInjective(PlusDays(PlusDays(d, a), b), PlusDays(d, a + b));
  }

  /** ChronoUnit.DAYS.between for dates: the number of days from a to b. */
  function DaysBetween(a: LocalDate, b: LocalDate): (r: int)
    ensures PlusDays(a, r) == b
  {
    var r := EpochDay(b) - EpochDay(a);
    EpochDayInjective(PlusDays(a, r), b);
    r
  }

  /** The day difference inverts PlusDays, is antisymmetric, and is zero
      exactly between equal dates. */
  lemma DaysBetweenLaws(a: LocalDate, b: LocalDate, n: int)
    ensures DaysBetween(a, PlusDays(a, n)) == n
    ensures PlusDays(a, DaysBetween(a, b)) == b
    ensures DaysBetween(a, b) == -DaysBetween(b, a)
    ensures DaysBetween(a, b) == 0 <==> a == b
  {
    EpochDayRoundTrip(b);
    EpochDayInjective(a, b);
  }

  /** LocalDate.compareTo (compareTo0): the first non-zero difference of the
      year, month and day fields. */
  function Compare(a: LocalDate, b: LocalDate): int {
    if a.year != b.year then a.year - b.year
    else if a.month != b.month then a.month - b.month
    else a.day - b.day
  }

  /** The sign of Compare is chronological order, zero exactly for equal dates,
      and swapping the operands negates it. */
  lemma CompareIsChronological(a: LocalDate, b: LocalDate)
    ensures Compare(a, b) < 0 <==> EpochDay(a) < EpochDay(b)
    ensures Compare(a, b) == 0 <==> a == b
    ensures Compare(a, b) > 0 <==> EpochDay(a) > EpochDay(b)
    ensures Compare(a, b) == -Compare(b, a)
  {
    if Compare(a, b) < 0 {
      EpochDayOrder(a, b);
    } else if Compare(a, b) > 0 {
      EpochDayOrder(b, a);
    }
  }

  /** LocalDate.isBefore, isAfter and isEqual: the sign of compareTo, which is
      the order of the days on the calendar. */
  predicate IsBefore(a: LocalDate, b: LocalDate)
    ensures IsBefore(a, b) <==> EpochDay(a) < EpochDay(b)
  {
    CompareIsChronological(a, b);
    Compare(a, b) < 0
  }

  predicate IsAfter(a: LocalDate, b: LocalDate)
    ensures IsAfter(a, b) <==> EpochDay(a) > EpochDay(b)
  {
    CompareIsChronological(a, b);
    Compare(a, b) > 0
  }

  predicate IsEqual(a: LocalDate, b: LocalDate)
    ensures IsEqual(a, b) <==> a == b
  {
    CompareIsChronological(a, b);
    Compare(a, b) == 0
  }

  /** Exactly one of IsBefore, IsEqual and IsAfter holds; IsBefore(a, b) is
      IsAfter(b, a); and IsBefore means a positive day difference. */
  lemma OrderTrichotomy(a: LocalDate, b: LocalDate)
    ensures (IsBefore(a, b) && !IsEqual(a, b) && !IsAfter(a, b))
         || (!IsBefore(a, b) && IsEqual(a, b) && !IsAfter(a, b))
         || (!IsBefore(a, b) && !IsEqual(a, b) && IsAfter(a, b))
    ensures IsBefore(a, b) == IsAfter(b, a)
    ensures IsEqual(a, b) <==> a == b
    ensures IsBefore(a, b) <==> DaysBetween(a, b) > 0
  {
    CompareIsChronological(a, b);
  }

  /** LocalDate.resolvePreviousValid: the given day of the month, or the month's
      last day when the month is shorter. */
  function ResolvePreviousValid(year: int, month: int, day: int): (r: LocalDate)
    requires 1 <= month <= 12 && 1 <= day <= 31
    ensures r.year == year && r.month == month
    ensures day <= MonthLength(year, month) ==> r.day == day
    ensures day > MonthLength(year, month) ==> r.day == MonthLength(year, month)
  {
    Date(year, month, if day <= MonthLength(year, month) then day else MonthLength(year, month))
  }

  /** Months counted from month 1 of year 0, as LocalDate.plusMonths counts them. */
  function MonthIndex(d: LocalDate): int {
    d.year * 12 + d.month - 1
  }

  /** LocalDate.plusMonths: the same day n months later, clamped to the end of
      a shorter month. */
  function PlusMonths(d: LocalDate, n: int): (r: LocalDate)
    ensures MonthIndex(r) == MonthIndex(d) + n
    ensures r.day == if d.day <= MonthLength(r.year, r.month) then d.day else MonthLength(r.year, r.month)
  {
    var count := MonthIndex(d) + n;
    ResolvePreviousValid(count / 12, count % 12 + 1, d.day)
  }

  /** LocalDate.plusYears: the same month and day n years later, 29 February
      becoming 28 February outside leap years. */
  function PlusYears(d: LocalDate, n: int): (r: LocalDate)
    ensures r.year == d.year + n && r.month == d.month
    ensures r.day == if d.month == 2 && d.day == 29 && !IsLeapYear(r.year) then 28 else d.day
  {
    ResolvePreviousValid(d.year + n, d.month, d.day)
  }

  /** LocalDate.minusYears, minusMonths and minusDays. */
  function MinusYears(d: LocalDate, n: int): (r: LocalDate)
    ensures r.year == d.year - n && r.month == d.month
    ensures r.day == if d.month == 2 && d.day == 29 && !IsLeapYear(r.year) then 28 else d.day
  {
    PlusYears(d, -n)
  }

  function MinusMonths(d: LocalDate, n: int): (r: LocalDate)
    ensures MonthIndex(r) == MonthIndex(d) - n
    ensures r.day == if d.day <= MonthLength(r.year, r.month) then d.day else MonthLength(r.year, r.month)
  {
    PlusMonths(d, -n)
  }

  function MinusDays(d: LocalDate, n: int): (r: LocalDate)
    ensures EpochDay(r) == EpochDay(d) - n
  {
    PlusDays(d, -n)
  }

  /** Moving by n years is moving by 12 n months. */
  lemma PlusYearsIsTwelveMonths(d: LocalDate, n: int)
    ensures PlusYears(d, n) == PlusMonths(d, 12 * n)
  {
    var r := PlusMonths(d, 12 * n);
    assert r.year * 12 + r.month - 1 == (d.year + n) * 12 + d.month - 1;
    assert r.year == d.year + n && r.month == d.month;
  }

  /** A day that every month has survives a move by n months and back. */
  lemma PlusMonthsInverse(d: LocalDate, n: int)
    requires d.day <= 28
    ensures PlusMonths(PlusMonths(d, n), -n) == d
    ensures MinusMonths(PlusMonths(d, n), n) == d
  {
    var r := PlusMonths(PlusMonths(d, n), -n);
    assert r.year * 12 + r.month - 1 == d.year * 12 + d.month - 1;
    assert r.year == d.year && r.month == d.month;
  }

  /** Month-end clamping: 31 January plus one month is 29 February in a leap
      year and 28 February otherwise. */
  lemma EndOfMonthClamping()
    ensures PlusMonths(Date(2024, 1, 31), 1) == Date(2024, 2, 29)
    ensures PlusMonths(Date(2023, 1, 31), 1) == Date(2023, 2, 28)
    ensures PlusYears(Date(2024, 2, 29), 1) == Date(2025, 2, 28)
  {
  }

  /** TemporalAdjusters.firstDayOfMonth and lastDayOfMonth. */
  function FirstDayOfMonth(d: LocalDate): (r: LocalDate)
    ensures r.year == d.year && r.month == d.month && r.day == 1
  {
    Date(d.year, d.month, 1)
  }

  function LastDayOfMonth(d: LocalDate): (r: LocalDate)
    ensures r.year == d.year && r.month == d.month && r.day == MonthLength(d.year, d.month)
  {
    Date(d.year, d.month, MonthLength(d.year, d.month))
  }

  /** The month of d runs from its first to its last day: the day before the
      first and the day after the last lie in other months, and the last day
      is the first plus the month's length less one. */
  lemma MonthBoundaries(d: LocalDate)
    ensures DaysBetween(FirstDayOfMonth(d), d) == d.day - 1
    ensures DaysBetween(d, LastDayOfMonth(d)) == MonthLength(d.year, d.month) - d.day
    ensures LastDayOfMonth(d) == PlusDays(FirstDayOfMonth(d), MonthLength(d.year, d.month) - 1)
    ensures PlusDays(LastDayOfMonth(d), 1).day == 1
    ensures PlusDays(LastDayOfMonth(d), 1).month != d.month
    ensures PlusDays(FirstDayOfMonth(d), -1).month != d.month
  {
    var last := LastDayOfMonth(d);
    DaysBetweenLaws(FirstDayOfMonth(d), last, 0);
    PlusOneDayIsNextDay(last);
    var first := FirstDayOfMonth(d);
    var before := PlusDays(first, -1);
    PlusDaysInverse(first, -1);
    PlusOneDayIsNextDay(before);
    assert NextDay(before) == first;
  }

  /** The weekday advances by one, cyclically, each day. */
  lemma DayOfWeekAfter(d: LocalDate, n: int)
    ensures DayOfWeek(PlusDays(d, n)) == (DayOfWeek(d) - 1 + n) % 7 + 1
  {
    var e := EpochDay(d);
    assert EpochDay(PlusDays(d, n)) == e + n;
    Mod7Shift(e, n);
  }

  lemma Mod7Shift(e: int, n: int)
    ensures (e + n + 3) % 7 == ((e + 3) % 7 + n) % 7
  {
    assert e + n + 3 == 7 * ((e + 3) / 7) + ((e + 3) % 7 + n);
  }

  lemma Mod7Distinct(e: int, f: int)
    requires 0 < f - e < 7
    ensures (e + 3) % 7 != (f + 3) % 7
  {
  }

  lemma WeekdayStep(cal: int, w: int, n: int)
    requires 1 <= cal <= 7 && 1 <= w <= 7 && -7 < n < 7
    requires n == w - cal || n == w - cal + 7 || n == w - cal - 7
    ensures (cal - 1 + n) % 7 + 1 == w
  {
  }

  lemma LandOnWeekday(d: LocalDate, w: int, n: int)
    requires 1 <= w <= 7 && -7 < n < 7
    requires n == w - DayOfWeek(d) || n == w - DayOfWeek(d) + 7 || n == w - DayOfWeek(d) - 7
    ensures DayOfWeek(PlusDays(d, n)) == w
    ensures DaysBetween(d, PlusDays(d, n)) == n && DaysBetween(PlusDays(d, n), d) == -n
  {
    DayOfWeekAfter(d, n);
    WeekdayStep(DayOfWeek(d), w, n);
  }

  /** TemporalAdjusters.previousOrSame: d itself when it falls on weekday w,
      otherwise the latest earlier date that does. */
  function PreviousOrSame(d: LocalDate, w: int): (r: LocalDate)
    requires 1 <= w <= 7
    ensures DayOfWeek(r) == w
    ensures 0 <= DaysBetween(r, d) <= 6
  {
    var cal := DayOfWeek(d);
    if cal == w then d
    else
      var diff := w - cal;
      var back := if diff >= 0 then 7 - diff else -diff;
      LandOnWeekday(d, w, -back);
      PlusDays(d, -back)
  }

  /** TemporalAdjusters.nextOrSame: d itself when it falls on weekday w,
      otherwise the earliest later date that does. */
  function NextOrSame(d: LocalDate, w: int): (r: LocalDate)
    requires 1 <= w <= 7
    ensures DayOfWeek(r) == w
    ensures 0 <= DaysBetween(d, r) <= 6
  {
    var cal := DayOfWeek(d);
    if cal == w then d
    else
      var diff := cal - w;
      var ahead := if diff >= 0 then 7 - diff else -diff;
      LandOnWeekday(d, w, ahead);
      PlusDays(d, ahead)
  }

  /** Dates fewer than seven days apart fall on different weekdays. */
  lemma WeekdaysRepeatAfterSeven(a: LocalDate, b: LocalDate)
    requires 0 < DaysBetween(a, b) < 7
    ensures DayOfWeek(a) != DayOfWeek(b)
  {
    var e, f := EpochDay(a), EpochDay(b);
    assert DaysBetween(a, b) == f - e;
    Mod7Distinct(e, f);
  }

  /** PreviousOrSame and NextOrSame pick the nearest date falling on the
      weekday: no date strictly between them and d falls on it. */
  lemma NearestWeekday(d: LocalDate, w: int, x: LocalDate)
    requires 1 <= w <= 7
    ensures 0 <= DaysBetween(x, d) < DaysBetween(PreviousOrSame(d, w), d) ==> DayOfWeek(x) != w
    ensures 0 <= DaysBetween(d, x) < DaysBetween(d, NextOrSame(d, w)) ==> DayOfWeek(x) != w
  {
    var p := PreviousOrSame(d, w);
    var n := NextOrSame(d, w);
    if 0 <= DaysBetween(x, d) < DaysBetween(p, d) {
      WeekdaysRepeatAfterSeven(p, x);
    }
    if 0 <= DaysBetween(d, x) < DaysBetween(d, n) {
      WeekdaysRepeatAfterSeven(x, n);
    }
  }
}
