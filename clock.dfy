/** LocalTime and LocalDateTime at second precision: the time of day, the
    date-time's position on a line of seconds, and the arithmetic, differences
    and comparison DateUtils delegates to java.time. */
module Clock {
  import opened Calendar
  import LocalDates

  /** Hour, minute and second fields of a time of day, not yet known to be valid. */
  datatype Time = Time(hour: int, minute: int, second: int)

  predicate IsValidTime(t: Time) {
    0 <= t.hour < 24 && 0 <= t.minute < 60 && 0 <= t.second < 60
  }

  /** A java.time LocalTime with a zero nano-of-second. */
  type LocalTime = t: Time | IsValidTime(t) witness Time(0, 0, 0)

  const Midnight: LocalTime := Time(0, 0, 0)

  const SecondsPerDay := 86400

  /** LocalTime.toSecondOfDay. */
  function SecondOfDay(t: LocalTime): (n: int)
    ensures 0 <= n < SecondsPerDay
  {
    t.hour * 3600 + t.minute * 60 + t.second
  }

  /** LocalTime.ofSecondOfDay: the time n seconds after midnight. */
  function FromSecondOfDay(n: int): (t: LocalTime)
    requires 0 <= n < SecondsPerDay
    ensures SecondOfDay(t) == n
  {
    Time(n / 3600, n % 3600 / 60, n % 60)
  }

  lemma SecondOfDayRoundTrip(t: LocalTime)
    ensures FromSecondOfDay(SecondOfDay(t)) == t
  {
    var n := SecondOfDay(t);
    assert n == 3600 * t.hour + (60 * t.minute + t.second);
    assert n % 3600 == 60 * t.minute + t.second;
  }

  /** Integer.compare. */
  function IntCompare(x: int, y: int): (r: int)
    ensures r < 0 <==> x < y
    ensures r == 0 <==> x == y
    ensures -1 <= r <= 1
  {
    if x < y then -1 else if x > y then 1 else 0
  }

  /** LocalTime.compareTo: Integer.compare of the hours, then the minutes,
      then the seconds. */
  function CompareTimes(a: LocalTime, b: LocalTime): int {
    var c := IntCompare(a.hour, b.hour);
    if c != 0 then c
    else
      var c := IntCompare(a.minute, b.minute);
      if c != 0 then c else IntCompare(a.second, b.second)
  }

  /** CompareTimes is -1, 0 or 1 by the order of the seconds of the day. */
  lemma CompareTimesIsChronological(a: LocalTime, b: LocalTime)
    ensures CompareTimes(a, b) == IntCompare(SecondOfDay(a), SecondOfDay(b))
  {
    if a.hour == b.hour && a.minute == b.minute {
    } else if a.hour == b.hour {
      assert (a.minute < b.minute) == (SecondOfDay(a) < SecondOfDay(b));
    } else {
      assert (a.hour < b.hour) == (SecondOfDay(a) < SecondOfDay(b));
    }
  }

  /** A java.time LocalDateTime: a date and a time of day. */
  datatype LocalDateTime = LocalDateTime(date: LocalDate, time: LocalTime)

  /** LocalDate.atStartOfDay. */
  function AtStartOfDay(d: LocalDate): (r: LocalDateTime)
    ensures r.date == d && r.time == Midnight
  {
    LocalDateTime(d, Midnight)
  }

  /** Seconds elapsed from 1970-01-01 00:00:00 to dt, counting every day as
      86400 seconds (LocalDateTime.toEpochSecond at offset zero). */
  function EpochSecond(dt: LocalDateTime): (r: int)
    ensures r / SecondsPerDay == EpochDay(dt.date)
    ensures r % SecondsPerDay == SecondOfDay(dt.time)
  {
    var r := EpochDay(dt.date) * SecondsPerDay + SecondOfDay(dt.time);
    DaySplit(EpochDay(dt.date), SecondOfDay(dt.time));
    r
  }

  lemma DaySplit(e: int, s: int)
    requires 0 <= s < SecondsPerDay
    ensures (e * SecondsPerDay + s) / SecondsPerDay == e && (e * SecondsPerDay + s) % SecondsPerDay == s
  {
  }

  /** LocalDateTime.ofEpochSecond at offset zero: the date-time n seconds
      after 1970-01-01 00:00:00. */
  function FromEpochSecond(n: int): (dt: LocalDateTime)
    ensures EpochSecond(dt) == n
  {
    LocalDateTime(FromEpochDay(n / SecondsPerDay), FromSecondOfDay(n % SecondsPerDay))
  }

  /** Counting seconds is a bijection between date-times and integers. */
  lemma EpochSecondRoundTrip(dt: LocalDateTime)
    ensures FromEpochSecond(EpochSecond(dt)) == dt
  {
    var e, s := EpochDay(dt.date), SecondOfDay(dt.time);
    var n := EpochSecond(dt);
    assert n / SecondsPerDay == e && n % SecondsPerDay == s by {
      DaySplit(e, s);
    }
    assert FromEpochDay(e) == dt.date by {
      EpochDayRoundTrip(dt.date);
    }
    assert FromSecondOfDay(s) == dt.time by {
      SecondOfDayRoundTrip(dt.time);
    }
  }

  lemma EpochSecondInjective(a: LocalDateTime, b: LocalDateTime)
    ensures EpochSecond(a) == EpochSecond(b) <==> a == b
  {
    if EpochSecond(a) == EpochSecond(b) {
      EpochSecondRoundTrip(a);
      EpochSecondRoundTrip(b);
    }
  }

  /** LocalDateTime.plusSeconds: the date-time n seconds later, carrying
      across midnight into the date. */
  function PlusSeconds(dt: LocalDateTime, n: int): (r: LocalDateTime)
    ensures EpochSecond(r) == EpochSecond(dt) + n
  {
    FromEpochSecond(EpochSecond(dt) + n)
  }

  /** LocalDateTime.plusMinutes and plusHours: moves by 60 and 3600 seconds. */
  function PlusMinutes(dt: LocalDateTime, n: int): (r: LocalDateTime)
    ensures EpochSecond(r) == EpochSecond(dt) + 60 * n
  {
    PlusSeconds(dt, n * 60)
  }

  function PlusHours(dt: LocalDateTime, n: int): (r: LocalDateTime)
    ensures EpochSecond(r) == EpochSecond(dt) + 3600 * n
  {
    PlusSeconds(dt, n * 3600)
  }

  /** LocalDateTime.plusDays, plusMonths and plusYears: the date moves as a
      LocalDate does and the time of day is kept. */
  function PlusDays(dt: LocalDateTime, n: int): (r: LocalDateTime)
    ensures r.time == dt.time && r.date == LocalDates.PlusDays(dt.date, n)
  {
    LocalDateTime(LocalDates.PlusDays(dt.date, n), dt.time)
  }

  function PlusMonths(dt: LocalDateTime, n: int): (r: LocalDateTime)
    ensures r.time == dt.time && r.date == LocalDates.PlusMonths(dt.date, n)
  {
    LocalDateTime(LocalDates.PlusMonths(dt.date, n), dt.time)
  }

  function PlusYears(dt: LocalDateTime, n: int): (r: LocalDateTime)
    ensures r.time == dt.time && r.date == LocalDates.PlusYears(dt.date, n)
  {
    LocalDateTime(LocalDates.PlusYears(dt.date, n), dt.time)
  }

  /** The day number and the second of the day after adding n seconds. */
  lemma PlusSecondsFields(dt: LocalDateTime, n: int) returns (k: int, r: int)
    ensures k == (SecondOfDay(dt.time) + n) / SecondsPerDay && r == (SecondOfDay(dt.time) + n) % SecondsPerDay
    ensures EpochDay(PlusSeconds(dt, n).date) == EpochDay(dt.date) + k
    ensures SecondOfDay(PlusSeconds(dt, n).time) == r
  {
    var s, e := SecondOfDay(dt.time) + n, EpochDay(dt.date);
    k, r := s / SecondsPerDay, s % SecondsPerDay;
    var y := PlusSeconds(dt, n);
    var x, u := EpochDay(y.date), SecondOfDay(y.time);
    assert x * SecondsPerDay + u == (e + k) * SecondsPerDay + r;
    DaySplit(x, u);
    DaySplit(e + k, r);
  }

  /** Adding seconds carries whole days into the date and keeps the rest as
      the time of day. */
  lemma PlusSecondsCarries(dt: LocalDateTime, n: int)
    ensures PlusSeconds(dt, n).date == LocalDates.PlusDays(dt.date, (SecondOfDay(dt.time) + n) / SecondsPerDay)
    ensures PlusSeconds(dt, n).time == FromSecondOfDay((SecondOfDay(dt.time) + n) % SecondsPerDay)
  {
    var k, r := PlusSecondsFields(dt, n);
    var y := PlusSeconds(dt, n);
    EpochDayInjective(y.date, LocalDates.PlusDays(dt.date, k));
    SecondOfDayRoundTrip(y.time);
  }

  /** Moving n seconds forward and back returns to the same date-time. */
  lemma PlusSecondsInverse(dt: LocalDateTime, a: int)
    ensures PlusSeconds(PlusSeconds(dt, a), -a) == dt
  {
    EpochSecondInjective(PlusSeconds(PlusSeconds(dt, a), -a), dt);
  }

  /** Two moves by a and b seconds are one move by a + b seconds. */
  lemma PlusSecondsAdditive(dt: LocalDateTime, a: int, b: int)
    ensures PlusSeconds(PlusSeconds(dt, a), b) == PlusSeconds(dt, a + b)
  {
    var x, y := PlusSeconds(PlusSeconds(dt, a), b), PlusSeconds(dt, a + b);
    assert EpochSecond(x) == EpochSecond(y);
    EpochSecondInjective(x, y);
  }

  /** Whole days of seconds are whole days of the calendar. */
  lemma PlusDaysIsWholeDays(dt: LocalDateTime, a: int)
    ensures PlusDays(dt, a) == PlusSeconds(dt, SecondsPerDay * a)
  {
    var r, e := PlusDays(dt, a), EpochDay(dt.date);
    assert EpochDay(r.date) == e + a;
    assert EpochSecond(r) == (e + a) * SecondsPerDay + SecondOfDay(dt.time);
    assert (e + a) * SecondsPerDay == e * SecondsPerDay + SecondsPerDay * a;
    EpochSecondInjective(r, PlusSeconds(dt, SecondsPerDay * a));
  }

  /** Java's integer division, which truncates toward zero. */
  function Quot(a: int, b: int): int
    requires b > 0
  {
    if a >= 0 then a / b else -((-a) / b)
  }

  /** Euclidean division of a natural number by a positive one leaves a
      product no larger than the dividend and within one unit of it. */
  lemma QuotOfNatural(a: int, b: int)
    requires a >= 0 && b > 0
    ensures 0 <= (a / b) * b <= a < (a / b) * b + b
  {
    var q, r := a / b, a % b;
    assert a == q * b + r && 0 <= r < b;
    assert q >= 0;
  }

  /** Quot counts only complete units, truncating toward zero, and
      Quot(-a, b) == -Quot(a, b). */
  lemma QuotCountsCompleteUnits(a: int, b: int)
    requires b > 0
    ensures a >= 0 ==> 0 <= Quot(a, b) * b <= a < Quot(a, b) * b + b
    ensures a < 0 ==> Quot(a, b) * b - b < a <= Quot(a, b) * b <= 0
    ensures Quot(-a, b) == -Quot(a, b)
  {
    if a >= 0 {
      QuotOfNatural(a, b);
      assert Quot(a, b) == a / b;
      assert Quot(-a, b) == -(a / b) by {
        if a == 0 {
          assert a / b == 0;
        }
      }
    } else {
      var q := (-a) / b;
      QuotOfNatural(-a, b);
      assert Quot(a, b) == -q;
      assert Quot(a, b) * b == -(q * b);
      assert Quot(-a, b) == q;
    }
  }

  /** ChronoUnit.SECONDS, MINUTES, HOURS and DAYS between two date-times: the
      number of complete units from a to b, negative when b is earlier. */
  function SecondsBetween(a: LocalDateTime, b: LocalDateTime): (r: int)
    ensures PlusSeconds(a, r) == b
  {
    var r := EpochSecond(b) - EpochSecond(a);
    EpochSecondInjective(PlusSeconds(a, r), b);
    r
  }

  function MinutesBetween(a: LocalDateTime, b: LocalDateTime): int {
    Quot(SecondsBetween(a, b), 60)
  }

  function HoursBetween(a: LocalDateTime, b: LocalDateTime): int {
    Quot(SecondsBetween(a, b), 3600)
  }

  function DaysBetween(a: LocalDateTime, b: LocalDateTime): int {
    Quot(SecondsBetween(a, b), SecondsPerDay)
  }

  /** A whole number of minutes, hours or days divides exactly. */
  lemma QuotOfWholeUnits(n: int)
    ensures Quot(n * 60, 60) == n
    ensures Quot(n * 3600, 3600) == n
    ensures Quot(n * SecondsPerDay, SecondsPerDay) == n
  {
  }

  /** The seconds, minutes and hours differences invert the matching addition. */
  lemma BetweenInvertsPlus(a: LocalDateTime, n: int)
    ensures SecondsBetween(a, PlusSeconds(a, n)) == n
    ensures MinutesBetween(a, PlusMinutes(a, n)) == n
    ensures HoursBetween(a, PlusHours(a, n)) == n
  {
    assert MinutesBetween(a, PlusMinutes(a, n)) == n by {
      assert SecondsBetween(a, PlusMinutes(a, n)) == n * 60;
      QuotOfWholeUnits(n);
    }
    assert HoursBetween(a, PlusHours(a, n)) == n by {
      assert SecondsBetween(a, PlusHours(a, n)) == n * 3600;
      QuotOfWholeUnits(n);
    }
  }

  /** The day difference inverts plusDays. */
  lemma DaysBetweenInvertsPlusDays(a: LocalDateTime, n: int)
    ensures DaysBetween(a, PlusDays(a, n)) == n
  {
    PlusDaysIsWholeDays(a, n);
    assert SecondsBetween(a, PlusDays(a, n)) == n * SecondsPerDay;
    QuotOfWholeUnits(n);
  }

  /** Each difference vanishes from a value to itself and changes sign when
      the operands are swapped; the seconds difference is zero exactly for
      equal values. */
  lemma BetweenAntisymmetric(a: LocalDateTime, b: LocalDateTime)
    ensures SecondsBetween(a, a) == 0 && MinutesBetween(a, a) == 0
    ensures HoursBetween(a, a) == 0 && DaysBetween(a, a) == 0
    ensures SecondsBetween(a, b) == -SecondsBetween(b, a)
    ensures MinutesBetween(a, b) == -MinutesBetween(b, a)
    ensures HoursBetween(a, b) == -HoursBetween(b, a)
    ensures DaysBetween(a, b) == -DaysBetween(b, a)
    ensures SecondsBetween(a, b) == 0 <==> a == b
  {
    var x := SecondsBetween(a, b);
    assert SecondsBetween(b, a) == -x;
    QuotCountsCompleteUnits(x, 60);
    QuotCountsCompleteUnits(x, 3600);
    QuotCountsCompleteUnits(x, SecondsPerDay);
    EpochSecondInjective(a, b);
  }

  /** Whole days between date-times, as java.time's LocalDateTime.until states
      it for date-based units: the day difference of the dates, less one when
      the end's time of day has not yet reached the start's. */
  function DaysBetweenByDates(a: LocalDateTime, b: LocalDateTime): int {
    var end :=
      if LocalDates.DaysBetween(a.date, b.date) > 0 && SecondOfDay(b.time) < SecondOfDay(a.time) then LocalDates.PlusDays(b.date, -1)
      else if LocalDates.DaysBetween(a.date, b.date) < 0 && SecondOfDay(b.time) > SecondOfDay(a.time) then LocalDates.PlusDays(b.date, 1)
      else b.date;
    LocalDates.DaysBetween(a.date, end)
  }

  /** Truncating the seconds difference to whole days agrees with the
      date-based rule. */
  lemma DaysBetweenAgreesWithDates(a: LocalDateTime, b: LocalDateTime)
    ensures DaysBetween(a, b) == DaysBetweenByDates(a, b)
  {
    var d := LocalDates.DaysBetween(a.date, b.date);
    var t := SecondOfDay(b.time) - SecondOfDay(a.time);
    assert SecondsBetween(a, b) == d * SecondsPerDay + t;
    if d > 0 && t < 0 {
      DaySplit(d - 1, SecondsPerDay + t);
    } else if d < 0 && t > 0 {
      DaySplit(-d - 1, SecondsPerDay - t);
    } else if d >= 0 && t >= 0 {
      DaySplit(d, t);
    } else if d <= 0 && t <= 0 {
      DaySplit(-d, -t);
    } else if d == 0 && t < 0 {
      DaySplit(0, -t);
    } else {
      DaySplit(0, t);
    }
  }

  /** LocalDateTime.compareTo (compareTo0): the date comparison, or when the
      dates are equal the time comparison. */
  function CompareDateTimes(a: LocalDateTime, b: LocalDateTime): int {
    var c := LocalDates.Compare(a.date, b.date);
    if c != 0 then c else CompareTimes(a.time, b.time)
  }

  /** The sign of CompareDateTimes is chronological order, zero exactly for
      equal values, and swapping the operands negates it. */
  lemma CompareDateTimesIsChronological(a: LocalDateTime, b: LocalDateTime)
    ensures CompareDateTimes(a, b) < 0 <==> EpochSecond(a) < EpochSecond(b)
    ensures CompareDateTimes(a, b) == 0 <==> a == b
    ensures CompareDateTimes(a, b) > 0 <==> EpochSecond(a) > EpochSecond(b)
    ensures CompareDateTimes(a, b) == -CompareDateTimes(b, a)
  {
    LocalDates.CompareIsChronological(a.date, b.date);
    CompareTimesIsChronological(a.time, b.time);
    CompareTimesIsChronological(b.time, a.time);
    var ea, eb := EpochDay(a.date), EpochDay(b.date);
    if ea < eb {
      assert (ea + 1) * SecondsPerDay <= eb * SecondsPerDay;
    } else if eb < ea {
      assert (eb + 1) * SecondsPerDay <= ea * SecondsPerDay;
    }
  }
}
