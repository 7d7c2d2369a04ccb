/** The static methods of DateUtils on LocalDate, LocalDateTime and LocalTime.
    Each guards against null and then makes one java.time call. A Java null is
    None, a returned value Some, and a thrown exception a Failure. */
module DateUtils {
  import opened Outcomes
  import opened Calendar
  import opened Text
  import Clock
  import LocalDates

  /** A value that may be null, once the call computing it has returned. */
  function Present<T>(r: Result<T>): (o: Result<Option<T>>)
    ensures o.Success? <==> r.Success?
    ensures r.Success? ==> o.value == Some(r.value)
    ensures r.Failure? ==> o.error == r.error
  {
    if r.Success? then Success(Some(r.value)) else Failure(r.error)
  }

  /** The formatter the format and parse overloads build: the kind's default
      when the pattern is null or empty, DateTimeFormatter.ofPattern otherwise. */
  function FormatterFor(pattern: Option<string>, default: Layout): (f: Formatter)
    ensures IsNullOrEmpty(pattern) ==> f == Fixed(default)
    ensures !IsNullOrEmpty(pattern) ==> f == OfPattern(pattern.value)
  {
    if IsNullOrEmpty(pattern) then Fixed(default) else OfPattern(pattern.value)
  }

  // ---------------------------------------------------------------------
  // format

  /** format(LocalDate, String). */
  function FormatDate(date: Option<LocalDate>, pattern: Option<string>, engine: Engine): (r: Result<Option<string>>)
    ensures date.None? ==> r == Success(None)
    ensures date.Some? && IsNullOrEmpty(pattern) ==> r == Success(Some(DateText(date.value)))
    ensures date.Some? && !IsNullOrEmpty(pattern) ==> r == Present(FormatWith(OfPattern(pattern.value), engine, DateValue(date.value)))
  {
    if date.None? then Success(None)
    else Present(FormatWith(FormatterFor(pattern, DateLayout), engine, DateValue(date.value)))
  }

  /** format(LocalDate): the default date pattern, which cannot fail. */
  function FormatDateDefault(date: Option<LocalDate>): (r: Option<string>)
    ensures r.Some? <==> date.Some?
    ensures date.Some? ==> r.value == DateText(date.value)
  {
    if date.None? then None else Some(DateText(date.value))
  }

  /** format(LocalDateTime, String). */
  function FormatDateTime(dateTime: Option<Clock.LocalDateTime>, pattern: Option<string>, engine: Engine): (r: Result<Option<string>>)
    ensures dateTime.None? ==> r == Success(None)
    ensures dateTime.Some? && IsNullOrEmpty(pattern) ==> r == Success(Some(DateTimeText(dateTime.value)))
    ensures dateTime.Some? && !IsNullOrEmpty(pattern) ==> r == Present(FormatWith(OfPattern(pattern.value), engine, DateTimeValue(dateTime.value)))
  {
    if dateTime.None? then Success(None)
    else Present(FormatWith(FormatterFor(pattern, DateTimeLayout), engine, DateTimeValue(dateTime.value)))
  }

  /** format(LocalDateTime). */
  function FormatDateTimeDefault(dateTime: Option<Clock.LocalDateTime>): (r: Option<string>)
    ensures r.Some? <==> dateTime.Some?
    ensures dateTime.Some? ==> r.value == DateTimeText(dateTime.value)
  {
    if dateTime.None? then None else Some(DateTimeText(dateTime.value))
  }

  /** format(LocalTime, String). */
  function FormatTime(time: Option<Clock.LocalTime>, pattern: Option<string>, engine: Engine): (r: Result<Option<string>>)
    ensures time.None? ==> r == Success(None)
    ensures time.Some? && IsNullOrEmpty(pattern) ==> r == Success(Some(TimeText(time.value)))
    ensures time.Some? && !IsNullOrEmpty(pattern) ==> r == Present(FormatWith(OfPattern(pattern.value), engine, TimeValue(time.value)))
  {
    if time.None? then Success(None)
    else Present(FormatWith(FormatterFor(pattern, TimeLayout), engine, TimeValue(time.value)))
  }

  /** format(LocalTime). */
  function FormatTimeDefault(time: Option<Clock.LocalTime>): (r: Option<string>)
    ensures r.Some? <==> time.Some?
    ensures time.Some? ==> r.value == TimeText(time.value)
  {
    if time.None? then None else Some(TimeText(time.value))
  }

  /** The one-argument format overloads pass the default pattern, which
      compiles to the same layout as a null or empty pattern; no engine is
      consulted. */
  lemma FormatDefaultsAgree(date: Option<LocalDate>, dateTime: Option<Clock.LocalDateTime>, time: Option<Clock.LocalTime>, engine: Engine)
    ensures FormatDate(date, Some(DATE_FORMAT), engine) == FormatDate(date, None, engine) == Success(FormatDateDefault(date))
    ensures FormatDateTime(dateTime, Some(DATETIME_FORMAT), engine) == FormatDateTime(dateTime, Some(""), engine) == Success(FormatDateTimeDefault(dateTime))
    ensures FormatTime(time, Some(TIME_FORMAT), engine) == FormatTime(time, None, engine) == Success(FormatTimeDefault(time))
  {
  }

  /** A pattern asking for fields the value lacks raises
      UnsupportedTemporalTypeException: a date has no hour, a time no year. */
  lemma FormatMissingFields(date: LocalDate, time: Clock.LocalTime, engine: Engine)
    ensures FormatDate(Some(date), Some(DATETIME_FORMAT), engine) == Failure(UnsupportedField)
    ensures FormatDate(Some(date), Some(TIME_FORMAT), engine) == Failure(UnsupportedField)
    ensures FormatTime(Some(time), Some(DATE_FORMAT), engine) == Failure(UnsupportedField)
  {
  }

  // ---------------------------------------------------------------------
  // parse

  /** parseLocalDate(String, String). */
  function ParseLocalDate(s: Option<string>, pattern: Option<string>, engine: Engine): (r: Result<Option<LocalDate>>)
    ensures IsNullOrEmpty(s) ==> r == Success(None)
    ensures !IsNullOrEmpty(s) ==> r == Present(QueryDate(ParseWith(FormatterFor(pattern, DateLayout), engine, s.value)))
  {
    if IsNullOrEmpty(s) then Success(None)
    else Present(QueryDate(ParseWith(FormatterFor(pattern, DateLayout), engine, s.value)))
  }

  /** parseLocalDate(String). */
  function ParseLocalDateDefault(s: Option<string>): (r: Result<Option<LocalDate>>)
    ensures IsNullOrEmpty(s) ==> r == Success(None)
    ensures !IsNullOrEmpty(s) ==> r == Present(QueryDate(ParseText(DateLayout, s.value)))
  {
    if IsNullOrEmpty(s) then Success(None) else Present(QueryDate(ParseText(DateLayout, s.value)))
  }

  /** parseLocalDateTime(String, String). */
  function ParseLocalDateTime(s: Option<string>, pattern: Option<string>, engine: Engine): (r: Result<Option<Clock.LocalDateTime>>)
    ensures IsNullOrEmpty(s) ==> r == Success(None)
    ensures !IsNullOrEmpty(s) ==> r == Present(QueryDateTime(ParseWith(FormatterFor(pattern, DateTimeLayout), engine, s.value)))
  {
    if IsNullOrEmpty(s) then Success(None)
    else Present(QueryDateTime(ParseWith(FormatterFor(pattern, DateTimeLayout), engine, s.value)))
  }

  /** parseLocalDateTime(String). */
  function ParseLocalDateTimeDefault(s: Option<string>): (r: Result<Option<Clock.LocalDateTime>>)
    ensures IsNullOrEmpty(s) ==> r == Success(None)
    ensures !IsNullOrEmpty(s) ==> r == Present(QueryDateTime(ParseText(DateTimeLayout, s.value)))
  {
    if IsNullOrEmpty(s) then Success(None) else Present(QueryDateTime(ParseText(DateTimeLayout, s.value)))
  }

  /** parseLocalTime(String, String). */
  function ParseLocalTime(s: Option<string>, pattern: Option<string>, engine: Engine): (r: Result<Option<Clock.LocalTime>>)
    ensures IsNullOrEmpty(s) ==> r == Success(None)
    ensures !IsNullOrEmpty(s) ==> r == Present(QueryTime(ParseWith(FormatterFor(pattern, TimeLayout), engine, s.value)))
  {
    if IsNullOrEmpty(s) then Success(None)
    else Present(QueryTime(ParseWith(FormatterFor(pattern, TimeLayout), engine, s.value)))
  }

  /** parseLocalTime(String). */
  function ParseLocalTimeDefault(s: Option<string>): (r: Result<Option<Clock.LocalTime>>)
    ensures IsNullOrEmpty(s) ==> r == Success(None)
    ensures !IsNullOrEmpty(s) ==> r == Present(QueryTime(ParseText(TimeLayout, s.value)))
  {
    if IsNullOrEmpty(s) then Success(None) else Present(QueryTime(ParseText(TimeLayout, s.value)))
  }

  /** The one-argument parse overloads agree with a null pattern for every
      engine. */
  lemma ParseDefaultsAgree(s: Option<string>, engine: Engine)
    ensures ParseLocalDate(s, Some(DATE_FORMAT), engine) == ParseLocalDate(s, None, engine) == ParseLocalDateDefault(s)
    ensures ParseLocalDateTime(s, Some(DATETIME_FORMAT), engine) == ParseLocalDateTime(s, Some(""), engine) == ParseLocalDateTimeDefault(s)
    ensures ParseLocalTime(s, Some(TIME_FORMAT), engine) == ParseLocalTime(s, None, engine) == ParseLocalTimeDefault(s)
  {
  }

  /** Format and parse with the default date pattern are inverse: every date
      in years 1..999,999,999, and null, comes back unchanged. */
  lemma DefaultDateRoundTrip(date: Option<LocalDate>)
    requires date.Some? ==> 1 <= date.value.year <= MaxYear
    ensures ParseLocalDateDefault(FormatDateDefault(date)) == Success(date)
  {
    if date.Some? {
      DateRoundTrip(date.value);
    }
  }

  /** Worked failure of the round trip before year 1: 0000-01-01 prints as
      "0001-01-01" and reads back as 0001-01-01. */
  lemma YearZeroReadsAsYearOne()
    ensures ParseLocalDateDefault(FormatDateDefault(Some(Date(0, 1, 1)))) == Success(Some(Date(1, 1, 1)))
  {
    EraLostInRoundTrip(Date(0, 1, 1));
    assert ResolveDate(1, 1, 1) == Some(Date(1, 1, 1));
  }

  /** The same round trip for date-times with the default date-time pattern. */
  lemma DefaultDateTimeRoundTrip(dateTime: Option<Clock.LocalDateTime>)
    requires dateTime.Some? ==> 1 <= dateTime.value.date.year <= MaxYear
    ensures ParseLocalDateTimeDefault(FormatDateTimeDefault(dateTime)) == Success(dateTime)
  {
    if dateTime.Some? {
      DateTimeRoundTrip(dateTime.value);
    }
  }

  /** The same round trip for times with the default time pattern. */
  lemma DefaultTimeRoundTrip(time: Option<Clock.LocalTime>)
    ensures ParseLocalTimeDefault(FormatTimeDefault(time)) == Success(time)
  {
    if time.Some? {
      TimeRoundTrip(time.value);
    }
  }

  /** The round trip through the two-argument overloads, with a null, empty
      or default pattern. */
  lemma PatternFormatsRoundTrip(date: LocalDate, time: Clock.LocalTime, pattern: Option<string>, engine: Engine)
    requires 1 <= date.year <= MaxYear
    requires IsNullOrEmpty(pattern) || pattern.value == DATE_FORMAT
    ensures FormatDate(Some(date), pattern, engine).Success?
    ensures ParseLocalDate(FormatDate(Some(date), pattern, engine).value, pattern, engine) == Success(Some(date))
  {
    DateRoundTrip(date);
    assert DateText(date) != [] by {
      assert |DateText(date)| >= 4;
    }
  }

  /** Parsing a null or empty string gives null whatever the pattern; a
      non-empty default-pattern text parses exactly when its layout accepts it. */
  lemma ParseNullPolicy(s: Option<string>, pattern: Option<string>, engine: Engine)
    ensures IsNullOrEmpty(s) ==> ParseLocalDate(s, pattern, engine) == Success(None)
    ensures IsNullOrEmpty(s) ==> ParseLocalDateTime(s, pattern, engine) == Success(None)
    ensures IsNullOrEmpty(s) ==> ParseLocalTime(s, pattern, engine) == Success(None)
    ensures !IsNullOrEmpty(s) ==> (ParseLocalDateDefault(s).Success? <==> ParseText(DateLayout, s.value).Success?)
    ensures !IsNullOrEmpty(s) ==> (ParseLocalTimeDefault(s).Success? <==> ParseText(TimeLayout, s.value).Success?)
    ensures !IsNullOrEmpty(s) ==> (ParseLocalDateTimeDefault(s).Success? <==> ParseText(DateTimeLayout, s.value).Success?)
  {
  }

  // ---------------------------------------------------------------------
  // parseDate, up to the LocalDateTime it hands to toDate

  /** LocalDate.atStartOfDay applied to a date parse result: the date at
      00:00:00, with null and a parse failure passed on. */
  function StartOfDayOf(r: Result<Option<LocalDate>>): (o: Result<Option<Clock.LocalDateTime>>)
    ensures r.Failure? ==> o == Failure(r.error)
    ensures r.Success? && r.value.None? ==> o == Success(None)
    ensures r.Success? && r.value.Some? ==> o.Success? && o.value.Some? && o.value.value.date == r.value.value && o.value.value.time == Clock.Midnight
  {
    if r.Failure? then Failure(r.error)
    else if r.value.None? then Success(None)
    else Success(Some(Clock.AtStartOfDay(r.value.value)))
  }

  /** parseDate(String, String) without its last step, the conversion of the
      LocalDateTime to a java.util.Date in the system zone. */
  function ParseDate(s: Option<string>, pattern: Option<string>, engine: Engine): (r: Result<Option<Clock.LocalDateTime>>)
    ensures IsNullOrEmpty(s) ==> r == Success(None)
  {
    if IsNullOrEmpty(s) then Success(None)
    else if IsNullOrEmpty(pattern) then
      if |s.value| == |DATE_FORMAT| then StartOfDayOf(Present(QueryDate(ParseText(DateLayout, s.value))))
      else Present(QueryDateTime(ParseText(DateTimeLayout, s.value)))
    else if pattern.value == DATE_FORMAT then
      StartOfDayOf(Present(QueryDate(ParseWith(OfPattern(pattern.value), engine, s.value))))
    else Present(QueryDateTime(ParseWith(OfPattern(pattern.value), engine, s.value)))
  }

  /** parseDate(String), likewise stopped at the LocalDateTime. */
  function ParseDateDefault(s: Option<string>, engine: Engine): (r: Result<Option<Clock.LocalDateTime>>)
    ensures r == ParseDate(s, Some(DATETIME_FORMAT), engine)
  {
    ParseDate(s, Some(DATETIME_FORMAT), engine)
  }

  /** With a null or empty pattern, parseDate takes the date path, anchored at
      00:00:00, exactly for inputs as long as "yyyy-MM-dd", and the date-time
      path for any other length. */
  lemma ParseDateWithoutPattern(s: Option<string>, pattern: Option<string>, engine: Engine)
    requires !IsNullOrEmpty(s) && IsNullOrEmpty(pattern)
    ensures |s.value| == 10 ==> ParseDate(s, pattern, engine) == StartOfDayOf(ParseLocalDate(s, pattern, engine))
    ensures |s.value| != 10 ==> ParseDate(s, pattern, engine) == ParseLocalDateTime(s, pattern, engine)
  {
  }

  /** With a non-empty pattern, parseDate takes the date path exactly when the
      pattern is "yyyy-MM-dd". */
  lemma ParseDateWithPattern(s: Option<string>, pattern: Option<string>, engine: Engine)
    requires !IsNullOrEmpty(s) && !IsNullOrEmpty(pattern)
    ensures pattern.value == DATE_FORMAT ==> ParseDate(s, pattern, engine) == StartOfDayOf(ParseLocalDate(s, pattern, engine))
    ensures pattern.value != DATE_FORMAT ==> ParseDate(s, pattern, engine) == ParseLocalDateTime(s, pattern, engine)
  {
  }

  /** Without a pattern, a date's text parses to its midnight, for every year
      printed with four digits. */
  lemma ParseDateOfDateText(d: LocalDate, engine: Engine)
    requires 1 <= d.year <= 9999
    ensures ParseDate(Some(DateText(d)), None, engine) == Success(Some(Clock.AtStartOfDay(d)))
  {
    var t := DateText(d);
    assert |t| == 10;
    assert ParseDate(Some(t), None, engine) == StartOfDayOf(Present(QueryDate(ParseText(DateLayout, t))));
    DateRoundTrip(d);
    assert QueryDate(ParseText(DateLayout, t)) == Success(d);
  }

  /** The same date-time comes back from the text of that midnight. */
  lemma ParseDateOfMidnightText(d: LocalDate, engine: Engine)
    requires 1 <= d.year <= 9999
    ensures ParseDate(Some(DateTimeText(Clock.AtStartOfDay(d))), None, engine) == Success(Some(Clock.AtStartOfDay(d)))
  {
    var m := Clock.AtStartOfDay(d);
    var t := DateTimeText(m);
    assert |t| == 19;
    assert ParseDate(Some(t), None, engine) == Present(QueryDateTime(ParseText(DateTimeLayout, t)));
    DateTimeRoundTrip(m);
    assert QueryDateTime(ParseText(DateTimeLayout, t)) == Success(m);
  }

  /** A date whose text is longer than ten characters (a year past 9999) takes
      the date-time path of parseDate without a pattern, and fails there. */
  lemma ParseDateLongYearFails(d: LocalDate, engine: Engine)
    requires 10000 <= d.year <= MaxYear
    ensures ParseDate(Some(DateText(d)), None, engine).Failure?
  {
    DateFieldsRead(d, []);
    assert DateText(d) + [] == DateText(d);
    DecimalBounds(d.year, 4);
  }

  /** The date-time layout needs at least nineteen characters. */
  lemma DateTimeTextLength(s: string)
    ensures ParseText(DateTimeLayout, s).Success? ==> |s| >= 19
  {
    var f := DateFields(s);
    if f.Some? {
      var y := YearField(s);
      assert |y.value.1| <= |s| - 4;
      assert |f.value.3| <= |s| - 10;
    }
  }

  /** parseDate(String) passes the date-time pattern, so a bare date, or any
      text shorter than nineteen characters, fails. */
  lemma ParseDateDefaultNeedsTime(s: string, engine: Engine)
    requires |s| < 19
    ensures ParseDateDefault(Some(s), engine).Failure? || s == []
  {
    DateTimeTextLength(s);
  }

  // ---------------------------------------------------------------------
  // compare, isBefore, isAfter, isEqual

  /** compare(LocalDate, LocalDate): IllegalArgumentException on null; the
      sign of LocalDate.compareTo otherwise. */
  function CompareDates(a: Option<LocalDate>, b: Option<LocalDate>): (r: Result<int>)
    ensures r.Failure? <==> a.None? || b.None?
    ensures r.Failure? ==> r.error == NullArgument
    ensures r.Success? ==> (r.value < 0 <==> EpochDay(a.value) < EpochDay(b.value))
    ensures r.Success? ==> (r.value == 0 <==> a.value == b.value)
    ensures r.Success? ==> (r.value > 0 <==> EpochDay(a.value) > EpochDay(b.value))
  {
    if a.None? || b.None? then Failure(NullArgument)
    else
      LocalDates.CompareIsChronological(a.value, b.value);
      Success(LocalDates.Compare(a.value, b.value))
  }

  /** compare(LocalDateTime, LocalDateTime). */
  function CompareDateTimes(a: Option<Clock.LocalDateTime>, b: Option<Clock.LocalDateTime>): (r: Result<int>)
    ensures r.Failure? <==> a.None? || b.None?
    ensures r.Failure? ==> r.error == NullArgument
    ensures r.Success? ==> (r.value < 0 <==> Clock.EpochSecond(a.value) < Clock.EpochSecond(b.value))
    ensures r.Success? ==> (r.value == 0 <==> a.value == b.value)
    ensures r.Success? ==> (r.value > 0 <==> Clock.EpochSecond(a.value) > Clock.EpochSecond(b.value))
  {
    if a.None? || b.None? then Failure(NullArgument)
    else
      Clock.CompareDateTimesIsChronological(a.value, b.value);
      Success(Clock.CompareDateTimes(a.value, b.value))
  }

  /** Swapping the operands of compare negates its result. */
  lemma CompareAntisymmetric(a: Option<LocalDate>, b: Option<LocalDate>, c: Option<Clock.LocalDateTime>, d: Option<Clock.LocalDateTime>)
    ensures CompareDates(a, b).Success? ==> CompareDates(a, b).value == -CompareDates(b, a).value
    ensures CompareDateTimes(c, d).Success? ==> CompareDateTimes(c, d).value == -CompareDateTimes(d, c).value
  {
    if a.Some? && b.Some? {
      LocalDates.CompareIsChronological(a.value, b.value);
    }
    if c.Some? && d.Some? {
      Clock.CompareDateTimesIsChronological(c.value, d.value);
    }
  }

  /** isBefore(LocalDate, LocalDate): false when either is null. */
  predicate IsBefore(a: Option<LocalDate>, b: Option<LocalDate>)
    ensures IsBefore(a, b) <==> a.Some? && b.Some? && EpochDay(a.value) < EpochDay(b.value)
  {
    if a.None? || b.None? then false
    else
      LocalDates.CompareIsChronological(a.value, b.value);
      LocalDates.IsBefore(a.value, b.value)
  }

  /** isAfter(LocalDate, LocalDate). */
  predicate IsAfter(a: Option<LocalDate>, b: Option<LocalDate>)
    ensures IsAfter(a, b) <==> a.Some? && b.Some? && EpochDay(a.value) > EpochDay(b.value)
  {
    if a.None? || b.None? then false
    else
      LocalDates.CompareIsChronological(a.value, b.value);
      LocalDates.IsAfter(a.value, b.value)
  }

  /** isEqual(LocalDate, LocalDate). */
  predicate IsEqual(a: Option<LocalDate>, b: Option<LocalDate>)
    ensures IsEqual(a, b) <==> a.Some? && b.Some? && a.value == b.value
  {
    if a.None? || b.None? then false
    else
      LocalDates.CompareIsChronological(a.value, b.value);
      LocalDates.IsEqual(a.value, b.value)
  }

  /** Between two dates exactly one of the order predicates holds; isBefore is
      isAfter swapped; and each predicate agrees with the sign of compare. */
  lemma OrderPredicates(a: Option<LocalDate>, b: Option<LocalDate>)
    ensures a.Some? && b.Some? ==>
      || (IsBefore(a, b) && !IsEqual(a, b) && !IsAfter(a, b))
      || (!IsBefore(a, b) && IsEqual(a, b) && !IsAfter(a, b))
      || (!IsBefore(a, b) && !IsEqual(a, b) && IsAfter(a, b))
    ensures IsBefore(a, b) == IsAfter(b, a)
    ensures a.Some? && b.Some? ==> (IsBefore(a, b) <==> CompareDates(a, b).value < 0)
    ensures a.Some? && b.Some? ==> (IsEqual(a, b) <==> CompareDates(a, b).value == 0)
    ensures a.Some? && b.Some? ==> (IsAfter(a, b) <==> CompareDates(a, b).value > 0)
  {
    if a.Some? && b.Some? {
      LocalDates.OrderTrichotomy(a.value, b.value);
    }
  }

  // ---------------------------------------------------------------------
  // plus and minus

  /** plusYears(LocalDate, long): the same month and day in another year, 29
      February becoming the 28th in a common year. */
  function PlusYears(date: Option<LocalDate>, years: int): (r: Option<LocalDate>)
    ensures r.Some? <==> date.Some?
    ensures r.Some? ==> r.value.year == date.value.year + years && r.value.month == date.value.month
    ensures r.Some? ==> r.value.day == if date.value.month == 2 && date.value.day == 29 && !IsLeapYear(r.value.year) then 28 else date.value.day
  {
    if date.None? then None else Some(LocalDates.PlusYears(date.value, years))
  }

  /** plusMonths(LocalDate, long): the month moves by the given count and the
      day is kept or clamped to the end of the new month. */
  function PlusMonths(date: Option<LocalDate>, months: int): (r: Option<LocalDate>)
    ensures r.Some? <==> date.Some?
    ensures r.Some? ==> LocalDates.MonthIndex(r.value) == LocalDates.MonthIndex(date.value) + months
    ensures r.Some? ==> r.value.day == if date.value.day <= MonthLength(r.value.year, r.value.month) then date.value.day else MonthLength(r.value.year, r.value.month)
  {
    if date.None? then None else Some(LocalDates.PlusMonths(date.value, months))
  }

  /** plusDays(LocalDate, long). */
  function PlusDays(date: Option<LocalDate>, days: int): (r: Option<LocalDate>)
    ensures r.Some? <==> date.Some?
    ensures r.Some? ==> EpochDay(r.value) == EpochDay(date.value) + days
  {
    if date.None? then None else Some(LocalDates.PlusDays(date.value, days))
  }

  /** minusYears, minusMonths and minusDays on LocalDate: the plus operations
      with the count negated. */
  function MinusYears(date: Option<LocalDate>, years: int): (r: Option<LocalDate>)
    ensures r == PlusYears(date, -years)
  {
    if date.None? then None else Some(LocalDates.MinusYears(date.value, years))
  }

  function MinusMonths(date: Option<LocalDate>, months: int): (r: Option<LocalDate>)
    ensures r == PlusMonths(date, -months)
  {
    if date.None? then None else Some(LocalDates.MinusMonths(date.value, months))
  }

  function MinusDays(date: Option<LocalDate>, days: int): (r: Option<LocalDate>)
    ensures r == PlusDays(date, -days)
  {
    if date.None? then None else Some(LocalDates.MinusDays(date.value, days))
  }

  /** plusYears(LocalDateTime, long), plusMonths and plusDays: the date moves
      as a LocalDate does and the time of day is kept. */
  function DateTimePlusYears(dateTime: Option<Clock.LocalDateTime>, years: int): (r: Option<Clock.LocalDateTime>)
    ensures r.Some? <==> dateTime.Some?
    ensures r.Some? ==> r.value.time == dateTime.value.time && Some(r.value.date) == PlusYears(Some(dateTime.value.date), years)
  {
    if dateTime.None? then None else Some(Clock.PlusYears(dateTime.value, years))
  }

  function DateTimePlusMonths(dateTime: Option<Clock.LocalDateTime>, months: int): (r: Option<Clock.LocalDateTime>)
    ensures r.Some? <==> dateTime.Some?
    ensures r.Some? ==> r.value.time == dateTime.value.time && Some(r.value.date) == PlusMonths(Some(dateTime.value.date), months)
  {
    if dateTime.None? then None else Some(Clock.PlusMonths(dateTime.value, months))
  }

  function DateTimePlusDays(dateTime: Option<Clock.LocalDateTime>, days: int): (r: Option<Clock.LocalDateTime>)
    ensures r.Some? <==> dateTime.Some?
    ensures r.Some? ==> r.value.time == dateTime.value.time && EpochDay(r.value.date) == EpochDay(dateTime.value.date) + days
  {
    if dateTime.None? then None else Some(Clock.PlusDays(dateTime.value, days))
  }

  /** plusHours, plusMinutes and plusSeconds on LocalDateTime: a move along
      the line of seconds, carrying into the date. */
  function DateTimePlusHours(dateTime: Option<Clock.LocalDateTime>, hours: int): (r: Option<Clock.LocalDateTime>)
    ensures r.Some? <==> dateTime.Some?
    ensures r.Some? ==> Clock.EpochSecond(r.value) == Clock.EpochSecond(dateTime.value) + 3600 * hours
  {
    if dateTime.None? then None else Some(Clock.PlusHours(dateTime.value, hours))
  }

  function DateTimePlusMinutes(dateTime: Option<Clock.LocalDateTime>, minutes: int): (r: Option<Clock.LocalDateTime>)
    ensures r.Some? <==> dateTime.Some?
    ensures r.Some? ==> Clock.EpochSecond(r.value) == Clock.EpochSecond(dateTime.value) + 60 * minutes
  {
    if dateTime.None? then None else Some(Clock.PlusMinutes(dateTime.value, minutes))
  }

  function DateTimePlusSeconds(dateTime: Option<Clock.LocalDateTime>, seconds: int): (r: Option<Clock.LocalDateTime>)
    ensures r.Some? <==> dateTime.Some?
    ensures r.Some? ==> Clock.EpochSecond(r.value) == Clock.EpochSecond(dateTime.value) + seconds
  {
    if dateTime.None? then None else Some(Clock.PlusSeconds(dateTime.value, seconds))
  }

  /** Adding and then subtracting the same count returns the value. */
  lemma PlusMinusInverse(date: Option<LocalDate>, dateTime: Option<Clock.LocalDateTime>, n: int)
    ensures PlusDays(PlusDays(date, n), -n) == date
    ensures MinusDays(PlusDays(date, n), n) == date
    ensures DateTimePlusSeconds(DateTimePlusSeconds(dateTime, n), -n) == dateTime
  {
    if date.Some? {
      LocalDates.PlusDaysInverse(date.value, n);
    }
    if dateTime.Some? {
      Clock.PlusSecondsInverse(dateTime.value, n);
    }
  }

  // ---------------------------------------------------------------------
  // differences

  /** daysBetween(LocalDate, LocalDate): 0 when either is null. */
  function DaysBetween(start: Option<LocalDate>, end: Option<LocalDate>): (r: int)
    ensures start.None? || end.None? ==> r == 0
    ensures start.Some? && end.Some? ==> LocalDates.PlusDays(start.value, r) == end.value
  {
    if start.None? || end.None? then 0
    else
      LocalDates.DaysBetweenLaws(start.value, end.value, 0);
      LocalDates.DaysBetween(start.value, end.value)
  }

  /** daysBetween, hoursBetween, minutesBetween and secondsBetween on
      LocalDateTime: 0 when either is null, otherwise the complete units from
      start to end, truncated toward zero. */
  function DateTimeDaysBetween(start: Option<Clock.LocalDateTime>, end: Option<Clock.LocalDateTime>): (r: int)
    ensures start.None? || end.None? ==> r == 0
    ensures start.Some? && end.Some? ==> CountsUnits(r, SecondsBetween(start, end), Clock.SecondsPerDay)
  {
    if start.None? || end.None? then 0
    else
      Clock.QuotCountsCompleteUnits(Clock.SecondsBetween(start.value, end.value), Clock.SecondsPerDay);
      Clock.DaysBetween(start.value, end.value)
  }

  function HoursBetween(start: Option<Clock.LocalDateTime>, end: Option<Clock.LocalDateTime>): (r: int)
    ensures start.None? || end.None? ==> r == 0
    ensures start.Some? && end.Some? ==> CountsUnits(r, SecondsBetween(start, end), 3600)
  {
    if start.None? || end.None? then 0
    else
      Clock.QuotCountsCompleteUnits(Clock.SecondsBetween(start.value, end.value), 3600);
      Clock.HoursBetween(start.value, end.value)
  }

  function MinutesBetween(start: Option<Clock.LocalDateTime>, end: Option<Clock.LocalDateTime>): (r: int)
    ensures start.None? || end.None? ==> r == 0
    ensures start.Some? && end.Some? ==> CountsUnits(r, SecondsBetween(start, end), 60)
  {
    if start.None? || end.None? then 0
    else
      Clock.QuotCountsCompleteUnits(Clock.SecondsBetween(start.value, end.value), 60);
      Clock.MinutesBetween(start.value, end.value)
  }

  function SecondsBetween(start: Option<Clock.LocalDateTime>, end: Option<Clock.LocalDateTime>): (r: int)
    ensures start.None? || end.None? ==> r == 0
    ensures start.Some? && end.Some? ==> Clock.PlusSeconds(start.value, r) == end.value
  {
    if start.None? || end.None? then 0
    else
      Clock.SecondsBetween(start.value, end.value)
  }

  /** q counts the complete units of the given size in an amount, truncating
      toward zero as Java's integer division does. */
  predicate CountsUnits(q: int, amount: int, unit: int) {
    if amount >= 0 then 0 <= q * unit <= amount < q * unit + unit
    else q * unit - unit < amount <= q * unit <= 0
  }

  /** The day difference of dates vanishes from a date to itself, changes
      sign when the operands are swapped, and inverts plusDays. */
  lemma DateDifferenceLaws(a: Option<LocalDate>, b: Option<LocalDate>, n: int)
    ensures DaysBetween(a, a) == 0 && DaysBetween(a, b) == -DaysBetween(b, a)
    ensures a.Some? ==> DaysBetween(a, PlusDays(a, n)) == n
  {
    if a.Some? && b.Some? {
      LocalDates.DaysBetweenLaws(a.value, b.value, n);
    }
    if a.Some? {
      LocalDates.DaysBetweenLaws(a.value, a.value, n);
    }
  }

  /** The date-time differences vanish from a value to itself and change sign
      when the operands are swapped. */
  lemma DateTimeDifferenceAntisymmetric(s: Option<Clock.LocalDateTime>, t: Option<Clock.LocalDateTime>)
    ensures SecondsBetween(s, s) == 0 && SecondsBetween(s, t) == -SecondsBetween(t, s)
    ensures DateTimeDaysBetween(s, s) == 0 && DateTimeDaysBetween(s, t) == -DateTimeDaysBetween(t, s)
    ensures HoursBetween(s, t) == -HoursBetween(t, s) && MinutesBetween(s, t) == -MinutesBetween(t, s)
  {
    if s.Some? && t.Some? {
      Clock.BetweenAntisymmetric(s.value, t.value);
    }
    if s.Some? {
      Clock.BetweenAntisymmetric(s.value, s.value);
    }
  }

  /** Each date-time difference inverts the matching addition. */
  lemma DateTimeDifferenceInvertsPlus(s: Option<Clock.LocalDateTime>, n: int)
    requires s.Some?
    ensures SecondsBetween(s, DateTimePlusSeconds(s, n)) == n
    ensures MinutesBetween(s, DateTimePlusMinutes(s, n)) == n
    ensures HoursBetween(s, DateTimePlusHours(s, n)) == n
    ensures DateTimeDaysBetween(s, DateTimePlusDays(s, n)) == n
  {
    Clock.BetweenInvertsPlus(s.value, n);
    Clock.DaysBetweenInvertsPlusDays(s.value, n);
  }

  /** daysBetween on date-times agrees with java.time's date-based rule: the
      day difference of the dates, less one when the end's time of day has not
      reached the start's. */
  lemma DateTimeDaysBetweenByDates(s: Clock.LocalDateTime, t: Clock.LocalDateTime)
    ensures DateTimeDaysBetween(Some(s), Some(t)) == Clock.DaysBetweenByDates(s, t)
  {
    Clock.DaysBetweenAgreesWithDates(s, t);
  }

  // ---------------------------------------------------------------------
  // month and week boundaries, day of week, month length, leap years

  /** firstDayOfMonth(LocalDate). */
  function FirstDayOfMonth(date: Option<LocalDate>): (r: Option<LocalDate>)
    ensures r.Some? <==> date.Some?
    ensures r.Some? ==> r.value.year == date.value.year && r.value.month == date.value.month && r.value.day == 1
  {
    if date.None? then None else Some(LocalDates.FirstDayOfMonth(date.value))
  }

  /** lastDayOfMonth(LocalDate): the day is the month's length. */
  function LastDayOfMonth(date: Option<LocalDate>): (r: Option<LocalDate>)
    ensures r.Some? <==> date.Some?
    ensures r.Some? ==> r.value.year == date.value.year && r.value.month == date.value.month && r.value.day == GetDaysInMonth(date)
  {
    if date.None? then None else Some(LocalDates.LastDayOfMonth(date.value))
  }

  /** firstDayOfWeek(LocalDate): the Monday on or before the date. */
  function FirstDayOfWeek(date: Option<LocalDate>): (r: Option<LocalDate>)
    ensures r.Some? <==> date.Some?
    ensures r.Some? ==> DayOfWeek(r.value) == 1 && 0 <= LocalDates.DaysBetween(r.value, date.value) <= 6
  {
    if date.None? then None else Some(LocalDates.PreviousOrSame(date.value, 1))
  }

  /** lastDayOfWeek(LocalDate): the Sunday on or after the date. */
  function LastDayOfWeek(date: Option<LocalDate>): (r: Option<LocalDate>)
    ensures r.Some? <==> date.Some?
    ensures r.Some? ==> DayOfWeek(r.value) == 7 && 0 <= LocalDates.DaysBetween(date.value, r.value) <= 6
  {
    if date.None? then None else Some(LocalDates.NextOrSame(date.value, 7))
  }

  /** The week boundaries bracket the date within one ISO week: Monday to
      Sunday, six days apart. */
  lemma WeekBoundaries(date: LocalDate)
    ensures LocalDates.DaysBetween(FirstDayOfWeek(Some(date)).value, LastDayOfWeek(Some(date)).value) == 6
  {
    var m, s := FirstDayOfWeek(Some(date)).value, LastDayOfWeek(Some(date)).value;
    var k := LocalDates.DaysBetween(m, s);
    assert 0 <= k <= 12 by {
      assert k == LocalDates.DaysBetween(m, date) + LocalDates.DaysBetween(date, s);
    }
    assert LocalDates.PlusDays(m, k) == s by {
      LocalDates.DaysBetweenLaws(m, s, 0);
    }
    LocalDates.DayOfWeekAfter(m, k);
    assert k % 7 == 6;
  }

  /** isWeekend(LocalDate): Saturday or Sunday; false for null. */
  predicate IsWeekend(date: Option<LocalDate>)
    ensures IsWeekend(date) <==> date.Some? && (DayOfWeek(date.value) == 6 || DayOfWeek(date.value) == 7)
  {
    if date.None? then false
    else
      var dow := DayOfWeek(date.value);
      if dow == 6 || dow == 7 then true else false
  }

  /** isWeekday(LocalDate): false for null, otherwise not isWeekend. */
  predicate IsWeekday(date: Option<LocalDate>)
    ensures IsWeekday(date) <==> date.Some? && 1 <= DayOfWeek(date.value) <= 5
  {
    if date.None? then false else !IsWeekend(date)
  }

  /** getDayOfWeek(LocalDate): Monday 1 to Sunday 7 (ISO 8601:2004, section
      4.1.4), 0 for null. */
  function GetDayOfWeek(date: Option<LocalDate>): (r: int)
    ensures r == 0 <==> date.None?
    ensures date.Some? ==> 1 <= r <= 7 && r == DayOfWeek(date.value)
  {
    if date.None? then 0
    else
      var day := DayOfWeek(date.value);
      if day == 7 then 7 else day
  }

  /** getDaysInMonth(LocalDate): 28 to 31, 29 exactly for February of a leap
      year; 0 for null. */
  function GetDaysInMonth(date: Option<LocalDate>): (r: int)
    ensures date.None? ==> r == 0
    ensures date.Some? ==> 28 <= r <= 31
    ensures date.Some? ==> (r == 29 <==> date.value.month == 2 && IsLeapYear(date.value.year))
  {
    if date.None? then 0 else MonthLength(date.value.year, date.value.month)
  }

  /** isLeapYear(int): LocalDate.of(year, 1, 1) throws for a year outside
      java.time's range; otherwise the Gregorian rule. */
  function IsLeapYearOf(year: int): (r: Result<bool>)
    ensures r.Success? <==> -MaxYear <= year <= MaxYear
    ensures r.Failure? ==> r.error == YearOutOfRange
    ensures r.Success? ==> (r.value <==> (year % 4 == 0 && year % 100 != 0) || year % 400 == 0)
  {
    if -MaxYear <= year <= MaxYear then Success(IsLeapYear(year)) else Failure(YearOutOfRange)
  }

  /** isLeapYear(LocalDate): false for null. */
  predicate IsLeapYearOfDate(date: Option<LocalDate>)
    ensures IsLeapYearOfDate(date) <==> date.Some? && IsLeapYear(date.value.year)
  {
    date.Some? && IsLeapYear(date.value.year)
  }

  /** The two isLeapYear overloads agree on every year that LocalDate.of
      accepts. */
  lemma LeapYearOverloadsAgree(date: LocalDate)
    requires -MaxYear <= date.year <= MaxYear
    ensures IsLeapYearOf(date.year) == Success(IsLeapYearOfDate(Some(date)))
  {
  }

  /** The weekend and weekday predicates split every date, and both are false
      for null, and every other query maps null to 0 or null. */
  lemma WeekdayPolicy(date: Option<LocalDate>)
    ensures date.Some? ==> IsWeekday(date) == !IsWeekend(date)
    ensures date.None? ==> !IsWeekday(date) && !IsWeekend(date) && GetDayOfWeek(date) == 0 && GetDaysInMonth(date) == 0
    ensures date.None? ==> FirstDayOfMonth(date).None? && LastDayOfMonth(date).None? && FirstDayOfWeek(date).None? && LastDayOfWeek(date).None?
  {
  }
}
