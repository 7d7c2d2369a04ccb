# DateUtils in Dafny

A model of `com.raisetech.common.DateUtils`. This is a static utility class that wraps
`java.time` values (`LocalDate`, `LocalDateTime`, `LocalTime`) with a null policy. The
model covers:

- formatting and parsing with the three default patterns (`yyyy-MM-dd`,
  `yyyy-MM-dd HH:mm:ss`, `HH:mm:ss`)
- `parseDate` and its branching on input length and pattern
- compare, isBefore, isAfter and isEqual
- the plus and minus arithmetic by year, month, day, hour, minute and second
- the `*Between` differences
- month and week boundaries
- weekend, weekday, day of week, month length and leap year queries

A Java `null` is `None`, a returned value is `Some`, and a thrown exception
is a `Failure` carrying one of the exception kinds in `Outcomes.Error`.

Modules, from the bottom up:

- `Outcomes`: `Option`, `Result`, the exception kinds, and `s == null || s.isEmpty()`.
- `Calendar`: the proleptic Gregorian calendar that `java.time` uses.
  - A `LocalDate` is a valid year, month and day. Years are unbounded.
  - `EpochDay` numbers the days from 1970-01-01 and has a proved inverse, `FromEpochDay`.
  - `DayOfWeek` is ISO numbered: Monday is 1.
- `LocalDates`: what `LocalDate` does for DateUtils.
  - plusDays, plusMonths and plusYears. The day-of-month is clamped with `resolvePreviousValid`.
  - `compareTo`, `isBefore`, `isAfter` and `isEqual`.
  - `ChronoUnit.DAYS.between`.
  - the adjusters `firstDayOfMonth`, `lastDayOfMonth`, `previousOrSame` and `nextOrSame`.
- `Clock`: `LocalTime` and `LocalDateTime` at second precision.
  - A date-time's position on a line of seconds (`EpochSecond`, with a proved inverse).
  - The plus operations and the `*Between` differences. `ChronoUnit` truncates the
    seconds difference toward zero.
  - `LocalDateTime.compareTo`.
- `Text`: what the three default `DateTimeFormatter`s print and accept.
  - Printing: four-digit year-of-era, with a `+` sign past 9999, and two-digit fields.
  - Strict parsing of the fixed-width fields, then `java.time`'s SMART resolution.
    Days 1..31 are clamped to the month's length. Year-of-era 0 is rejected.
    `24:00:00` is accepted as midnight of the next day.
  - Patterns other than the three default strings are opaque. They go through an
    `Engine` parameter, which stands for `DateTimeFormatter.ofPattern` on that pattern.
- `DateUtils`: the public static methods, each a null guard around one of the above.

Behaviour a caller may not expect (only the first point contradicts the class's own documentation, which promises -1, 0 or 1):

- Both `compare` overloads return `compareTo`'s value. That is a field difference such as
  `2024 - 2021`, not just -1, 0 or 1. Only the sign is a promised value, and
  `DateUtils.CompareDates` states the sign.
- `parseDate(String, String)` tests `dateStr.length()` as given, without trimming.
- `parseDate(String)` passes the date-time pattern, so `parseDate("2024-02-29")` fails
  (`DateUtils.ParseDateDefaultNeedsTime`). Only the two-argument form with a null or empty
  pattern takes the ten-character date path.
- `yyyy` prints the year-of-era without the era, so a date before year 1 does not survive
  format-then-parse: it reads back in year 1 - year (`Text.EraLostInRoundTrip`), and
  0000-01-01 comes back as 0001-01-01 (`DateUtils.YearZeroReadsAsYearOne`).
- SMART resolution clamps an impossible day within 1..31 instead of rejecting it.
  `2023-02-29` parses as 2023-02-28 (`Text.KnownCommonYearClamp`). Only a day outside
  1..31, or a month outside 1..12, fails.

## Model

| member | source | states |
|---|---|---|
| Calendar.MonthLength | common/src/main/java/com/raisetech/common/DateUtils.java:867-873 | a month has 28 to 31 days, 29 exactly for February of a leap year and 28 for February of a common year |
| Calendar.FromEpochDay | common/src/main/java/com/raisetech/common/DateUtils.java:456-462 | every day number names a date whose epoch day is that number |
| Calendar.EpochDayRoundTrip | common/src/main/java/com/raisetech/common/DateUtils.java:456-462 | numbering a date and converting back gives the same date |
| Calendar.IsLeapYear | common/src/main/java/com/raisetech/common/DateUtils.java:881-884 | the Gregorian rule; `Calendar.LeapYearsHaveOneMoreDay` proves it agrees with the day count (366 days exactly in a leap year) and `Calendar.KnownLeapYears` checks the documented cases |
| Calendar.EpochDay | common/src/main/java/com/raisetech/common/DateUtils.java:456-462 | LocalDate.toEpochDay; `Calendar.FromEpochDay`, `Calendar.EpochDayRoundTrip` and `Calendar.EpochDayInjective` prove it a bijection, `Calendar.EpochDayOrder` that it follows calendar order |
| Calendar.EpochDayInjective | common/src/main/java/com/raisetech/common/DateUtils.java:667-673 | two dates have the same day number exactly when they are equal |
| Calendar.EpochDayOrder | common/src/main/java/com/raisetech/common/DateUtils.java:336-342 | a date earlier in (year, month, day) order has a smaller day number |
| Calendar.DayOfWeek | common/src/main/java/com/raisetech/common/DateUtils.java:847-859 | the ISO day of week lies in 1..7 |
| Calendar.KnownWeekDays | common/src/main/java/com/raisetech/common/DateUtils.java:847-859 | 1970-01-01 was a Thursday (4), 2000-01-01 a Saturday (6), 2024-01-01 a Monday (1) |
| Calendar.KnownLeapYears | common/src/main/java/com/raisetech/common/DateUtils.java:881-898 | 1900 and 2023 are common years; 2000 and 2024 are leap years |
| LocalDates.PlusDays | common/src/main/java/com/raisetech/common/DateUtils.java:456-462 | plusDays moves the day number by exactly n |
| LocalDates.PlusOneDayIsNextDay | common/src/main/java/com/raisetech/common/DateUtils.java:456-462 | adding one day rolls over the month and year ends as the calendar does |
| LocalDates.PlusDaysInverse | common/src/main/java/com/raisetech/common/DateUtils.java:591-597 | minusDays undoes plusDays |
| LocalDates.PlusDaysAdditive | common/src/main/java/com/raisetech/common/DateUtils.java:456-462 | two moves by a and b days are one move by a + b days |
| LocalDates.DaysBetween | common/src/main/java/com/raisetech/common/DateUtils.java:667-673 | moving the start by the result lands on the end |
| LocalDates.DaysBetweenLaws | common/src/main/java/com/raisetech/common/DateUtils.java:667-673 | daysBetween inverts plusDays, is antisymmetric, and is zero exactly for equal dates |
| LocalDates.Compare | common/src/main/java/com/raisetech/common/DateUtils.java:336-342 | LocalDate.compareTo0, the first non-zero field difference; `LocalDates.CompareIsChronological` states its sign and zero |
| LocalDates.CompareIsChronological | common/src/main/java/com/raisetech/common/DateUtils.java:336-342 | the sign of compareTo is chronological order, zero exactly for equal dates, and negated by a swap |
| LocalDates.IsBefore | common/src/main/java/com/raisetech/common/DateUtils.java:381-387 | true exactly when the first date has the smaller day number |
| LocalDates.IsAfter | common/src/main/java/com/raisetech/common/DateUtils.java:396-402 | true exactly when the first date has the larger day number |
| LocalDates.IsEqual | common/src/main/java/com/raisetech/common/DateUtils.java:411-417 | true exactly when the dates are equal |
| LocalDates.OrderTrichotomy | common/src/main/java/com/raisetech/common/DateUtils.java:381-417 | exactly one of isBefore, isEqual and isAfter holds; isBefore is isAfter swapped; isBefore means a positive day difference |
| LocalDates.ResolvePreviousValid | common/src/main/java/com/raisetech/common/DateUtils.java:426-447 | year and month are kept; the day is kept when the month has it, otherwise it becomes the month's last day |
| LocalDates.PlusMonths | common/src/main/java/com/raisetech/common/DateUtils.java:441-447 | the month count moves by n and the day is clamped to the new month's length |
| LocalDates.PlusYears | common/src/main/java/com/raisetech/common/DateUtils.java:426-432 | the year moves by n with the month kept; 29 February becomes the 28th in a common year |
| LocalDates.MinusYears | common/src/main/java/com/raisetech/common/DateUtils.java:561-567 | the year moves back by n with the month kept; 29 February becomes the 28th in a common year |
| LocalDates.MinusMonths | common/src/main/java/com/raisetech/common/DateUtils.java:576-582 | the month count moves back by n and the day is clamped to the new month's length |
| LocalDates.MinusDays | common/src/main/java/com/raisetech/common/DateUtils.java:591-597 | the day number moves back by n |
| LocalDates.PlusYearsIsTwelveMonths | common/src/main/java/com/raisetech/common/DateUtils.java:426-447 | adding n years is adding 12n months |
| LocalDates.PlusMonthsInverse | common/src/main/java/com/raisetech/common/DateUtils.java:576-582 | for days up to the 28th, minusMonths undoes plusMonths |
| LocalDates.EndOfMonthClamping | common/src/main/java/com/raisetech/common/DateUtils.java:426-447 | 2024-01-31 plus one month is 2024-02-29; 2023-01-31 gives 2023-02-28; 2024-02-29 plus one year is 2025-02-28 |
| LocalDates.FirstDayOfMonth | common/src/main/java/com/raisetech/common/DateUtils.java:758-764 | same year and month, day 1 |
| LocalDates.LastDayOfMonth | common/src/main/java/com/raisetech/common/DateUtils.java:772-778 | same year and month, day equal to the month's length |
| LocalDates.MonthBoundaries | common/src/main/java/com/raisetech/common/DateUtils.java:758-778 | the date lies day - 1 days after the first and length - day days before the last; the days just outside belong to other months |
| LocalDates.DayOfWeekAfter | common/src/main/java/com/raisetech/common/DateUtils.java:847-859 | n days later the day of week has advanced by n modulo 7 |
| LocalDates.PreviousOrSame | common/src/main/java/com/raisetech/common/DateUtils.java:786-792 | the result falls on the requested weekday, zero to six days before or on the date |
| LocalDates.NextOrSame | common/src/main/java/com/raisetech/common/DateUtils.java:800-806 | the result falls on the requested weekday, zero to six days on or after the date |
| LocalDates.NearestWeekday | common/src/main/java/com/raisetech/common/DateUtils.java:786-806 | no date strictly between the date and either result falls on that weekday |
| Clock.SecondOfDay | common/src/main/java/com/raisetech/common/DateUtils.java:516-552 | LocalTime.toSecondOfDay: a number in 0..86399; `Clock.SecondOfDayRoundTrip` and `Clock.FromSecondOfDay` make it a bijection onto that range |
| Clock.IntCompare | common/src/main/java/com/raisetech/common/DateUtils.java:351-357 | Integer.compare: -1, 0 or 1 by the order of its operands |
| Clock.FromSecondOfDay | common/src/main/java/com/raisetech/common/DateUtils.java:516-552 | every second of the day names a time whose second of day is that number |
| Clock.SecondOfDayRoundTrip | common/src/main/java/com/raisetech/common/DateUtils.java:516-552 | converting a time to its second of day and back gives the same time |
| Clock.CompareTimes | common/src/main/java/com/raisetech/common/DateUtils.java:351-357 | LocalTime.compareTo, Integer.compare field by field; `Clock.CompareTimesIsChronological` states it is the comparison of the seconds of day |
| Clock.CompareTimesIsChronological | common/src/main/java/com/raisetech/common/DateUtils.java:351-357 | comparing two times field by field agrees with comparing their seconds of day |
| Clock.AtStartOfDay | common/src/main/java/com/raisetech/common/DateUtils.java:294-317 | atStartOfDay keeps the date and sets the time to 00:00:00 |
| Clock.EpochSecond | common/src/main/java/com/raisetech/common/DateUtils.java:682-750 | LocalDateTime.toEpochSecond at offset zero; `Clock.EpochSecondRoundTrip` and `Clock.EpochSecondInjective` make it a bijection, and every plus, between and compare of date-times is stated through it |
| Clock.FromEpochSecond | common/src/main/java/com/raisetech/common/DateUtils.java:546-552 | every second count names a date-time at that position |
| Clock.EpochSecondRoundTrip | common/src/main/java/com/raisetech/common/DateUtils.java:546-552 | a date-time's position converts back to the same date-time |
| Clock.EpochSecondInjective | common/src/main/java/com/raisetech/common/DateUtils.java:744-750 | two date-times have the same position exactly when they are equal |
| Clock.PlusSeconds | common/src/main/java/com/raisetech/common/DateUtils.java:546-552 | plusSeconds moves the position by n seconds |
| Clock.PlusMinutes | common/src/main/java/com/raisetech/common/DateUtils.java:531-537 | plusMinutes moves the position by 60n seconds |
| Clock.PlusHours | common/src/main/java/com/raisetech/common/DateUtils.java:516-522 | plusHours moves the position by 3600n seconds |
| Clock.PlusDays | common/src/main/java/com/raisetech/common/DateUtils.java:501-507 | plusDays moves the date as LocalDate.plusDays does and keeps the time |
| Clock.PlusMonths | common/src/main/java/com/raisetech/common/DateUtils.java:486-492 | plusMonths moves the date as LocalDate.plusMonths does and keeps the time |
| Clock.PlusYears | common/src/main/java/com/raisetech/common/DateUtils.java:471-477 | plusYears moves the date as LocalDate.plusYears does and keeps the time |
| Clock.PlusSecondsCarries | common/src/main/java/com/raisetech/common/DateUtils.java:546-552 | adding seconds carries whole days into the date and leaves the remainder as the time of day |
| Clock.PlusSecondsFields | common/src/main/java/com/raisetech/common/DateUtils.java:546-552 | plusSeconds moves the epoch day by the floor quotient of the new second of day and leaves the remainder as the time |
| Clock.PlusSecondsInverse | common/src/main/java/com/raisetech/common/DateUtils.java:546-552 | plusSeconds by -n undoes plusSeconds by n |
| Clock.PlusSecondsAdditive | common/src/main/java/com/raisetech/common/DateUtils.java:546-552 | two moves by a and b seconds are one move by a + b |
| Clock.PlusDaysIsWholeDays | common/src/main/java/com/raisetech/common/DateUtils.java:501-507 | plusDays on a date-time is a move by 86400 seconds per day |
| Clock.Quot | common/src/main/java/com/raisetech/common/DateUtils.java:682-750 | Java's long division, truncating toward zero; `Clock.QuotCountsCompleteUnits` states what it counts |
| Clock.SecondsBetween | common/src/main/java/com/raisetech/common/DateUtils.java:744-750 | moving the start by the result lands on the end |
| Clock.MinutesBetween | common/src/main/java/com/raisetech/common/DateUtils.java:729-735 | the seconds difference in complete minutes; `Clock.BetweenInvertsPlus` and `Clock.BetweenAntisymmetric` state its laws |
| Clock.HoursBetween | common/src/main/java/com/raisetech/common/DateUtils.java:714-720 | the seconds difference in complete hours; `Clock.BetweenInvertsPlus` and `Clock.BetweenAntisymmetric` state its laws |
| Clock.DaysBetween | common/src/main/java/com/raisetech/common/DateUtils.java:682-688 | the seconds difference in complete days; `Clock.DaysBetweenInvertsPlusDays` and `Clock.BetweenAntisymmetric` state its laws |
| Clock.QuotCountsCompleteUnits | common/src/main/java/com/raisetech/common/DateUtils.java:682-750 | the truncated quotient counts only complete units, toward zero for both signs, and Quot(-a, b) == -Quot(a, b) |
| Clock.BetweenInvertsPlus | common/src/main/java/com/raisetech/common/DateUtils.java:714-750 | secondsBetween, minutesBetween and hoursBetween invert plusSeconds, plusMinutes and plusHours |
| Clock.DaysBetweenInvertsPlusDays | common/src/main/java/com/raisetech/common/DateUtils.java:682-688 | daysBetween on date-times inverts plusDays |
| Clock.BetweenAntisymmetric | common/src/main/java/com/raisetech/common/DateUtils.java:682-750 | each difference is zero from a value to itself and changes sign when the ends are swapped; secondsBetween is zero exactly for equal values |
| Clock.DaysBetweenByDates | common/src/main/java/com/raisetech/common/DateUtils.java:682-688 | LocalDateTime.until for DAYS: the date difference, with the end date moved one day back (or on) when its time of day has not reached the start's; `Clock.DaysBetweenAgreesWithDates` ties it to Clock.DaysBetween |
| Clock.DaysBetweenAgreesWithDates | common/src/main/java/com/raisetech/common/DateUtils.java:682-688 | the truncated day count equals the date difference, less one day when the end's time of day has not reached the start's |
| Clock.CompareDateTimes | common/src/main/java/com/raisetech/common/DateUtils.java:351-357 | LocalDateTime.compareTo0, the date comparison and then the time comparison; `Clock.CompareDateTimesIsChronological` states its sign and zero |
| Clock.CompareDateTimesIsChronological | common/src/main/java/com/raisetech/common/DateUtils.java:351-357 | the sign of compareTo is chronological order, zero exactly for equal values, and negated by a swap |
| Text.DigitChar | common/src/main/java/com/raisetech/common/DateUtils.java:94-104 | the printed digit reads back as its value |
| Text.Decimal | common/src/main/java/com/raisetech/common/DateUtils.java:94-104 | a decimal rendering is all digits and reads back as the number |
| Text.TwoDigits | common/src/main/java/com/raisetech/common/DateUtils.java:94-172 | a two-digit field is two digits that read back as the value |
| Text.FourDigits | common/src/main/java/com/raisetech/common/DateUtils.java:94-104 | a four-digit field is four digits that read back as the value |
| Text.YearOfEra | common/src/main/java/com/raisetech/common/DateUtils.java:94-104 | year-of-era is at least 1 and equals the year for years from 1 |
| Text.YearText | common/src/main/java/com/raisetech/common/DateUtils.java:94-104 | years 1..9999 print as four digits of their value; from 10000 the year-of-era prints as '+' and its decimal digits |
| Text.DecimalBounds | common/src/main/java/com/raisetech/common/DateUtils.java:94-104 | a number has at most k digits exactly when it is below 10^k |
| Text.DateText | common/src/main/java/com/raisetech/common/DateUtils.java:94-114 | for years 1..9999 the text is ten characters: year, '-', month, '-', day |
| Text.TimeText | common/src/main/java/com/raisetech/common/DateUtils.java:152-172 | the text is eight characters with ':' at positions 2 and 5 |
| Text.DateTimeText | common/src/main/java/com/raisetech/common/DateUtils.java:123-143 | for years 1..9999 the text is nineteen characters: the date text, ' ', the time text |
| Text.Format | common/src/main/java/com/raisetech/common/DateUtils.java:94-172 | a layout formats a value exactly when the value has the layout's fields, and fails with UnsupportedTemporalTypeException otherwise |
| Text.DigitRun | common/src/main/java/com/raisetech/common/DateUtils.java:207-285 | the run is all digits, at most max long, and stops only at a non-digit or at max |
| Text.YearField | common/src/main/java/com/raisetech/common/DateUtils.java:207-217 | the year field consumes at least four characters; an unsigned year is exactly four digits |
| Text.YearFieldReads | common/src/main/java/com/raisetech/common/DateUtils.java:207-217 | the printed year of any year from 1 to 999,999,999, four digits or '+' and more, reads back as that year up to the next non-digit |
| Text.Digits2 | common/src/main/java/com/raisetech/common/DateUtils.java:207-285 | a two-digit field is read exactly when the text starts with two digits |
| Text.DateFields | common/src/main/java/com/raisetech/common/DateUtils.java:207-217 | the raw yyyy-MM-dd fields; `Text.DateFieldsUnsigned` states when they are read and their values, `Text.DateFieldsRead` that printed fields read back |
| Text.TimeFields | common/src/main/java/com/raisetech/common/DateUtils.java:265-275 | the raw HH:mm:ss fields; `Text.TimeFieldsShape` states when they are read and their values, `Text.TimeFieldsRead` that printed fields read back |
| Text.DateTimeFields | common/src/main/java/com/raisetech/common/DateUtils.java:236-246 | the date fields, a space and the time fields; `Text.DateTimeFieldsUnsigned` states the split |
| Text.ResolveDate | common/src/main/java/com/raisetech/common/DateUtils.java:207-217 | a date is resolved exactly for year-of-era 1..999999999, month 1..12 and day 1..31, with an impossible day clamped to the month's end |
| Text.ResolveTime | common/src/main/java/com/raisetech/common/DateUtils.java:265-275 | a time is resolved exactly for 00:00:00..23:59:59 or 24:00:00, which is midnight with one excess day |
| Text.QueryDate | common/src/main/java/com/raisetech/common/DateUtils.java:207-217 | LocalDate.parse succeeds exactly when the parse produced a date |
| Text.QueryTime | common/src/main/java/com/raisetech/common/DateUtils.java:265-275 | LocalTime.parse succeeds exactly when the parse produced a time |
| Text.QueryDateTime | common/src/main/java/com/raisetech/common/DateUtils.java:236-246 | LocalDateTime.parse succeeds exactly when the parse produced both a date and a time |
| Text.OfPattern | common/src/main/java/com/raisetech/common/DateUtils.java:21-51 | each of the three default pattern strings compiles to its own layout, and every other pattern is opaque |
| Text.FormatWith | common/src/main/java/com/raisetech/common/DateUtils.java:94-172 | a default layout formats by the model; an opaque pattern by the engine |
| Text.ParseWith | common/src/main/java/com/raisetech/common/DateUtils.java:207-285 | a default layout parses by the model; an opaque pattern by the engine |
| Text.DateRoundTrip | common/src/main/java/com/raisetech/common/DateUtils.java:94-114 | every date in years 1..999,999,999 parses back from its yyyy-MM-dd text |
| Text.TimeRoundTrip | common/src/main/java/com/raisetech/common/DateUtils.java:152-172 | every whole-second time parses back from its HH:mm:ss text |
| Text.EraDateFieldsRead | common/src/main/java/com/raisetech/common/DateUtils.java:207-217 | the printed fields of a date before year 1 read back with year-of-era 1 - year in place of the year |
| Text.EraLostInRoundTrip | common/src/main/java/com/raisetech/common/DateUtils.java:94-114 | a date before year 1 reads back from its yyyy-MM-dd text as the year 1 - year date, and never as itself |
| Text.DateTimeRoundTrip | common/src/main/java/com/raisetech/common/DateUtils.java:123-143 | every whole-second date-time in years 1..999,999,999 parses back from its yyyy-MM-dd HH:mm:ss text |
| Text.ParseText | common/src/main/java/com/raisetech/common/DateUtils.java:207-285 | strict parsing of the three layouts then SMART resolution; `Text.DateParseAccepts`, `Text.TimeParseAccepts`, `Text.DateTimeParseSplits` and `Text.DateTimeParseJoins` state what it accepts and returns, the round-trip lemmas that it reads printed values back |
| Text.DateParseAccepts | common/src/main/java/com/raisetech/common/DateUtils.java:207-217 | unsigned text parses as a date exactly when it has the 4-2-2 shape with '-' separators, a non-zero year, month 1..12 and day 1..31 |
| Text.TimeParseAccepts | common/src/main/java/com/raisetech/common/DateUtils.java:265-275 | text parses as a time exactly when it has the 2-2-2 shape with ':' separators and an hour, minute and second SMART resolution accepts |
| Text.DateTextCanonical | common/src/main/java/com/raisetech/common/DateUtils.java:207-217 | unsigned text that parses to a date is printed back unchanged exactly when its day was not clamped |
| Text.DateTextOfFields | common/src/main/java/com/raisetech/common/DateUtils.java:94-104 | a shaped date text is the printed text of a date with its year and month exactly when the date also has its day |
| Text.TimeTextCanonical | common/src/main/java/com/raisetech/common/DateUtils.java:265-275 | text that parses to a time is printed back unchanged exactly when its hour is not 24 |
| Text.DateTimeFieldsUnsigned | common/src/main/java/com/raisetech/common/DateUtils.java:236-246 | unsigned date-time fields are the date fields of the first ten characters, a space, and the time fields of the rest |
| Text.DateTimeParseSplits | common/src/main/java/com/raisetech/common/DateUtils.java:236-246 | unsigned text parses as a date-time exactly when it is a date, ' ' and a time that each parse |
| Text.DateTimeParseJoins | common/src/main/java/com/raisetech/common/DateUtils.java:236-246 | an accepted date-time is the accepted date at the accepted time, moved one day on for "24:00:00" |
| Text.DateTextParses | common/src/main/java/com/raisetech/common/DateUtils.java:207-217 | a shaped date text parses to the resolved date of its digits, and fails when the year-of-era is 0, the month outside 1..12 or the day outside 1..31 |
| Text.KnownLeapDay | common/src/main/java/com/raisetech/common/DateUtils.java:207-217 | "2024-02-29" parses as 29 February 2024 |
| Text.KnownCommonYearClamp | common/src/main/java/com/raisetech/common/DateUtils.java:207-217 | "2023-02-29" parses as 2023-02-28 |
| Text.KnownShortMonthClamp | common/src/main/java/com/raisetech/common/DateUtils.java:207-217 | "2024-04-31" parses as 2024-04-30 |
| Text.KnownMonthOutOfRange | common/src/main/java/com/raisetech/common/DateUtils.java:207-217 | month 13 fails to parse |
| Text.KnownYearZero | common/src/main/java/com/raisetech/common/DateUtils.java:207-217 | year-of-era 0000 fails to parse |
| Text.KnownDateShapeErrors | common/src/main/java/com/raisetech/common/DateUtils.java:207-217 | "2024-3-01" and "2024/03/01" fail to parse |
| Text.KnownSignedYearText | common/src/main/java/com/raisetech/common/DateUtils.java:94-114 | the year 12024 prints as "+12024-03-01" |
| Text.KnownFiveDigitYear | common/src/main/java/com/raisetech/common/DateUtils.java:207-217 | "+12024-03-01" parses and "12024-03-01" does not |
| Text.TimeTextParses | common/src/main/java/com/raisetech/common/DateUtils.java:265-275 | a shaped time text parses to the resolved time of its digits, and fails when the resolver refuses them |
| Text.KnownEndOfDay | common/src/main/java/com/raisetech/common/DateUtils.java:265-275 | "24:00:00" parses as midnight |
| Text.KnownLastSecond | common/src/main/java/com/raisetech/common/DateUtils.java:265-275 | "23:59:59" parses as itself |
| Text.KnownTimeErrors | common/src/main/java/com/raisetech/common/DateUtils.java:265-275 | "24:00:01", "12:60:00" and "25:00:00" fail to parse |
| Text.KnownUnpaddedHour | common/src/main/java/com/raisetech/common/DateUtils.java:265-275 | "9:00:00" fails to parse |
| DateUtils.FormatterFor | common/src/main/java/com/raisetech/common/DateUtils.java:94-104 | a null or empty pattern selects the kind's default formatter; any other goes through ofPattern |
| DateUtils.FormatDate | common/src/main/java/com/raisetech/common/DateUtils.java:94-104 | null gives null; a null or empty pattern gives the yyyy-MM-dd text; otherwise the compiled pattern's result |
| DateUtils.FormatDateDefault | common/src/main/java/com/raisetech/common/DateUtils.java:112-114 | null exactly for null; otherwise the yyyy-MM-dd text |
| DateUtils.FormatDateTime | common/src/main/java/com/raisetech/common/DateUtils.java:123-133 | null gives null; a null or empty pattern gives the yyyy-MM-dd HH:mm:ss text; otherwise the compiled pattern's result |
| DateUtils.FormatDateTimeDefault | common/src/main/java/com/raisetech/common/DateUtils.java:141-143 | null exactly for null; otherwise the yyyy-MM-dd HH:mm:ss text |
| DateUtils.FormatTime | common/src/main/java/com/raisetech/common/DateUtils.java:152-162 | null gives null; a null or empty pattern gives the HH:mm:ss text; otherwise the compiled pattern's result |
| DateUtils.FormatTimeDefault | common/src/main/java/com/raisetech/common/DateUtils.java:170-172 | null exactly for null; otherwise the HH:mm:ss text |
| DateUtils.FormatDefaultsAgree | common/src/main/java/com/raisetech/common/DateUtils.java:94-172 | the one-argument overloads equal the two-argument ones with the default, null or empty pattern, for every engine |
| DateUtils.FormatMissingFields | common/src/main/java/com/raisetech/common/DateUtils.java:94-162 | formatting a date with a time pattern, or a time with a date pattern, throws UnsupportedTemporalTypeException |
| DateUtils.ParseLocalDate | common/src/main/java/com/raisetech/common/DateUtils.java:207-217 | null or empty text gives null; otherwise LocalDate.parse with the selected formatter |
| DateUtils.ParseLocalDateDefault | common/src/main/java/com/raisetech/common/DateUtils.java:225-227 | null or empty text gives null; otherwise LocalDate.parse with yyyy-MM-dd |
| DateUtils.ParseLocalDateTime | common/src/main/java/com/raisetech/common/DateUtils.java:236-246 | null or empty text gives null; otherwise LocalDateTime.parse with the selected formatter |
| DateUtils.ParseLocalDateTimeDefault | common/src/main/java/com/raisetech/common/DateUtils.java:254-256 | null or empty text gives null; otherwise LocalDateTime.parse with yyyy-MM-dd HH:mm:ss |
| DateUtils.ParseLocalTime | common/src/main/java/com/raisetech/common/DateUtils.java:265-275 | null or empty text gives null; otherwise LocalTime.parse with the selected formatter |
| DateUtils.ParseLocalTimeDefault | common/src/main/java/com/raisetech/common/DateUtils.java:283-285 | null or empty text gives null; otherwise LocalTime.parse with HH:mm:ss |
| DateUtils.ParseDefaultsAgree | common/src/main/java/com/raisetech/common/DateUtils.java:207-285 | the one-argument parse overloads equal the two-argument ones with the default, null or empty pattern, for every engine |
| DateUtils.DefaultDateRoundTrip | common/src/main/java/com/raisetech/common/DateUtils.java:112-114 | parseLocalDate(format(d)) == d for null and every date in years 1..999,999,999; `DateUtils.YearZeroReadsAsYearOne` and `Text.EraLostInRoundTrip` show the years before 1 failing |
| DateUtils.YearZeroReadsAsYearOne | common/src/main/java/com/raisetech/common/DateUtils.java:112-114 | parseLocalDate(format(0000-01-01)) is 0001-01-01 |
| DateUtils.DefaultDateTimeRoundTrip | common/src/main/java/com/raisetech/common/DateUtils.java:141-143 | parseLocalDateTime(format(v)) == v for null and every whole-second date-time in years 1..999,999,999 |
| DateUtils.DefaultTimeRoundTrip | common/src/main/java/com/raisetech/common/DateUtils.java:170-172 | parseLocalTime(format(t)) == t for null and every whole-second time |
| DateUtils.PatternFormatsRoundTrip | common/src/main/java/com/raisetech/common/DateUtils.java:94-217 | with a null, empty or default pattern, formatting a date succeeds and parsing the text with the same pattern returns the date |
| Outcomes.IsNullOrEmpty | common/src/main/java/com/raisetech/common/DateUtils.java:208-212 | Java's null-or-empty test on a string, as the format and parse overloads apply it; `DateUtils.ParseNullPolicy` states its effect on every parse |
| DateUtils.ParseNullPolicy | common/src/main/java/com/raisetech/common/DateUtils.java:207-285 | null or empty text gives null for every pattern; other text parses exactly when its layout accepts it |
| DateUtils.ParseDate | common/src/main/java/com/raisetech/common/DateUtils.java:294-317 | null or empty text gives null |
| DateUtils.ParseDateDefault | common/src/main/java/com/raisetech/common/DateUtils.java:325-327 | parseDate(String) is parseDate with the date-time pattern |
| DateUtils.StartOfDayOf | common/src/main/java/com/raisetech/common/DateUtils.java:294-317 | atStartOfDay on a date parse: a parsed date becomes that date at 00:00:00; null and a parse failure are passed on |
| DateUtils.ParseDateWithoutPattern | common/src/main/java/com/raisetech/common/DateUtils.java:300-306 | with a null or empty pattern, ten-character text parses as a date at 00:00:00 and any other text as a date-time |
| DateUtils.ParseDateWithPattern | common/src/main/java/com/raisetech/common/DateUtils.java:307-314 | with a pattern, exactly "yyyy-MM-dd" parses as a date at 00:00:00; any other pattern parses as a date-time |
| DateUtils.ParseDateOfDateText | common/src/main/java/com/raisetech/common/DateUtils.java:294-317 | without a pattern, a date's text gives that date's midnight, for four-digit years |
| DateUtils.ParseDateOfMidnightText | common/src/main/java/com/raisetech/common/DateUtils.java:294-317 | without a pattern, the text of a midnight gives that midnight back, for four-digit years |
| DateUtils.ParseDateLongYearFails | common/src/main/java/com/raisetech/common/DateUtils.java:300-306 | a date past 9999 has text longer than ten characters, so the date-time path is taken and fails |
| DateUtils.DateTimeTextLength | common/src/main/java/com/raisetech/common/DateUtils.java:236-246 | the date-time layout accepts only text of at least nineteen characters |
| DateUtils.ParseDateDefaultNeedsTime | common/src/main/java/com/raisetech/common/DateUtils.java:325-327 | parseDate(String) fails on every non-empty text shorter than nineteen characters, a bare date included |
| DateUtils.CompareDates | common/src/main/java/com/raisetech/common/DateUtils.java:336-342 | throws IllegalArgumentException exactly when an operand is null; otherwise the sign is chronological order and zero means equal |
| DateUtils.CompareDateTimes | common/src/main/java/com/raisetech/common/DateUtils.java:351-357 | throws IllegalArgumentException exactly when an operand is null; otherwise the sign is chronological order and zero means equal |
| DateUtils.CompareAntisymmetric | common/src/main/java/com/raisetech/common/DateUtils.java:336-357 | swapping the operands negates the result |
| DateUtils.IsBefore | common/src/main/java/com/raisetech/common/DateUtils.java:381-387 | true exactly when both are present and the first is earlier |
| DateUtils.IsAfter | common/src/main/java/com/raisetech/common/DateUtils.java:396-402 | true exactly when both are present and the first is later |
| DateUtils.IsEqual | common/src/main/java/com/raisetech/common/DateUtils.java:411-417 | true exactly when both are present and equal |
| DateUtils.OrderPredicates | common/src/main/java/com/raisetech/common/DateUtils.java:336-417 | exactly one order predicate holds for two dates; isBefore is isAfter swapped; each agrees with the sign of compare |
| DateUtils.PlusYears | common/src/main/java/com/raisetech/common/DateUtils.java:426-432 | null gives null; otherwise the year moves by n, the month is kept, and 29 February becomes the 28th in a common year |
| DateUtils.PlusMonths | common/src/main/java/com/raisetech/common/DateUtils.java:441-447 | null gives null; otherwise the month count moves by n and the day is clamped to the month's length |
| DateUtils.PlusDays | common/src/main/java/com/raisetech/common/DateUtils.java:456-462 | null gives null; otherwise the day number moves by n |
| DateUtils.MinusYears | common/src/main/java/com/raisetech/common/DateUtils.java:561-567 | minusYears is plusYears by -n, null included |
| DateUtils.MinusMonths | common/src/main/java/com/raisetech/common/DateUtils.java:576-582 | minusMonths is plusMonths by -n, null included |
| DateUtils.MinusDays | common/src/main/java/com/raisetech/common/DateUtils.java:591-597 | minusDays is plusDays by -n, null included |
| DateUtils.DateTimePlusYears | common/src/main/java/com/raisetech/common/DateUtils.java:471-477 | null gives null; otherwise the date moves as plusYears on dates and the time is kept |
| DateUtils.DateTimePlusMonths | common/src/main/java/com/raisetech/common/DateUtils.java:486-492 | null gives null; otherwise the date moves as plusMonths on dates and the time is kept |
| DateUtils.DateTimePlusDays | common/src/main/java/com/raisetech/common/DateUtils.java:501-507 | null gives null; otherwise the day number moves by n and the time is kept |
| DateUtils.DateTimePlusHours | common/src/main/java/com/raisetech/common/DateUtils.java:516-522 | null gives null; otherwise the position moves by 3600n seconds |
| DateUtils.DateTimePlusMinutes | common/src/main/java/com/raisetech/common/DateUtils.java:531-537 | null gives null; otherwise the position moves by 60n seconds |
| DateUtils.DateTimePlusSeconds | common/src/main/java/com/raisetech/common/DateUtils.java:546-552 | null gives null; otherwise the position moves by n seconds |
| DateUtils.PlusMinusInverse | common/src/main/java/com/raisetech/common/DateUtils.java:456-597 | subtracting what was added returns the value, null included |
| DateUtils.DaysBetween | common/src/main/java/com/raisetech/common/DateUtils.java:667-673 | 0 when either is null; otherwise adding the result to the start gives the end |
| DateUtils.DateTimeDaysBetween | common/src/main/java/com/raisetech/common/DateUtils.java:682-688 | 0 when either is null; otherwise the complete days between the two, truncated toward zero |
| DateUtils.HoursBetween | common/src/main/java/com/raisetech/common/DateUtils.java:714-720 | 0 when either is null; otherwise the complete hours between the two, truncated toward zero |
| DateUtils.MinutesBetween | common/src/main/java/com/raisetech/common/DateUtils.java:729-735 | 0 when either is null; otherwise the complete minutes between the two, truncated toward zero |
| DateUtils.SecondsBetween | common/src/main/java/com/raisetech/common/DateUtils.java:744-750 | 0 when either is null; otherwise adding the result to the start gives the end |
| DateUtils.DateDifferenceLaws | common/src/main/java/com/raisetech/common/DateUtils.java:667-673 | daysBetween of dates is zero from a date to itself, changes sign under a swap, and inverts plusDays |
| DateUtils.DateTimeDifferenceAntisymmetric | common/src/main/java/com/raisetech/common/DateUtils.java:682-750 | the date-time differences are zero from a value to itself and change sign under a swap |
| DateUtils.DateTimeDifferenceInvertsPlus | common/src/main/java/com/raisetech/common/DateUtils.java:682-750 | seconds-, minutes-, hours- and daysBetween invert plusSeconds, plusMinutes, plusHours and plusDays |
| DateUtils.DateTimeDaysBetweenByDates | common/src/main/java/com/raisetech/common/DateUtils.java:682-688 | the day count on date-times is the date difference, less one when the end's time of day has not reached the start's |
| DateUtils.FirstDayOfMonth | common/src/main/java/com/raisetech/common/DateUtils.java:758-764 | null gives null; otherwise day 1 of the same month |
| DateUtils.LastDayOfMonth | common/src/main/java/com/raisetech/common/DateUtils.java:772-778 | null gives null; otherwise the same month with the day equal to getDaysInMonth |
| DateUtils.FirstDayOfWeek | common/src/main/java/com/raisetech/common/DateUtils.java:786-792 | null gives null; otherwise a Monday zero to six days before or on the date |
| DateUtils.LastDayOfWeek | common/src/main/java/com/raisetech/common/DateUtils.java:800-806 | null gives null; otherwise a Sunday zero to six days on or after the date |
| DateUtils.WeekBoundaries | common/src/main/java/com/raisetech/common/DateUtils.java:786-806 | the week's Monday and Sunday are exactly six days apart |
| DateUtils.IsWeekend | common/src/main/java/com/raisetech/common/DateUtils.java:814-825 | true exactly for a present Saturday or Sunday |
| DateUtils.IsWeekday | common/src/main/java/com/raisetech/common/DateUtils.java:833-839 | true exactly for a present Monday to Friday |
| DateUtils.GetDayOfWeek | common/src/main/java/com/raisetech/common/DateUtils.java:847-859 | 0 exactly for null; otherwise the ISO day of week in 1..7 |
| DateUtils.GetDaysInMonth | common/src/main/java/com/raisetech/common/DateUtils.java:867-873 | 0 for null; otherwise 28 to 31, with 29 exactly for February of a leap year |
| DateUtils.IsLeapYearOf | common/src/main/java/com/raisetech/common/DateUtils.java:881-884 | LocalDate.of throws exactly outside -999999999..999999999; otherwise year divisible by 4 and not by 100, or by 400 |
| DateUtils.IsLeapYearOfDate | common/src/main/java/com/raisetech/common/DateUtils.java:892-898 | true exactly for a present date in a leap year |
| DateUtils.LeapYearOverloadsAgree | common/src/main/java/com/raisetech/common/DateUtils.java:881-898 | the two isLeapYear overloads agree on every year LocalDate.of accepts; `Calendar.KnownLeapYears` checks the documented years |
| DateUtils.WeekdayPolicy | common/src/main/java/com/raisetech/common/DateUtils.java:758-873 | weekend and weekday split every date; null gives false, 0 or null throughout the query family |

## Left out

- The `java.util.Date` overloads are not modelled because they depend on the host's time zone and on `java.util.Date`. These are `format(Date)`, `daysBetween(Date, Date)`, `compare(Date, Date)`, `toLocalDate`, `toLocalDateTime` and `toDate`. For the same reason `parseDate` is modelled only up to the `LocalDateTime` it converts to a `Date`.
- `getCurrentDate`, `getCurrentDateTime` and `getCurrentTime` are not modelled because they read the system clock.
- `DEFAULT_TIME_ZONE` is not modelled; it is read by nothing that is modelled.
- GetterUtil is not part of this model. No modelled operation uses it.
- Patterns other than the three default strings are not interpreted. The `Engine` parameter stands for `DateTimeFormatter.ofPattern` on such a pattern, including the `IllegalArgumentException` it throws for a malformed one.
- `LocalDate`'s year range of -999,999,999..999,999,999 is modelled only where DateUtils can reach it: `isLeapYear(int)` and parsing with `yyyy`. Arithmetic is carried out on unbounded years, so `DateTimeException` past the range and `long` overflow of the counts are not modelled.
- `Clock`: only second precision is modelled; a time carries no nanosecond field. DateUtils can meet fractional seconds: `toLocalDateTime(Date)` keeps a `Date`'s milliseconds, and an explicit pattern with `S` parses a fraction. The `Date` overloads are not modelled and explicit patterns go through the opaque `Engine`, so no modelled operation produces one. The members below are stated for whole-second values only.
- `Text.TimeRoundTrip`, `Text.DateTimeRoundTrip`, `DateUtils.DefaultDateTimeRoundTrip` and `DateUtils.DefaultTimeRoundTrip`: hold for whole-second values only. The default patterns print no fraction, so in Java a value with a fraction does not survive the round trip.
- `Clock.SecondsBetween`, `Clock.MinutesBetween`, `Clock.HoursBetween` and `Clock.DaysBetween`: count between whole-second values only. In Java a sub-second difference is truncated away, or lowers the count by one when it runs against the whole-second difference.
- `Clock.CompareDateTimes` and `DateUtils.CompareDateTimes`: compare whole-second values only. In Java two date-times that differ only below a second compare unequal; the model cannot represent them.
- `Text.ParseText`: `+999999999-12-31 24:00:00` resolves to year 1,000,000,000, since the model's date arithmetic is unbounded. java.time throws `DateTimeException` there, because the next day lies past the largest `LocalDate`.
- `Text.YearText`: a year past 19 digits is printed in full. java.time could not hold such a year.
- `Text.YearField`: assumes every `char` is one UTF-16 unit, and treats only ASCII `0`-`9` as digits. This agrees with the default `DecimalStyle`.
- `DateUtils.CompareDates`: states only the sign and the zero of `compareTo`. Both overloads return the difference of the first unequal fields: year, month and day for dates, and the same for the date part of date-times. The time part of date-times is compared as -1, 0 or 1.
