/** The three default-pattern text forms of DateUtils ("yyyy-MM-dd",
    "yyyy-MM-dd HH:mm:ss" and "HH:mm:ss"), printed and parsed as a
    DateTimeFormatter built by ofPattern does it: strict parsing, ASCII
    digits, and the SMART resolver. Any other pattern is handed to an opaque
    formatting engine. */
module Text {
  import opened Outcomes
  import opened Calendar
  import opened Clock
  import LocalDates

  const DATE_FORMAT := "yyyy-MM-dd"
  const DATETIME_FORMAT := "yyyy-MM-dd HH:mm:ss"
  const TIME_FORMAT := "HH:mm:ss"

  /** The largest year java.time accepts (Year.MAX_VALUE). */
  const MaxYear := 999_999_999

  /** The fixed layouts the three default patterns compile to. */
  datatype Layout = DateLayout | DateTimeLayout | TimeLayout

  /** A value handed to a formatter: a LocalDate, a LocalDateTime or a LocalTime. */
  datatype Temporal =
    | DateValue(date: LocalDate)
    | DateTimeValue(dateTime: LocalDateTime)
    | TimeValue(time: LocalTime)

  /** The date fields a value supports, if any. */
  function DatePart(t: Temporal): Option<LocalDate> {
    match t
    case DateValue(d) => Some(d)
    case DateTimeValue(dt) => Some(dt.date)
    case TimeValue(_) => None
  }

  /** The time-of-day fields a value supports, if any. */
  function TimePart(t: Temporal): Option<LocalTime> {
    match t
    case DateValue(_) => None
    case DateTimeValue(dt) => Some(dt.time)
    case TimeValue(tm) => Some(tm)
  }

  // ---------------------------------------------------------------------
  // Digits

  /** DecimalStyle.STANDARD recognises only the ASCII digits. */
  predicate IsDigit(c: char) {
    '0' <= c <= '9'
  }

  predicate AllDigits(s: string) {
    forall i | 0 <= i < |s| :: IsDigit(s[i])
  }

  function DigitValue(c: char): int
    requires IsDigit(c)
  {
    c as int - '0' as int
  }

  function DigitChar(n: int): (c: char)
    requires 0 <= n < 10
    ensures IsDigit(c) && DigitValue(c) == n
  {
    ('0' as int + n) as char
  }

  function Pow10(k: nat): (p: nat)
    ensures p >= 1
  {
    if k == 0 then 1 else 10 * Pow10(k - 1)
  }

  /** The number a string of digits denotes, most significant digit first. */
  function ValueOf(s: string): (n: nat)
    requires AllDigits(s)
    ensures n < Pow10(|s|)
  {
    if s == [] then 0 else 10 * ValueOf(s[..|s| - 1]) + DigitValue(s[|s| - 1])
  }

  /** The decimal digits of n, without leading zeros. */
  function Decimal(n: nat): (s: string)
    ensures |s| >= 1 && AllDigits(s) && ValueOf(s) == n
  {
    if n < 10 then [DigitChar(n)]
    else
      var s := Decimal(n / 10) + [DigitChar(n % 10)];
      assert s[..|s| - 1] == Decimal(n / 10);
      s
  }

  /** The value of two digits. */
  lemma ValueOfTwo(s: string)
    requires |s| == 2 && AllDigits(s)
    ensures ValueOf(s) == 10 * DigitValue(s[0]) + DigitValue(s[1])
  {
    var a := s[..1];
    assert a[..0] == [] && a[0] == s[0];
    assert ValueOf(a) == DigitValue(s[0]);
    assert ValueOf(s) == 10 * ValueOf(a) + DigitValue(s[1]);
  }

  /** A field printed with exactly two digits, zero-padded ("MM", "dd",
      "HH", "mm", "ss"). */
  function TwoDigits(n: int): (s: string)
    requires 0 <= n < 100
    ensures |s| == 2 && AllDigits(s) && ValueOf(s) == n
  {
    var s := [DigitChar(n / 10), DigitChar(n % 10)];
    ValueOfTwo(s);
    s
  }

  /** A number of at most four digits, zero-padded to four. */
  function FourDigits(n: int): (s: string)
    requires 0 <= n < 10000
    ensures |s| == 4 && AllDigits(s) && ValueOf(s) == n
  {
    var s := TwoDigits(n / 100) + TwoDigits(n % 100);
    assert s[..2] == TwoDigits(n / 100) && s[2..] == TwoDigits(n % 100);
    ValueOfFour(s);
    s
  }

  /** The value of four digits is a hundred times that of the first pair plus
      that of the second pair. */
  lemma ValueOfFour(s: string)
    requires |s| == 4 && AllDigits(s)
    ensures ValueOf(s) == 100 * ValueOf(s[..2]) + ValueOf(s[2..])
  {
    var a := s[..3];
    assert a[..2] == s[..2];
    assert ValueOf(a) == 10 * ValueOf(s[..2]) + DigitValue(s[2]);
    ValueOfTwo(s[2..]);
  }

  /** Year-of-era, the field "yyyy" prints: the year itself from year 1 on,
      1 - year before it (the era is not printed). */
  function YearOfEra(year: int): (e: int)
    ensures e >= 1
    ensures year >= 1 ==> e == year
  {
    if year >= 1 then year else 1 - year
  }

  /** The "yyyy" field: year-of-era zero-padded to four digits, with a '+'
      sign in front once it needs more than four (SignStyle.EXCEEDS_PAD). */
  function YearText(year: int): (s: string)
    ensures |s| >= 4
    ensures 1 <= year <= 9999 ==> |s| == 4 && AllDigits(s) && ValueOf(s) == year
    ensures YearOfEra(year) >= 10000 ==> s[0] == '+' && s[1..] == Decimal(YearOfEra(year))
  {
    var e := YearOfEra(year);
    if e < 10000 then FourDigits(e)
    else
      DecimalBounds(e, 4);
      "+" + Decimal(e)
  }

  /** Decimal(n) has at most k digits exactly when n < 10^k. */
  lemma {:induction false} DecimalBounds(n: nat, k: nat)
    requires k >= 1
    ensures n < Pow10(k) <==> |Decimal(n)| <= k
  {
    if n >= 10 && k > 1 {
      DecimalBounds(n / 10, k - 1);
    }
  }

  // ---------------------------------------------------------------------
  // Printing

  /** ISO 8601 extended calendar date (section 4.1.2.2 of ISO 8601:2004),
      "yyyy-MM-dd". */
  function DateText(d: LocalDate): (s: string)
    ensures 1 <= d.year <= 9999 ==> |s| == 10 && s[4] == '-' && s[7] == '-'
  {
    YearText(d.year) + ("-" + (TwoDigits(d.month) + ("-" + TwoDigits(d.day))))
  }

  /** ISO 8601 extended local time (section 4.2.2.2 of ISO 8601:2004),
      "HH:mm:ss". */
  function TimeText(t: LocalTime): (s: string)
    ensures |s| == 8 && s[2] == ':' && s[5] == ':'
  {
    TwoDigits(t.hour) + (":" + (TwoDigits(t.minute) + (":" + TwoDigits(t.second))))
  }

  /** "yyyy-MM-dd HH:mm:ss": the date, a space, the time. */
  function DateTimeText(dt: LocalDateTime): (s: string)
    ensures 1 <= dt.date.year <= 9999 ==> |s| == 19 && s[10] == ' ' && s[..10] == DateText(dt.date) && s[11..] == TimeText(dt.time)
  {
    DateText(dt.date) + (" " + TimeText(dt.time))
  }

  /** TemporalAccessor formatting with a fixed layout: a field the value does
      not support raises UnsupportedTemporalTypeException. */
  function Format(layout: Layout, t: Temporal): (r: Result<string>)
    ensures r.Failure? ==> r.error == UnsupportedField
    ensures layout == DateLayout ==> (r.Success? <==> DatePart(t).Some?)
    ensures layout == TimeLayout ==> (r.Success? <==> TimePart(t).Some?)
    ensures layout == DateTimeLayout ==> (r.Success? <==> t.DateTimeValue?)
  {
    match layout
    case DateLayout =>
      if DatePart(t).Some? then Success(DateText(DatePart(t).value)) else Failure(UnsupportedField)
    case TimeLayout =>
      if TimePart(t).Some? then Success(TimeText(TimePart(t).value)) else Failure(UnsupportedField)
    case DateTimeLayout =>
      if t.DateTimeValue? then Success(DateTimeText(t.dateTime)) else Failure(UnsupportedField)
  }

  // ---------------------------------------------------------------------
  // Lexing

  /** How many digits s starts with, reading at most max of them (the width
      limit of a number field). */
  function DigitRun(s: string, max: nat): (n: nat)
    ensures n <= max && n <= |s| && AllDigits(s[..n])
    ensures n < max && n < |s| ==> !IsDigit(s[n])
  {
    if max == 0 || s == [] || !IsDigit(s[0]) then 0
    else
      var n := 1 + DigitRun(s[1..], max - 1);
      assert s[..n] == [s[0]] + s[1..][..n - 1];
      n
  }

  /** The "yyyy" field read strictly (width 4 to 19, EXCEEDS_PAD): exactly
      four digits, or '+' followed by more than four. A leading '-' reads as a
      negative year-of-era, which resolution always rejects, so it is refused
      here. Gives the year-of-era and the rest of the text. */
  function YearField(s: string): (r: Option<(int, string)>)
    ensures r.Some? ==> r.value.0 >= 0 && |r.value.1| <= |s| - 4 && r.value.1 == s[|s| - |r.value.1|..]
    ensures r.Some? && s[0] != '+' ==> AllDigits(s[..4]) && r.value == (ValueOf(s[..4]), s[4..])
  {
    if |s| > 0 && s[0] == '+' then
      var n := DigitRun(s[1..], 19);
      if n <= 4 then None else Some((ValueOf(s[1..][..n]), s[1 + n..]))
    else
      var n := DigitRun(s, 19);
      if n != 4 then None else Some((ValueOf(s[..4]), s[4..]))
  }

  /** A two-digit field read strictly: exactly two digits, no sign. */
  function Digits2(s: string): (r: Option<(int, string)>)
    ensures r.Some? <==> |s| >= 2 && IsDigit(s[0]) && IsDigit(s[1])
    ensures r.Some? ==> AllDigits(s[..2]) && r.value == (ValueOf(s[..2]), s[2..]) && 0 <= r.value.0 < 100
  {
    if |s| >= 2 && IsDigit(s[0]) && IsDigit(s[1]) then
      ValueOfTwo(s[..2]);
      Some((ValueOf(s[..2]), s[2..]))
    else None
  }

  /** A literal character of the pattern, matched case-sensitively. */
  function Expect(c: char, s: string): (r: Option<string>)
    ensures r.Some? <==> |s| > 0 && s[0] == c
    ensures r.Some? ==> r.value == s[1..]
  {
    if |s| > 0 && s[0] == c then Some(s[1..]) else None
  }

  /** The raw fields of "yyyy-MM-dd" at the start of s: year-of-era, month,
      day, and the text after them. */
  function DateFields(s: string): Option<(int, int, int, string)> {
    var y := YearField(s);
    if y.None? then None
    else
      var a := Expect('-', y.value.1);
      if a.None? then None
      else
        var m := Digits2(a.value);
        if m.None? then None
        else
          var b := Expect('-', m.value.1);
          if b.None? then None
          else
            var d := Digits2(b.value);
            if d.None? then None
            else Some((y.value.0, m.value.0, d.value.0, d.value.1))
  }

  /** The raw fields of "HH:mm:ss" at the start of s. */
  function TimeFields(s: string): Option<(int, int, int, string)> {
    var h := Digits2(s);
    if h.None? then None
    else
      var a := Expect(':', h.value.1);
      if a.None? then None
      else
        var m := Digits2(a.value);
        if m.None? then None
        else
          var b := Expect(':', m.value.1);
          if b.None? then None
          else
            var sec := Digits2(b.value);
            if sec.None? then None
            else Some((h.value.0, m.value.0, sec.value.0, sec.value.1))
  }

  /** The raw fields of "yyyy-MM-dd HH:mm:ss" when they make up the whole text. */
  function DateTimeFields(s: string): Option<(int, int, int, int, int, int)> {
    var f := DateFields(s);
    if f.None? then None
    else
      var sp := Expect(' ', f.value.3);
      if sp.None? then None
      else
        var g := TimeFields(sp.value);
        if g.None? || g.value.3 != [] then None
        else Some((f.value.0, f.value.1, f.value.2, g.value.0, g.value.1, g.value.2))
  }

  // ---------------------------------------------------------------------
  // Resolution (ResolverStyle.SMART)

  /** Year-of-era must lie in 1..MaxYear (it becomes the year, the era being
      CE by default), the month in 1..12 and the day in 1..31; a day past the
      end of the month is moved back to its last day. */
  function ResolveDate(yoe: int, month: int, day: int): (r: Option<LocalDate>)
    ensures r.Some? <==> 1 <= yoe <= MaxYear && 1 <= month <= 12 && 1 <= day <= 31
    ensures r.Some? ==> r.value.year == yoe && r.value.month == month
    ensures r.Some? && day <= MonthLength(yoe, month) ==> r.value.day == day
    ensures r.Some? && day > MonthLength(yoe, month) ==> r.value.day == MonthLength(yoe, month)
  {
    if 1 <= yoe <= MaxYear && 1 <= month <= 12 && 1 <= day <= 31 then
      Some(LocalDates.ResolvePreviousValid(yoe, month, day))
    else None
  }

  /** The minute must lie in 0..59; "24:00:00" is the end of the day, that is
      midnight with one excess day; otherwise the hour must lie in 0..23 and
      the second in 0..59. Gives the time and the excess days. */
  function ResolveTime(hour: int, minute: int, second: int): (r: Option<(LocalTime, int)>)
    ensures r.Some? <==> 0 <= minute <= 59 && ((0 <= hour <= 23 && 0 <= second <= 59) || (hour == 24 && minute == 0 && second == 0))
    ensures r.Some? && hour <= 23 ==> r.value == (Time(hour, minute, second), 0)
    ensures r.Some? && hour == 24 ==> r.value == (Midnight, 1)
  {
    if !(0 <= minute <= 59) then None
    else if hour == 24 && minute == 0 && second == 0 then Some((Midnight, 1))
    else if 0 <= hour <= 23 && 0 <= second <= 59 then Some((Time(hour, minute, second), 0))
    else None
  }

  /** What a parse leaves behind: the date and the time it could resolve. */
  datatype Parsed = Parsed(date: Option<LocalDate>, time: Option<LocalTime>)

  /** DateTimeFormatter.parse with a fixed layout: the whole text must match,
      and excess days from "24:00:00" are added to the date when there is one. */
  function ParseText(layout: Layout, s: string): Result<Parsed> {
    match layout
    case DateLayout =>
      var f := DateFields(s);
      if f.None? || f.value.3 != [] then Failure(ParseFailure)
      else
        var d := ResolveDate(f.value.0, f.value.1, f.value.2);
        if d.None? then Failure(ParseFailure) else Success(Parsed(Some(d.value), None))
    case TimeLayout =>
      var f := TimeFields(s);
      if f.None? || f.value.3 != [] then Failure(ParseFailure)
      else
        var t := ResolveTime(f.value.0, f.value.1, f.value.2);
        if t.None? then Failure(ParseFailure) else Success(Parsed(None, Some(t.value.0)))
    case DateTimeLayout =>
      var f := DateTimeFields(s);
      if f.None? then Failure(ParseFailure)
      else
        var (y, m, d, h, mi, sec) := f.value;
        var rd, rt := ResolveDate(y, m, d), ResolveTime(h, mi, sec);
        if rd.None? || rt.None? then Failure(ParseFailure)
        else Success(Parsed(Some(LocalDates.PlusDays(rd.value, rt.value.1)), Some(rt.value.0)))
  }

  /** LocalDate.from, LocalTime.from and LocalDateTime.from applied to a parse:
      a missing part is a parse failure. */
  function QueryDate(p: Result<Parsed>): (r: Result<LocalDate>)
    ensures r.Success? <==> p.Success? && p.value.date.Some?
    ensures r.Success? ==> r.value == p.value.date.value
  {
    if p.Failure? then Failure(p.error)
    else if p.value.date.None? then Failure(ParseFailure)
    else Success(p.value.date.value)
  }

  function QueryTime(p: Result<Parsed>): (r: Result<LocalTime>)
    ensures r.Success? <==> p.Success? && p.value.time.Some?
    ensures r.Success? ==> r.value == p.value.time.value
  {
    if p.Failure? then Failure(p.error)
    else if p.value.time.None? then Failure(ParseFailure)
    else Success(p.value.time.value)
  }

  function QueryDateTime(p: Result<Parsed>): (r: Result<LocalDateTime>)
    ensures r.Success? <==> p.Success? && p.value.date.Some? && p.value.time.Some?
    ensures r.Success? ==> r.value == LocalDateTime(p.value.date.value, p.value.time.value)
  {
    if p.Failure? then Failure(p.error)
    else if p.value.date.None? || p.value.time.None? then Failure(ParseFailure)
    else Success(LocalDateTime(p.value.date.value, p.value.time.value))
  }

  // ---------------------------------------------------------------------
  // Formatters

  /** A compiled formatter: one of the fixed layouts, or an explicit pattern
      whose meaning is left to the engine. */
  datatype Formatter = Fixed(layout: Layout) | Custom(pattern: string)

  /** The general pattern language, which this model does not interpret: how
      a pattern formats a value, and what parsing a text with it resolves to
      (including the IllegalArgumentException of a malformed pattern). */
  datatype Engine = Engine(format: (string, Temporal) -> Result<string>, parse: (string, string) -> Result<Parsed>)

  /** DateTimeFormatter.ofPattern: the three default patterns compile to their
      fixed layouts, any other pattern is opaque. */
  function OfPattern(p: string): (f: Formatter)
    ensures p == DATE_FORMAT <==> f == Fixed(DateLayout)
    ensures p == DATETIME_FORMAT <==> f == Fixed(DateTimeLayout)
    ensures p == TIME_FORMAT <==> f == Fixed(TimeLayout)
    ensures f.Custom? ==> f.pattern == p
  {
    if p == DATE_FORMAT then Fixed(DateLayout)
    else if p == DATETIME_FORMAT then Fixed(DateTimeLayout)
    else if p == TIME_FORMAT then Fixed(TimeLayout)
    else Custom(p)
  }

  /** TemporalAccessor.format(formatter). */
  function FormatWith(f: Formatter, e: Engine, t: Temporal): (r: Result<string>)
    ensures f.Fixed? ==> r == Format(f.layout, t)
    ensures f.Custom? ==> r == e.format(f.pattern, t)
  {
    match f
    case Fixed(layout) => Format(layout, t)
    case Custom(p) => e.format(p, t)
  }

  /** DateTimeFormatter.parse(text). */
  function ParseWith(f: Formatter, e: Engine, s: string): (r: Result<Parsed>)
    ensures f.Fixed? ==> r == ParseText(f.layout, s)
    ensures f.Custom? ==> r == e.parse(f.pattern, s)
  {
    match f
    case Fixed(layout) => ParseText(layout, s)
    case Custom(p) => e.parse(p, s)
  }

  // ---------------------------------------------------------------------
  // Reading printed fields back

  /** A run of digits followed by a non-digit is read whole. */
  lemma {:induction false} DigitRunOf(p: string, rest: string, max: nat)
    requires AllDigits(p) && |p| <= max
    requires rest == [] || !IsDigit(rest[0])
    ensures DigitRun(p + rest, max) == |p|
  {
    if p == [] {
      assert p + rest == rest;
    } else {
      assert (p + rest)[1..] == p[1..] + rest;
      DigitRunOf(p[1..], rest, max - 1);
    }
  }

  /** The "yyyy" field of any year from 1 to 999,999,999 reads back as that
      year, up to the first non-digit. */
  lemma YearFieldReads(year: int, rest: string)
    requires 1 <= year <= MaxYear
    requires |rest| > 0 && !IsDigit(rest[0])
    ensures YearField(YearText(year) + rest) == Some((year, rest))
  {
    if year < 10000 {
      FourDigitYearReads(year, rest);
    } else {
      SignedYearReads(year, rest);
    }
  }

  lemma FourDigitYearReads(year: int, rest: string)
    requires 1 <= year < 10000
    requires |rest| > 0 && !IsDigit(rest[0])
    ensures YearField(YearText(year) + rest) == Some((year, rest))
  {
    var y := YearText(year);
    var s := y + rest;
    DigitRunOf(y, rest, 19);
    assert s[..4] == y;
    assert s[4..] == rest;
  }

  /** A year from 10000 to 999,999,999 has five to nine digits. */
  lemma SignedYearDigits(year: int)
    requires 10000 <= year <= MaxYear
    ensures 4 < |Decimal(year)| <= 9
  {
    DecimalBounds(year, 9);
    DecimalBounds(year, 4);
    assert Pow10(4) == 10000;
  }

  lemma SignedYearReads(year: int, rest: string)
    requires 10000 <= year <= MaxYear
    requires |rest| > 0 && !IsDigit(rest[0])
    ensures YearField(YearText(year) + rest) == Some((year, rest))
  {
    var d := Decimal(year);
    SignedYearDigits(year);
    var y := YearText(year);
    assert y == "+" + d;
    var s := y + rest;
    assert s[1..] == d + rest;
    DigitRunOf(d, rest, 19);
    assert s[1..][..|d|] == d;
    assert s[1 + |d|..] == rest;
  }

  lemma Digits2Reads(n: int, rest: string)
    requires 0 <= n < 100
    ensures Digits2(TwoDigits(n) + rest) == Some((n, rest))
  {
    var s := TwoDigits(n) + rest;
    assert s[..2] == TwoDigits(n);
    assert s[2..] == rest;
  }

  lemma DateFieldsRead(d: LocalDate, rest: string)
    requires 1 <= d.year <= MaxYear
    ensures DateFields(DateText(d) + rest) == Some((d.year, d.month, d.day, rest))
  {
    var m, dd := TwoDigits(d.month), TwoDigits(d.day);
    var tail := "-" + (m + ("-" + (dd + rest)));
    assert DateText(d) + rest == YearText(d.year) + tail;
    YearFieldReads(d.year, tail);
    assert tail[1..] == m + ("-" + (dd + rest));
    Digits2Reads(d.month, "-" + (dd + rest));
    assert ("-" + (dd + rest))[1..] == dd + rest;
    Digits2Reads(d.day, rest);
  }

  /** The fields of a date before year 1 read back as its year-of-era: "yyyy"
      does not print the era. */
  lemma EraDateFieldsRead(d: LocalDate, rest: string)
    requires 1 - MaxYear <= d.year <= 0
    ensures DateFields(DateText(d) + rest) == Some((1 - d.year, d.month, d.day, rest))
  {
    var tail := "-" + (TwoDigits(d.month) + ("-" + (TwoDigits(d.day) + rest)));
    assert DateText(d) + rest == YearText(1 - d.year) + tail by {
      assert YearText(d.year) == YearText(1 - d.year);
    }
    FieldsTextRead(1 - d.year, d.month, d.day, rest);
  }

  lemma FieldsTextRead(year: int, month: int, day: int, rest: string)
    requires 1 <= year <= MaxYear && 1 <= month <= 12 && 1 <= day <= 31
    ensures DateFields(YearText(year) + ("-" + (TwoDigits(month) + ("-" + (TwoDigits(day) + rest)))))
            == Some((year, month, day, rest))
  {
    var m, dd := TwoDigits(month), TwoDigits(day);
    var tail := "-" + (m + ("-" + (dd + rest)));
    YearFieldReads(year, tail);
    assert tail[1..] == m + ("-" + (dd + rest));
    Digits2Reads(month, "-" + (dd + rest));
    assert ("-" + (dd + rest))[1..] == dd + rest;
    Digits2Reads(day, rest);
  }

  lemma TimeFieldsRead(t: LocalTime, rest: string)
    ensures TimeFields(TimeText(t) + rest) == Some((t.hour, t.minute, t.second, rest))
  {
    var m, sec := TwoDigits(t.minute), TwoDigits(t.second);
    var tail := ":" + (m + (":" + (sec + rest)));
    assert TimeText(t) + rest == TwoDigits(t.hour) + tail;
    Digits2Reads(t.hour, tail);
    assert tail[1..] == m + (":" + (sec + rest));
    Digits2Reads(t.minute, ":" + (sec + rest));
    assert (":" + (sec + rest))[1..] == sec + rest;
    Digits2Reads(t.second, rest);
  }

  /** "yyyy-MM-dd" round trip: parsing the text of a date gives the date back,
      for every year java.time can represent. */
  lemma DateRoundTrip(d: LocalDate)
    requires 1 <= d.year <= MaxYear
    ensures ParseText(DateLayout, DateText(d)) == Success(Parsed(Some(d), None))
  {
    var t := DateText(d);
    assert t + [] == t;
    DateFieldsRead(d, []);
    assert DateFields(t) == Some((d.year, d.month, d.day, []));
    assert ResolveDate(d.year, d.month, d.day) == Some(d);
  }

  /** A date before year 1 does not survive the "yyyy-MM-dd" round trip: it
      reads back in year 1 - year, with its day clamped to that year's month. */
  lemma EraLostInRoundTrip(d: LocalDate)
    requires 1 - MaxYear <= d.year <= 0
    ensures ParseText(DateLayout, DateText(d)) == Success(Parsed(ResolveDate(1 - d.year, d.month, d.day), None))
    ensures ParseText(DateLayout, DateText(d)) != Success(Parsed(Some(d), None))
  {
    var t := DateText(d);
    assert DateFields(t) == Some((1 - d.year, d.month, d.day, [])) by {
      assert t + [] == t;
      EraDateFieldsRead(d, []);
    }
    assert ResolveDate(1 - d.year, d.month, d.day) != Some(d);
  }

  /** "HH:mm:ss" round trip. */
  lemma TimeRoundTrip(t: LocalTime)
    ensures ParseText(TimeLayout, TimeText(t)) == Success(Parsed(None, Some(t)))
  {
    TimeFieldsRead(t, []);
    assert TimeText(t) + [] == TimeText(t);
  }

  lemma DateTimeFieldsRead(dt: LocalDateTime)
    requires 1 <= dt.date.year <= MaxYear
    ensures DateTimeFields(DateTimeText(dt)) == Some((dt.date.year, dt.date.month, dt.date.day, dt.time.hour, dt.time.minute, dt.time.second))
  {
    var tt := TimeText(dt.time);
    DateFieldsRead(dt.date, " " + tt);
    assert (" " + tt)[1..] == tt;
    TimeFieldsRead(dt.time, []);
    assert tt + [] == tt;
  }

  /** The resolver keeps valid fields as they are. */
  lemma ResolvesItself(dt: LocalDateTime)
    requires 1 <= dt.date.year <= MaxYear
    ensures ResolveDate(dt.date.year, dt.date.month, dt.date.day) == Some(dt.date)
    ensures ResolveTime(dt.time.hour, dt.time.minute, dt.time.second) == Some((dt.time, 0))
  {
  }

  /** "yyyy-MM-dd HH:mm:ss" round trip. */
  lemma DateTimeRoundTrip(dt: LocalDateTime)
    requires 1 <= dt.date.year <= MaxYear
    ensures ParseText(DateTimeLayout, DateTimeText(dt)) == Success(Parsed(Some(dt.date), Some(dt.time)))
  {
    DateTimeFieldsRead(dt);
    ResolvesItself(dt);
    LocalDates.PlusZeroDays(dt.date);
  }

  // ---------------------------------------------------------------------
  // What the fixed layouts accept

  /** "yyyy-MM-dd" with an unsigned four-digit year, at the start of s. */
  predicate DateShaped(s: string) {
    |s| >= 10 && AllDigits(s[..4]) && s[4] == '-' && IsDigit(s[5]) && IsDigit(s[6])
    && s[7] == '-' && IsDigit(s[8]) && IsDigit(s[9])
  }

  /** "HH:mm:ss" at the start of s. */
  predicate TimeShaped(s: string) {
    |s| >= 8 && IsDigit(s[0]) && IsDigit(s[1]) && s[2] == ':' && IsDigit(s[3]) && IsDigit(s[4])
    && s[5] == ':' && IsDigit(s[6]) && IsDigit(s[7])
  }

  /** Without a leading '+', the date fields are read exactly when the text
      starts with the fixed shape, from fixed positions. */
  lemma DateFieldsUnsigned(s: string)
    requires |s| == 0 || s[0] != '+'
    ensures DateFields(s).Some? <==> DateShaped(s)
    ensures DateShaped(s) ==> DateFields(s) == Some((ValueOf(s[..4]), ValueOf(s[5..7]), ValueOf(s[8..10]), s[10..]))
  {
    if DateShaped(s) {
      assert s == s[..4] + s[4..];
      DigitRunOf(s[..4], s[4..], 19);
      assert s[4..][1..] == s[5..];
      assert s[5..][..2] == s[5..7] && s[5..][2..] == s[7..];
      assert s[7..][1..] == s[8..];
      assert s[8..][..2] == s[8..10] && s[8..][2..] == s[10..];
    }
    if DateFields(s).Some? {
      assert YearField(s).value.1 == s[4..];
      assert s[4..][1..] == s[5..];
      assert s[5..][2..] == s[7..];
      assert s[7..][1..] == s[8..];
    }
  }

  lemma TimeFieldsShape(s: string)
    ensures TimeFields(s).Some? <==> TimeShaped(s)
    ensures TimeShaped(s) ==> TimeFields(s) == Some((ValueOf(s[..2]), ValueOf(s[3..5]), ValueOf(s[6..8]), s[8..]))
  {
    if |s| >= 3 {
      assert s[2..][1..] == s[3..];
    }
    if |s| >= 6 {
      assert s[3..][..2] == s[3..5] && s[3..][2..] == s[5..];
      assert s[5..][1..] == s[6..];
    }
    if |s| >= 8 {
      assert s[6..][..2] == s[6..8] && s[6..][2..] == s[8..];
    }
  }

  /** Parsing "yyyy-MM-dd" (text without a leading '+') succeeds exactly when
      the text has the fixed shape and length 10, the year-of-era is not 0000,
      the month is 01..12 and the day 01..31; the date is then resolved by
      ResolveDate. */
  lemma DateParseAccepts(s: string)
    requires |s| == 0 || s[0] != '+'
    ensures ParseText(DateLayout, s).Success? <==>
      |s| == 10 && DateShaped(s) && ValueOf(s[..4]) != 0
      && 1 <= ValueOf(s[5..7]) <= 12 && 1 <= ValueOf(s[8..10]) <= 31
    ensures ParseText(DateLayout, s).Success? ==>
      ParseText(DateLayout, s) == Success(Parsed(ResolveDate(ValueOf(s[..4]), ValueOf(s[5..7]), ValueOf(s[8..10])), None))
  {
    DateFieldsUnsigned(s);
  }

  /** Parsing "HH:mm:ss" succeeds exactly when the text has the fixed shape
      and length 8, the minute is 00..59, and either the hour is 00..23 with
      the second 00..59, or the text is "24:00:00". */
  lemma TimeParseAccepts(s: string)
    ensures ParseText(TimeLayout, s).Success? <==>
      |s| == 8 && TimeShaped(s) && ValueOf(s[3..5]) <= 59
      && ((ValueOf(s[..2]) <= 23 && ValueOf(s[6..8]) <= 59)
          || (ValueOf(s[..2]) == 24 && ValueOf(s[3..5]) == 0 && ValueOf(s[6..8]) == 0))
    ensures ParseText(TimeLayout, s).Success? ==>
      ParseText(TimeLayout, s) == Success(Parsed(None, Some(ResolveTime(ValueOf(s[..2]), ValueOf(s[3..5]), ValueOf(s[6..8])).value.0)))
  {
    TimeFieldsShape(s);
  }

  lemma TwoDigitsOfValue(x: string)
    requires |x| == 2 && AllDigits(x)
    ensures TwoDigits(ValueOf(x)) == x
  {
    ValueOfTwo(x);
    var v := ValueOf(x);
    assert v / 10 == DigitValue(x[0]) && v % 10 == DigitValue(x[1]);
  }

  lemma FourDigitsOfValue(x: string)
    requires |x| == 4 && AllDigits(x)
    ensures FourDigits(ValueOf(x)) == x
  {
    ValueOfFour(x);
    ValueOfTwo(x[2..]);
    var v := ValueOf(x);
    assert v / 100 == ValueOf(x[..2]) && v % 100 == ValueOf(x[2..]);
    TwoDigitsOfValue(x[..2]);
    TwoDigitsOfValue(x[2..]);
    assert x == x[..2] + x[2..];
  }

  /** Formatting a parsed "yyyy-MM-dd" text gives that text back exactly when
      the resolver did not move the day back to the end of its month. */
  lemma DateTextCanonical(s: string, d: LocalDate)
    requires |s| == 0 || s[0] != '+'
    requires ParseText(DateLayout, s) == Success(Parsed(Some(d), None))
    ensures |s| == 10 && DateShaped(s)
    ensures DateText(d) == s <==> d.day == ValueOf(s[8..10])
  {
    DateParseAccepts(s);
    DateTextOfFields(s, d);
  }

  /** A shaped date text is the text of a date with its year and month
      exactly when the date also has its day. */
  lemma DateTextOfFields(s: string, d: LocalDate)
    requires |s| == 10 && DateShaped(s)
    requires d.year == ValueOf(s[..4]) != 0 && d.month == ValueOf(s[5..7])
    ensures DateText(d) == s <==> d.day == ValueOf(s[8..10])
  {
    var y, m, dd := s[..4], s[5..7], s[8..10];
    var t := DateText(d);
    assert YearText(d.year) == FourDigits(d.year);
    if d.day == ValueOf(dd) {
      FourDigitsOfValue(y);
      TwoDigitsOfValue(m);
      TwoDigitsOfValue(dd);
      assert s == y + ("-" + (m + ("-" + dd)));
    } else {
      assert t[8..10] == TwoDigits(d.day);
    }
  }

  /** Formatting a parsed "HH:mm:ss" text gives that text back exactly when
      it was not the end-of-day form "24:00:00". */
  lemma TimeTextCanonical(s: string, t: LocalTime)
    requires ParseText(TimeLayout, s) == Success(Parsed(None, Some(t)))
    ensures |s| == 8 && TimeShaped(s)
    ensures TimeText(t) == s <==> ValueOf(s[..2]) != 24
  {
    TimeParseAccepts(s);
    TwoDigitsOfValue(s[..2]);
    TwoDigitsOfValue(s[3..5]);
    TwoDigitsOfValue(s[6..8]);
    var u := TimeText(t);
    assert u[..2] == TwoDigits(t.hour);
    if ValueOf(s[..2]) != 24 {
      assert s == s[..2] + (":" + (s[3..5] + (":" + s[6..8])));
    }
  }

  /** Without a leading '+', the date-time fields are the date fields of the
      first ten characters, which must be all of that date, then a space,
      then the time fields of the rest, which must be all of it. */
  lemma DateTimeFieldsUnsigned(s: string)
    requires |s| == 0 || s[0] != '+'
    ensures DateTimeFields(s).Some? <==>
      |s| >= 11 && s[10] == ' ' && DateFields(s[..10]).Some? && DateFields(s[..10]).value.3 == []
      && TimeFields(s[11..]).Some? && TimeFields(s[11..]).value.3 == []
    ensures DateTimeFields(s).Some? ==>
      var f, g := DateFields(s[..10]).value, TimeFields(s[11..]).value;
      DateTimeFields(s) == Some((f.0, f.1, f.2, g.0, g.1, g.2))
  {
    DateFieldsUnsigned(s);
    if |s| >= 10 {
      var d := s[..10];
      assert d[..4] == s[..4];
      assert d[5..7] == s[5..7];
      assert d[8..10] == s[8..10] by {
        assert d[8] == s[8] && d[9] == s[9];
      }
      DateFieldsUnsigned(d);
      if |s| >= 11 {
        assert s[10..][1..] == s[11..];
      }
    }
  }

  /** Without a leading '+', "yyyy-MM-dd HH:mm:ss" is accepted exactly when
      its first ten characters are an accepted date, the eleventh a space and
      the last eight an accepted time. */
  lemma DateTimeParseSplits(s: string)
    requires |s| == 0 || s[0] != '+'
    ensures ParseText(DateTimeLayout, s).Success? <==>
      |s| == 19 && s[10] == ' ' && ParseText(DateLayout, s[..10]).Success? && ParseText(TimeLayout, s[11..]).Success?
  {
    DateTimeFieldsUnsigned(s);
    if |s| >= 11 {
      var u := s[11..];
      var df, tf := DateFields(s[..10]), TimeFields(u);
      if df.Some? && df.value.3 == [] && tf.Some? && tf.value.3 == [] {
        assert |u| == 8 by {
          TimeFieldsShape(u);
        }
        assert ParseText(DateLayout, s[..10]).Success? <==> ResolveDate(df.value.0, df.value.1, df.value.2).Some?;
        assert ParseText(TimeLayout, u).Success? <==> ResolveTime(tf.value.0, tf.value.1, tf.value.2).Some?;
      }
    }
  }

  /** An accepted date-time is the accepted date, moved one day on when the
      time was written "24:00:00", at the accepted time. */
  lemma DateTimeParseJoins(s: string)
    requires |s| == 0 || s[0] != '+'
    requires ParseText(DateTimeLayout, s).Success?
    ensures |s| == 19 && QueryDate(ParseText(DateLayout, s[..10])).Success? && QueryTime(ParseText(TimeLayout, s[11..])).Success?
    ensures ParseText(DateTimeLayout, s) == Success(Parsed(
      Some(LocalDates.PlusDays(QueryDate(ParseText(DateLayout, s[..10])).value, if s[11..13] == "24" then 1 else 0)),
      Some(QueryTime(ParseText(TimeLayout, s[11..])).value)))
  {
    DateTimeFieldsUnsigned(s);
    var u := s[11..];
    var df, tf := DateFields(s[..10]).value, TimeFields(u).value;
    var rd, rt := ResolveDate(df.0, df.1, df.2), ResolveTime(tf.0, tf.1, tf.2);
    assert |u| == 8 by {
      TimeFieldsShape(u);
    }
    assert QueryDate(ParseText(DateLayout, s[..10])) == Success(rd.value);
    assert QueryTime(ParseText(TimeLayout, u)) == Success(rt.value.0);
    assert u[..2] == s[11..13];
    TwoDigitsOfValue(u[..2]);
    assert rt.value.1 == if s[11..13] == "24" then 1 else 0;
  }

  /** A shaped date text, read digit by digit: it parses to the resolved
      date when the resolver accepts the fields, and fails otherwise. */
  lemma DateTextParses(s: string, y: int, m: int, d: int)
    requires |s| == 10 && DateShaped(s)
    requires y == 1000 * DigitValue(s[0]) + 100 * DigitValue(s[1]) + 10 * DigitValue(s[2]) + DigitValue(s[3])
    requires m == 10 * DigitValue(s[5]) + DigitValue(s[6])
    requires d == 10 * DigitValue(s[8]) + DigitValue(s[9])
    ensures y != 0 && 1 <= m <= 12 && 1 <= d <= 31 ==> ParseText(DateLayout, s) == Success(Parsed(ResolveDate(y, m, d), None))
    ensures !(y != 0 && 1 <= m <= 12 && 1 <= d <= 31) ==> ParseText(DateLayout, s).Failure?
  {
    DateParseAccepts(s);
    var x := s[..4];
    ValueOfFour(x);
    ValueOfTwo(x[..2]);
    ValueOfTwo(x[2..]);
    ValueOfTwo(s[5..7]);
    ValueOfTwo(s[8..10]);
  }

  /** A shaped time text, read digit by digit. */
  lemma TimeTextParses(s: string, h: int, m: int, sec: int)
    requires |s| == 8 && TimeShaped(s)
    requires h == 10 * DigitValue(s[0]) + DigitValue(s[1])
    requires m == 10 * DigitValue(s[3]) + DigitValue(s[4])
    requires sec == 10 * DigitValue(s[6]) + DigitValue(s[7])
    ensures ResolveTime(h, m, sec).Some? ==> ParseText(TimeLayout, s) == Success(Parsed(None, Some(ResolveTime(h, m, sec).value.0)))
    ensures ResolveTime(h, m, sec).None? ==> ParseText(TimeLayout, s).Failure?
  {
    TimeParseAccepts(s);
    ValueOfTwo(s[..2]);
    ValueOfTwo(s[3..5]);
    ValueOfTwo(s[6..8]);
  }

  /** Worked date: a leap day is read as it is written. */
  lemma KnownLeapDay()
    ensures ParseText(DateLayout, "2024-02-29") == Success(Parsed(Some(Date(2024, 2, 29)), None))
  {
    DateTextParses("2024-02-29", 2024, 2, 29);
    assert MonthLength(2024, 2) == 29;
  }

  /** Worked date: the SMART resolver moves 29 February of a common year back
      to the 28th instead of rejecting it. */
  lemma KnownCommonYearClamp()
    ensures ParseText(DateLayout, "2023-02-29") == Success(Parsed(Some(Date(2023, 2, 28)), None))
  {
    DateTextParses("2023-02-29", 2023, 2, 29);
    assert MonthLength(2023, 2) == 28;
  }

  /** Worked date: 31 April is moved back to 30 April. */
  lemma KnownShortMonthClamp()
    ensures ParseText(DateLayout, "2024-04-31") == Success(Parsed(Some(Date(2024, 4, 30)), None))
  {
    DateTextParses("2024-04-31", 2024, 4, 31);
    assert MonthLength(2024, 4) == 30;
  }

  /** Worked rejection: month 13. */
  lemma KnownMonthOutOfRange()
    ensures ParseText(DateLayout, "2024-13-01").Failure?
  {
    DateTextParses("2024-13-01", 2024, 13, 1);
  }

  /** Worked rejection: year-of-era 0000. */
  lemma KnownYearZero()
    ensures ParseText(DateLayout, "0000-01-01").Failure?
  {
    DateTextParses("0000-01-01", 0, 1, 1);
  }

  /** Worked shape errors: an unpadded month, the wrong separator. */
  lemma KnownDateShapeErrors()
    ensures ParseText(DateLayout, "2024-3-01").Failure?
    ensures ParseText(DateLayout, "2024/03/01").Failure?
  {
    DateParseAccepts("2024-3-01");
    DateParseAccepts("2024/03/01");
  }

  /** Worked printing of the year field alone: 12024 needs a '+' sign. */
  lemma KnownSignedYear()
    ensures YearText(12024) == "+12024"
  {
    assert Decimal(1) == "1";
    assert Decimal(12) == "12";
    assert Decimal(120) == "120";
    assert Decimal(1202) == "1202";
    assert Decimal(12024) == "12024";
  }

  /** Worked printing: a five-digit year gets a '+' sign. */
  lemma KnownSignedYearText()
    ensures DateText(Date(12024, 3, 1)) == "+12024-03-01"
  {
    KnownSignedYear();
    assert TwoDigits(3) == "03" && TwoDigits(1) == "01";
    assert DateText(Date(12024, 3, 1)) == "+12024" + ("-" + ("03" + ("-" + "01")));
  }

  /** Worked five-digit years: accepted with the '+' sign that printing puts
      there, rejected without it. */
  lemma KnownFiveDigitYear()
    ensures ParseText(DateLayout, "+12024-03-01") == Success(Parsed(Some(Date(12024, 3, 1)), None))
    ensures ParseText(DateLayout, "12024-03-01").Failure?
  {
    KnownSignedYearText();
    DateRoundTrip(Date(12024, 3, 1));
    DateParseAccepts("12024-03-01");
  }

  /** Worked time: the end-of-day form "24:00:00" reads as midnight. */
  lemma KnownEndOfDay()
    ensures ParseText(TimeLayout, "24:00:00") == Success(Parsed(None, Some(Midnight)))
  {
    TimeTextParses("24:00:00", 24, 0, 0);
  }

  /** Worked time: the last second of the day is read as it is written. */
  lemma KnownLastSecond()
    ensures ParseText(TimeLayout, "23:59:59") == Success(Parsed(None, Some(Time(23, 59, 59))))
  {
    TimeTextParses("23:59:59", 23, 59, 59);
  }

  /** Worked time rejections: a second past the end of day, minute 60, hour 25. */
  lemma KnownTimeErrors()
    ensures ParseText(TimeLayout, "24:00:01").Failure?
    ensures ParseText(TimeLayout, "12:60:00").Failure?
    ensures ParseText(TimeLayout, "25:00:00").Failure?
  {
    TimeTextParses("24:00:01", 24, 0, 1);
    TimeTextParses("12:60:00", 12, 60, 0);
    TimeTextParses("25:00:00", 25, 0, 0);
  }

  /** Worked shape error: an unpadded hour. */
  lemma KnownUnpaddedHour()
    ensures ParseText(TimeLayout, "9:00:00").Failure?
  {
    TimeParseAccepts("9:00:00");
  }
}
