/** The calendar values the date-time type is built from: a proleptic Gregorian date
    and a time of day with second precision, the checked constructors `FromYmdOpt`
    and `AndHmsOpt`, and the parsers of the two fixed patterns, which are tied to
    formatters by exact characterisations. */
module Calendar {
  import opened Wrappers
  import opened Pattern

  // ---------------------------------------------------------------------------
  // Validity

  /** The Gregorian leap-year rule, applied to every year (year 0 is 1 BCE and is a
      leap year). Dafny's `%` is Euclidean, so negative years follow the same 400-year
      cycle as positive ones. */
  predicate IsLeapYear(y: int) {
    y % 4 == 0 && (y % 100 != 0 || y % 400 == 0)
  }

  function DaysInMonth(y: int, m: nat): (n: nat)
    requires 1 <= m <= 12
    ensures 28 <= n <= 31
  {
    if m == 2 then (if IsLeapYear(y) then 29 else 28)
    else if m == 4 || m == 6 || m == 9 || m == 11 then 30
    else 31
  }

  /** `(y, m, d)` names a day of the proleptic Gregorian calendar. */
  predicate ValidDate(y: int, m: nat, d: nat) {
    1 <= m <= 12 && 1 <= d <= DaysInMonth(y, m)
  }

  /** `h:mi:s` is a time of day between 00:00:00 and 23:59:59 (no leap second). */
  predicate ValidTime(h: nat, mi: nat, s: nat) {
    h < 24 && mi < 60 && s < 60
  }

  // ---------------------------------------------------------------------------
  // Values

  datatype Ymd = Ymd(year: int, month: nat, day: nat)

  datatype Hms = Hms(hour: nat, minute: nat, second: nat)

  /** A calendar date; every value of the type is a valid date. */
  type NaiveDate = d: Ymd | ValidDate(d.year, d.month, d.day) witness Ymd(1970, 1, 1)

  /** A time of day; every value of the type is a valid time. */
  type NaiveTime = t: Hms | ValidTime(t.hour, t.minute, t.second) witness Hms(0, 0, 0)

  /** A date and a time of day, with no time zone. */
  datatype NaiveDateTime = NaiveDateTime(date: NaiveDate, time: NaiveTime)

  const Midnight: NaiveTime := Hms(0, 0, 0)

  // ---------------------------------------------------------------------------
  // Checked constructors

  /** The date `(y, m, d)`, or nothing when it is not a calendar date. */
  function FromYmdOpt(y: int, m: nat, d: nat): (r: Option<NaiveDate>)
    ensures r.Some? <==> ValidDate(y, m, d)
    ensures r.Some? ==> r.value.year == y && r.value.month == m && r.value.day == d
  {
    if ValidDate(y, m, d) then Some(Ymd(y, m, d)) else None
  }

  /** `date` at `h:mi:s`, or nothing when that is not a time of day. */
  function AndHmsOpt(date: NaiveDate, h: nat, mi: nat, s: nat): (r: Option<NaiveDateTime>)
    ensures r.Some? <==> ValidTime(h, mi, s)
    ensures r.Some? ==> r.value.date == date
    ensures r.Some? ==> r.value.time.hour == h && r.value.time.minute == mi && r.value.time.second == s
  {
    if ValidTime(h, mi, s) then Some(NaiveDateTime(date, Hms(h, mi, s))) else None
  }

  /** Midnight is a valid time of day, so putting any date at 00:00:00 never fails. */
  lemma AndHmsMidnight(date: NaiveDate)
    ensures AndHmsOpt(date, 0, 0, 0) == Some(NaiveDateTime(date, Midnight))
  {
  }

  /** February 29 exists exactly in leap years; the other month lengths do not depend
      on the year. */
  lemma LeapDay(y: int)
    ensures ValidDate(y, 2, 29) <==> IsLeapYear(y)
    ensures !ValidDate(y, 2, 30)
    ensures forall m :: 1 <= m <= 12 && m != 2 ==> DaysInMonth(y, m) == DaysInMonth(y + 1, m)
  {
  }

  // ---------------------------------------------------------------------------
  // Parsing the two patterns

  /** The date a set of parsed fields names; all of year, month and day must be there. */
  function DateOf(p: Parsed): (r: Option<NaiveDate>)
    ensures r.Some? <==> p.year.Some? && p.month.Some? && p.day.Some?
                         && ValidDate(p.year.value, p.month.value, p.day.value)
    ensures r.Some? ==> r.value == Ymd(p.year.value, p.month.value, p.day.value)
  {
    if p.year.Some? && p.month.Some? && p.day.Some? then
      FromYmdOpt(p.year.value, p.month.value, p.day.value)
    else None
  }

  /** The date-time a set of parsed fields names; the date fields and hour, minute and
      second must all be there. */
  function DateTimeOf(p: Parsed): (r: Option<NaiveDateTime>)
    ensures r.Some? <==> DateOf(p).Some? && p.hour.Some? && p.minute.Some? && p.second.Some?
                         && ValidTime(p.hour.value, p.minute.value, p.second.value)
    ensures r.Some? ==> DateOf(p) == Some(r.value.date)
    ensures r.Some? ==> r.value.time == Hms(p.hour.value, p.minute.value, p.second.value)
  {
    match DateOf(p)
    case None => None
    case Some(date) =>
      if p.hour.Some? && p.minute.Some? && p.second.Some? then
        AndHmsOpt(date, p.hour.value, p.minute.value, p.second.value)
      else None
  }

  /** Reads all of `s` as a date in the given pattern. */
  function ParseDate(s: string, pattern: seq<Item>): Option<NaiveDate>
  {
    match Match(pattern, s)
    case None => None
    case Some(vals) => DateOf(Collect(pattern, vals))
  }

  /** Reads all of `s` as a date-time in the given pattern. */
  function ParseDateTime(s: string, pattern: seq<Item>): Option<NaiveDateTime>
  {
    match Match(pattern, s)
    case None => None
    case Some(vals) => DateTimeOf(Collect(pattern, vals))
  }

  // ---------------------------------------------------------------------------
  // Formatting the two patterns, and the exact strings each parser accepts

  /** The years the four-digit `%Y` field can write. */
  predicate FourDigitYear(y: int) {
    0 <= y < 10000
  }

  /** The fields of a date, in the order `%Y-%m-%d` writes them. */
  function DateValues(d: NaiveDate): seq<nat>
    requires d.year >= 0
  {
    [d.year as nat, d.month, d.day]
  }

  /** The fields of a date-time, in the order `%Y-%m-%d %H:%M:%S` writes them. */
  function DateTimeValues(dt: NaiveDateTime): seq<nat>
    requires dt.date.year >= 0
  {
    var d, t := dt.date, dt.time;
    [d.year as nat, d.month, d.day, t.hour, t.minute, t.second]
  }

  function FormatDate(d: NaiveDate): string
    requires FourDigitYear(d.year)
  {
    Render(DatePattern, DateValues(d))
  }

  function FormatDateTime(dt: NaiveDateTime): string
    requires FourDigitYear(dt.date.year)
  {
    DateTimePatternShape();
    Render(DateTimePattern, DateTimeValues(dt))
  }

  lemma DatePatternShape()
    ensures Captures(DatePattern) == 3 && Length(DatePattern) == 10
    ensures Widths(DatePattern) == [4, 2, 2] && Fields(DatePattern) == [Year, Month, Day]
  {
  }

  lemma TimeSuffixShape()
    ensures Captures(TimeSuffix) == 3 && Length(TimeSuffix) == 9
    ensures Widths(TimeSuffix) == [2, 2, 2] && Fields(TimeSuffix) == [Hour, Minute, Second]
  {
  }

  lemma DateTimePatternShape()
    ensures Captures(DateTimePattern) == 6 && Length(DateTimePattern) == 19
    ensures Widths(DateTimePattern) == [4, 2, 2, 2, 2, 2]
    ensures Fields(DateTimePattern) == [Year, Month, Day, Hour, Minute, Second]
  {
    DatePatternShape();
    TimeSuffixShape();
    ShapeAppend(DatePattern, TimeSuffix);
  }

  lemma FieldPositions()
    ensures var fs := [Year, Month, Day, Hour, Minute, Second];
            && IndexOf(fs, Year) == Some(0) && IndexOf(fs, Month) == Some(1)
            && IndexOf(fs, Day) == Some(2) && IndexOf(fs, Hour) == Some(3)
            && IndexOf(fs, Minute) == Some(4) && IndexOf(fs, Second) == Some(5)
  {
  }

  /** `%Y-%m-%d` files its three values as year, month and day. */
  lemma CollectDate(vals: seq<nat>)
    requires |vals| == Captures(DatePattern)
    ensures Collect(DatePattern, vals) == Parsed(Some(vals[0]), Some(vals[1]), Some(vals[2]), None, None, None)
  {
    DatePatternShape();
    assert IndexOf([Year, Month, Day], Year) == Some(0);
  }

  /** A pattern whose fields are year, month, day, hour, minute and second, in that
      order, files its six values under those names. */
  lemma CollectSix(items: seq<Item>, vals: seq<nat>)
    requires Fields(items) == [Year, Month, Day, Hour, Minute, Second]
    requires |vals| == Captures(items)
    ensures Collect(items, vals)
         == Parsed(Some(vals[0]), Some(vals[1]), Some(vals[2]), Some(vals[3]), Some(vals[4]), Some(vals[5]))
  {
    FieldPositions();
  }

  /** Parsing with such a pattern yields exactly the date-time its six values name, and
      the string is their rendering. */
  lemma ParseSixSound(items: seq<Item>, s: string, dt: NaiveDateTime)
    requires Fields(items) == [Year, Month, Day, Hour, Minute, Second]
    requires ParseDateTime(s, items) == Some(dt)
    ensures dt.date.year >= 0
    ensures Fits(items, DateTimeValues(dt)) && s == Render(items, DateTimeValues(dt))
  {
    var d, t := dt.date, dt.time;
    var vals := Match(items, s).value;
    CollectSix(items, vals);
    assert DateTimeOf(Collect(items, vals)) == Some(dt);
    assert DateOf(Collect(items, vals)) == Some(d);
    assert d.year == vals[0] && d.month == vals[1] && d.day == vals[2];
    assert t.hour == vals[3] && t.minute == vals[4] && t.second == vals[5];
    assert vals == DateTimeValues(dt);
    RenderMatch(items, s);
  }

  /** Rendering a date-time's six values with such a pattern and parsing the result
      gives the date-time back. */
  lemma ParseSixComplete(items: seq<Item>, dt: NaiveDateTime)
    requires Fields(items) == [Year, Month, Day, Hour, Minute, Second]
    requires dt.date.year >= 0
    requires Fits(items, DateTimeValues(dt))
    ensures ParseDateTime(Render(items, DateTimeValues(dt)), items) == Some(dt)
  {
    var vals := DateTimeValues(dt);
    MatchRender(items, vals);
    CollectSix(items, vals);
    assert DateOf(Collect(items, vals)) == Some(dt.date);
  }

  /** `%Y-%m-%d` accepts exactly the zero-padded rendering of a date with a four-digit
      year: parsing succeeds with `d` if and only if the string is `d` written out. */
  lemma ParseDateExact(s: string, d: NaiveDate)
    ensures ParseDate(s, DatePattern) == Some(d) <==> FourDigitYear(d.year) && s == FormatDate(d)
  {
    DatePatternShape();
    if ParseDate(s, DatePattern) == Some(d) {
      var vals := Match(DatePattern, s).value;
      CollectDate(vals);
      RenderMatch(DatePattern, s);
      assert vals == DateValues(d);
    }
    if FourDigitYear(d.year) && s == FormatDate(d) {
      var vals := DateValues(d);
      MatchRender(DatePattern, vals);
      CollectDate(vals);
    }
  }

  lemma ParseDateTimeSound(s: string, dt: NaiveDateTime)
    requires ParseDateTime(s, DateTimePattern) == Some(dt)
    ensures FourDigitYear(dt.date.year) && s == FormatDateTime(dt)
  {
    DateTimePatternShape();
    ParseSixSound(DateTimePattern, s, dt);
  }

  lemma ParseDateTimeComplete(dt: NaiveDateTime)
    requires FourDigitYear(dt.date.year)
    ensures ParseDateTime(FormatDateTime(dt), DateTimePattern) == Some(dt)
  {
    DateTimePatternShape();
    assert Pow10(2) == 100 && Pow10(4) == 10000;
    ParseSixComplete(DateTimePattern, dt);
  }

  /** `%Y-%m-%d %H:%M:%S` accepts exactly the zero-padded rendering of a date-time with
      a four-digit year. */
  lemma ParseDateTimeExact(s: string, dt: NaiveDateTime)
    ensures ParseDateTime(s, DateTimePattern) == Some(dt)
        <==> FourDigitYear(dt.date.year) && s == FormatDateTime(dt)
  {
    if ParseDateTime(s, DateTimePattern) == Some(dt) {
      ParseDateTimeSound(s, dt);
    }
    if FourDigitYear(dt.date.year) && s == FormatDateTime(dt) {
      ParseDateTimeComplete(dt);
    }
  }

  /** Every string `%Y-%m-%d` accepts is 10 characters long, and every string
      `%Y-%m-%d %H:%M:%S` accepts is 19: so no string is accepted by both. */
  lemma ParsedLengths(s: string)
    ensures ParseDate(s, DatePattern).Some? ==> |s| == 10
    ensures ParseDateTime(s, DateTimePattern).Some? ==> |s| == 19
  {
    DatePatternShape();
    DateTimePatternShape();
    if Match(DatePattern, s).Some? {
      MatchLength(DatePattern, s);
    }
    if Match(DateTimePattern, s).Some? {
      MatchLength(DateTimePattern, s);
    }
  }
}
