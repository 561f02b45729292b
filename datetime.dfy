/** The date-time value type: a naive date and time of day that can only be built
    through the field constructor `New` or the string parser `FromString`, each of
    which gives a valid value or a `DateTimeError` carrying a message. */
module DateTimes {
  import opened Wrappers
  import opened Pattern
  import opened Calendar

  // ---------------------------------------------------------------------------
  // Errors

  /** An error is only its message. */
  datatype DateTimeError = DateTimeError(message: string)

  const InvalidDateMessage := "Invalid month or day"
  const InvalidTimeMessage := "Invalid hour, minute or second"
  const NoPatternMessage := "Failed to match any ISO pattern"

  const DisplayPrefix := "Datetime error: "

  /** How an error is shown: the fixed prefix, then the message unchanged. */
  function Display(e: DateTimeError): (r: string)
    ensures |r| == |DisplayPrefix| + |e.message|
    ensures r[..|DisplayPrefix|] == DisplayPrefix
    ensures r[|DisplayPrefix|..] == e.message
  {
    DisplayPrefix + e.message
  }

  /** The message can be read back from the display, so different errors display
      differently. */
  lemma DisplayInjective(e1: DateTimeError, e2: DateTimeError)
    ensures Display(e1) == Display(e2) ==> e1 == e2
  {
    if Display(e1) == Display(e2) {
      var n := |DisplayPrefix|;
      assert e1.message == Display(e1)[n..] == Display(e2)[n..] == e2.message;
    }
  }

  /** The three failures the type reports are told apart by their displayed text. */
  lemma ErrorsDisplayDistinct()
    ensures Display(DateTimeError(InvalidDateMessage)) == "Datetime error: Invalid month or day"
    ensures Display(DateTimeError(InvalidDateMessage)) != Display(DateTimeError(InvalidTimeMessage))
    ensures Display(DateTimeError(InvalidDateMessage)) != Display(DateTimeError(NoPatternMessage))
    ensures Display(DateTimeError(InvalidTimeMessage)) != Display(DateTimeError(NoPatternMessage))
  {
    assert InvalidDateMessage[8] != InvalidTimeMessage[8];
    assert InvalidDateMessage[0] != NoPatternMessage[0];
    assert InvalidTimeMessage[0] != NoPatternMessage[0];
    DisplayInjective(DateTimeError(InvalidDateMessage), DateTimeError(InvalidTimeMessage));
    DisplayInjective(DateTimeError(InvalidDateMessage), DateTimeError(NoPatternMessage));
    DisplayInjective(DateTimeError(InvalidTimeMessage), DateTimeError(NoPatternMessage));
  }

  // ---------------------------------------------------------------------------
  // The value type

  /** A single naive date-time; immutable once built. */
  datatype DateTime = DateTime(datetime: NaiveDateTime)

  /** No invalid `DateTime` exists: whatever built it, it holds a calendar date and a
      time of day. */
  lemma DateTimeIsValid(dt: DateTime)
    ensures ValidDate(dt.datetime.date.year, dt.datetime.date.month, dt.datetime.date.day)
    ensures ValidTime(dt.datetime.time.hour, dt.datetime.time.minute, dt.datetime.time.second)
  {
  }

  // ---------------------------------------------------------------------------
  // Construction from fields

  /** Checks the date first and the time second, each failure with its own message;
      `:-` returns the first error, as Rust's `?` does. */
  function New(year: int, month: nat, day: nat, hour: nat, minute: nat, second: nat): (r: Result<DateTime, DateTimeError>)
    ensures r.Ok? <==> ValidDate(year, month, day) && ValidTime(hour, minute, second)
    ensures r.Ok? ==> (r.value.datetime.date == Ymd(year, month, day)
                       && r.value.datetime.time == Hms(hour, minute, second))
    ensures !ValidDate(year, month, day) ==> r == Err(DateTimeError(InvalidDateMessage))
    ensures ValidDate(year, month, day) && !ValidTime(hour, minute, second)
            ==> r == Err(DateTimeError(InvalidTimeMessage))
  {
    var date :- FromYmdOpt(year, month, day).OkOr(DateTimeError(InvalidDateMessage));
    var datetime :- AndHmsOpt(date, hour, minute, second).OkOr(DateTimeError(InvalidTimeMessage));
    Ok(DateTime(datetime))
  }

  /** `New` can build every date-time there is, and only from its own fields. */
  lemma NewIsOnto(dt: DateTime)
    ensures var d, t := dt.datetime.date, dt.datetime.time;
            New(d.year, d.month, d.day, t.hour, t.minute, t.second) == Ok(dt)
  {
  }

  // ---------------------------------------------------------------------------
  // Construction from a string

  /** The date-time patterns tried, in order: `%Y-%m-%d %H:%M:%S`. */
  const DateTimePatterns: seq<seq<Item>> := [DateTimePattern]

  /** The date-only patterns tried after them, in order: `%Y-%m-%d`. */
  const DatePatterns: seq<seq<Item>> := [DatePattern]

  /** Tries the date-time patterns in order and returns the first full match; failing
      that, tries the date-only patterns and returns the first match at midnight;
      failing that, reports that no pattern matched. */
  function FromString(date: string): (r: Result<DateTime, DateTimeError>)
    ensures r.Err? ==> r.error == DateTimeError(NoPatternMessage)
    ensures ParseDateTime(date, DateTimePattern).Some?
            ==> r == Ok(DateTime(ParseDateTime(date, DateTimePattern).value))
    ensures ParseDateTime(date, DateTimePattern).None? && ParseDate(date, DatePattern).Some?
            ==> r == Ok(DateTime(NaiveDateTime(ParseDate(date, DatePattern).value, Midnight)))
    ensures r.Ok? <==> ParseDateTime(date, DateTimePattern).Some? || ParseDate(date, DatePattern).Some?
  {
    FindMapSingleton(DateTimePattern, pattern => ParseDateTime(date, pattern));
    FindMapSingleton(DatePattern, pattern => ParseDate(date, pattern));
    match FindMap(DateTimePatterns, pattern => ParseDateTime(date, pattern))
    case Some(datetime) => Ok(DateTime(datetime))
    case None =>
      match FindMap(DatePatterns, pattern => ParseDate(date, pattern))
      case Some(d) =>
        var datetime := AndHmsOpt(d, 0, 0, 0);
        Ok(DateTime(datetime.value))
      case None => Err(DateTimeError(NoPatternMessage))
  }

  /** `FromString` gives `dt` exactly when the string is `dt` written as
      `YYYY-MM-DD HH:MM:SS`, or `dt` is at midnight and the string is its date written
      as `YYYY-MM-DD` (years with four digits). */
  lemma FromStringExact(s: string, dt: DateTime)
    ensures FromString(s) == Ok(dt)
        <==> FourDigitYear(dt.datetime.date.year)
             && (s == FormatDateTime(dt.datetime)
                 || (dt.datetime.time == Midnight && s == FormatDate(dt.datetime.date)))
  {
    var d := dt.datetime.date;
    ParsedLengths(s);
    ParseDateTimeExact(s, dt.datetime);
    ParseDateExact(s, d);
    if FromString(s) == Ok(dt) && ParseDateTime(s, DateTimePattern).None? {
      assert ParseDate(s, DatePattern) == Some(d);
    }
    if FourDigitYear(d.year) && dt.datetime.time == Midnight && s == FormatDate(d) {
      assert |s| == 10;
    }
  }

  /** Every string `FromString` accepts is 10 or 19 characters long. */
  lemma FromStringLength(s: string)
    ensures FromString(s).Ok? ==> |s| == 10 || |s| == 19
  {
    ParsedLengths(s);
  }

  /** Writing a date-time built by `New` as `YYYY-MM-DD HH:MM:SS` and parsing it back
      gives the same date-time. */
  lemma RoundTrip(year: int, month: nat, day: nat, hour: nat, minute: nat, second: nat)
    requires FourDigitYear(year)
    requires New(year, month, day, hour, minute, second).Ok?
    ensures var dt := New(year, month, day, hour, minute, second).value;
            FromString(FormatDateTime(dt.datetime)) == Ok(dt)
  {
    var dt := New(year, month, day, hour, minute, second).value;
    FromStringExact(FormatDateTime(dt.datetime), dt);
  }

  /** Writing a date as `YYYY-MM-DD` and parsing it gives that date at midnight, the
      value `New` builds from the date and 0:00:00. */
  lemma DateRoundTrip(year: int, month: nat, day: nat)
    requires FourDigitYear(year)
    requires New(year, month, day, 0, 0, 0).Ok?
    ensures var dt := New(year, month, day, 0, 0, 0).value;
            FromString(FormatDate(dt.datetime.date)) == Ok(dt)
  {
    var dt := New(year, month, day, 0, 0, 0).value;
    FromStringExact(FormatDate(dt.datetime.date), dt);
  }

  // ---------------------------------------------------------------------------
  // The cases the unit tests pin

  const NewYear2021 := DateTime(NaiveDateTime(Ymd(2021, 1, 1), Hms(0, 0, 0)))

  lemma NewYearDateWritten()
    ensures Render(DatePattern, [2021, 1, 1]) == "2021-01-01"
  {
    assert PadDecimal(2021, 4) == "2021" && PadDecimal(1, 2) == "01";
  }

  lemma MidnightWritten()
    ensures Render(TimeSuffix, [0, 0, 0]) == " 00:00:00"
  {
    assert PadDecimal(0, 2) == "00";
  }

  lemma NewYearJoined()
    ensures "2021-01-01" + " 00:00:00" == "2021-01-01 00:00:00"
  {
  }

  lemma NewYearWrittenInParts(date: seq<Item>, time: seq<Item>, vd: seq<nat>, vt: seq<nat>)
    requires date == DatePattern && time == TimeSuffix && vd == [2021, 1, 1] && vt == [0, 0, 0]
    ensures |vd + vt| == Captures(date + time)
    ensures Render(date + time, vd + vt) == "2021-01-01 00:00:00"
  {
    NewYearDateWritten();
    MidnightWritten();
    NewYearJoined();
    RenderAppend(date, time, vd, vt);
  }

  lemma NewYearWritten(dt: NaiveDateTime)
    requires dt == NewYear2021.datetime
    ensures FourDigitYear(dt.date.year)
    ensures FormatDateTime(dt) == "2021-01-01 00:00:00"
    ensures FormatDate(dt.date) == "2021-01-01"
  {
    assert DateTimeValues(dt) == [2021, 1, 1] + [0, 0, 0];
    assert DateValues(dt.date) == [2021, 1, 1];
    NewYearWrittenInParts(DatePattern, TimeSuffix, [2021, 1, 1], [0, 0, 0]);
    NewYearDateWritten();
  }

  lemma NewAcceptsNewYear()
    ensures New(2021, 1, 1, 0, 0, 0) == Ok(NewYear2021)
  {
  }

  lemma NewRejectsFebruary30()
    ensures New(2021, 2, 30, 0, 0, 0) == Err(DateTimeError(InvalidDateMessage))
  {
  }

  lemma NewRejectsHour25()
    ensures New(2021, 1, 1, 25, 0, 0) == Err(DateTimeError(InvalidTimeMessage))
  {
  }

  lemma FromStringAcceptsDateTime()
    ensures FromString("2021-01-01 00:00:00") == Ok(NewYear2021)
  {
    NewYearWritten(NewYear2021.datetime);
    FromStringExact("2021-01-01 00:00:00", NewYear2021);
  }

  lemma FromStringAcceptsDate()
    ensures FromString("2021-01-01") == Ok(NewYear2021)
  {
    NewYearWritten(NewYear2021.datetime);
    FromStringExact("2021-01-01", NewYear2021);
  }

  lemma FromStringRejectsTrailingSegment()
    ensures FromString("2021-01-01 00:00:00:00") == Err(DateTimeError(NoPatternMessage))
  {
    FromStringLength("2021-01-01 00:00:00:00");
  }
}
