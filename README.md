# Date-time value type

A model of the calendar date-time type in `src/datetime.rs`. It is a naive
date-time: a proleptic Gregorian date and a time of day with second precision, and
no time zone. There are two ways to build one, and each gives either a valid value
or a `DateTimeError` carrying a message:

- `DateTime::new` takes year, month, day, hour, minute and second. It checks the
  date first and the time second, and each failure has its own message.
- `DateTime::from_string` first tries to read the whole string as
  `%Y-%m-%d %H:%M:%S`. If that fails it tries `%Y-%m-%d` and puts the date at
  midnight. If neither matches it fails with one message.

An error is displayed as `Datetime error: ` followed by its message.

The project has four modules:

- `Wrappers` (`wrappers.dfy`) holds `Option` and `Result`. `Result` works with `:-`,
  so the `?` chain of `new` is written the same way. The module also holds `FindMap`
  (Rust's `Iterator::find_map`) and `Option.OkOr` (Rust's `Option::ok_or`).
- `Pattern` (`pattern.dfy`) is a fixed-width `strftime`-style pattern language.
  - A pattern is a list of literal characters and zero-padded numeric fields.
  - `Match` reads a whole string against a pattern.
  - `Render` writes field values into a pattern.
  - The two are proved inverse on every input (`MatchIff`).
  - `Collect` files the values read under their field names, as chrono's `Parsed`
    does.
- `Calendar` (`calendar.dfy`) holds the chrono values the type is built from.
  - `NaiveDate` and `NaiveTime` are subset types, so every value of them is valid.
  - It has the checked constructors `FromYmdOpt` and `AndHmsOpt`.
  - It has the two parsers `ParseDate` and `ParseDateTime`. They follow a strict
    zero-padded grammar, under which each is characterised exactly: it accepts a
    string if and only if the string is the zero-padded rendering of the value.
    chrono's own parser is more lenient (see "## Left out").
- `DateTimes` (`datetime.dfy`) holds:
  - the error and its display;
  - the `DateTime` type with `New` and `FromString`;
  - the round trips;
  - the cases the repository's unit tests check.

The source does not format date-times. The formatting functions `FormatDate` and
`FormatDateTime` are here only as the specification partner of the parsers. They
state which strings the parsers accept, and they state the round trip from a value
to a string and back.

## Model

| member | source | states |
|---|---|---|
| Wrappers.Option.OkOr | src/datetime.rs:42-45 | `ok_or` turns `Some(v)` into `Ok(v)` and `None` into `Err` with the given error, and nothing else. |
| Wrappers.FindMap | src/datetime.rs:54-56 | `find_map` gives `None` exactly when every candidate gives `None`. Otherwise it gives the result of a candidate whose predecessors all gave `None`, which is the first match. |
| Wrappers.FindMapSingleton | src/datetime.rs:51-56 | Over a one-pattern list, `find_map` is that one pattern's parse. |
| Calendar.FromYmdOpt | src/datetime.rs:42 | `from_ymd_opt` gives a date exactly when `(y, m, d)` is a valid Gregorian date (for an unbounded year), and the date has those three fields. |
| Calendar.AndHmsOpt | src/datetime.rs:44 | `and_hms_opt` succeeds exactly when `h < 24`, `mi < 60` and `s < 60`. It keeps the date and sets those three fields. |
| Calendar.LeapDay | src/datetime.rs:42 | February 29 is a valid date exactly in leap years (the 4/100/400 rule) and February 30 never is. The other month lengths do not depend on the year. |
| Calendar.AndHmsMidnight | src/datetime.rs:65 | Putting any date at 00:00:00 succeeds and gives that date at midnight, so the `unwrap` never panics. |
| Calendar.DateOf | src/datetime.rs:63 | Parsed fields name a date exactly when year, month and day are all present and form a valid date, and that date is the one with the parsed year, month and day. |
| Calendar.DateTimeOf | src/datetime.rs:56 | Parsed fields name a date-time exactly when they name a date and hour, minute and second are all present and form a valid time. The date-time then has that date and the parsed hour, minute and second. |
| Calendar.CollectDate | src/datetime.rs:63 | `%Y-%m-%d` files its three values as year, month and day and leaves the time fields unset. |
| Calendar.CollectSix | src/datetime.rs:56 | A pattern with the fields year, month, day, hour, minute and second, in that order, files its six values under those names. |
| Pattern.MatchIff | src/datetime.rs:56 | A pattern matches a string with some values exactly when each value fits its field's width and the string is those values rendered into the pattern. |
| Pattern.MatchRender | src/datetime.rs:56 | Rendering values that fit and matching the result gives the same values back. |
| Pattern.RenderMatch | src/datetime.rs:56 | The values matched from a string fit their fields, and rendering them gives the string back. |
| Pattern.MatchLength | src/datetime.rs:56 | Every string a pattern matches has the pattern's length: the whole string is consumed. |
| Pattern.DecimalOfPad | src/datetime.rs:56 | A number below 10^w, zero-padded to w digits, is w digits that read back as the same number. |
| Pattern.PadOfDecimal | src/datetime.rs:56 | A run of digits reads as a number below 10^length, and padding that number gives the same digits back. |
| Calendar.ParseDateExact | src/datetime.rs:61-63 | `%Y-%m-%d` parses `s` to date `d` if and only if `d` has a four-digit year and `s` is `d` written `YYYY-MM-DD`. |
| Calendar.ParseDateTimeSound | src/datetime.rs:54-56 | Under the strict zero-padded grammar, a date-time parsed with `%Y-%m-%d %H:%M:%S` has a four-digit year, and the string is that date-time written out. |
| Calendar.ParseDateTimeComplete | src/datetime.rs:54-56 | Every date-time with a four-digit year, written `YYYY-MM-DD HH:MM:SS`, parses back to itself. |
| Calendar.ParseDateTimeExact | src/datetime.rs:54-56 | `%Y-%m-%d %H:%M:%S` parses `s` to `dt` if and only if `dt` has a four-digit year and `s` is `dt` written `YYYY-MM-DD HH:MM:SS`. |
| Calendar.ParsedLengths | src/datetime.rs:51-52 | Under the strict zero-padded grammar, a string the date pattern accepts has 10 characters and one the date-time pattern accepts has 19, so no string is accepted by both. |
| DateTimes.Display | src/datetime.rs:17-21 | An error's display is the prefix `Datetime error: ` followed by the message unchanged. |
| DateTimes.DisplayInjective | src/datetime.rs:17-21 | Two errors that display the same are the same error. |
| DateTimes.ErrorsDisplayDistinct | src/datetime.rs:17-21 | The three errors the type reports (invalid date, invalid time, no pattern) display as three different strings. |
| DateTimes.DateTimeIsValid | src/datetime.rs:26-28 | Every `DateTime` holds a valid calendar date and a valid time of day. |
| DateTimes.New | src/datetime.rs:33-47 | `new` succeeds exactly when the date and the time are both valid, and then it stores those six fields. An invalid date gives "Invalid month or day" whatever the time is. A valid date with an invalid time gives "Invalid hour, minute or second". |
| DateTimes.NewIsOnto | src/datetime.rs:41-46 | Every `DateTime` of the model (which has no leap second) is what `new` builds from its own six fields. |
| DateTimes.FromString | src/datetime.rs:50-70 | A date-time parse of the whole string wins. Failing that, a date parse gives that date at midnight. Failing both, the only error is "Failed to match any ISO pattern". It succeeds exactly when one of the two parses does. |
| DateTimes.FromStringExact | src/datetime.rs:50-70 | `from_string` gives `dt` exactly when `dt` has a four-digit year and either the string is `dt` written `YYYY-MM-DD HH:MM:SS`, or `dt` is at midnight and the string is its date written `YYYY-MM-DD`. |
| DateTimes.FromStringLength | src/datetime.rs:54-69 | Under the strict zero-padded grammar, every string `from_string` accepts is 10 or 19 characters long. |
| DateTimes.RoundTrip | src/datetime.rs:50-58 | Writing a value that `new` built (four-digit year) as `YYYY-MM-DD HH:MM:SS` and parsing it with `from_string` gives the same value. |
| DateTimes.DateRoundTrip | src/datetime.rs:61-66 | Writing a date as `YYYY-MM-DD` and parsing it with `from_string` gives the value `new` builds from that date at 0:00:00. |
| DateTimes.NewAcceptsNewYear | src/datetime.rs:78-86 | `new(2021, 1, 1, 0, 0, 0)` succeeds with 2021-01-01 at 00:00:00. |
| DateTimes.NewRejectsFebruary30 | src/datetime.rs:42-43 | `new(2021, 2, 30, 0, 0, 0)` fails with "Invalid month or day". |
| DateTimes.NewRejectsHour25 | src/datetime.rs:44-45 | `new(2021, 1, 1, 25, 0, 0)` fails with "Invalid hour, minute or second". |
| DateTimes.FromStringAcceptsDateTime | src/datetime.rs:91-98 | `from_string("2021-01-01 00:00:00")` gives 2021-01-01 at 00:00:00. |
| DateTimes.FromStringAcceptsDate | src/datetime.rs:100-107 | `from_string("2021-01-01")` gives 2021-01-01 at 00:00:00. |
| DateTimes.FromStringRejectsTrailingSegment | src/datetime.rs:112-113 | `from_string("2021-01-01 00:00:00:00")` fails with "Failed to match any ISO pattern". |

## Left out

- The PyO3 attributes (`#[pyclass]`, `#[pymethods]`, `#[new]`, `#[staticmethod]`) are not modelled. They are binding glue with no logic.
- `src/integration.rs`, which converts the error into a Python `ValueError`, is not part of this model.
- `src/lib.rs`, the Python module registration, is not part of this model.
- `DateTimeError::new` (src/datetime.rs:10-14) is the datatype constructor `DateTimeError(message)`.
- The `Debug` derive and the `std::error::Error` impl have no behaviour to model.
- `DateTimes.New`: the year is an unbounded `int` and the other five arguments are unbounded `nat`s. chrono's year range (about ±262143) and the `i32`/`u32` argument widths are not modelled. For example, `new` accepts a year that chrono rejects as out of range.
- `Calendar.FromYmdOpt`: chrono's `from_ymd_opt` also returns `None` for years outside about ±262143. The model accepts every valid date of any year.
- `Calendar.ParseDateExact`: `%Y-%m-%d` is modelled as a strict grammar.
  - Every field has exactly its zero-padded width, and the year has four digits with no sign.
  - chrono is more lenient: it accepts unpadded fields, signed years of any length (without a sign `%Y` reads at most four digits) and some whitespace.
  - The model's rejection of those forms is not claimed of chrono. Acceptance of the strict forms, and the values read from them, are the claims.
- `Calendar.ParseDateTimeExact`: the same applies to `%Y-%m-%d %H:%M:%S`. chrono also reads a `:60` leap second there, which this model does not.
- `DateTimes.FromString`: it is built on those two parsers. "Fails exactly outside the strict grammar" describes the model. It is not a claim about every string chrono would accept.
- `DateTimes.FromStringExact`: the same applies.
- `Calendar.ParseDateTimeSound`: it holds for the strict grammar only. chrono's `%m`, `%d`, `%H`, `%M` and `%S` read one or two digits, so chrono parses "2021-1-1 0:0:0", which is not a zero-padded rendering.
- `Calendar.ParsedLengths`: it holds for the strict grammar only. chrono's `%Y-%m-%d` accepts "2021-1-1", which has 8 characters.
- `DateTimes.FromStringLength`: it holds for the strict grammar only. In the source, `from_string("2021-1-1")` succeeds through chrono on a string of 8 characters.
- `DateTimes.NewIsOnto`: it holds because the model has no leap second. chrono reads second 60 as a leap second (59 seconds plus 10^9 nanoseconds). So in the source, `from_string("2016-12-31 23:59:60")` gives a `DateTime` that `new(2016, 12, 31, 23, 59, 60)` rejects.
- `DateTimes.RoundTrip`: it holds only for years 0 to 9999, the years `%Y` writes as four digits. Formatting is not part of the source: it is used only to state what the parsers accept.
- chrono's rejection of a pattern that sets the same field twice to different values is not modelled. Neither pattern the type uses repeats a field.
- Leap seconds are not modelled. The time of day has no second 60, although chrono's parser reads one, as the `DateTimes.NewIsOnto` line above says.
- Time zones and sub-second precision are not modelled. The repository neither produces nor checks them, apart from the leap-second nanoseconds above.
