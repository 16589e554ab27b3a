/** The proleptic Gregorian calendar of Python's `datetime` (years 1 to 9999),
    day arithmetic across month and year boundaries, and the two text forms
    the system reads and writes: `YYYY-MM-DD` dates and `HH:MM` clock times,
    and the `YYYY-MM-DDTHH:MM:SS.000` instants sent as reminder triggers. */
module Civil {
  import opened Basics
  import opened Decimal

  datatype Date = Date(year: int, month: int, day: int)

  /** A wall-clock instant with whole minutes; seconds are always zero in
      every instant this system builds. */
  datatype DateTime = DateTime(date: Date, hour: int, minute: int)

  datatype ClockTime = ClockTime(hour: int, minute: int)

  const MinYear := 1
  const MaxYear := 9999
  const MinutesPerDay := 1440

  predicate IsLeapYear(y: int) {
    y % 4 == 0 && (y % 100 != 0 || y % 400 == 0)
  }

  function DaysInYear(y: int): int {
    if IsLeapYear(y) then 366 else 365
  }

  function DaysInMonth(y: int, m: int): (n: int)
    requires 1 <= m <= 12
    ensures 28 <= n <= 31
  {
    if m == 2 then (if IsLeapYear(y) then 29 else 28)
    else if m == 4 || m == 6 || m == 9 || m == 11 then 30
    else 31
  }

  predicate Valid(d: Date) {
    && MinYear <= d.year <= MaxYear
    && 1 <= d.month <= 12
    && 1 <= d.day <= DaysInMonth(d.year, d.month)
  }

  predicate ValidDateTime(t: DateTime) {
    Valid(t.date) && 0 <= t.hour < 24 && 0 <= t.minute < 60
  }

  /** Days from 0001-01-01 to January 1st of year y. */
  function DaysBeforeYear(y: int): int
    requires y >= 1
  {
    var p := y - 1;
    365 * p + p / 4 - p / 100 + p / 400
  }

  /** Days from January 1st to the first of month m in year y. */
  function DaysBeforeMonth(y: int, m: int): int
    requires 1 <= m <= 12
  {
    [0, 31, 59, 90, 120, 151, 181, 212, 243, 273, 304, 334][m - 1]
      + (if m > 2 && IsLeapYear(y) then 1 else 0)
  }

  /** Days since 0001-01-01 (Python's `toordinal() - 1`); the difference of two
      day numbers is what `(a - b).days` yields. */
  function DayNumber(d: Date): int
    requires Valid(d)
  {
    DaysBeforeYear(d.year) + DaysBeforeMonth(d.year, d.month) + d.day - 1
  }

  const MaxDate := Date(MaxYear, 12, 31)
  const MaxDayNumber := 3652058

  /** Minutes since 0001-01-01 00:00. */
  function MinuteNumber(t: DateTime): int
    requires ValidDateTime(t)
  {
    DayNumber(t.date) * MinutesPerDay + t.hour * 60 + t.minute
  }

  const MaxMinuteNumber := MaxDayNumber * MinutesPerDay + MinutesPerDay - 1

  /** Each calendar year contributes its own length to the day count. */
  lemma DaysBeforeNextYear(y: int)
    requires y >= 1
    ensures DaysBeforeYear(y + 1) == DaysBeforeYear(y) + DaysInYear(y)
  {
    var p := y - 1;
    assert (p + 1) / 4 == p / 4 + (if (p + 1) % 4 == 0 then 1 else 0);
    assert (p + 1) / 100 == p / 100 + (if (p + 1) % 100 == 0 then 1 else 0);
    assert (p + 1) / 400 == p / 400 + (if (p + 1) % 400 == 0 then 1 else 0);
  }

  lemma {:induction false} DaysBeforeYearMonotonic(a: int, b: int)
    requires 1 <= a <= b
    ensures DaysBeforeYear(a) <= DaysBeforeYear(b)
    decreases b - a
  {
    if a < b {
      DaysBeforeNextYear(a);
      DaysBeforeYearMonotonic(a + 1, b);
    }
  }

  lemma MonthStep(y: int, m: int)
    requires 1 <= m < 12
    ensures DaysBeforeMonth(y, m + 1) == DaysBeforeMonth(y, m) + DaysInMonth(y, m)
  {
  }

  lemma DecemberEndsYear(y: int)
    ensures DaysBeforeMonth(y, 12) + 31 == DaysInYear(y)
  {
  }

  /** Every valid date has a day number in the supported range. */
  lemma DayNumberBounds(d: Date)
    requires Valid(d)
    ensures 0 <= DayNumber(d) <= MaxDayNumber
  {
    var y := d.year;
    assert DaysBeforeMonth(y, d.month) + d.day <= DaysInYear(y) by {
      if d.month < 12 {
        MonthBound(y, d.month);
      }
      DecemberEndsYear(y);
    }
    DaysBeforeNextYear(y);
    DaysBeforeYearMonotonic(y + 1, MaxYear + 1);
  }

  lemma MonthBound(y: int, m: int)
    requires 1 <= m < 12
    ensures DaysBeforeMonth(y, m) + DaysInMonth(y, m) <= DaysBeforeMonth(y, 12)
  {
  }

  /** Every valid instant has a minute number in the supported range. */
  lemma MinuteNumberBounds(t: DateTime)
    requires ValidDateTime(t)
    ensures 0 <= MinuteNumber(t) <= MaxMinuteNumber
  {
    DayNumberBounds(t.date);
  }

  /** A date's day number lies within its own year. */
  lemma DayNumberInYear(d: Date)
    requires Valid(d)
    ensures DaysBeforeYear(d.year) <= DayNumber(d) < DaysBeforeYear(d.year + 1)
  {
    assert DaysBeforeMonth(d.year, d.month) + d.day <= DaysInYear(d.year) by {
      if d.month < 12 {
        MonthBound(d.year, d.month);
      }
      DecemberEndsYear(d.year);
    }
    DaysBeforeNextYear(d.year);
  }

  /** Different dates have different day numbers. */
  lemma DayNumberInjective(a: Date, b: Date)
    requires Valid(a) && Valid(b) && DayNumber(a) == DayNumber(b)
    ensures a == b
  {
    if a.year < b.year {
      DayNumberInYear(a);
      DayNumberInYear(b);
      DaysBeforeYearMonotonic(a.year + 1, b.year);
    } else if b.year < a.year {
      DayNumberInYear(a);
      DayNumberInYear(b);
      DaysBeforeYearMonotonic(b.year + 1, a.year);
    } else if a.month < b.month {
      MonthStep(a.year, a.month);
    } else if b.month < a.month {
      MonthStep(b.year, b.month);
    }
  }

  /** Different instants have different minute numbers. */
  lemma MinuteNumberInjective(a: DateTime, b: DateTime)
    requires ValidDateTime(a) && ValidDateTime(b) && MinuteNumber(a) == MinuteNumber(b)
    ensures a == b
  {
    if DayNumber(a.date) == DayNumber(b.date) {
      DayNumberInjective(a.date, b.date);
    }
  }

  /** The following calendar day; None past 9999-12-31. */
  function NextDay(d: Date): (r: Option<Date>)
    requires Valid(d)
    ensures r.None? <==> d == MaxDate
    ensures r.Some? ==> Valid(r.value) && DayNumber(r.value) == DayNumber(d) + 1
  {
    if d.day < DaysInMonth(d.year, d.month) then Some(Date(d.year, d.month, d.day + 1))
    else if d.month < 12 then
      MonthStep(d.year, d.month);
      Some(Date(d.year, d.month + 1, 1))
    else if d.year < MaxYear then
      DaysBeforeNextYear(d.year);
      DecemberEndsYear(d.year);
      Some(Date(d.year + 1, 1, 1))
    else None
  }

  /** The preceding calendar day; None before 0001-01-01. */
  function PrevDay(d: Date): (r: Option<Date>)
    requires Valid(d)
    ensures r.None? <==> d == Date(MinYear, 1, 1)
    ensures r.Some? ==> Valid(r.value) && DayNumber(r.value) == DayNumber(d) - 1
  {
    if d.day > 1 then Some(Date(d.year, d.month, d.day - 1))
    else if d.month > 1 then
      MonthStep(d.year, d.month - 1);
      Some(Date(d.year, d.month - 1, DaysInMonth(d.year, d.month - 1)))
    else if d.year > MinYear then
      DaysBeforeNextYear(d.year - 1);
      DecemberEndsYear(d.year - 1);
      Some(Date(d.year - 1, 12, 31))
    else None
  }

  /** `date + timedelta(days=k)`: None exactly when Python would raise
      OverflowError because the result leaves years 1..9999. */
  function AddDays(d: Date, k: int): (r: Option<Date>)
    requires Valid(d)
    ensures r.Some? <==> 0 <= DayNumber(d) + k <= MaxDayNumber
    ensures r.Some? ==> Valid(r.value) && DayNumber(r.value) == DayNumber(d) + k
    decreases if k < 0 then -k else k
  {
    if k == 0 then
      DayNumberBounds(d);
      Some(d)
    else if k > 0 then
      match NextDay(d)
      case None => None
      case Some(n) => AddDays(n, k - 1)
    else
      match PrevDay(d)
      case None => None
      case Some(p) => AddDays(p, k + 1)
  }

  /** Moves an instant by `delta` minutes (negative moves it back), borrowing
      or carrying across days, months and years. */
  function ShiftMinutes(t: DateTime, delta: int): (r: Option<DateTime>)
    requires ValidDateTime(t)
    ensures r.Some? <==> 0 <= MinuteNumber(t) + delta <= MaxMinuteNumber
    ensures r.Some? ==> ValidDateTime(r.value) && MinuteNumber(r.value) == MinuteNumber(t) + delta
  {
    var offset := t.hour * 60 + t.minute + delta;
    var days := offset / MinutesPerDay;
    var rest := offset % MinutesPerDay;
    assert offset == days * MinutesPerDay + rest;
    assert MinuteNumber(t) + delta == (DayNumber(t.date) + days) * MinutesPerDay + rest;
    match AddDays(t.date, days)
    case None => None
    case Some(d) => Some(DateTime(d, rest / 60, rest % 60))
  }

  /** `datetime.strptime(s, "%Y-%m-%d")` restricted to the canonical layout:
      four-digit year, two-digit month and day, and a date that exists. */
  function ParseDate(s: string): (r: Option<Date>)
    ensures r.Some? ==> Valid(r.value)
  {
    if |s| == 10 && s[4] == '-' && s[7] == '-'
       && AllDigits(s[0..4]) && AllDigits(s[5..7]) && AllDigits(s[8..10])
    then
      var d := Date(DigitsValue(s[0..4]), DigitsValue(s[5..7]), DigitsValue(s[8..10]));
      if Valid(d) then Some(d) else None
    else None
  }

  /** `date.isoformat()`: `YYYY-MM-DD`. */
  function FormatDate(d: Date): (s: string)
    requires Valid(d)
    ensures |s| == 10
  {
    Fixed(d.year, 4) + "-" + Fixed(d.month, 2) + "-" + Fixed(d.day, 2)
  }

  lemma ParseFormatDate(d: Date)
    requires Valid(d)
    ensures ParseDate(FormatDate(d)) == Some(d)
  {
    var s := FormatDate(d);
    assert s[0..4] == Fixed(d.year, 4);
    assert s[5..7] == Fixed(d.month, 2);
    assert s[8..10] == Fixed(d.day, 2);
  }

  /** What a successful date parse has seen. */
  lemma ParsedDateFields(s: string)
    requires ParseDate(s).Some?
    ensures |s| == 10 && s[4] == '-' && s[7] == '-'
    ensures AllDigits(s[0..4]) && AllDigits(s[5..7]) && AllDigits(s[8..10])
    ensures ParseDate(s).value == Date(DigitsValue(s[0..4]), DigitsValue(s[5..7]), DigitsValue(s[8..10]))
  {
  }

  lemma DateLayout(s: string)
    requires |s| == 10 && s[4] == '-' && s[7] == '-'
    ensures s == s[0..4] + "-" + s[5..7] + "-" + s[8..10]
  {
  }

  /** A string that parses as a date is already in canonical form. */
  lemma FormatParseDate(s: string)
    requires ParseDate(s).Some?
    ensures FormatDate(ParseDate(s).value) == s
  {
    ParsedDateFields(s);
    DateLayout(s);
    FixedOfDigits(s[0..4]);
    FixedOfDigits(s[5..7]);
    FixedOfDigits(s[8..10]);
  }

  /** An `HH:MM` clock time with hour 00..23 and minute 00..59. */
  function ParseClockTime(s: string): (r: Option<ClockTime>)
    ensures r.Some? ==> 0 <= r.value.hour < 24 && 0 <= r.value.minute < 60
  {
    if |s| == 5 && s[2] == ':' && AllDigits(s[0..2]) && AllDigits(s[3..5])
       && DigitsValue(s[0..2]) < 24 && DigitsValue(s[3..5]) < 60
    then Some(ClockTime(DigitsValue(s[0..2]), DigitsValue(s[3..5])))
    else None
  }

  /** The `HH:MM` rendering of a clock time. */
  function FormatClock(c: ClockTime): (s: string)
    requires 0 <= c.hour < 24 && 0 <= c.minute < 60
    ensures |s| == 5
  {
    Fixed(c.hour, 2) + ":" + Fixed(c.minute, 2)
  }

  /** What a successful clock parse has seen. */
  lemma ParsedClockFields(s: string)
    requires ParseClockTime(s).Some?
    ensures |s| == 5 && s[2] == ':' && AllDigits(s[0..2]) && AllDigits(s[3..5])
    ensures ParseClockTime(s).value == ClockTime(DigitsValue(s[0..2]), DigitsValue(s[3..5]))
  {
  }

  /** A string that parses as a clock time is exactly its rendering. */
  lemma FormatParseClockTime(s: string)
    requires ParseClockTime(s).Some?
    ensures FormatClock(ParseClockTime(s).value) == s
  {
    ParsedClockFields(s);
    FormatClockOfFields(s[0..2], s[3..5]);
    assert s == s[0..2] + ":" + s[3..5];
  }

  lemma FormatClockOfFields(h: string, m: string)
    requires |h| == 2 && |m| == 2 && AllDigits(h) && AllDigits(m)
    requires DigitsValue(h) < 24 && DigitsValue(m) < 60
    ensures FormatClock(ClockTime(DigitsValue(h), DigitsValue(m))) == h + ":" + m
  {
    FixedOfDigits(h);
    FixedOfDigits(m);
  }

  /** `strftime("%Y-%m-%dT%H:%M:%S.000")` of an instant whose seconds are 0. */
  function FormatDateTime(t: DateTime): (s: string)
    requires ValidDateTime(t)
    ensures |s| == 23
  {
    FormatDate(t.date) + "T" + FormatClock(ClockTime(t.hour, t.minute)) + ":00.000"
  }

  /** Reads the trigger layout `YYYY-MM-DDTHH:MM:00.000` back into an instant. */
  function ParseDateTime(s: string): (r: Option<DateTime>)
    ensures r.Some? ==> ValidDateTime(r.value)
  {
    if |s| == 23 && s[10] == 'T' && s[16..] == ":00.000" then
      match (ParseDate(s[..10]), ParseClockTime(s[11..16]))
      case (Some(d), Some(c)) => Some(DateTime(d, c.hour, c.minute))
      case _ => None
    else None
  }

  lemma ParseFormatDateTime(t: DateTime)
    requires ValidDateTime(t)
    ensures ParseDateTime(FormatDateTime(t)) == Some(t)
  {
    var s := FormatDateTime(t);
    assert s[..10] == FormatDate(t.date);
    ParseFormatDate(t.date);
    assert s[11..16] == FormatClock(ClockTime(t.hour, t.minute));
    assert s[11..16][0..2] == Fixed(t.hour, 2);
    assert s[11..16][3..5] == Fixed(t.minute, 2);
    assert s[16..] == ":00.000";
  }

  /** A string that parses as a trigger instant is exactly its rendering. */
  lemma FormatParseDateTime(s: string)
    requires ParseDateTime(s).Some?
    ensures FormatDateTime(ParseDateTime(s).value) == s
  {
    FormatParseDate(s[..10]);
    FormatParseClockTime(s[11..16]);
    assert s == s[..10] + "T" + s[11..16] + s[16..];
  }
}
