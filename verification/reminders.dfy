/** The reminder trigger instant: the due date and time (9 AM when no time is
    given) moved back by the advance notice, written in the local-time layout
    the reminders service expects. Anything that cannot be read or leaves the
    calendar falls back to 9 AM on the due date as given. */
module RemindersHelper {
  import opened Basics
  import opened Decimal
  import opened Civil

  /** One day of notice unless the caller says otherwise. */
  const DefaultMinutesBefore := 1440

  const DefaultDueTime := "09:00"

  /** The clock text the due instant is read with: the given time, or 09:00
      when it is absent or empty. */
  function DueClock(dueTime: Option<string>): string {
    if dueTime.Some? && dueTime.value != "" then dueTime.value else DefaultDueTime
  }

  /** The due instant `"{due_date}T{due_time}:00"` denotes: the instant whose
      date is written `dueDate` and whose clock is written `DueClock(dueTime)`. */
  function DueInstant(dueDate: string, dueTime: Option<string>): (r: Option<DateTime>)
    ensures r.Some? ==> ValidDateTime(r.value)
    ensures r.Some? <==> ParseDate(dueDate).Some? && ParseClockTime(DueClock(dueTime)).Some?
    ensures r.Some? ==>
              && FormatDate(r.value.date) == dueDate
              && FormatClock(ClockTime(r.value.hour, r.value.minute)) == DueClock(dueTime)
  {
    match (ParseDate(dueDate), ParseClockTime(DueClock(dueTime)))
    case (Some(d), Some(c)) =>
      FormatParseDate(dueDate);
      FormatParseClockTime(DueClock(dueTime));
      Some(DateTime(d, c.hour, c.minute))
    case _ => None
  }

  /** The answer when the trigger cannot be computed. */
  function Fallback(dueDate: string): string {
    dueDate + "T09:00:00.000"
  }

  /** `format_trigger_time`. The time zone is accepted and not used: the
      trigger is local wall-clock time. */
  function FormatTriggerTime(dueDate: string, dueTime: Option<string>, timezone: string, minutesBefore: int := DefaultMinutesBefore): (r: string)
    ensures DueInstant(dueDate, dueTime).None? ==> r == Fallback(dueDate)
    ensures DueInstant(dueDate, dueTime).Some? ==>
              var due := MinuteNumber(DueInstant(dueDate, dueTime).value);
              && (!(0 <= due - minutesBefore <= MaxMinuteNumber) ==> r == Fallback(dueDate))
              && (0 <= due - minutesBefore <= MaxMinuteNumber ==>
                    && ParseDateTime(r).Some?
                    && MinuteNumber(ParseDateTime(r).value) == due - minutesBefore)
  {
    match DueInstant(dueDate, dueTime)
    case None => Fallback(dueDate)
    case Some(due) =>
      match ShiftMinutes(due, -minutesBefore)
      case None => Fallback(dueDate)
      case Some(t) =>
        ParseFormatDateTime(t);
        FormatDateTime(t)
  }

  /** Moving the trigger forward by the notice lands exactly on the due
      instant: the reminder fires `minutesBefore` minutes ahead of it. */
  lemma TriggerPrecedesDueByNotice(dueDate: string, dueTime: Option<string>, timezone: string, minutesBefore: int)
    requires DueInstant(dueDate, dueTime).Some?
    requires 0 <= MinuteNumber(DueInstant(dueDate, dueTime).value) - minutesBefore <= MaxMinuteNumber
    ensures
      var trigger := ParseDateTime(FormatTriggerTime(dueDate, dueTime, timezone, minutesBefore));
      && trigger.Some?
      && ShiftMinutes(trigger.value, minutesBefore) == DueInstant(dueDate, dueTime)
  {
    var due := DueInstant(dueDate, dueTime).value;
    var t := ShiftMinutes(due, -minutesBefore).value;
    assert FormatTriggerTime(dueDate, dueTime, timezone, minutesBefore) == FormatDateTime(t);
    ParseFormatDateTime(t);
    MinuteNumberBounds(due);
    var back := ShiftMinutes(t, minutesBefore);
    MinuteNumberInjective(back.value, due);
  }

  /** With no notice the trigger is the due instant itself. */
  lemma NoNoticeIsDueInstant(dueDate: string, dueTime: Option<string>, timezone: string)
    requires DueInstant(dueDate, dueTime).Some?
    ensures FormatTriggerTime(dueDate, dueTime, timezone, 0) == FormatDateTime(DueInstant(dueDate, dueTime).value)
  {
    var due := DueInstant(dueDate, dueTime).value;
    var shifted := ShiftMinutes(due, 0);
    DayNumberBounds(due.date);
    MinuteNumberInjective(shifted.value, due);
  }

  /** The trigger is always either a readable instant or the fallback. */
  lemma TriggerReadableOrFallback(dueDate: string, dueTime: Option<string>, timezone: string, minutesBefore: int)
    ensures var r := FormatTriggerTime(dueDate, dueTime, timezone, minutesBefore);
      ParseDateTime(r).Some? || r == Fallback(dueDate)
  {
  }

  /** An absent time, an empty time and an explicit 09:00 give the same trigger. */
  lemma MissingTimeMeansNine(dueDate: string, timezone: string, minutesBefore: int)
    ensures FormatTriggerTime(dueDate, None, timezone, minutesBefore)
            == FormatTriggerTime(dueDate, Some(""), timezone, minutesBefore)
            == FormatTriggerTime(dueDate, Some(DefaultDueTime), timezone, minutesBefore)
  {
    assert DueInstant(dueDate, None) == DueInstant(dueDate, Some("")) == DueInstant(dueDate, Some(DefaultDueTime));
  }

  /** The time zone has no influence on the trigger. */
  lemma TimezoneIgnored(dueDate: string, dueTime: Option<string>, tz1: string, tz2: string, minutesBefore: int)
    ensures FormatTriggerTime(dueDate, dueTime, tz1, minutesBefore) == FormatTriggerTime(dueDate, dueTime, tz2, minutesBefore)
  {
  }

  /** For a readable due date, the fallback is itself 9 AM on that date. */
  lemma FallbackIsNineOnDueDate(dueDate: string)
    requires ParseDate(dueDate).Some?
    ensures ParseDateTime(Fallback(dueDate)) == Some(DateTime(ParseDate(dueDate).value, 9, 0))
  {
    var s := Fallback(dueDate);
    var tail := "T09:00:00.000";
    assert |dueDate| == 10;
    assert s[..10] == dueDate;
    assert s[10..] == tail;
    assert s[11..16] == tail[1..6] == "09:00";
    assert s[16..] == ":00.000";
    assert s[11..16][0..2] == "09" && s[11..16][3..5] == "00";
    TwoDigits("09");
    TwoDigits("00");
  }

  lemma ExampleClock()
    ensures ParseClockTime("17:00") == Some(ClockTime(17, 0))
  {
    assert "17:00"[0..2] == "17" && "17:00"[3..5] == "00";
    TwoDigits("17");
    TwoDigits("00");
  }

  lemma ExampleDate()
    ensures ParseDate("2026-01-30") == Some(Date(2026, 1, 30))
  {
    var s := "2026-01-30";
    assert s[0..4] == "2026" && s[5..7] == "01" && s[8..10] == "30";
    FourDigits("2026");
    TwoDigits("01");
    TwoDigits("30");
  }

  lemma ExampleDueInstant()
    ensures DueInstant("2026-01-30", Some("17:00")) == Some(DateTime(Date(2026, 1, 30), 17, 0))
  {
    ExampleClock();
    ExampleDate();
  }

  lemma ExampleShift()
    ensures ShiftMinutes(DateTime(Date(2026, 1, 30), 17, 0), -1440) == Some(DateTime(Date(2026, 1, 29), 17, 0))
  {
    var due := Date(2026, 1, 30);
    assert PrevDay(due) == Some(Date(2026, 1, 29));
    assert AddDays(due, -1) == Some(Date(2026, 1, 29));
  }

  lemma ExampleEarlierDate()
    ensures ParseDate("2026-01-29") == Some(Date(2026, 1, 29))
  {
    var s := "2026-01-29";
    assert s[0..4] == "2026" && s[5..7] == "01" && s[8..10] == "29";
    FourDigits("2026");
    TwoDigits("01");
    TwoDigits("29");
  }

  lemma ExampleFormat()
    ensures FormatDateTime(DateTime(Date(2026, 1, 29), 17, 0)) == "2026-01-29T17:00:00.000"
  {
    var s := "2026-01-29T17:00:00.000";
    assert s[..10] == "2026-01-29";
    assert s[11..16] == "17:00";
    assert s[16..] == ":00.000";
    ExampleEarlierDate();
    ExampleClock();
    assert ParseDateTime(s) == Some(DateTime(Date(2026, 1, 29), 17, 0));
    FormatParseDateTime(s);
  }

  /** Due 2026-01-30 at 17:00 with a day's notice: 2026-01-29 at 17:00. */
  lemma DayBeforeAtFive()
    ensures FormatTriggerTime("2026-01-30", Some("17:00"), "America/Los_Angeles")
            == "2026-01-29T17:00:00.000"
  {
    ExampleDueInstant();
    ExampleShift();
    ExampleFormat();
  }
}
