/** The Pomodoro session record and its transitions.

    The current time is an explicit `now` parameter, in whole seconds on the
    same scale as the session's start time. */
module PomodoroManager {
  import opened Basics

  datatype Session = Session(
    subject: string,
    startTime: int,
    durationMinutes: int,
    elapsedMinutes: real,
    isPaused: bool,
    pausedAt: Option<int>,
    interruptions: int)

  const StandardDuration := 25

  /** A span of seconds as fractional minutes (`total_seconds() / 60`). */
  function Minutes(seconds: int): real {
    seconds as real / 60.0
  }

  /** `start_session`: a running session that has used no time yet; the
      duration defaults to the standard 25 minutes. */
  function StartSession(subject: string, now: int, durationMinutes: int := StandardDuration): (s: Session)
    ensures s.subject == subject && s.startTime == now && s.durationMinutes == durationMinutes
    ensures s.elapsedMinutes == 0.0 && s.interruptions == 0
    ensures !s.isPaused && s.pausedAt.None?
  {
    Session(subject, now, durationMinutes, 0.0, false, None, 0)
  }

  /** `pause_session`: a paused session is returned as it is; otherwise only
      the pause flag and the pause instant change. */
  function PauseSession(s: Session, now: int): (r: Session)
    ensures s.isPaused ==> r == s
    ensures !s.isPaused ==> r.isPaused && r.pausedAt == Some(now)
    ensures r.(isPaused := s.isPaused, pausedAt := s.pausedAt) == s
  {
    if s.isPaused then s
    else s.(isPaused := true, pausedAt := Some(now))
  }

  /** `resume_session`: a session that is not paused is returned as it is.
      Resuming adds the paused span to `elapsedMinutes` and counts one
      interruption, but only when the pause instant is known; the pause flag
      and instant are cleared either way. */
  function ResumeSession(s: Session, now: int): (r: Session)
    ensures !s.isPaused ==> r == s
    ensures s.isPaused ==> !r.isPaused && r.pausedAt.None?
    ensures s.isPaused && s.pausedAt.Some? ==>
              && r.elapsedMinutes == s.elapsedMinutes + Minutes(now - s.pausedAt.value)
              && r.interruptions == s.interruptions + 1
    ensures s.isPaused && s.pausedAt.None? ==>
              r.elapsedMinutes == s.elapsedMinutes && r.interruptions == s.interruptions
    ensures r.subject == s.subject && r.startTime == s.startTime && r.durationMinutes == s.durationMinutes
  {
    if !s.isPaused then s
    else
      var counted :=
        match s.pausedAt
        case Some(p) => s.(elapsedMinutes := s.elapsedMinutes + Minutes(now - p), interruptions := s.interruptions + 1)
        case None => s;
      counted.(isPaused := false, pausedAt := None)
  }

  /** `extend_session`: adds to the planned duration and nothing else. */
  function ExtendSession(s: Session, additionalMinutes: int): (r: Session)
    ensures r.durationMinutes == s.durationMinutes + additionalMinutes
    ensures r.(durationMinutes := s.durationMinutes) == s
  {
    s.(durationMinutes := s.durationMinutes + additionalMinutes)
  }

  /** Wall-clock minutes since the start, less the pause in progress (if any):
      the running time up to now, or up to the pause instant while paused. */
  function ClockMinutes(s: Session, now: int): (m: real)
    requires !s.isPaused || s.pausedAt.Some?
    ensures !s.isPaused ==> m == Minutes(now - s.startTime)
    ensures s.isPaused ==> m == Minutes(s.pausedAt.value - s.startTime)
  {
    Minutes(now - s.startTime) - (if s.isPaused then Minutes(now - s.pausedAt.value) else 0.0)
  }

  /** `get_remaining_minutes`: whole minutes left on the timer, never negative.
      For a paused session without a pause instant `get_remaining_minutes`
      raises. */
  function RemainingMinutes(s: Session, now: int): (r: Option<int>)
    ensures r.None? <==> s.isPaused && s.pausedAt.None?
    ensures r.Some? ==> r.value >= 0
    ensures r.Some? ==>
              var left := s.durationMinutes as real - ClockMinutes(s, now);
              && (left >= 0.0 ==> r.value as real <= left < r.value as real + 1.0)
              && (left < 1.0 ==> r.value == 0)
  {
    if s.isPaused && s.pausedAt.None? then None
    else Some(Max(0, Trunc(s.durationMinutes as real - ClockMinutes(s, now))))
  }

  lemma PauseIdempotent(s: Session, t1: int, t2: int)
    ensures PauseSession(PauseSession(s, t1), t2) == PauseSession(s, t1)
  {
  }

  lemma ResumeIdempotent(s: Session, t1: int, t2: int)
    ensures ResumeSession(ResumeSession(s, t1), t2) == ResumeSession(s, t1)
  {
  }

  /** Pausing and resuming at the same instant leaves the elapsed minutes
      alone and counts exactly one interruption. */
  lemma PauseResumeSameInstant(s: Session, now: int)
    requires !s.isPaused
    ensures ResumeSession(PauseSession(s, now), now)
            == s.(interruptions := s.interruptions + 1, pausedAt := None)
  {
  }

  /** A fresh session shows its full duration (or 0 if that is negative). */
  lemma StartShowsFullDuration(subject: string, durationMinutes: int, now: int)
    ensures RemainingMinutes(StartSession(subject, now, durationMinutes), now) == Some(Max(0, durationMinutes))
  {
  }

  /** While a session stays paused its remaining minutes do not move. */
  lemma RemainingFrozenWhilePaused(s: Session, t1: int, t2: int)
    requires s.isPaused && s.pausedAt.Some?
    ensures RemainingMinutes(s, t1) == RemainingMinutes(s, t2)
  {
    assert ClockMinutes(s, t1) == ClockMinutes(s, t2);
  }

  /** While a session runs its remaining minutes never go up. */
  lemma RemainingNonIncreasing(s: Session, t1: int, t2: int)
    requires !s.isPaused && t1 <= t2
    ensures RemainingMinutes(s, t2).value <= RemainingMinutes(s, t1).value
  {
    var d := s.durationMinutes as real;
    TruncMonotonic(d - ClockMinutes(s, t2), d - ClockMinutes(s, t1));
  }

  /** The remaining time with every break taken off: `get_remaining_minutes`
      already takes off the pause in progress, and this reading also takes
      off the finished pauses that resuming accumulated in `elapsedMinutes`. */
  function RemainingExcludingBreaks(s: Session, now: int): (r: Option<int>)
    ensures r.None? <==> s.isPaused && s.pausedAt.None?
    ensures r.Some? ==> r.value >= 0
  {
    if s.isPaused && s.pausedAt.None? then None
    else Some(Max(0, Trunc(s.durationMinutes as real - (ClockMinutes(s, now) - s.elapsedMinutes))))
  }

  /** With the intended reading a pause-and-resume of any length costs no
      timer minutes: the remaining time right after resuming equals the
      remaining time at the moment of pausing. */
  lemma BreaksExcludedFromTimer(s: Session, pauseAt: int, resumeAt: int)
    requires !s.isPaused
    ensures RemainingExcludingBreaks(ResumeSession(PauseSession(s, pauseAt), resumeAt), resumeAt)
            == RemainingExcludingBreaks(s, pauseAt)
  {
    var r := ResumeSession(PauseSession(s, pauseAt), resumeAt);
    assert r.elapsedMinutes == s.elapsedMinutes + Minutes(resumeAt - pauseAt);
    assert ClockMinutes(r, resumeAt) - r.elapsedMinutes == ClockMinutes(s, pauseAt) - s.elapsedMinutes;
  }

  /** The two readings agree until the first pause has been resumed. */
  lemma ReadingsAgreeBeforeFirstResume(s: Session, now: int)
    requires s.elapsedMinutes == 0.0
    ensures RemainingExcludingBreaks(s, now) == RemainingMinutes(s, now)
  {
  }

  /** As written, a finished break is charged to the timer: a 25-minute
      session paused at once and resumed 10 minutes later shows 15 minutes
      left instead of 25. */
  lemma BreakChargedToTimer()
    ensures var s := ResumeSession(PauseSession(StartSession("Biology", 0), 0), 600);
      && RemainingMinutes(s, 600) == Some(15)
      && RemainingExcludingBreaks(s, 600) == Some(25)
  {
    var s := ResumeSession(PauseSession(StartSession("Biology", 0), 0), 600);
    assert s.elapsedMinutes == 10.0;
    assert ClockMinutes(s, 600) == 10.0;
  }
}
