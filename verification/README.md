# Homework Coach domain logic in Dafny

This project models the pure domain logic of the Homework Coach voice skill and
proves properties about it:

- **Daily plan** (`PlanGenerator`). Completed assignments are dropped. The rest are stable-sorted by
  (tier, estimated minutes, due-date text), numbered 1..N, and labelled with a reason.
- **Pomodoro session record** (`PomodoroManager`). Start, pause, resume and extend, plus the remaining
  minutes on the timer.
- **SM-2 review scheduler** (`SpacedRepetitionScheduler`). The ease/interval/repetition update, and the
  selection of quiz items that are due.
- **End-of-day recap** (`EndOfDayRecap`). Counts and sums over the day's sessions, the incomplete
  assignments grouped by due date, the motivational message, and the next-day rollover priorities.
- **Reminder trigger time** (`RemindersHelper`). The due date and time, minus the advance notice, as a
  `YYYY-MM-DDTHH:MM:SS.000` local instant, with a fixed fallback.

Supporting modules:

- `Basics`: `Option`, `Result` and Python's truncating `int()`.
- `Decimal`: decimal digits, `str(int)` and zero-padded fields.
- `Lexicographic`: Python's `<` on `str`.
- `Civil`: the proleptic Gregorian calendar of `datetime`, with years 1..9999. It covers day numbers, day
  and minute shifts across month and year boundaries, and the date, clock and trigger text forms.

Modelling choices:

- Python dicts become immutable datatypes.
- In-place mutation becomes a functional record update.
- Clock reads (`datetime.utcnow()`) become an explicit `now` parameter, in whole seconds.
- Floats (ease factors, minutes) become exact reals.
- An exception the source would raise becomes the `Failure` or `None` branch of a `Result` or `Option`.
  Examples are a malformed date in `strptime`, or a missing pause instant in `get_remaining_minutes`.
- `format_trigger_time` catches its exceptions, so the model returns its fallback string instead.
- Python's `sorted` is stable. The model tags each active assignment with its position. It sorts by key
  and then position with an insertion sort. It then proves that a sorted rearrangement of these tagged
  items is unique, so the result is *the* stable sort, whatever algorithm produced it.

Behaviour of the code that the model keeps exactly:

- The "due soon" tier covers 1 to 3 days.
- The sort key is (tier, estimated minutes, due-date text).
- "partial" is graded like "fail" (grade 2).
- The second successful review gives interval 3. Later intervals are the product of interval and ease,
  truncated.
- Resuming a session adds the paused span to `elapsed_minutes` and counts one interruption.
- Remaining minutes are computed from wall-clock time since the start, less the pause in progress.
- The recap counts Pomodoro sessions and sums `duration_minutes`. Its message depends on the Pomodoro
  and completed counts.
- Rollover keeps every incomplete assignment, uncapped, with high/medium/low priorities.

The test at `tests/test_algorithms.py:180-191` expects interval 3 and an ease above 2.5 after a first
pass. The code yields interval 1 and an unchanged ease of 2.5. The model follows the code: see
`SpacedRepetitionScheduler.FirstPass`.

## Model

| member | source | states |
|---|---|---|
| Basics.Trunc | lambda/helpers/algorithms.py:206 | `int()` of a real rounds toward zero: the result has the sign of the input, and its magnitude is the whole part of the input's magnitude |
| Basics.TruncMonotonic | lambda/helpers/algorithms.py:145 | truncation is monotone, so a growing argument never gives a smaller whole number |
| Decimal.IntToStringInjective | lambda/helpers/algorithms.py:287-289 | distinct integers are rendered as distinct decimal text, so an interpolated count can be read back |
| Decimal.FixedOfDigits | lambda/helpers/reminders_helper.py:297 | a zero-padded field of digits is exactly the padded rendering of its own value |
| Lexicographic.StrLessTransitive | lambda/helpers/algorithms.py:60 | Python's string order on the due-date component of the sort key is transitive |
| Lexicographic.StrLessTotal | lambda/helpers/algorithms.py:60 | any two different due-date strings are ordered one way or the other |
| Civil.AddDays | lambda/helpers/reminders_helper.py:293 | adding k days moves the day number by exactly k; the result is absent exactly when it would leave years 1..9999, where Python raises OverflowError |
| Civil.DayNumberInjective | lambda/helpers/algorithms.py:43 | different dates have different day numbers, so `(a - b).days` identifies the date |
| Civil.MinuteNumberInjective | lambda/helpers/reminders_helper.py:293 | different instants have different minute numbers |
| Civil.ShiftMinutes | lambda/helpers/reminders_helper.py:293 | `dt - timedelta(minutes=n)` moves the minute number by exactly n, borrowing across days, months and years; the result is absent exactly when it would leave the calendar |
| Civil.ParseFormatDate | lambda/helpers/algorithms.py:37 | a valid date written as `YYYY-MM-DD` parses back to itself |
| Civil.FormatParseDate | lambda/helpers/algorithms.py:42 | any string that parses as a date is already the canonical rendering of that date |
| Civil.ParseFormatDateTime | lambda/helpers/reminders_helper.py:297 | the trigger layout `YYYY-MM-DDTHH:MM:00.000` reads back to the instant it was written from |
| Civil.FormatParseDateTime | lambda/helpers/reminders_helper.py:297 | any string that reads as a trigger instant is exactly that instant's rendering |
| Civil.FormatParseClockTime | lambda/helpers/reminders_helper.py:287-292 | any string that parses as an `HH:MM` time is exactly that time's rendering |
| PlanGenerator.Tier | lambda/helpers/algorithms.py:51-58 | tier 0 exactly when overdue, 1 exactly when due today, 2 exactly when due in 1..3 days, 3 exactly when later |
| PlanGenerator.DaysUntilIsDistance | lambda/helpers/algorithms.py:42-43 | adding k days to today lands on the due date exactly when the day count is k; the count exists only for a due date that parses |
| PlanGenerator.Active | lambda/helpers/algorithms.py:38 | every non-completed assignment keeps its multiplicity, and no completed assignment survives (the order is stated by `PlanGenerator.ActiveConcat`) |
| PlanGenerator.ActiveConcat | lambda/helpers/algorithms.py:38 | filtering keeps input order: the active assignments of two lists together are those of the first followed by those of the second |
| PlanGenerator.Candidates | lambda/helpers/algorithms.py:40-43 | fails exactly when some active due date is not a date; otherwise tags each active assignment, in order, with its position and its days until due |
| PlanGenerator.Insert | lambda/helpers/algorithms.py:62 | inserting into a sorted list gives a sorted list holding exactly one more element |
| PlanGenerator.InsertionSort | lambda/helpers/algorithms.py:62 | the result is sorted by (key, position) and is a permutation of the input |
| PlanGenerator.SortedPermutationUnique | lambda/helpers/algorithms.py:62 | two sorted arrangements of the same tagged candidates are identical, which pins down the stable sort |
| PlanGenerator.PrecedesTransitive | lambda/helpers/algorithms.py:60-62 | the stable-sort order (key tuple, then input position) is transitive |
| PlanGenerator.PrecedesTotal | lambda/helpers/algorithms.py:60-62 | candidates at different positions are always ordered |
| PlanGenerator.OrderActive | lambda/helpers/algorithms.py:37-62 | fails exactly when today or an active due date is not a date; otherwise sorted, and holding exactly the active assignments |
| PlanGenerator.Entries | lambda/helpers/algorithms.py:64-84 | the i-th entry has rank i+1 and the id and reason of the i-th assignment in priority order |
| PlanGenerator.GenerateDailyPlan | lambda/helpers/algorithms.py:20-86 | fails exactly when a date does not parse; otherwise one entry per non-completed assignment, ranked 1..N in output order |
| PlanGenerator.PlanOrderIsStableSort | lambda/helpers/algorithms.py:62 | any arrangement of the active assignments sorted by (key, input position) is exactly the plan order |
| PlanGenerator.PlanPriorityOrder | lambda/helpers/algorithms.py:46-62 | tiers never decrease along the plan; within a tier, estimated minutes never decrease; equal keys keep input order |
| PlanGenerator.PlanDropsExactlyCompleted | lambda/helpers/algorithms.py:38 | the plan holds each non-completed assignment as often as the input does, and no completed one |
| PlanGenerator.Reason | lambda/helpers/algorithms.py:69-78 | the reason reads back, for a due date that parses, as "Overdue" exactly when overdue, "Due today" exactly when due today, "Due in N days" with N the day count exactly when due in 1..3 days, "Due <date>" with the due-date text exactly when later, followed by the estimated minutes |
| PlanGenerator.ReasonNamesTier | lambda/helpers/algorithms.py:69-76 | the tier read back from a reason is the tier the entry was sorted by (algorithms.py:51-58) |
| PlanGenerator.PlanReasonsNameTiers | lambda/helpers/algorithms.py:64-84 | in a generated plan, the reason of entry i reads back as the tier and the estimated minutes of the i-th assignment in priority order |
| PomodoroManager.StartSession | lambda/helpers/algorithms.py:95-105 | a new session starts now with the given duration (25 minutes by default), nothing elapsed, no interruptions, running and with no pause instant |
| PomodoroManager.PauseSession | lambda/helpers/algorithms.py:108-115 | an already paused session is returned unchanged; otherwise only the pause flag and the pause instant change |
| PomodoroManager.ResumeSession | lambda/helpers/algorithms.py:118-132 | a running session is returned unchanged; resuming with a known pause instant adds the paused minutes to elapsed and counts one interruption; the pause is cleared either way |
| PomodoroManager.ExtendSession | lambda/helpers/algorithms.py:148-151 | adds exactly the given minutes to the duration and changes nothing else |
| PomodoroManager.ClockMinutes | lambda/helpers/algorithms.py:137-142 | the running time counted by the timer: minutes from the start to now, or to the pause instant while paused |
| PomodoroManager.RemainingMinutes | lambda/helpers/algorithms.py:135-145 | never negative; the whole number of minutes left of the duration after wall-clock time less the current pause; absent when a paused session has no pause instant |
| PomodoroManager.PauseIdempotent | lambda/helpers/algorithms.py:110-111 | pausing twice is the same as pausing once |
| PomodoroManager.ResumeIdempotent | lambda/helpers/algorithms.py:120-121 | resuming twice is the same as resuming once |
| PomodoroManager.PauseResumeSameInstant | lambda/helpers/algorithms.py:108-132 | a pause and resume at the same instant leaves elapsed minutes alone and counts exactly one interruption |
| PomodoroManager.StartShowsFullDuration | lambda/helpers/algorithms.py:95-105 | a fresh session shows its whole duration as remaining |
| PomodoroManager.RemainingFrozenWhilePaused | lambda/helpers/algorithms.py:141-142 | the remaining minutes do not move while a session stays paused |
| PomodoroManager.RemainingNonIncreasing | lambda/helpers/algorithms.py:137-145 | the remaining minutes never go up while a session runs |
| PomodoroManager.RemainingExcludingBreaks | lambda/helpers/algorithms.py:137-145 | the corrected reading: never negative, and absent exactly when a paused session has no pause instant |
| PomodoroManager.BreaksExcludedFromTimer | lambda/helpers/algorithms.py:118-145 | with the corrected reading, a pause and resume of any length costs no timer minutes |
| PomodoroManager.ReadingsAgreeBeforeFirstResume | lambda/helpers/algorithms.py:137-145 | the as-written and corrected readings agree until a resume has added a pause to elapsed |
| PomodoroManager.BreakChargedToTimer | lambda/helpers/algorithms.py:137-145 | as written, a 25-minute session paused at once and resumed 10 minutes later shows 15 minutes left; the corrected reading shows 25 |
| SpacedRepetitionScheduler.Quality | lambda/helpers/algorithms.py:186-189 | the grade is 2 exactly for "fail" and "partial", and 4 for everything else |
| SpacedRepetitionScheduler.CalculateNextInterval | lambda/helpers/algorithms.py:158-210 | ease never below 1.3; a fail resets to interval 1 and 0 repetitions, and the ease drops by 0.32 (floored); a pass keeps the ease, adds a repetition, and gives interval 1, then 3, then the truncated product of interval and ease |
| SpacedRepetitionScheduler.ReviewPreservesWellFormed | lambda/helpers/algorithms.py:192-208 | reviews keep interval ≥ 1, ease ≥ 1.3 and repetitions ≥ 0; a pass after the second repetition never shortens the interval |
| SpacedRepetitionScheduler.PassStreak | lambda/helpers/algorithms.py:192-208 | n passes from a new item count n repetitions and keep the ease at 2.5 |
| SpacedRepetitionScheduler.FailResets | lambda/helpers/algorithms.py:195-198 | whatever came before, a failing answer resets interval and repetitions |
| SpacedRepetitionScheduler.FirstPass | lambda/helpers/algorithms.py:192-208 | a first pass on a new item gives interval 1, ease 2.5 and one repetition |
| SpacedRepetitionScheduler.ThirdPass | lambda/helpers/algorithms.py:206 | a third pass from interval 3 at ease 2.5 gives interval 7 |
| SpacedRepetitionScheduler.FailLowersEase | lambda/helpers/algorithms.py:192 | a fail at ease 2.5 gives ease 2.18 |
| SpacedRepetitionScheduler.DueIds | lambda/helpers/algorithms.py:225-234 | fails exactly when a scheduled date is not a date; otherwise lists exactly the ids of items whose review date is today or earlier, skipping items without a date |
| SpacedRepetitionScheduler.GetItemsDueForReview | lambda/helpers/algorithms.py:213-234 | fails exactly when today or a scheduled date is not a date; otherwise an id is listed exactly when some item with that id is due |
| SpacedRepetitionScheduler.DueIdsConcat | lambda/helpers/algorithms.py:227-232 | selection keeps input order: the due ids of a concatenation are the due ids of each part, in turn |
| EndOfDayRecap.PomodoroCount | lambda/helpers/algorithms.py:257 | the count equals the number of occurrences of "pomodoro" among the session types, so it is at most the number of sessions |
| EndOfDayRecap.TotalMinutes | lambda/helpers/algorithms.py:258 | no sessions total 0 and a single session totals its own minutes (with `EndOfDayRecap.TotalsAdditive` this makes the total the sum of all sessions' minutes); with no negative durations the total is never negative and is at least each session's minutes |
| EndOfDayRecap.TotalsAdditive | lambda/helpers/algorithms.py:257-258 | the Pomodoro count and the study minutes of two session lists together are the sums of each |
| EndOfDayRecap.WithDueDate | lambda/helpers/algorithms.py:261-265 | a group holds exactly the input's assignments with its due date, with their multiplicities |
| EndOfDayRecap.DueDatesInOrder | lambda/helpers/algorithms.py:261-265 | the group keys have no repeats, and a date is a key exactly when some incomplete assignment has it |
| EndOfDayRecap.GroupedByDueDate | lambda/helpers/algorithms.py:260-265 | filing the assignments one at a time yields one group per distinct due date in order of first appearance, each holding exactly that date's assignments in input order, sizes summing to the input length |
| EndOfDayRecap.GroupByDueDate | lambda/helpers/algorithms.py:260-265 | one group per distinct due date, in order of first appearance; each group holds exactly that date's assignments in input order; the group sizes add up to the input length; the loop's result is the one-at-a-time filing |
| EndOfDayRecap.Classify | lambda/helpers/algorithms.py:281-290 | the message case follows the precedence: no Pomodoros, then five or more Pomodoros, then three or more completed, then the default |
| EndOfDayRecap.MessageRoundTrip | lambda/helpers/algorithms.py:281-290 | every message text determines its case and the count it quotes |
| EndOfDayRecap.GenerateMessage | lambda/helpers/algorithms.py:281-290 | the message reads back as the precedence case of its counts, with the count it quotes |
| EndOfDayRecap.GenerateRecap | lambda/helpers/algorithms.py:241-278 | session, Pomodoro, minute and assignment counts as described, the due-date grouping, and a message matching the precedence case |
| EndOfDayRecap.PriorityFor | lambda/helpers/algorithms.py:308 | high exactly when due within a day or overdue, medium exactly when due in 2..3 days, low exactly when later |
| EndOfDayRecap.PriorityMonotonic | lambda/helpers/algorithms.py:308 | an earlier due date never gets a lower priority |
| EndOfDayRecap.PriorityAgreesWithTier | lambda/helpers/algorithms.py:51-58 | rollover priorities agree with plan tiers: overdue and due-today work is high, and low exactly matches the last tier |
| EndOfDayRecap.RolloverIncompleteAssignments | lambda/helpers/algorithms.py:293-319 | fails exactly when today or a due date is not a date; otherwise one item per incomplete assignment in input order, with its id, title, days until due and the matching priority |
| RemindersHelper.DueInstant | lambda/helpers/reminders_helper.py:287-292 | an absent or empty time means 09:00; the instant exists exactly when the date and the time both parse, and then its date is written as the due date and its clock as the given time (or 09:00) |
| RemindersHelper.FormatTriggerTime | lambda/helpers/reminders_helper.py:269-301 | the notice defaults to 1440 minutes; unreadable input or a result outside the calendar gives the 9 AM fallback; otherwise the result reads back as the due instant minus the notice, in minutes |
| RemindersHelper.TriggerPrecedesDueByNotice | lambda/helpers/reminders_helper.py:292-297 | moving the trigger forward by the notice lands exactly on the due instant |
| RemindersHelper.NoNoticeIsDueInstant | lambda/helpers/reminders_helper.py:292-297 | with zero minutes of notice, the trigger is the due instant itself |
| RemindersHelper.TriggerReadableOrFallback | lambda/helpers/reminders_helper.py:286-301 | the result is always a readable trigger instant or the fallback |
| RemindersHelper.MissingTimeMeansNine | lambda/helpers/reminders_helper.py:287-290 | no time, an empty time and "09:00" give the same trigger |
| RemindersHelper.TimezoneIgnored | lambda/helpers/reminders_helper.py:269-297 | the time zone argument has no effect on the result |
| RemindersHelper.FallbackIsNineOnDueDate | lambda/helpers/reminders_helper.py:298-301 | for a readable due date, the fallback is 09:00 on that date |
| RemindersHelper.DayBeforeAtFive | lambda/helpers/reminders_helper.py:281-284 | due 2026-01-30 at 17:00 with the default day of notice gives "2026-01-29T17:00:00.000" |

## Left out

- Parsing covers only the canonical layouts: a four-digit year, two-digit month and day, and an `HH:MM`
  time. Python's `strptime` also accepts unpadded fields such as `2026-1-5`. Python's `fromisoformat`
  also accepts an hour-only time. The model treats any other layout as a parse failure.
- strftime's `%Y` does not pad years below 1000 on some C libraries. The model always writes four digits.
  Any due date before year 1000 (such as `0999-05-05`, which `strptime` reads) reaches this case, as
  does a trigger shifted back across year 1000.
- IEEE-754 floats are modelled as exact reals. The model does not track float drift. Such drift can move
  `int(interval * ease)` at an integer boundary, or a minute count computed from `total_seconds() / 60`.
- The model does not follow dict keys that may be absent. Each modelled record always carries every
  field. This covers the default 0 for `estimated_minutes` in the sort key, a missing `due_date`, a
  missing `duration_minutes`, and a `None` key in the due-date grouping.
- The system clock becomes an explicit parameter in whole seconds. The ISO text the source stores for
  `start_time` and `paused_at` is not modelled.
- The due-date grouping is a sequence of (due date, assignments) pairs in key order. It is not a
  mutable dict.
- The rest of the repository is not part of this model. That covers the voice-interface request
  handlers, the database, display and reminder-service HTTP code, reminder creation, update and
  deletion, and the logging calls.

## Findings

| source | as written | input that shows it | evidently intended | confidence | as-written member | corrected member |
|---|---|---|---|---|---|---|
| lambda/helpers/algorithms.py:137-145 | remaining minutes subtract only the pause in progress from the wall-clock time since the start, and ignore the paused spans that `resume_session` accumulates in `elapsed_minutes` | a 25-minute session started at t=0, paused at t=0 and resumed at t=600 s shows 15 minutes left right after resuming | a finished break does not count against the timer, so 25 minutes are left | not executed | PomodoroManager.BreakChargedToTimer | PomodoroManager.BreaksExcludedFromTimer |
