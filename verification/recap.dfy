/** The end-of-day recap: counts and sums over the day's study sessions,
    the incomplete assignments grouped by due date, a motivational message
    chosen by a fixed precedence, and next-day priorities for the
    incomplete assignments. */
module EndOfDayRecap {
  import opened Basics
  import opened Decimal
  import opened Civil
  import opened PlanGenerator

  datatype StudySession = StudySession(sessionType: string, durationMinutes: int)

  /** One entry of `incomplete_by_due_date`: a due date and the incomplete
      assignments with that due date, in input order. */
  datatype DueGroup = DueGroup(dueDate: string, assignments: seq<Assignment>)

  datatype Recap = Recap(
    studySessionsCount: nat,
    pomodorosCount: nat,
    totalStudyMinutes: int,
    assignmentsCompleted: nat,
    assignmentsRemaining: nat,
    incompleteByDueDate: seq<DueGroup>,
    motivationalMessage: string)

  /** The four messages, with the counts two of them quote. */
  datatype Encouragement =
    | NoPomodoros
    | ManyPomodoros(pomodoros: int)
    | ManyCompleted(completed: int)
    | KeepBuilding

  datatype Priority = High | Medium | Low

  datatype RolloverItem = RolloverItem(assignmentId: string, title: string, priority: Priority, daysUntilDue: int)

  const PomodoroType := "pomodoro"

  function SessionTypes(sessions: seq<StudySession>): (r: seq<string>)
    ensures |r| == |sessions|
  {
    seq(|sessions|, i requires 0 <= i < |sessions| => sessions[i].sessionType)
  }

  /** The number of sessions whose type is "pomodoro". */
  function PomodoroCount(sessions: seq<StudySession>): (n: nat)
    ensures n <= |sessions|
    ensures n == multiset(SessionTypes(sessions))[PomodoroType]
  {
    if |sessions| == 0 then 0
    else
      var init, last := sessions[..|sessions| - 1], sessions[|sessions| - 1];
      assert SessionTypes(sessions) == SessionTypes(init) + [last.sessionType];
      PomodoroCount(init) + (if last.sessionType == PomodoroType then 1 else 0)
  }

  /** The sum of the sessions' minutes. No sessions total 0 and one session
      totals its own minutes; with `TotalsAdditive` this pins the sum down.
      With no negative durations the total is never negative and includes
      every single session's minutes. */
  function TotalMinutes(sessions: seq<StudySession>): (total: int)
    ensures |sessions| == 0 ==> total == 0
    ensures |sessions| == 1 ==> total == sessions[0].durationMinutes
    ensures NoNegativeDurations(sessions) ==> 0 <= total
    ensures NoNegativeDurations(sessions) ==>
              forall i :: 0 <= i < |sessions| ==> sessions[i].durationMinutes <= total
  {
    if |sessions| == 0 then 0
    else
      var init := sessions[..|sessions| - 1];
      assert forall i :: 0 <= i < |init| ==> init[i] == sessions[i];
      assert |sessions| == 1 ==> init == [];
      TotalMinutes(init) + sessions[|sessions| - 1].durationMinutes
  }

  predicate NoNegativeDurations(sessions: seq<StudySession>) {
    forall i :: 0 <= i < |sessions| ==> 0 <= sessions[i].durationMinutes
  }

  /** Counting and summing distribute over the concatenation of two days'
      worth of sessions. */
  lemma {:induction false} TotalsAdditive(a: seq<StudySession>, b: seq<StudySession>)
    ensures PomodoroCount(a + b) == PomodoroCount(a) + PomodoroCount(b)
    ensures TotalMinutes(a + b) == TotalMinutes(a) + TotalMinutes(b)
    decreases |b|
  {
    if |b| == 0 {
      assert a + b == a;
    } else {
      var init := b[..|b| - 1];
      assert (a + b)[..|a + b| - 1] == a + init;
      TotalsAdditive(a, init);
    }
  }

  /** The incomplete assignments due on `due`, in input order. */
  function WithDueDate(s: seq<Assignment>, due: string): (r: seq<Assignment>)
    ensures forall i :: 0 <= i < |r| ==> r[i].dueDate == due
    ensures forall a :: multiset(r)[a] == if a.dueDate == due then multiset(s)[a] else 0
  {
    if |s| == 0 then []
    else
      var init, last := s[..|s| - 1], s[|s| - 1];
      assert s == init + [last];
      WithDueDate(init, due) + (if last.dueDate == due then [last] else [])
  }

  /** The due dates of `s` without repeats, in order of first appearance (the
      key order of a Python dict filled in input order). */
  function DueDatesInOrder(s: seq<Assignment>): (r: seq<string>)
    ensures forall i, j :: 0 <= i < j < |r| ==> r[i] != r[j]
    ensures forall d :: d in r <==> exists i :: 0 <= i < |s| && s[i].dueDate == d
  {
    if |s| == 0 then []
    else
      var init, last := s[..|s| - 1], s[|s| - 1];
      var keys := DueDatesInOrder(init);
      assert forall i :: 0 <= i < |init| ==> s[i] == init[i];
      if last.dueDate in keys then keys else keys + [last.dueDate]
  }

  function Keys(groups: seq<DueGroup>): (r: seq<string>)
    ensures |r| == |groups|
  {
    seq(|groups|, i requires 0 <= i < |groups| => groups[i].dueDate)
  }

  function TotalSize(groups: seq<DueGroup>): nat {
    if |groups| == 0 then 0
    else TotalSize(groups[..|groups| - 1]) + |groups[|groups| - 1].assignments|
  }

  lemma {:induction false} TotalSizeUpdate(groups: seq<DueGroup>, k: nat, g: DueGroup)
    requires k < |groups|
    ensures TotalSize(groups[k := g]) == TotalSize(groups) - |groups[k].assignments| + |g.assignments|
    decreases |groups|
  {
    var n := |groups| - 1;
    if k < n {
      assert groups[k := g][..n] == groups[..n][k := g];
      TotalSizeUpdate(groups[..n], k, g);
    } else {
      assert groups[k := g][..n] == groups[..n];
    }
  }

  /** The position of `due` among the keys, or |keys| when absent. */
  function FindKey(keys: seq<string>, due: string): (k: nat)
    ensures k <= |keys|
    ensures k < |keys| ==> keys[k] == due
    ensures k == |keys| ==> due !in keys
  {
    if |keys| == 0 then 0
    else if keys[0] == due then 0
    else 1 + FindKey(keys[1..], due)
  }

  /** Files one more assignment: into the group with its due date when there
      is one, otherwise into a new group at the end. */
  function Place(groups: seq<DueGroup>, a: Assignment): (r: seq<DueGroup>)
    ensures |r| == |groups| || |r| == |groups| + 1
  {
    var k := FindKey(Keys(groups), a.dueDate);
    if k < |groups| then groups[k := DueGroup(a.dueDate, groups[k].assignments + [a])]
    else groups + [DueGroup(a.dueDate, [a])]
  }

  /** The grouping invariant: the groups of `seen`, keyed by its distinct due
      dates in order of first appearance, each holding exactly the
      assignments with its due date. */
  predicate GroupsOf(groups: seq<DueGroup>, seen: seq<Assignment>) {
    && Keys(groups) == DueDatesInOrder(seen)
    && (forall g :: 0 <= g < |groups| ==> groups[g].assignments == WithDueDate(seen, groups[g].dueDate))
    && TotalSize(groups) == |seen|
  }

  lemma PlaceKeys(groups: seq<DueGroup>, seen: seq<Assignment>, a: Assignment)
    requires Keys(groups) == DueDatesInOrder(seen)
    ensures Keys(Place(groups, a)) == DueDatesInOrder(seen + [a])
  {
    assert (seen + [a])[..|seen|] == seen;
    var keys := Keys(groups);
    var k := FindKey(keys, a.dueDate);
    var r := Place(groups, a);
    if k < |groups| {
      assert Keys(r) == keys;
    } else {
      assert Keys(r) == keys + [a.dueDate];
    }
  }

  lemma WithDueDateSnoc(seen: seq<Assignment>, a: Assignment, due: string)
    ensures WithDueDate(seen + [a], due) == WithDueDate(seen, due) + (if a.dueDate == due then [a] else [])
  {
    assert (seen + [a])[..|seen|] == seen;
  }

  lemma PlaceContents(groups: seq<DueGroup>, seen: seq<Assignment>, a: Assignment)
    requires GroupsOf(groups, seen)
    ensures forall g :: 0 <= g < |Place(groups, a)| ==>
              Place(groups, a)[g].assignments == WithDueDate(seen + [a], Place(groups, a)[g].dueDate)
  {
    var keys := Keys(groups);
    var k := FindKey(keys, a.dueDate);
    var r := Place(groups, a);
    forall g | 0 <= g < |r|
      ensures r[g].assignments == WithDueDate(seen + [a], r[g].dueDate)
    {
      WithDueDateSnoc(seen, a, r[g].dueDate);
      if g < |groups| && g != k {
        assert keys[g] != a.dueDate by {
          if k < |groups| {
            assert keys[g] != keys[k];
          }
        }
      }
    }
  }

  lemma PlaceSize(groups: seq<DueGroup>, a: Assignment)
    ensures TotalSize(Place(groups, a)) == TotalSize(groups) + 1
  {
    var k := FindKey(Keys(groups), a.dueDate);
    if k < |groups| {
      TotalSizeUpdate(groups, k, DueGroup(a.dueDate, groups[k].assignments + [a]));
    } else {
      var r := Place(groups, a);
      assert r[..|r| - 1] == groups;
    }
  }

  /** Filing one more assignment keeps the grouping invariant. */
  lemma PlaceStep(groups: seq<DueGroup>, seen: seq<Assignment>, a: Assignment)
    requires GroupsOf(groups, seen)
    ensures GroupsOf(Place(groups, a), seen + [a])
  {
    PlaceKeys(groups, seen, a);
    PlaceContents(groups, seen, a);
    PlaceSize(groups, a);
  }

  /** The grouping as a definition: the assignments filed one at a time, in
      input order. */
  function GroupedByDueDate(s: seq<Assignment>): (r: seq<DueGroup>)
    ensures GroupsOf(r, s)
  {
    if |s| == 0 then []
    else
      var prev := GroupedByDueDate(s[..|s| - 1]);
      PlaceLast(prev, s);
      Place(prev, s[|s| - 1])
  }

  /** `PlaceStep` for a sequence split before its last element. */
  lemma PlaceLast(prev: seq<DueGroup>, s: seq<Assignment>)
    requires |s| > 0 && GroupsOf(prev, s[..|s| - 1])
    ensures GroupsOf(Place(prev, s[|s| - 1]), s)
  {
    var init, last := s[..|s| - 1], s[|s| - 1];
    assert init + [last] == s;
    PlaceStep(prev, init, last);
  }

  /** The `incomplete_by_due_date` loop: one group per distinct due date in
      order of first appearance, each holding exactly the assignments with
      that due date, in input order; every assignment lands in one group. */
  method GroupByDueDate(incomplete: seq<Assignment>) returns (groups: seq<DueGroup>)
    ensures groups == GroupedByDueDate(incomplete)
    ensures GroupsOf(groups, incomplete)
  {
    groups := [];
    var i := 0;
    while i < |incomplete|
      invariant 0 <= i <= |incomplete|
      invariant groups == GroupedByDueDate(incomplete[..i])
    {
      assert incomplete[..i + 1][..i] == incomplete[..i];
      groups := Place(groups, incomplete[i]);
      i := i + 1;
    }
    assert incomplete[..i] == incomplete;
  }

  /** The message precedence: no Pomodoros, then five or more Pomodoros,
      then three or more completed assignments, then the default. */
  function Classify(pomodoros: int, completed: int): (e: Encouragement)
    ensures e.NoPomodoros? <==> pomodoros == 0
    ensures e.ManyPomodoros? <==> pomodoros != 0 && pomodoros >= 5
    ensures e.ManyCompleted? <==> pomodoros != 0 && pomodoros < 5 && completed >= 3
    ensures e.KeepBuilding? <==> pomodoros != 0 && pomodoros < 5 && completed < 3
    ensures e.ManyPomodoros? ==> e.pomodoros == pomodoros
    ensures e.ManyCompleted? ==> e.completed == completed
  {
    if pomodoros == 0 then NoPomodoros
    else if pomodoros >= 5 then ManyPomodoros(pomodoros)
    else if completed >= 3 then ManyCompleted(completed)
    else KeepBuilding
  }

  const NoPomodorosText := "Consider adding a Pomodoro session tomorrow!"
  const ManyPomodorosOpening := "Incredible focus! "
  const ManyPomodorosClosing := " Pomodoros is a major accomplishment!"
  const ManyCompletedOpening := "Great job getting "
  const ManyCompletedClosing := " assignments done today!"
  const KeepBuildingText := "Keep building those study habits!"

  function Render(e: Encouragement): string {
    match e
    case NoPomodoros => NoPomodorosText
    case ManyPomodoros(n) => ManyPomodorosOpening + IntToString(n) + ManyPomodorosClosing
    case ManyCompleted(n) => ManyCompletedOpening + IntToString(n) + ManyCompletedClosing
    case KeepBuilding => KeepBuildingText
  }

  /** `_generate_message`: the text reads back as the precedence case of
      its counts. */
  function GenerateMessage(pomodoros: int, completed: int): (msg: string)
    ensures ParseMessage(msg) == Some(Classify(pomodoros, completed))
  {
    MessageRoundTrip(Classify(pomodoros, completed));
    Render(Classify(pomodoros, completed))
  }

  /** The count between a fixed opening and a fixed closing, if `msg` has that shape. */
  function Between(msg: string, opening: string, closing: string): Option<int> {
    if |msg| >= |opening| + |closing| && opening <= msg && msg[|msg| - |closing|..] == closing
    then ParseInt(msg[|opening|..|msg| - |closing|])
    else None
  }

  /** Reads a message back into the case and count it was written from. */
  function ParseMessage(msg: string): Option<Encouragement> {
    if msg == NoPomodorosText then Some(NoPomodoros)
    else if msg == KeepBuildingText then Some(KeepBuilding)
    else if Between(msg, ManyPomodorosOpening, ManyPomodorosClosing).Some? then
      Some(ManyPomodoros(Between(msg, ManyPomodorosOpening, ManyPomodorosClosing).value))
    else if Between(msg, ManyCompletedOpening, ManyCompletedClosing).Some? then
      Some(ManyCompleted(Between(msg, ManyCompletedOpening, ManyCompletedClosing).value))
    else None
  }

  lemma BetweenRendered(opening: string, n: int, closing: string)
    ensures Between(opening + IntToString(n) + closing, opening, closing) == Some(n)
  {
    var msg := opening + IntToString(n) + closing;
    assert opening <= msg;
    assert msg[|msg| - |closing|..] == closing;
    assert msg[|opening|..|msg| - |closing|] == IntToString(n);
    IntToStringRoundTrip(n);
  }

  /** Every message names its case (and count) unambiguously. */
  lemma MessageRoundTrip(e: Encouragement)
    ensures ParseMessage(Render(e)) == Some(e)
  {
    match e
    case NoPomodoros =>
    case KeepBuilding =>
    case ManyPomodoros(n) =>
      var msg := Render(e);
      assert msg[0] == 'I';
      BetweenRendered(ManyPomodorosOpening, n, ManyPomodorosClosing);
    case ManyCompleted(n) =>
      var msg := Render(e);
      assert msg[0] == 'G';
      BetweenRendered(ManyCompletedOpening, n, ManyCompletedClosing);
      assert !(ManyPomodorosOpening <= msg);
  }

  /** `generate_recap`. */
  method GenerateRecap(sessions: seq<StudySession>, completed: seq<Assignment>, incomplete: seq<Assignment>)
    returns (r: Recap)
    ensures r.studySessionsCount == |sessions|
    ensures r.pomodorosCount == multiset(SessionTypes(sessions))[PomodoroType]
    ensures r.pomodorosCount <= r.studySessionsCount
    ensures r.totalStudyMinutes == TotalMinutes(sessions)
    ensures r.assignmentsCompleted == |completed| && r.assignmentsRemaining == |incomplete|
    ensures r.incompleteByDueDate == GroupedByDueDate(incomplete)
    ensures GroupsOf(r.incompleteByDueDate, incomplete)
    ensures ParseMessage(r.motivationalMessage) == Some(Classify(r.pomodorosCount, r.assignmentsCompleted))
  {
    var pomodoros := PomodoroCount(sessions);
    var groups := GroupByDueDate(incomplete);
    r := Recap(|sessions|, pomodoros, TotalMinutes(sessions), |completed|, |incomplete|, groups,
               GenerateMessage(pomodoros, |completed|));
  }

  /** The rollover priority: high when due within a day (or overdue), medium
      within three days, low after that. */
  function PriorityFor(daysUntil: int): (p: Priority)
    ensures p == High <==> daysUntil <= 1
    ensures p == Medium <==> 1 < daysUntil <= 3
    ensures p == Low <==> 3 < daysUntil
  {
    if daysUntil <= 1 then High else if daysUntil <= 3 then Medium else Low
  }

  function Urgency(p: Priority): nat {
    match p
    case High => 2
    case Medium => 1
    case Low => 0
  }

  /** An earlier due date never gets a lower priority. */
  lemma PriorityMonotonic(d1: int, d2: int)
    requires d1 <= d2
    ensures Urgency(PriorityFor(d1)) >= Urgency(PriorityFor(d2))
  {
  }

  /** Rollover priorities agree with the plan's tiers: overdue and due-today
      work is high, later work is low, and due-soon work is never low. */
  lemma PriorityAgreesWithTier(daysUntil: int)
    ensures Tier(daysUntil) <= 1 ==> PriorityFor(daysUntil) == High
    ensures Tier(daysUntil) == 2 ==> PriorityFor(daysUntil) != Low
    ensures Tier(daysUntil) == 3 <==> PriorityFor(daysUntil) == Low
  {
  }

  function RolloverItems(incomplete: seq<Assignment>, today: Date): (r: Result<seq<RolloverItem>, string>)
    requires Valid(today)
    ensures r.Success? <==> AllDue(incomplete)
    ensures r.Success? ==> |r.value| == |incomplete|
    ensures r.Success? ==> forall i :: 0 <= i < |incomplete| ==>
              && r.value[i].assignmentId == incomplete[i].id
              && r.value[i].title == incomplete[i].title
              && DaysUntil(incomplete[i].dueDate, today) == Some(r.value[i].daysUntilDue)
              && r.value[i].priority == PriorityFor(r.value[i].daysUntilDue)
  {
    if |incomplete| == 0 then Success([])
    else
      var a := incomplete[0];
      assert forall i :: 1 <= i < |incomplete| ==> incomplete[i] == incomplete[1..][i - 1];
      match DaysUntil(a.dueDate, today)
      case None => Failure(a.dueDate)
      case Some(days) =>
        match RolloverItems(incomplete[1..], today)
        case Failure(e) => Failure(e)
        case Success(rest) => Success([RolloverItem(a.id, a.title, PriorityFor(days), days)] + rest)
  }

  /** `rollover_incomplete_assignments`: one item per incomplete assignment,
      same order, with its days until due and the matching priority. */
  function RolloverIncompleteAssignments(incomplete: seq<Assignment>, today: string): (r: Result<seq<RolloverItem>, string>)
    ensures r.Failure? <==> (ParseDate(today).None? || !AllDue(incomplete))
    ensures r.Success? ==> |r.value| == |incomplete|
    ensures r.Success? ==> forall i :: 0 <= i < |incomplete| ==>
              && r.value[i].assignmentId == incomplete[i].id
              && r.value[i].title == incomplete[i].title
              && DaysUntil(incomplete[i].dueDate, ParseDate(today).value) == Some(r.value[i].daysUntilDue)
              && r.value[i].priority == PriorityFor(r.value[i].daysUntilDue)
  {
    match ParseDate(today)
    case None => Failure(today)
    case Some(t) => RolloverItems(incomplete, t)
  }
}
