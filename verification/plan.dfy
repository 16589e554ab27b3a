/** The daily plan: pending assignments ranked for today.

    Completed assignments are dropped; the rest are stable-sorted by the key
    (tier, estimated minutes, due-date text), where the tier is 0 for overdue,
    1 for due today, 2 for due within 1 to 3 days and 3 for later; the sorted
    list is numbered 1..N and each entry carries a reason label naming its tier
    and its estimated minutes. */
module PlanGenerator {
  import opened Basics
  import opened Decimal
  import opened Lexicographic
  import opened Civil

  datatype Assignment = Assignment(
    id: string,
    title: string,
    dueDate: string,
    estimatedMinutes: int,
    status: string)

  datatype PlanEntry = PlanEntry(assignmentId: string, rank: int, reason: string)

  /** An active assignment, its position among the active assignments (which
      makes the sort's tie-breaking explicit) and its days until due. */
  datatype Candidate = Candidate(pos: nat, assignment: Assignment, daysUntil: int)

  /** The sort key: tier, estimated minutes, due date as text. */
  datatype SortKey = SortKey(tier: nat, minutes: int, due: string)

  const CompletedStatus := "completed"

  function Tier(daysUntil: int): (t: nat)
    ensures t <= 3
    ensures t == 0 <==> daysUntil < 0
    ensures t == 1 <==> daysUntil == 0
    ensures t == 2 <==> 1 <= daysUntil <= 3
    ensures t == 3 <==> 3 < daysUntil
  {
    if daysUntil < 0 then 0
    else if daysUntil == 0 then 1
    else if daysUntil <= 3 then 2
    else 3
  }

  /** `(strptime(due) - today).days`, or None when `due` is not a date. */
  function DaysUntil(due: string, today: Date): (r: Option<int>)
    requires Valid(today)
    ensures r.Some? <==> ParseDate(due).Some?
    ensures r.Some? ==> r.value == DayNumber(ParseDate(due).value) - DayNumber(today)
  {
    match ParseDate(due)
    case None => None
    case Some(d) => Some(DayNumber(d) - DayNumber(today))
  }

  /** The day count is the distance to the due date: adding k days to today
      lands on the due date exactly when k is the count. */
  lemma DaysUntilIsDistance(due: string, today: Date, k: int)
    requires Valid(today)
    ensures ParseDate(due).Some? && AddDays(today, k) == ParseDate(due) <==> DaysUntil(due, today) == Some(k)
  {
    if DaysUntil(due, today) == Some(k) {
      var d := ParseDate(due).value;
      DayNumberBounds(d);
      DayNumberBounds(today);
      DayNumberInjective(AddDays(today, k).value, d);
    }
  }

  /** The assignments whose status is not "completed", in input order. */
  function Active(s: seq<Assignment>): (r: seq<Assignment>)
    ensures |r| <= |s|
    ensures forall a :: multiset(r)[a] == if a.status == CompletedStatus then 0 else multiset(s)[a]
  {
    if |s| == 0 then []
    else
      var init, last := s[..|s| - 1], s[|s| - 1];
      assert s == init + [last];
      var rest := Active(init);
      if last.status == CompletedStatus then rest else rest + [last]
  }

  /** Filtering keeps input order: the active assignments of two lists
      together are those of the first followed by those of the second. */
  lemma {:induction false} ActiveConcat(a: seq<Assignment>, b: seq<Assignment>)
    ensures Active(a + b) == Active(a) + Active(b)
    decreases |b|
  {
    if |b| == 0 {
      assert a + b == a;
    } else {
      var init, last := b[..|b| - 1], b[|b| - 1];
      assert (a + b)[..|a + b| - 1] == a + init;
      assert (a + b)[|a + b| - 1] == last;
      ActiveConcat(a, init);
    }
  }

  function AssignmentsOf(s: seq<Candidate>): (r: seq<Assignment>)
    ensures |r| == |s|
  {
    seq(|s|, i requires 0 <= i < |s| => s[i].assignment)
  }

  /** Tags each assignment with its position (counted from `from`) and its days
      until due; fails with the first due date that is not a date. */
  function Candidates(active: seq<Assignment>, today: Date, from: nat): (r: Result<seq<Candidate>, string>)
    requires Valid(today)
    ensures r.Success? <==> AllDue(active)
    ensures r.Failure? ==> exists i :: 0 <= i < |active| && ParseDate(active[i].dueDate).None?
                                       && r.error == active[i].dueDate
    ensures r.Success? ==> |r.value| == |active| && AssignmentsOf(r.value) == active
    ensures r.Success? ==> forall i :: 0 <= i < |active| ==>
              r.value[i].pos == from + i && DaysUntil(active[i].dueDate, today) == Some(r.value[i].daysUntil)
    decreases |active|
  {
    if |active| == 0 then Success([])
    else
      AllDueTail(active);
      match DaysUntil(active[0].dueDate, today)
      case None => Failure(active[0].dueDate)
      case Some(days) =>
        match Candidates(active[1..], today, from + 1)
        case Failure(e) =>
          UndatedInTail(active, e);
          Failure(e)
        case Success(rest) =>
          ConsCandidate(active, today, from, days, rest);
          Success([Candidate(from, active[0], days)] + rest)
  }

  /** Every due date in `s` is a date. */
  predicate AllDue(s: seq<Assignment>) {
    forall i :: 0 <= i < |s| ==> ParseDate(s[i].dueDate).Some?
  }

  /** Tagging the head in front of a tagged tail tags the whole list. */
  lemma ConsCandidate(active: seq<Assignment>, today: Date, from: nat, days: int, rest: seq<Candidate>)
    requires Valid(today) && |active| > 0
    requires DaysUntil(active[0].dueDate, today) == Some(days)
    requires |rest| == |active| - 1 && AssignmentsOf(rest) == active[1..]
    requires forall i :: 0 <= i < |rest| ==>
               rest[i].pos == from + 1 + i && DaysUntil(active[1..][i].dueDate, today) == Some(rest[i].daysUntil)
    ensures var r := [Candidate(from, active[0], days)] + rest;
      && AssignmentsOf(r) == active
      && forall i :: 0 <= i < |active| ==>
           r[i].pos == from + i && DaysUntil(active[i].dueDate, today) == Some(r[i].daysUntil)
  {
    var r := [Candidate(from, active[0], days)] + rest;
    forall i | 1 <= i < |active|
      ensures r[i].pos == from + i && DaysUntil(active[i].dueDate, today) == Some(r[i].daysUntil)
    {
      assert r[i] == rest[i - 1];
      assert active[i] == active[1..][i - 1];
    }
    forall i | 0 <= i < |active|
      ensures AssignmentsOf(r)[i] == active[i]
    {
      if i > 0 {
        assert r[i] == rest[i - 1];
        assert AssignmentsOf(rest)[i - 1] == active[1..][i - 1];
      }
    }
  }

  lemma AllDueTail(s: seq<Assignment>)
    requires |s| > 0
    ensures AllDue(s) <==> ParseDate(s[0].dueDate).Some? && AllDue(s[1..])
  {
    assert forall i :: 1 <= i < |s| ==> s[i] == s[1..][i - 1];
  }

  /** An undated entry of the tail is an undated entry of the whole list. */
  lemma UndatedInTail(s: seq<Assignment>, due: string)
    requires |s| > 0
    requires exists i :: 0 <= i < |s[1..]| && ParseDate(s[1..][i].dueDate).None? && due == s[1..][i].dueDate
    ensures exists i :: 0 <= i < |s| && ParseDate(s[i].dueDate).None? && due == s[i].dueDate
  {
    var i :| 0 <= i < |s[1..]| && ParseDate(s[1..][i].dueDate).None? && due == s[1..][i].dueDate;
    assert s[i + 1] == s[1..][i];
  }

  function Key(c: Candidate): SortKey {
    SortKey(Tier(c.daysUntil), c.assignment.estimatedMinutes, c.assignment.dueDate)
  }

  /** Python's tuple comparison of two sort keys. */
  predicate KeyLess(a: SortKey, b: SortKey) {
    || a.tier < b.tier
    || (a.tier == b.tier && a.minutes < b.minutes)
    || (a.tier == b.tier && a.minutes == b.minutes && StrLess(a.due, b.due))
  }

  /** The order a stable sort produces: by key, and by position among equal keys. */
  predicate Precedes(c: Candidate, d: Candidate) {
    KeyLess(Key(c), Key(d)) || (Key(c) == Key(d) && c.pos < d.pos)
  }

  predicate Sorted(s: seq<Candidate>) {
    forall i, j :: 0 <= i < j < |s| ==> Precedes(s[i], s[j])
  }

  predicate DistinctPositions(s: seq<Candidate>) {
    forall i, j :: 0 <= i < j < |s| ==> s[i].pos != s[j].pos
  }

  lemma KeyLessIrreflexive(a: SortKey)
    ensures !KeyLess(a, a)
  {
    StrLessIrreflexive(a.due);
  }

  lemma KeyLessTransitive(a: SortKey, b: SortKey, c: SortKey)
    requires KeyLess(a, b) && KeyLess(b, c)
    ensures KeyLess(a, c)
  {
    if a.tier == b.tier == c.tier && a.minutes == b.minutes == c.minutes {
      StrLessTransitive(a.due, b.due, c.due);
    }
  }

  lemma KeyLessTotal(a: SortKey, b: SortKey)
    requires a != b
    ensures KeyLess(a, b) || KeyLess(b, a)
  {
    if a.tier == b.tier && a.minutes == b.minutes {
      StrLessTotal(a.due, b.due);
    }
  }

  lemma PrecedesIrreflexive(c: Candidate)
    ensures !Precedes(c, c)
  {
    KeyLessIrreflexive(Key(c));
  }

  lemma PrecedesTransitive(a: Candidate, b: Candidate, c: Candidate)
    requires Precedes(a, b) && Precedes(b, c)
    ensures Precedes(a, c)
  {
    var ka, kb, kc := Key(a), Key(b), Key(c);
    if KeyLess(ka, kb) && KeyLess(kb, kc) {
      KeyLessTransitive(ka, kb, kc);
    }
  }

  lemma PrecedesAsymmetric(a: Candidate, b: Candidate)
    requires Precedes(a, b)
    ensures !Precedes(b, a)
  {
    if Precedes(b, a) {
      PrecedesTransitive(a, b, a);
      PrecedesIrreflexive(a);
    }
  }

  /** Candidates at different positions are always ordered. */
  lemma PrecedesTotal(a: Candidate, b: Candidate)
    requires a.pos != b.pos
    ensures Precedes(a, b) || Precedes(b, a)
  {
    if Key(a) != Key(b) {
      KeyLessTotal(Key(a), Key(b));
    }
  }

  lemma PrecedesWholeList(x: Candidate, s: seq<Candidate>)
    requires Sorted(s) && |s| > 0 && Precedes(x, s[0])
    ensures Sorted([x] + s)
  {
    forall k | 0 < k < |s|
      ensures Precedes(x, s[k])
    {
      PrecedesTransitive(x, s[0], s[k]);
    }
  }

  lemma HeadPrecedesRest(s: seq<Candidate>, x: Candidate, rest: seq<Candidate>)
    requires Sorted(s) && |s| > 0 && Precedes(s[0], x)
    requires Sorted(rest) && multiset(rest) == multiset(s[1..]) + multiset{x}
    ensures Sorted([s[0]] + rest)
  {
    forall k | 0 <= k < |rest|
      ensures Precedes(s[0], rest[k])
    {
      assert rest[k] in multiset(rest);
      if rest[k] != x {
        assert rest[k] in s[1..];
        var j :| 0 <= j < |s[1..]| && s[1..][j] == rest[k];
        assert s[j + 1] == rest[k];
      }
    }
  }

  /** Inserts `x` into a sorted list at the place the order assigns it. */
  function Insert(s: seq<Candidate>, x: Candidate): (r: seq<Candidate>)
    requires Sorted(s)
    requires forall i :: 0 <= i < |s| ==> s[i].pos != x.pos
    ensures Sorted(r)
    ensures multiset(r) == multiset(s) + multiset{x}
    decreases |s|
  {
    if |s| == 0 then [x]
    else if Precedes(x, s[0]) then
      PrecedesWholeList(x, s);
      [x] + s
    else
      PrecedesTotal(x, s[0]);
      var rest := Insert(s[1..], x);
      HeadPrecedesRest(s, x, rest);
      assert s == [s[0]] + s[1..];
      [s[0]] + rest
  }

  lemma AssignmentsOfConcat(a: seq<Candidate>, b: seq<Candidate>)
    ensures AssignmentsOf(a + b) == AssignmentsOf(a) + AssignmentsOf(b)
  {
  }

  /** Rearranging candidates rearranges their assignments the same way. */
  lemma {:induction false} AssignmentsOfPermutation(s: seq<Candidate>, t: seq<Candidate>)
    requires multiset(s) == multiset(t)
    ensures multiset(AssignmentsOf(s)) == multiset(AssignmentsOf(t))
    decreases |s|
  {
    if |s| == 0 {
      assert |t| == |multiset(t)| == 0;
    } else {
      var x := s[0];
      assert x in multiset(t);
      var k :| 0 <= k < |t| && t[k] == x;
      var u := t[..k] + t[k + 1..];
      assert t == t[..k] + [x] + t[k + 1..];
      assert s == [x] + s[1..];
      assert multiset(t) == multiset(t[..k]) + multiset{x} + multiset(t[k + 1..]);
      assert multiset(s) == multiset{x} + multiset(s[1..]);
      assert multiset(u) == multiset(t[..k]) + multiset(t[k + 1..]);
      assert multiset(s[1..]) == multiset(s) - multiset{x};
      assert multiset(t) - multiset{x} == multiset(t[..k]) + multiset(t[k + 1..]);
      assert multiset(u) == multiset(s[1..]);
      AssignmentsOfPermutation(s[1..], u);
      AssignmentsOfConcat([x], s[1..]);
      AssignmentsOfConcat(t[..k], [x]);
      AssignmentsOfConcat(t[..k] + [x], t[k + 1..]);
      AssignmentsOfConcat(t[..k], t[k + 1..]);
    }
  }

  lemma PositionsOfPermutation(s: seq<Candidate>, t: seq<Candidate>, x: Candidate)
    requires multiset(t) == multiset(s)
    requires forall i :: 0 <= i < |s| ==> s[i].pos != x.pos
    ensures forall i :: 0 <= i < |t| ==> t[i].pos != x.pos
  {
    forall i | 0 <= i < |t|
      ensures t[i].pos != x.pos
    {
      assert t[i] in multiset(s);
      var j :| 0 <= j < |s| && s[j] == t[i];
    }
  }

  /** Stable insertion sort: elements are inserted in input order. */
  function InsertionSort(s: seq<Candidate>): (r: seq<Candidate>)
    requires DistinctPositions(s)
    ensures Sorted(r)
    ensures multiset(r) == multiset(s)
  {
    if |s| == 0 then []
    else
      var init, last := s[..|s| - 1], s[|s| - 1];
      assert s == init + [last];
      var sorted := InsertionSort(init);
      PositionsOfPermutation(init, sorted, last);
      Insert(sorted, last)
  }

  /** Two arrangements of the same candidates that are both sorted coincide:
      the sorted order is fully determined by the keys and positions. */
  lemma {:induction false} SortedPermutationUnique(s: seq<Candidate>, t: seq<Candidate>)
    requires Sorted(s) && Sorted(t)
    requires multiset(s) == multiset(t)
    ensures s == t
    decreases |s|
  {
    if |s| == 0 {
      assert |t| == |multiset(t)| == 0;
    } else {
      assert |t| == |multiset(t)| == |s|;
      if s[0] != t[0] {
        assert s[0] in multiset(t);
        var k :| 0 <= k < |t| && t[k] == s[0];
        assert t[0] in multiset(s);
        var m :| 0 <= m < |s| && s[m] == t[0];
        assert Precedes(t[0], s[0]);
        PrecedesAsymmetric(t[0], s[0]);
      }
      assert s == [s[0]] + s[1..];
      assert t == [t[0]] + t[1..];
      assert multiset(s) == multiset{s[0]} + multiset(s[1..]);
      assert multiset(t) == multiset{t[0]} + multiset(t[1..]);
      assert multiset(s[1..]) == multiset(s) - multiset{s[0]};
      assert multiset(t[1..]) == multiset(t) - multiset{t[0]};
      SortedPermutationUnique(s[1..], t[1..]);
    }
  }

  /** The active assignments as candidates, in priority order. */
  function OrderActive(assignments: seq<Assignment>, today: string): (r: Result<seq<Candidate>, string>)
    ensures r.Failure? <==> (ParseDate(today).None? || !AllDue(Active(assignments)))
    ensures r.Success? ==> Sorted(r.value)
    ensures r.Success? ==> multiset(AssignmentsOf(r.value)) == multiset(Active(assignments))
    ensures r.Success? ==> (Candidates(Active(assignments), ParseDate(today).value, 0).Success?
              && multiset(r.value) == multiset(Candidates(Active(assignments), ParseDate(today).value, 0).value))
  {
    match ParseDate(today)
    case None => Failure(today)
    case Some(t) =>
      match Candidates(Active(assignments), t, 0)
      case Failure(e) => Failure(e)
      case Success(cs) =>
        var sorted := InsertionSort(cs);
        AssignmentsOfPermutation(sorted, cs);
        Success(sorted)
  }

  /** The opening words of a reason label: how the due date stands. */
  function ReasonWords(days: int, due: string): string {
    if days < 0 then "Overdue"
    else if days == 0 then "Due today"
    else if days <= 3 then "Due in " + IntToString(days) + " days"
    else "Due " + due
  }

  /** The reason label: its opening words followed by the estimated minutes. */
  function Reason(c: Candidate): (r: string)
    ensures ParseDate(c.assignment.dueDate).Some? ==>
              var p := ParseReason(r);
              && p.Some? && p.value.minutes == c.assignment.estimatedMinutes
              && (p.value.standing == Overdue <==> c.daysUntil < 0)
              && (p.value.standing == DueToday <==> c.daysUntil == 0)
              && (p.value.standing == DueInDays(c.daysUntil) <==> 1 <= c.daysUntil <= 3)
              && (p.value.standing == DueOn(c.assignment.dueDate) <==> 3 < c.daysUntil)
  {
    var words := ReasonWords(c.daysUntil, c.assignment.dueDate);
    WordsReadBack(c.daysUntil, c.assignment.dueDate);
    SuffixReadBack(words, c.assignment.estimatedMinutes);
    words + " (" + IntToString(c.assignment.estimatedMinutes) + " min)"
  }

  /** What the opening words of a reason say. */
  datatype Standing = Overdue | DueToday | DueInDays(days: int) | DueOn(date: string)

  datatype ReasonParts = ReasonParts(standing: Standing, minutes: int)

  function ParseWords(words: string): Option<Standing> {
    if words == "Overdue" then Some(Overdue)
    else if words == "Due today" then Some(DueToday)
    else if |words| >= 4 && words[..4] == "Due " && ParseDate(words[4..]).Some? then Some(DueOn(words[4..]))
    else if |words| >= 12 && words[..7] == "Due in " && words[|words| - 5..] == " days" then
      match ParseInt(words[7..|words| - 5])
      case Some(n) => Some(DueInDays(n))
      case None => None
    else None
  }

  /** The position of the last '(' in `s`, if any. */
  function LastOpenParen(s: string): (r: Option<nat>)
    ensures r.Some? ==> r.value < |s| && s[r.value] == '(' && forall j :: r.value < j < |s| ==> s[j] != '('
    ensures r.None? ==> forall j :: 0 <= j < |s| ==> s[j] != '('
  {
    if |s| == 0 then None
    else if s[|s| - 1] == '(' then Some(|s| - 1)
    else LastOpenParen(s[..|s| - 1])
  }

  /** Reads a reason label back into its opening words and its minutes: the
      minutes sit between the last " (" and the closing " min)". */
  function ParseReason(reason: string): Option<ReasonParts> {
    match LastOpenParen(reason)
    case None => None
    case Some(k) =>
      if 1 <= k && reason[k - 1] == ' ' && |reason| >= k + 6 && reason[|reason| - 5..] == " min)" then
        match (ParseWords(reason[..k - 1]), ParseInt(reason[k + 1..|reason| - 5]))
        case (Some(l), Some(m)) => Some(ReasonParts(l, m))
        case _ => None
      else None
  }

  /** The tier a reason label names. */
  function LabelTier(reason: string): Option<nat> {
    match ParseReason(reason)
    case None => None
    case Some(p) =>
      match p.standing
      case Overdue => Some(0)
      case DueToday => Some(1)
      case DueInDays(_) => Some(2)
      case DueOn(_) => Some(3)
  }

  /** The decimal text of an int has no parentheses. */
  lemma IntToStringNoParen(n: int)
    ensures forall j :: 0 <= j < |IntToString(n)| ==> IntToString(n)[j] != '('
  {
    var t := IntToString(n);
    if n < 0 {
      assert forall j :: 1 <= j < |t| ==> t[j] == NatToString(-n)[j - 1];
    }
  }

  lemma {:induction false} LastOpenParenAt(s: string, k: nat)
    requires k < |s| && s[k] == '('
    requires forall j :: k < j < |s| ==> s[j] != '('
    ensures LastOpenParen(s) == Some(k)
    decreases |s|
  {
    if k < |s| - 1 {
      LastOpenParenAt(s[..|s| - 1], k);
    }
  }

  /** Whatever the opening words, the minutes suffix reads back. */
  lemma SuffixReadBack(words: string, minutes: int)
    ensures var p := ParseReason(words + " (" + IntToString(minutes) + " min)");
      && (ParseWords(words).Some? ==> p == Some(ReasonParts(ParseWords(words).value, minutes)))
      && (ParseWords(words).None? ==> p.None?)
  {
    var digits := IntToString(minutes);
    var r := words + " (" + digits + " min)";
    var k := |words| + 1;
    IntToStringNoParen(minutes);
    assert r[k] == '(';
    forall j | k < j < |r|
      ensures r[j] != '('
    {
      if j < k + 1 + |digits| {
        assert r[j] == digits[j - k - 1];
      }
    }
    LastOpenParenAt(r, k);
    assert r[..k - 1] == words;
    assert r[k + 1..|r| - 5] == digits;
    assert r[|r| - 5..] == " min)";
    IntToStringRoundTrip(minutes);
  }

  /** The opening words read back as the standing of the due date. */
  lemma WordsReadBack(days: int, due: string)
    ensures ParseDate(due).Some? ==>
      var l := ParseWords(ReasonWords(days, due));
      && l.Some?
      && (l.value == Overdue <==> days < 0)
      && (l.value == DueToday <==> days == 0)
      && (l.value == DueInDays(days) <==> 1 <= days <= 3)
      && (l.value == DueOn(due) <==> 3 < days)
  {
    var w := ReasonWords(days, due);
    if ParseDate(due).None? {
    } else if days == 0 {
      assert w[0] != "Overdue"[0];
    } else if 1 <= days <= 3 {
      var n := IntToString(days);
      assert n == [DigitChar(days)];
      assert w == "Due in " + n + " days";
      assert |w| == 13 && w[0] != "Overdue"[0];
      assert ParseDate(w[4..]).None?;
      assert w[7..|w| - 5] == n;
      IntToStringRoundTrip(days);
    } else if 3 < days {
      ParsedDateFields(due);
      assert |w| == 14 && w[..4] == "Due " && w[4..] == due;
    }
  }

  /** Numbers an ordered list 1..N and labels each entry. */
  function Entries(order: seq<Candidate>): (r: seq<PlanEntry>)
    ensures |r| == |order|
    ensures forall i :: 0 <= i < |r| ==> r[i].rank == i + 1
    ensures forall i :: 0 <= i < |r| ==> r[i].assignmentId == order[i].assignment.id && r[i].reason == Reason(order[i])
  {
    seq(|order|, i requires 0 <= i < |order| => PlanEntry(order[i].assignment.id, i + 1, Reason(order[i])))
  }

  /** `generate_daily_plan`: ranks 1..N over the active assignments in
      priority order; fails with the first text that is not a date. */
  function GenerateDailyPlan(assignments: seq<Assignment>, today: string): (r: Result<seq<PlanEntry>, string>)
    ensures r.Failure? <==> (ParseDate(today).None? || !AllDue(Active(assignments)))
    ensures r.Success? ==> |r.value| == |Active(assignments)|
    ensures r.Success? ==> forall i :: 0 <= i < |r.value| ==> r.value[i].rank == i + 1
    ensures r.Success? ==> OrderActive(assignments, today).Success?
    ensures r.Success? ==> r.value == Entries(OrderActive(assignments, today).value)
  {
    match OrderActive(assignments, today)
    case Failure(e) => Failure(e)
    case Success(order) =>
      assert |order| == |AssignmentsOf(order)| == |multiset(AssignmentsOf(order))|;
      Success(Entries(order))
  }

  /** The plan order is THE stable sort: any arrangement of the tagged active
      assignments that is sorted by (key, position) is the one produced. */
  lemma PlanOrderIsStableSort(assignments: seq<Assignment>, today: string, other: seq<Candidate>)
    requires OrderActive(assignments, today).Success?
    requires Sorted(other)
    requires multiset(other) == multiset(Candidates(Active(assignments), ParseDate(today).value, 0).value)
    ensures other == OrderActive(assignments, today).value
  {
    SortedPermutationUnique(other, OrderActive(assignments, today).value);
  }

  /** Overdue before due today before due soon before later; shorter first
      within a tier; equal keys keep their input order. */
  lemma PlanPriorityOrder(assignments: seq<Assignment>, today: string, i: int, j: int)
    requires OrderActive(assignments, today).Success?
    requires 0 <= i < j < |OrderActive(assignments, today).value|
    ensures var order := OrderActive(assignments, today).value;
      && Tier(order[i].daysUntil) <= Tier(order[j].daysUntil)
      && (Tier(order[i].daysUntil) == Tier(order[j].daysUntil) ==>
            order[i].assignment.estimatedMinutes <= order[j].assignment.estimatedMinutes)
      && (Key(order[i]) == Key(order[j]) ==> order[i].pos < order[j].pos)
  {
    var order := OrderActive(assignments, today).value;
    assert Precedes(order[i], order[j]);
    KeyLessIrreflexive(Key(order[i]));
  }

  /** The plan holds each non-completed assignment as often as the input does,
      and no completed one. */
  lemma PlanDropsExactlyCompleted(assignments: seq<Assignment>, today: string, a: Assignment)
    requires OrderActive(assignments, today).Success?
    ensures multiset(AssignmentsOf(OrderActive(assignments, today).value))[a]
            == if a.status == CompletedStatus then 0 else multiset(assignments)[a]
  {
  }

  /** The tier read back from every reason is the tier the entry was
      sorted by. */
  lemma ReasonNamesTier(c: Candidate)
    requires ParseDate(c.assignment.dueDate).Some?
    ensures LabelTier(Reason(c)) == Some(Tier(c.daysUntil))
  {
  }

  /** In every generated plan, entry i's reason names the tier and the
      estimated minutes of the i-th assignment in priority order. */
  lemma PlanReasonsNameTiers(assignments: seq<Assignment>, today: string, i: int)
    requires GenerateDailyPlan(assignments, today).Success?
    requires 0 <= i < |GenerateDailyPlan(assignments, today).value|
    ensures LabelTier(GenerateDailyPlan(assignments, today).value[i].reason)
            == Some(Tier(OrderActive(assignments, today).value[i].daysUntil))
    ensures ParseReason(GenerateDailyPlan(assignments, today).value[i].reason).Some?
    ensures ParseReason(GenerateDailyPlan(assignments, today).value[i].reason).value.minutes
            == OrderActive(assignments, today).value[i].assignment.estimatedMinutes
  {
    var order := OrderActive(assignments, today).value;
    var cs := Candidates(Active(assignments), ParseDate(today).value, 0).value;
    assert order[i] in multiset(cs);
    var k :| 0 <= k < |cs| && cs[k] == order[i];
    assert AssignmentsOf(cs)[k] == Active(assignments)[k];
    ReasonNamesTier(order[i]);
  }
}
