/** The SM-2 review scheduler: the ease/interval/repetition update applied
    after each answer, and the selection of items due for review.

    Ease factors are exact reals; the only changes a review can make to the
    ease are 0 (pass) and -0.32 (fail or partial), before the 1.3 floor. */
module SpacedRepetitionScheduler {
  import opened Basics
  import opened Civil

  /** (next interval in days, new ease factor, new repetition count). */
  datatype Schedule = Schedule(interval: int, ease: real, repetitions: int)

  /** The part of a stored review state that due-item selection reads. */
  datatype ReviewState = ReviewState(itemId: string, nextReviewDate: Option<string>)

  const MinEase: real := 1.3

  /** The state a new quiz item is stored with. */
  const InitialSchedule := Schedule(1, 2.5, 0)

  /** The SM-2 response grade: "fail" and "partial" are grade 2, anything
      else (meant to be "pass") is grade 4. */
  function Quality(result: string): (q: int)
    ensures q == 2 || q == 4
    ensures q == 2 <==> (result == "fail" || result == "partial")
  {
    if result == "fail" || result == "partial" then 2 else 4
  }

  predicate IsFailing(result: string) {
    Quality(result) < 3
  }

  /** `calculate_next_interval`. */
  function CalculateNextInterval(ease: real, interval: int, repetitions: int, result: string): (r: Schedule)
    ensures r.ease >= MinEase
    ensures IsFailing(result) ==>
              r.interval == 1 && r.repetitions == 0 && r.ease == MaxReal(MinEase, ease - 0.32)
    ensures !IsFailing(result) ==>
              r.repetitions == repetitions + 1 && r.ease == MaxReal(MinEase, ease)
    ensures !IsFailing(result) && repetitions == 0 ==> r.interval == 1
    ensures !IsFailing(result) && repetitions == 1 ==> r.interval == 3
    ensures !IsFailing(result) && repetitions != 0 && repetitions != 1 ==>
              r.interval == Trunc(interval as real * r.ease)
  {
    var q := Quality(result);
    var miss := (5 - q) as real;
    var newEase := MaxReal(MinEase, ease + (0.1 - miss * (0.08 + miss * 0.02)));
    if q < 3 then Schedule(1, newEase, 0)
    else
      var newInterval :=
        if repetitions == 0 then 1
        else if repetitions == 1 then 3
        else Trunc(interval as real * newEase);
      Schedule(newInterval, newEase, repetitions + 1)
  }

  function Review(s: Schedule, result: string): Schedule {
    CalculateNextInterval(s.ease, s.interval, s.repetitions, result)
  }

  /** The invariant of stored review states. */
  predicate WellFormed(s: Schedule) {
    s.interval >= 1 && s.ease >= MinEase && s.repetitions >= 0
  }

  /** Every review keeps a well-formed state well-formed, and a pass after the
      second repetition never shortens the interval. */
  lemma ReviewPreservesWellFormed(s: Schedule, result: string)
    requires WellFormed(s)
    ensures WellFormed(Review(s, result))
    ensures !IsFailing(result) && s.repetitions >= 2 ==> Review(s, result).interval >= s.interval
  {
    var r := Review(s, result);
    if !IsFailing(result) && s.repetitions >= 2 {
      var i := s.interval as real;
      assert i * r.ease >= i * 1.0 by {
        assert i * (r.ease - 1.0) >= 0.0;
      }
      TruncAtLeast(i * r.ease, s.interval);
    }
  }

  /** Applies the answers in order. */
  function ReviewAll(s: Schedule, results: seq<string>): Schedule {
    if |results| == 0 then s
    else Review(ReviewAll(s, results[..|results| - 1]), results[|results| - 1])
  }

  function Passes(n: nat): (r: seq<string>)
    ensures |r| == n
  {
    seq(n, _ => "pass")
  }

  /** A run of n passes from a new item counts n repetitions, keeps the ease
      at 2.5 and never lets the interval drop below one day. */
  lemma {:induction false} PassStreak(n: nat)
    ensures ReviewAll(InitialSchedule, Passes(n)).repetitions == n
    ensures ReviewAll(InitialSchedule, Passes(n)).ease == 2.5
    ensures WellFormed(ReviewAll(InitialSchedule, Passes(n)))
  {
    if n > 0 {
      assert Passes(n)[..n - 1] == Passes(n - 1);
      PassStreak(n - 1);
      ReviewPreservesWellFormed(ReviewAll(InitialSchedule, Passes(n - 1)), "pass");
    }
  }

  /** Whatever came before, a failing answer resets the schedule. */
  lemma FailResets(s: Schedule, results: seq<string>, last: string)
    requires IsFailing(last)
    ensures ReviewAll(s, results + [last]).interval == 1
    ensures ReviewAll(s, results + [last]).repetitions == 0
  {
    assert (results + [last])[..|results|] == results;
  }

  /** A first pass on a new item: one day, ease unchanged at 2.5, one
      repetition. */
  lemma FirstPass()
    ensures Review(InitialSchedule, "pass") == Schedule(1, 2.5, 1)
  {
  }

  /** A third pass from a three-day interval at ease 2.5: trunc(3 * 2.5) = 7. */
  lemma ThirdPass()
    ensures Review(Schedule(3, 2.5, 2), "pass") == Schedule(7, 2.5, 3)
  {
    assert 3.0 * 2.5 == 7.5;
  }

  /** A fail from a high ease loses exactly 0.32. */
  lemma FailLowersEase()
    ensures Review(Schedule(10, 2.5, 4), "fail") == Schedule(1, 2.18, 0)
  {
  }

  /** `if next_review:` — a missing or empty date is not scheduled. */
  predicate Scheduled(st: ReviewState) {
    st.nextReviewDate.Some? && st.nextReviewDate.value != ""
  }

  predicate IsDue(st: ReviewState, today: Date)
    requires Valid(today)
  {
    && Scheduled(st)
    && ParseDate(st.nextReviewDate.value).Some?
    && DayNumber(ParseDate(st.nextReviewDate.value).value) <= DayNumber(today)
  }

  /** Every scheduled date in `states` is a date. */
  predicate DatesReadable(states: seq<ReviewState>) {
    forall i :: 0 <= i < |states| && Scheduled(states[i]) ==> ParseDate(states[i].nextReviewDate.value).Some?
  }

  /** The item ids of the due states in input order; fails with the first
      scheduled date that is not a date. */
  function DueIds(states: seq<ReviewState>, today: Date): (r: Result<seq<string>, string>)
    requires Valid(today)
    ensures r.Success? <==> DatesReadable(states)
    ensures r.Failure? ==> exists i :: 0 <= i < |states| && Scheduled(states[i])
                                       && ParseDate(states[i].nextReviewDate.value).None?
                                       && r.error == states[i].nextReviewDate.value
    ensures r.Success? ==> |r.value| <= |states|
    ensures r.Success? ==> forall x :: x in r.value <==>
              exists i :: 0 <= i < |states| && IsDue(states[i], today) && states[i].itemId == x
  {
    if |states| == 0 then Success([])
    else
      var st := states[0];
      var rest := DueIds(states[1..], today);
      assert forall i :: 1 <= i < |states| ==> states[i] == states[1..][i - 1];
      if !Scheduled(st) then rest
      else match ParseDate(st.nextReviewDate.value)
        case None => Failure(st.nextReviewDate.value)
        case Some(d) =>
          match rest
          case Failure(e) => Failure(e)
          case Success(ids) => Success(if DayNumber(d) <= DayNumber(today) then [st.itemId] + ids else ids)
  }

  /** `get_items_due_for_review`. */
  function GetItemsDueForReview(states: seq<ReviewState>, today: string): (r: Result<seq<string>, string>)
    ensures r.Failure? <==> (ParseDate(today).None? || !DatesReadable(states))
    ensures r.Success? ==> forall x :: x in r.value <==>
              exists i :: 0 <= i < |states| && IsDue(states[i], ParseDate(today).value) && states[i].itemId == x
  {
    match ParseDate(today)
    case None => Failure(today)
    case Some(t) => DueIds(states, t)
  }

  /** Selection keeps input order: the due items of a concatenation are the
      due items of each part, one after the other. */
  lemma {:induction false} DueIdsConcat(a: seq<ReviewState>, b: seq<ReviewState>, today: Date)
    requires Valid(today)
    requires DatesReadable(a) && DatesReadable(b)
    ensures DueIds(a + b, today).Success?
    ensures DueIds(a + b, today).value == DueIds(a, today).value + DueIds(b, today).value
    decreases |a|
  {
    assert DatesReadable(a + b) by {
      forall i | 0 <= i < |a + b| && Scheduled((a + b)[i])
        ensures ParseDate((a + b)[i].nextReviewDate.value).Some?
      {
        if i >= |a| {
          assert (a + b)[i] == b[i - |a|];
        }
      }
    }
    if |a| > 0 {
      assert (a + b)[1..] == a[1..] + b;
      assert DatesReadable(a[1..]) by {
        forall i | 0 <= i < |a[1..]| && Scheduled(a[1..][i])
          ensures ParseDate(a[1..][i].nextReviewDate.value).Some?
        {
          assert a[1..][i] == a[i + 1];
        }
      }
      DueIdsConcat(a[1..], b, today);
    } else {
      assert a + b == b;
    }
  }
}
