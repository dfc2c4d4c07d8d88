/**
 * Concrete weeks on which the loops of Week.cs as written (module Written)
 * part from the walks they are meant to compute (module Walks). Each lemma
 * evaluates both on one input.
 *
 * Then the week the repository's DateAdd and DateDiff unit tests build
 * (TestWeek), and one lemma per asserted value of those tests, stating what
 * DateAdd and DateDiff as written give on it.
 */
module Examples {
  import opened Time
  import opened Shifts
  import opened Days
  import opened Walks
  import Written
  import WorkTime

  /** Monday 2010-07-05, 00:00, as milliseconds since DateTime.MinValue. */
  const Monday: int := 63_413_884_800_000

  /** A week whose only working day is Monday (System.DayOfWeek 1). */
  function MondayOnly(shifts: seq<Shift>): (p: Pattern)
    ensures |p| == DaysPerWeek && p[1] == shifts
    ensures forall d | 0 <= d < DaysPerWeek && d != 1 :: p[d] == []
  {
    [[], shifts, [], [], [], [], []]
  }

  /** Every instant of that Monday falls on weekday 1, at its offset from midnight. */
  lemma OnMonday(t: int)
    requires Monday <= t < Monday + MsPerDay
    ensures Weekday(t) == 1 && Midnight(t) == Monday && TimeOfDay(t) == t - Monday
  {
    AtDay(733_957, t - Monday);
  }

  /** The week of the first example: Monday 9:30 for three hours. */
  function MorningWeek(): (p: Pattern)
    ensures Walkable(p) && ContainsShifts(p)
  {
    var p := MondayOnly([Shift(34_200_000, 3 * MsPerHour)]);
    assert p[1] != [];
    p
  }

  /** From Monday 9:30 the next shift is the one starting then. */
  lemma MorningShift()
    ensures NextOccurrence(MorningWeek(), Monday + 34_200_000) == Shift(Monday + 34_200_000, 3 * MsPerHour)
  {
    var p, lo := MorningWeek(), Monday + 34_200_000;
    OnMonday(lo);
    assert NextIn(p[1], TimeOfDay(lo)) == Some(Shift(34_200_000, 3 * MsPerHour));
    assert SeekForward(p, lo, DaysPerWeek) == Some(Shift(lo, 3 * MsPerHour));
  }

  /**
   * DateDiff as written adds up whole shifts: from Monday 9:30 to 10:30, in a
   * week whose only shift is Monday 9:30 for three hours, it answers three
   * hours.
   */
  lemma DateDiffUntrimmed()
    ensures Written.DateDiff(MorningWeek(), 3 * MsPerHour, Monday + 34_200_000, Monday + 37_800_000)
            == Success(3 * MsPerHour)
  {
    var p, lo, hi := MorningWeek(), Monday + 34_200_000, Monday + 37_800_000;
    var s := Shift(lo, 3 * MsPerHour);
    MorningShift();
    OnMonday(lo);
    assert Written.AscendingFrom(p, 1, s.EndTime(), hi) == Success([]);
    assert Written.AscendingFrom(p, 1, lo, hi) == Success([s] + []);
    assert (hi - lo) / MsPerWeek == 0;
    assert TotalDuration([s]) == 3 * MsPerHour;
  }

  /** The same dates as meant: one hour of working time lies between them. */
  lemma DateDiffTrimmed()
    ensures Walks.DateDiff(MorningWeek(), 3 * MsPerHour, Monday + 34_200_000, Monday + 37_800_000) == MsPerHour
  {
    var p, lo, hi := MorningWeek(), Monday + 34_200_000, Monday + 37_800_000;
    var s := Shift(lo, 3 * MsPerHour);
    MorningShift();
    assert Ascending(p, s.EndTime(), hi) == [];
    assert Ascending(p, lo, hi) == [s] + [];
    assert Clip([s], hi) == [Shift(lo, MsPerHour)] + Clip([], hi);
    assert TotalDuration([Shift(lo, MsPerHour)]) == MsPerHour;
    assert (hi - lo) / MsPerWeek == 0;
  }

  /** The week of the second example: Monday 16:00 for eight hours, up to midnight. */
  function EveningWeek(): (p: Pattern)
    ensures WellFormedWeek(p) && Walkable(p) && ContainsShifts(p)
  {
    var p := MondayOnly([Shift(57_600_000, 8 * MsPerHour)]);
    assert p[1] != [];
    p
  }

  /** From Monday 00:00 the next shift is Monday 16:00. */
  lemma EveningShift()
    ensures NextOccurrence(EveningWeek(), Monday) == Shift(Monday + 57_600_000, 8 * MsPerHour)
  {
    var p := EveningWeek();
    OnMonday(Monday);
    assert NextIn(p[1], 0) == Some(Shift(57_600_000, 8 * MsPerHour));
    assert SeekForward(p, Monday, DaysPerWeek) == Some(Shift(Monday + 57_600_000, 8 * MsPerHour));
  }

  /**
   * AscendingShifts as written keeps asking Monday after the Monday shift
   * ends at midnight, so from Monday 00:00 to Tuesday 12:00 it fails on
   * Tuesday's date.
   */
  lemma AscendingStaleDay()
    ensures Written.AscendingShifts(EveningWeek(), Monday, Monday + 129_600_000) == Failure(WrongDayOfWeek)
  {
    var p, end := EveningWeek(), Monday + 129_600_000;
    var s := Shift(Monday + 57_600_000, 8 * MsPerHour);
    EveningShift();
    OnMonday(Monday);
    OnMonday(s.startTime);
    AtDay(733_958, 0);
    assert Weekday(s.EndTime()) == 2;
    assert Written.AscendingFrom(p, 1, s.EndTime(), end) == Failure(WrongDayOfWeek);
  }

  /** No instant of that Tuesday is working time. */
  lemma TuesdayIdle(t: int)
    requires Monday + MsPerDay <= t < Monday + 2 * MsPerDay
    ensures !WorkingAt(EveningWeek(), t)
  {
    AtDay(733_958, t - Monday - MsPerDay);
  }

  /** From Tuesday 00:00 the next shift starts after Tuesday 12:00. */
  lemma TuesdayNext()
    ensures NextOccurrence(EveningWeek(), Monday + MsPerDay).startTime >= Monday + 129_600_000
  {
    var p, tuesday := EveningWeek(), Monday + MsPerDay;
    var next := NextOccurrence(p, tuesday);
    if next.startTime < Monday + 129_600_000 {
      NextOccurrenceExact(p, tuesday, next.startTime);
      TuesdayIdle(next.startTime);
      assert false;
    }
  }

  /** The same walk as meant yields the Monday shift and nothing more before Tuesday 12:00. */
  lemma AscendingFresh()
    ensures Ascending(EveningWeek(), Monday, Monday + 129_600_000) == [Shift(Monday + 57_600_000, 8 * MsPerHour)]
  {
    var p, end := EveningWeek(), Monday + 129_600_000;
    var s := Shift(Monday + 57_600_000, 8 * MsPerHour);
    EveningShift();
    TuesdayNext();
    assert s.EndTime() == Monday + MsPerDay;
    assert Ascending(p, s.EndTime(), end) == [];
    assert Ascending(p, Monday, end) == [s] + [];
  }

  /** The week of the third example: Monday 8:00 and 9:00, one hour each. */
  function BackToBackWeek(): (p: Pattern)
    ensures WellFormedWeek(p) && Walkable(p) && ContainsShifts(p) && Written.CanAdd(p, -90 * MsPerMinute)
  {
    var p := MondayOnly([Shift(28_800_000, MsPerHour), Shift(32_400_000, MsPerHour)]);
    assert p[1] != [];
    assert p[1][0].startTime < MsPerDay - 1;
    p
  }

  /** Ninety minutes is less than the two hours of the week: no whole week is skipped. */
  lemma NoWholeWeek()
    ensures WholeWeeks(90 * MsPerMinute, 2 * MsPerHour) == 0
  {
    assert TruncDiv(5_400_000, 7_200_000) == 0;
  }

  /** As written, the first step back from Monday 10:00 meets the whole 9:00 shift. */
  lemma WrittenBackFirst()
    ensures Written.PreviousShift(BackToBackWeek(), Monday + 36_000_000) == Shift(Monday + 32_400_000, MsPerHour)
  {
    var p := BackToBackWeek();
    OnMonday(Monday + 36_000_000);
    assert PreviousIn(p[1], 36_000_000) == Some(Shift(32_400_000, MsPerHour));
  }

  /** As written, the second step asks before 8:59:59.999 and meets the 8:00 shift cut short. */
  lemma WrittenBackSecond()
    ensures Written.PreviousShift(BackToBackWeek(), Monday + 32_399_999) == Shift(Monday + 28_800_000, 3_599_999)
  {
    var p := BackToBackWeek();
    OnMonday(Monday + 32_399_999);
    assert PreviousIn(p[1], 32_399_999) == Some(Shift(28_800_000, 3_599_999));
  }

  /** The second step of the written loop: thirty minutes into the short shift, counted from its end. */
  lemma WrittenBackRest()
    ensures Written.AddNegativeFrom(BackToBackWeek(), 1, Monday + 32_399_999, 30 * MsPerMinute, Monday + 32_400_000)
            == Success(Monday + 30_599_999)
  {
    var p := BackToBackWeek();
    OnMonday(Monday + 32_399_999);
    OnMonday(Monday + 28_799_999);
    WrittenBackSecond();
    assert Written.AddNegativeFrom(p, 1, Monday + 28_799_999, 0, Monday + 30_599_999) == Success(Monday + 30_599_999);
  }

  /**
   * DateAdd as written, ninety minutes back from Monday 10:00: after the 9:00
   * shift it resumes at 8:59:59.999 and asks for the shifts before that
   * instant, so the 8:00 shift comes back one millisecond short and the
   * answer is 8:29:59.999.
   */
  lemma DateAddNegativeOffByOne()
    ensures Written.DateAdd(BackToBackWeek(), 2 * MsPerHour, Monday + 36_000_000, -90 * MsPerMinute)
            == Success(Monday + 30_599_999)
  {
    var p, start := BackToBackWeek(), Monday + 36_000_000;
    OnMonday(start);
    NoWholeWeek();
    Written.DateAddNegativeSteps(p, 2 * MsPerHour, start, -90 * MsPerMinute, start, 90 * MsPerMinute);
    WrittenBackFirst();
    WrittenBackRest();
    var s := Written.PreviousShift(p, start);
    OnMonday(s.startTime);
    assert Weekday(s.startTime) == 1 && s.startTime - 1 == Monday + 32_399_999;
    assert 90 * MsPerMinute - s.duration == 30 * MsPerMinute;
    assert Written.AddNegativeFrom(p, 1, start, 90 * MsPerMinute, start) == Success(Monday + 30_599_999);
  }

  /** As meant, the first step back from Monday 10:00 meets the whole 9:00 shift. */
  lemma MeantBackFirst()
    ensures PreviousOccurrence(BackToBackWeek(), Monday + 36_000_000) == Shift(Monday + 32_400_000, MsPerHour)
  {
    var p := BackToBackWeek();
    OnMonday(Monday + 35_999_999);
    assert PreviousIn(p[1], 36_000_000) == Some(Shift(32_400_000, MsPerHour));
  }

  /** As meant, the second step resumes at 9:00 and meets the whole 8:00 shift. */
  lemma MeantBackSecond()
    ensures PreviousOccurrence(BackToBackWeek(), Monday + 32_400_000) == Shift(Monday + 28_800_000, MsPerHour)
  {
    var p := BackToBackWeek();
    OnMonday(Monday + 32_399_999);
    assert PreviousIn(p[1], 32_400_000) == Some(Shift(28_800_000, MsPerHour));
  }

  /** The same addition as meant lands on 8:30, thirty minutes into the 8:00 shift. */
  lemma DateAddNegativeExact()
    ensures Walks.DateAdd(BackToBackWeek(), 2 * MsPerHour, Monday + 36_000_000, -90 * MsPerMinute)
            == Success(Monday + 30_600_000)
  {
    var p, start := BackToBackWeek(), Monday + 36_000_000;
    NoWholeWeek();
    assert Walks.DateAdd(p, 2 * MsPerHour, start, -90 * MsPerMinute)
           == Success(AddBackward(p, 2 * MsPerHour, start, 90 * MsPerMinute));
    MeantBackFirst();
    MeantBackSecond();
    assert WalkBackward(p, Monday + 32_400_000, 30 * MsPerMinute) == Monday + 30_600_000;
    assert WalkBackward(p, start, 90 * MsPerMinute) == Monday + 30_600_000;
  }

  /** The week of the fourth example: Monday 20:00 for two hours and Tuesday 00:00 for one. */
  function MidnightWeek(): (p: Pattern)
    ensures Walkable(p) && ContainsShifts(p) && Written.CanAdd(p, -2 * MsPerHour)
  {
    var p := [[], [Shift(72_000_000, 2 * MsPerHour)], [Shift(0, MsPerHour)], [], [], [], []];
    assert p[1] != [];
    assert p[1][0].startTime < MsPerDay - 1;
    p
  }

  /** Every instant of the k-th day after that Monday falls on weekday k + 1 (mod 7), at its offset from midnight. */
  lemma OnDay(k: int, t: int)
    requires 0 <= k && Monday + k * MsPerDay <= t < Monday + k * MsPerDay + MsPerDay
    ensures Weekday(t) == (k + 1) % DaysPerWeek && Midnight(t) == Monday + k * MsPerDay
    ensures TimeOfDay(t) == t - Monday - k * MsPerDay
  {
    AtDay(733_957 + k, t - Monday - k * MsPerDay);
  }

  /** Two hours is less than the three hours of the week: no whole week is skipped. */
  lemma NoWholeWeekAtMidnight()
    ensures WholeWeeks(2 * MsPerHour, 3 * MsPerHour) == 0
  {
    assert TruncDiv(7_200_000, 10_800_000) == 0;
  }

  /** As written, the first step back from Tuesday 05:00 meets the whole Tuesday 00:00 shift. */
  lemma StaleDayFirst()
    ensures Written.PreviousShift(MidnightWeek(), Monday + 104_400_000) == Shift(Monday + MsPerDay, MsPerHour)
  {
    var p := MidnightWeek();
    OnDay(1, Monday + 104_400_000);
    assert PreviousIn(p[2], 18_000_000) == Some(Shift(0, MsPerHour));
  }

  /** As written, the loop resumes at Monday 23:59:59.999 still holding Tuesday's Day, and fails. */
  lemma StaleDayLoop()
    ensures Written.AddNegativeFrom(MidnightWeek(), 2, Monday + 104_400_000, 2 * MsPerHour, Monday + 104_400_000)
            == Failure(WrongDayOfWeek)
  {
    var p, start, tuesday := MidnightWeek(), Monday + 104_400_000, Monday + MsPerDay;
    OnDay(1, start);
    OnDay(1, tuesday);
    OnMonday(tuesday - 1);
    StaleDayFirst();
    Written.AddNegativeWritten(p, 2, start, 2 * MsPerHour, start, Shift(tuesday, MsPerHour), 2, tuesday - 1, MsPerHour, tuesday);
    assert Written.AddNegativeFrom(p, 2, tuesday - 1, MsPerHour, tuesday) == Failure(WrongDayOfWeek);
  }

  /**
   * DateAdd as written, two hours back from Tuesday 05:00: the Tuesday 00:00
   * shift is spent whole, the walk resumes at Monday 23:59:59.999 but still
   * holds Tuesday's Day, and GetPreviousShift throws for the wrong weekday.
   */
  lemma DateAddNegativeStaleDay()
    ensures Written.DateAdd(MidnightWeek(), 3 * MsPerHour, Monday + 104_400_000, -2 * MsPerHour)
            == Failure(WrongDayOfWeek)
  {
    var p, start := MidnightWeek(), Monday + 104_400_000;
    OnDay(1, start);
    NoWholeWeekAtMidnight();
    Written.DateAddNegativeSteps(p, 3 * MsPerHour, start, -2 * MsPerHour, start, 2 * MsPerHour);
    StaleDayLoop();
  }

  /** As meant, the first step back from Tuesday 05:00 meets the whole Tuesday 00:00 shift. */
  lemma AcrossMidnightFirst()
    ensures PreviousOccurrence(MidnightWeek(), Monday + 104_400_000) == Shift(Monday + MsPerDay, MsPerHour)
  {
    var p := MidnightWeek();
    OnDay(1, Monday + 104_399_999);
    assert PreviousIn(p[2], 18_000_000) == Some(Shift(0, MsPerHour));
  }

  /** As meant, the second step resumes at Tuesday 00:00 and meets the whole Monday 20:00 shift. */
  lemma AcrossMidnightSecond()
    ensures PreviousOccurrence(MidnightWeek(), Monday + MsPerDay) == Shift(Monday + 72_000_000, 2 * MsPerHour)
  {
    var p := MidnightWeek();
    OnMonday(Monday + MsPerDay - 1);
    assert PreviousIn(p[1], MsPerDay) == Some(Shift(72_000_000, 2 * MsPerHour));
  }

  /** As meant, two hours back from Tuesday 05:00 spend the Tuesday shift and one hour of the Monday evening one. */
  lemma AcrossMidnightWalk()
    ensures WalkBackward(MidnightWeek(), Monday + 104_400_000, 2 * MsPerHour) == Monday + 75_600_000
  {
    var p, start, tuesday := MidnightWeek(), Monday + 104_400_000, Monday + MsPerDay;
    assert WalkBackward(p, tuesday, MsPerHour) == Monday + 75_600_000 by {
      AcrossMidnightSecond();
      var evening := Shift(Monday + 72_000_000, 2 * MsPerHour);
      Written.WalkBackwardStep(p, tuesday, MsPerHour, evening, evening.startTime, 0, Monday + 75_600_000);
    }
    AcrossMidnightFirst();
    Written.WalkBackwardStep(p, start, 2 * MsPerHour, Shift(tuesday, MsPerHour), tuesday, MsPerHour, tuesday);
  }

  /** As meant, the same addition lands an hour into the Monday evening shift, at 21:00. */
  lemma DateAddNegativeAcrossMidnight()
    ensures Walks.DateAdd(MidnightWeek(), 3 * MsPerHour, Monday + 104_400_000, -2 * MsPerHour)
            == Success(Monday + 75_600_000)
  {
    NoWholeWeekAtMidnight();
    AcrossMidnightWalk();
  }

  // ---------------------------------------------------------------------
  // The DateAdd and DateDiff tests of the repository
  // ---------------------------------------------------------------------

  /**
   * The week the DateAdd and DateDiff tests build with Day.AddShift: Monday
   * 9:30 for three hours and 13:30 for `afternoon` (four hours, or three in
   * the thirty-day tests), Tuesday and Wednesday 9:30 for three hours.
   */
  function TestWeek(afternoon: int): (p: Pattern)
    requires 0 < afternoon <= 4 * MsPerHour
    ensures Walkable(p) && ContainsShifts(p) && Written.ReachableBackward(p)
    ensures p[1] == [Shift(34_200_000, 3 * MsPerHour), Shift(48_600_000, afternoon)]
    ensures p[2] == p[3] == [Shift(34_200_000, 3 * MsPerHour)] && p[0] == p[4] == p[5] == p[6] == []
  {
    var morning := [Shift(34_200_000, 3 * MsPerHour)];
    var p := [[], [Shift(34_200_000, 3 * MsPerHour), Shift(48_600_000, afternoon)], morning, morning, [], [], []];
    assert p[1] != [] && p[1][0].startTime < MsPerDay - 1;
    p
  }

  /** The test week's days are well formed, and every shift lies strictly inside its day with a gap before the next. */
  lemma TestWeekSpaced(afternoon: int)
    requires 0 < afternoon <= 4 * MsPerHour
    ensures WellFormedWeek(TestWeek(afternoon)) && Written.Spaced(TestWeek(afternoon))
  {
    var p := TestWeek(afternoon);
    forall d | 0 <= d < DaysPerWeek
      ensures SpacedDay(p[d])
    {
      if p[d] == p[1] {
        TestMondaySpaced(afternoon);
      }
    }
  }

  /** A day whose shifts lie inside it, strictly after its midnight and before its end, with a gap between each two. */
  predicate SpacedDay(shifts: seq<Shift>) {
    && WellFormed(shifts)
    && (forall i | 0 <= i < |shifts| :: 0 < shifts[i].startTime && shifts[i].EndTime() < MsPerDay)
    && (forall i, j | 0 <= i < j < |shifts| :: shifts[i].EndTime() < shifts[j].startTime)
  }

  /** The test week's Monday: 9:30 for three hours and 13:30 for at most four. */
  lemma TestMondaySpaced(afternoon: int)
    requires 0 < afternoon <= 4 * MsPerHour
    ensures SpacedDay([Shift(34_200_000, 3 * MsPerHour), Shift(48_600_000, afternoon)])
  {
  }

  /** The Duration of the test week: nine hours and the Monday afternoon. */
  lemma TestWeekTotal(afternoon: int)
    requires 0 < afternoon <= 4 * MsPerHour
    ensures WeekTotal(TestWeek(afternoon)) == 9 * MsPerHour + afternoon
  {
    var p := TestWeek(afternoon);
    var morning, monday := p[2], p[1];
    assert monday[..1] == morning && morning[..0] == [];
    assert TotalDuration(morning) == 3 * MsPerHour;
    assert TotalDuration(monday) == 3 * MsPerHour + afternoon;
    forall k | 1 <= k <= 7
      ensures p[..k][..k - 1] == p[..k - 1] && p[..k][k - 1] == p[k - 1]
    {
    }
    assert WeekTotal(p[..1]) == 0;
    assert WeekTotal(p[..2]) == 3 * MsPerHour + afternoon;
    assert WeekTotal(p[..3]) == 6 * MsPerHour + afternoon;
    assert WeekTotal(p[..4]) == 9 * MsPerHour + afternoon;
    assert WeekTotal(p[..5]) == 9 * MsPerHour + afternoon;
    assert WeekTotal(p[..6]) == 9 * MsPerHour + afternoon;
    assert p[..7] == p;
  }

  /** Less than the thirteen-hour week's total skips no whole week. */
  lemma ShortOfAWeek(span: int)
    requires 0 <= span < 13 * MsPerHour
    ensures WholeWeeks(span, 13 * MsPerHour) == 0
  {
    assert TruncDiv(span, 13 * MsPerHour) == 0;
  }

  /** On the thirteen-hour test week, a positive duration short of a week's total is walked forward from the date itself. */
  lemma ForwardWithinWeek(p: Pattern, startDate: int, amount: int)
    requires Walkable(p) && 0 < amount < 13 * MsPerHour
    ensures Walks.DateAdd(p, 13 * MsPerHour, startDate, amount) == Success(WalkForward(p, startDate, amount))
  {
    ShortOfAWeek(amount);
    assert AddForward(p, 13 * MsPerHour, startDate, amount) == WalkForward(p, startDate, amount);
  }

  /** On the thirteen-hour test week, a negative duration short of a week's total is walked backward from the date itself. */
  lemma BackwardWithinWeek(p: Pattern, startDate: int, amount: int)
    requires Walkable(p) && 0 < -amount < 13 * MsPerHour
    ensures Walks.DateAdd(p, 13 * MsPerHour, startDate, amount) == Success(WalkBackward(p, startDate, -amount))
  {
    var span := -amount;
    ShortOfAWeek(span);
    assert AddBackward(p, 13 * MsPerHour, startDate, span) == WalkBackward(p, startDate, span);
  }

  /** From an instant of that Monday, the next shift is the one Monday's Day returns, on that date. */
  lemma MondayNext(p: Pattern, t: int, s: Shift)
    requires Walkable(p) && ContainsShifts(p) && Monday <= t < Monday + MsPerDay
    requires NextIn(p[1], t - Monday) == Some(s)
    ensures NextOccurrence(p, t) == Shift(Monday + s.startTime, s.duration)
  {
    OnMonday(t);
    NextInWalkable(p, 1, t - Monday);
    TimeOfDayInDay(s.startTime);
  }

  /** Back from an instant of that Monday after midnight, the stretch met is the one Monday's Day returns. */
  lemma MondayPrevious(p: Pattern, t: int, s: Shift)
    requires Walkable(p) && ContainsShifts(p) && Monday < t <= Monday + MsPerDay
    requires PreviousIn(p[1], t - Monday) == Some(s)
    ensures PreviousOccurrence(p, t) == Shift(Monday + s.startTime, s.duration)
  {
    OnMonday(t - 1);
    PreviousInWalkable(p, 1, t - Monday);
    TimeOfDayInDay(s.startTime);
  }

  /** A whole shift spent by the forward walk. */
  lemma ForwardStep(p: Pattern, cursor: int, rem: nat, s: Shift, rest: nat)
    requires Walkable(p) && ContainsShifts(p) && s == NextOccurrence(p, cursor)
    requires s.duration <= rem && rest == rem - s.duration
    ensures WalkForward(p, cursor, rem) == WalkForward(p, s.EndTime(), rest)
  {
  }

  /** The shift the forward walk stops inside. */
  lemma ForwardStop(p: Pattern, cursor: int, rem: nat, s: Shift)
    requires Walkable(p) && ContainsShifts(p) && s == NextOccurrence(p, cursor)
    requires 0 < rem < s.duration
    ensures WalkForward(p, cursor, rem) == s.startTime + rem
  {
  }

  /** A whole shift of that Monday spent by the forward walk. */
  lemma MondayStep(p: Pattern, cursor: int, rem: nat, s: Shift, end: int, rest: nat)
    requires Walkable(p) && ContainsShifts(p) && Monday <= cursor < Monday + MsPerDay
    requires NextIn(p[1], cursor - Monday) == Some(s) && s.duration <= rem
    requires end == Monday + s.EndTime() && rest == rem - s.duration
    ensures WalkForward(p, cursor, rem) == WalkForward(p, end, rest)
  {
    var dated := Shift(Monday + s.startTime, s.duration);
    MondayNext(p, cursor, s);
    assert dated.EndTime() == end;
    ForwardStep(p, cursor, rem, dated, rest);
  }

  /** What the test week's Monday returns from 9:30 and from 10:30. */
  lemma MondayMorning()
    ensures NextIn(TestWeek(4 * MsPerHour)[1], 34_200_000) == Some(Shift(34_200_000, 3 * MsPerHour))
    ensures NextIn(TestWeek(4 * MsPerHour)[1], 37_800_000) == Some(Shift(37_800_000, 2 * MsPerHour))
  {
  }

  /** Forward from Monday 9:30 with three hours or more: the morning shift is spent whole. */
  lemma MorningWalk(rem: nat)
    requires 3 * MsPerHour <= rem
    ensures WalkForward(TestWeek(4 * MsPerHour), Monday + 34_200_000, rem)
            == WalkForward(TestWeek(4 * MsPerHour), Monday + 45_000_000, rem - 3 * MsPerHour)
  {
    MondayMorning();
    MondayStep(TestWeek(4 * MsPerHour), Monday + 34_200_000, rem, Shift(34_200_000, 3 * MsPerHour), Monday + 45_000_000, rem - 3 * MsPerHour);
  }

  /** Forward from Monday 10:30 with two hours or more: the rest of the morning shift is spent. */
  lemma LateMorningWalk(rem: nat)
    requires 2 * MsPerHour <= rem
    ensures WalkForward(TestWeek(4 * MsPerHour), Monday + 37_800_000, rem)
            == WalkForward(TestWeek(4 * MsPerHour), Monday + 45_000_000, rem - 2 * MsPerHour)
  {
    MondayMorning();
    MondayStep(TestWeek(4 * MsPerHour), Monday + 37_800_000, rem, Shift(37_800_000, 2 * MsPerHour), Monday + 45_000_000, rem - 2 * MsPerHour);
  }

  /** Forward from Monday 12:30 with up to four hours: the walk ends inside, or at the end of, the 13:30 shift. */
  lemma AfternoonWalk(rem: nat)
    requires 0 < rem <= 4 * MsPerHour
    ensures WalkForward(TestWeek(4 * MsPerHour), Monday + 45_000_000, rem) == Monday + 48_600_000 + rem
  {
    var p := TestWeek(4 * MsPerHour);
    AfternoonNext();
    if rem < 4 * MsPerHour {
      ForwardStop(p, Monday + 45_000_000, rem, Shift(Monday + 48_600_000, 4 * MsPerHour));
    } else {
      ForwardStep(p, Monday + 45_000_000, rem, Shift(Monday + 48_600_000, 4 * MsPerHour), 0);
    }
  }

  /** DateAddTests.PositiveSingleShift: three hours from Monday 9:30 is 12:30. */
  lemma PositiveSingleShift()
    ensures Written.DateAdd(TestWeek(4 * MsPerHour), 13 * MsPerHour, Monday + 34_200_000, 3 * MsPerHour)
            == Success(Monday + 45_000_000)
  {
    var p := TestWeek(4 * MsPerHour);
    TestWeekSpaced(4 * MsPerHour);
    Written.DateAddAgrees(p, 13 * MsPerHour, Monday + 34_200_000, 3 * MsPerHour);
    ForwardWithinWeek(p, Monday + 34_200_000, 3 * MsPerHour);
    MorningWalk(3 * MsPerHour);
  }

  /** From Monday 12:30, the next shift is Monday 13:30 for four hours. */
  lemma AfternoonNext()
    ensures NextOccurrence(TestWeek(4 * MsPerHour), Monday + 45_000_000) == Shift(Monday + 48_600_000, 4 * MsPerHour)
  {
    var p := TestWeek(4 * MsPerHour);
    assert NextIn(p[1], 45_000_000) == Some(Shift(48_600_000, 4 * MsPerHour));
    MondayNext(p, Monday + 45_000_000, Shift(48_600_000, 4 * MsPerHour));
  }

  /** DateAddTests.PositiveTwoShifts: seven hours from Monday 9:30 is 17:30. */
  lemma PositiveTwoShifts()
    ensures Written.DateAdd(TestWeek(4 * MsPerHour), 13 * MsPerHour, Monday + 34_200_000, 7 * MsPerHour)
            == Success(Monday + 63_000_000)
  {
    var p := TestWeek(4 * MsPerHour);
    TestWeekSpaced(4 * MsPerHour);
    Written.DateAddAgrees(p, 13 * MsPerHour, Monday + 34_200_000, 7 * MsPerHour);
    ForwardWithinWeek(p, Monday + 34_200_000, 7 * MsPerHour);
    MorningWalk(7 * MsPerHour);
    AfternoonWalk(4 * MsPerHour);
  }

  /** DateAddTests.PositiveShortStartShift: six hours from Monday 10:30 is 17:30. */
  lemma PositiveShortStartShift()
    ensures Written.DateAdd(TestWeek(4 * MsPerHour), 13 * MsPerHour, Monday + 37_800_000, 6 * MsPerHour)
            == Success(Monday + 63_000_000)
  {
    var p := TestWeek(4 * MsPerHour);
    TestWeekSpaced(4 * MsPerHour);
    Written.DateAddAgrees(p, 13 * MsPerHour, Monday + 37_800_000, 6 * MsPerHour);
    ForwardWithinWeek(p, Monday + 37_800_000, 6 * MsPerHour);
    LateMorningWalk(6 * MsPerHour);
    AfternoonWalk(4 * MsPerHour);
  }

  /** DateAddTests.PositiveShortStartEndShift: five and a half hours from Monday 10:30 is 17:00. */
  lemma PositiveShortStartEndShift()
    ensures Written.DateAdd(TestWeek(4 * MsPerHour), 13 * MsPerHour, Monday + 37_800_000, 330 * MsPerMinute)
            == Success(Monday + 61_200_000)
  {
    var p := TestWeek(4 * MsPerHour);
    TestWeekSpaced(4 * MsPerHour);
    Written.DateAddAgrees(p, 13 * MsPerHour, Monday + 37_800_000, 330 * MsPerMinute);
    ForwardWithinWeek(p, Monday + 37_800_000, 330 * MsPerMinute);
    LateMorningWalk(330 * MsPerMinute);
    AfternoonWalk(210 * MsPerMinute);
  }

  /** DateAddTests.Positive30Days: thirty days on a twelve-hour week is sixty weeks from Monday 9:30. */
  lemma Positive30Days()
    ensures Written.DateAdd(TestWeek(3 * MsPerHour), 12 * MsPerHour, Monday + 34_200_000, 30 * 24 * MsPerHour)
            == Success(Monday + 34_200_000 + 60 * 7 * MsPerDay)
  {
    var p := TestWeek(3 * MsPerHour);
    TestWeekSpaced(3 * MsPerHour);
    Written.DateAddAgrees(p, 12 * MsPerHour, Monday, -1);
    Written.DateAddWholeWeeks(p, 12 * MsPerHour, Monday + 34_200_000, 60);
  }

  /** Back from Monday 12:30 the stretch met is the whole 9:30 shift. */
  lemma MorningPrevious()
    ensures PreviousOccurrence(TestWeek(4 * MsPerHour), Monday + 45_000_000) == Shift(Monday + 34_200_000, 3 * MsPerHour)
  {
    var p := TestWeek(4 * MsPerHour);
    assert PreviousIn(p[1], 45_000_000) == Some(Shift(34_200_000, 3 * MsPerHour));
    MondayPrevious(p, Monday + 45_000_000, Shift(34_200_000, 3 * MsPerHour));
  }

  /** Back from Monday 13:30 the stretch met is the whole 9:30 shift. */
  lemma MiddayPrevious()
    ensures PreviousOccurrence(TestWeek(4 * MsPerHour), Monday + 48_600_000) == Shift(Monday + 34_200_000, 3 * MsPerHour)
  {
    var p := TestWeek(4 * MsPerHour);
    assert PreviousIn(p[1], 48_600_000) == Some(Shift(34_200_000, 3 * MsPerHour));
    MondayPrevious(p, Monday + 48_600_000, Shift(34_200_000, 3 * MsPerHour));
  }

  /** The backward walk of NegativeSingleShift, as meant. */
  lemma NegativeSingleShiftWalk()
    ensures WalkBackward(TestWeek(4 * MsPerHour), Monday + 45_000_000, 3 * MsPerHour) == Monday + 34_200_000
  {
    var p := TestWeek(4 * MsPerHour);
    MorningPrevious();
  }

  /** DateAddTests.NegativeSingleShift: three hours back from Monday 12:30 is 9:30. */
  lemma NegativeSingleShift()
    ensures Written.DateAdd(TestWeek(4 * MsPerHour), 13 * MsPerHour, Monday + 45_000_000, -3 * MsPerHour)
            == Success(Monday + 34_200_000)
  {
    var p := TestWeek(4 * MsPerHour);
    TestWeekSpaced(4 * MsPerHour);
    Written.DateAddAgrees(p, 13 * MsPerHour, Monday + 45_000_000, -3 * MsPerHour);
    BackwardWithinWeek(p, Monday + 45_000_000, -3 * MsPerHour);
    NegativeSingleShiftWalk();
  }

  /** Back from Monday 17:30 the stretch met is the whole 13:30 shift. */
  lemma AfternoonPrevious()
    ensures PreviousOccurrence(TestWeek(4 * MsPerHour), Monday + 63_000_000) == Shift(Monday + 48_600_000, 4 * MsPerHour)
  {
    var p := TestWeek(4 * MsPerHour);
    assert PreviousIn(p[1], 63_000_000) == Some(Shift(48_600_000, 4 * MsPerHour));
    MondayPrevious(p, Monday + 63_000_000, Shift(48_600_000, 4 * MsPerHour));
  }

  /** The backward walk of NegativeTwoShifts, as meant. */
  lemma NegativeTwoShiftsWalk()
    ensures WalkBackward(TestWeek(4 * MsPerHour), Monday + 63_000_000, 7 * MsPerHour) == Monday + 34_200_000
  {
    var p := TestWeek(4 * MsPerHour);
    AfternoonPrevious();
    MiddayPrevious();
    assert WalkBackward(p, Monday + 48_600_000, 3 * MsPerHour) == Monday + 34_200_000;
  }

  /** DateAddTests.NegativeTwoShifts: seven hours back from Monday 17:30 is 9:30. */
  lemma NegativeTwoShifts()
    ensures Written.DateAdd(TestWeek(4 * MsPerHour), 13 * MsPerHour, Monday + 63_000_000, -7 * MsPerHour)
            == Success(Monday + 34_200_000)
  {
    var p := TestWeek(4 * MsPerHour);
    TestWeekSpaced(4 * MsPerHour);
    Written.DateAddAgrees(p, 13 * MsPerHour, Monday + 63_000_000, -7 * MsPerHour);
    BackwardWithinWeek(p, Monday + 63_000_000, -7 * MsPerHour);
    NegativeTwoShiftsWalk();
  }

  /** The backward walk of NegativeShortStartShift, as meant. */
  lemma NegativeShortStartShiftWalk()
    ensures WalkBackward(TestWeek(4 * MsPerHour), Monday + 63_000_000, 6 * MsPerHour) == Monday + 37_800_000
  {
    var p := TestWeek(4 * MsPerHour);
    AfternoonPrevious();
    MiddayPrevious();
    assert WalkBackward(p, Monday + 48_600_000, 2 * MsPerHour) == Monday + 37_800_000;
  }

  /** DateAddTests.NegativeShortStartShift: six hours back from Monday 17:30 is 10:30. */
  lemma NegativeShortStartShift()
    ensures Written.DateAdd(TestWeek(4 * MsPerHour), 13 * MsPerHour, Monday + 63_000_000, -6 * MsPerHour)
            == Success(Monday + 37_800_000)
  {
    var p := TestWeek(4 * MsPerHour);
    TestWeekSpaced(4 * MsPerHour);
    Written.DateAddAgrees(p, 13 * MsPerHour, Monday + 63_000_000, -6 * MsPerHour);
    BackwardWithinWeek(p, Monday + 63_000_000, -6 * MsPerHour);
    NegativeShortStartShiftWalk();
  }

  /** The backward walk of NegativeShortStartEndShift, as meant. */
  lemma NegativeShortStartEndShiftWalk()
    ensures WalkBackward(TestWeek(4 * MsPerHour), Monday + 61_200_000, 330 * MsPerMinute) == Monday + 37_800_000
  {
    var p := TestWeek(4 * MsPerHour);
    assert PreviousIn(p[1], 61_200_000) == Some(Shift(48_600_000, 210 * MsPerMinute));
    MondayPrevious(p, Monday + 61_200_000, Shift(48_600_000, 210 * MsPerMinute));
    MiddayPrevious();
    assert WalkBackward(p, Monday + 48_600_000, 2 * MsPerHour) == Monday + 37_800_000;
  }

  /** DateAddTests.NegativeShortStartEndShift: five and a half hours back from Monday 17:00 is 10:30. */
  lemma NegativeShortStartEndShift()
    ensures Written.DateAdd(TestWeek(4 * MsPerHour), 13 * MsPerHour, Monday + 61_200_000, -330 * MsPerMinute)
            == Success(Monday + 37_800_000)
  {
    var p := TestWeek(4 * MsPerHour);
    TestWeekSpaced(4 * MsPerHour);
    Written.DateAddAgrees(p, 13 * MsPerHour, Monday + 61_200_000, -330 * MsPerMinute);
    BackwardWithinWeek(p, Monday + 61_200_000, -330 * MsPerMinute);
    NegativeShortStartEndShiftWalk();
  }

  /** DateAddTests.Negative30Days: thirty days back on a twelve-hour week is sixty weeks back. */
  lemma Negative30Days()
    ensures Written.DateAdd(TestWeek(3 * MsPerHour), 12 * MsPerHour, Monday + 34_200_000 + 60 * 7 * MsPerDay, -30 * 24 * MsPerHour)
            == Success(Monday + 34_200_000)
  {
    var p := TestWeek(3 * MsPerHour);
    TestWeekSpaced(3 * MsPerHour);
    Written.DateAddAgrees(p, 12 * MsPerHour, Monday, -1);
    Written.DateAddWholeWeeks(p, 12 * MsPerHour, Monday + 34_200_000 + 60 * 7 * MsPerDay, 60);
  }

  /** The search from an instant of the k-th day after that Monday, when the day still has a shift for it. */
  lemma SeekOnDay(p: Pattern, k: int, t: int, n: nat, s: Shift)
    requires Walkable(p) && 0 <= k && Monday + k * MsPerDay <= t < Monday + k * MsPerDay + MsPerDay
    requires NextIn(p[(k + 1) % DaysPerWeek], t - Monday - k * MsPerDay) == Some(s)
    ensures SeekForward(p, t, n) == Some(Shift(Monday + k * MsPerDay + s.startTime, s.duration))
  {
    OnDay(k, t);
    NextInWalkable(p, (k + 1) % DaysPerWeek, t - Monday - k * MsPerDay);
    WorkTime.SeekToday(p, t, n, s);
  }

  /** The search from an instant of the k-th day after that Monday, when the day has nothing left: on from the next midnight. */
  lemma SeekPastDay(p: Pattern, k: int, t: int, n: nat)
    requires Walkable(p) && 0 <= k && Monday + k * MsPerDay <= t < Monday + k * MsPerDay + MsPerDay && 0 < n
    requires NextIn(p[(k + 1) % DaysPerWeek], t - Monday - k * MsPerDay).None?
    ensures SeekForward(p, t, n) == SeekForward(p, Monday + (k + 1) * MsPerDay, n - 1)
  {
    OnDay(k, t);
    WorkTime.SeekRoll(p, t, n, Monday + (k + 1) * MsPerDay);
  }

  /** After Monday 17:30 Monday's Day has no shift left. */
  lemma MondayDone()
    ensures NextIn(TestWeek(4 * MsPerHour)[1], 63_000_000) == None
  {
    var monday := TestWeek(4 * MsPerHour)[1];
    assert NextIn([Shift(48_600_000, 4 * MsPerHour)], 63_000_000) == None;
    assert monday[1..] == [Shift(48_600_000, 4 * MsPerHour)];
  }

  /** From midnight, Monday's, Tuesday's and Wednesday's Days return the 9:30 shift; after 12:30 Tuesday's and Wednesday's return nothing. */
  lemma TestWeekMornings()
    ensures forall d | 1 <= d <= 3 :: NextIn(TestWeek(4 * MsPerHour)[d], 0) == Some(Shift(34_200_000, 3 * MsPerHour))
    ensures forall d | 2 <= d <= 3 :: NextIn(TestWeek(4 * MsPerHour)[d], 45_000_000) == None
  {
    var p := TestWeek(4 * MsPerHour);
    assert NextIn(p[1], 0) == Some(Shift(34_200_000, 3 * MsPerHour));
    assert NextIn(p[2], 0) == Some(Shift(34_200_000, 3 * MsPerHour));
    assert NextIn(p[2], 45_000_000) == None;
  }

  /** The search from Monday 17:30 passes the rest of Monday and finds Tuesday 9:30. */
  lemma EveningSeek()
    ensures SeekForward(TestWeek(4 * MsPerHour), Monday + 63_000_000, DaysPerWeek)
            == Some(Shift(Monday + MsPerDay + 34_200_000, 3 * MsPerHour))
  {
    MondayEveningSeek(DaysPerWeek);
    MorningSeek(1, DaysPerWeek - 1);
  }

  /** The search from Monday 17:30 goes on from Tuesday 00:00. */
  lemma MondayEveningSeek(n: nat)
    requires 0 < n
    ensures SeekForward(TestWeek(4 * MsPerHour), Monday + 63_000_000, n)
            == SeekForward(TestWeek(4 * MsPerHour), Monday + MsPerDay, n - 1)
  {
    MondayDone();
    SeekPastDay(TestWeek(4 * MsPerHour), 0, Monday + 63_000_000, n);
  }

  /** The search from midnight of the k-th day after that Monday, a Tuesday or a Wednesday or a Monday, finds its 9:30 shift. */
  lemma MorningSeek(k: int, n: nat)
    requires k == 1 || k == 2 || k == 7
    ensures SeekForward(TestWeek(4 * MsPerHour), Monday + k * MsPerDay, n)
            == Some(Shift(Monday + k * MsPerDay + 34_200_000, 3 * MsPerHour))
  {
    var p := TestWeek(4 * MsPerHour);
    TestWeekMornings();
    assert NextIn(p[(k + 1) % DaysPerWeek], 0) == Some(Shift(34_200_000, 3 * MsPerHour));
    SeekOnDay(p, k, Monday + k * MsPerDay, n, Shift(34_200_000, 3 * MsPerHour));
  }

  /** From Monday 17:30 the next shift is Tuesday 9:30. */
  lemma EveningNext()
    ensures NextOccurrence(TestWeek(4 * MsPerHour), Monday + 63_000_000) == Shift(Monday + MsPerDay + 34_200_000, 3 * MsPerHour)
  {
    EveningSeek();
  }

  /** The search from Tuesday 12:30 passes the rest of Tuesday and finds Wednesday 9:30. */
  lemma TuesdayAfternoonSeek()
    ensures SeekForward(TestWeek(4 * MsPerHour), Monday + MsPerDay + 45_000_000, DaysPerWeek)
            == Some(Shift(Monday + 2 * MsPerDay + 34_200_000, 3 * MsPerHour))
  {
    TestWeekMornings();
    SeekPastDay(TestWeek(4 * MsPerHour), 1, Monday + MsPerDay + 45_000_000, DaysPerWeek);
    MorningSeek(2, DaysPerWeek - 1);
  }

  /** From Tuesday 12:30 the next shift is Wednesday 9:30. */
  lemma TuesdayAfternoonNext()
    ensures NextOccurrence(TestWeek(4 * MsPerHour), Monday + MsPerDay + 45_000_000)
            == Shift(Monday + 2 * MsPerDay + 34_200_000, 3 * MsPerHour)
  {
    TuesdayAfternoonSeek();
  }

  /** The search from Wednesday 12:30 passes the rest of Wednesday and goes on from Thursday 00:00. */
  lemma WednesdayAfternoonSeek()
    ensures SeekForward(TestWeek(4 * MsPerHour), Monday + 2 * MsPerDay + 45_000_000, DaysPerWeek)
            == Some(Shift(Monday + 7 * MsPerDay + 34_200_000, 3 * MsPerHour))
  {
    var p := TestWeek(4 * MsPerHour);
    TestWeekMornings();
    SeekPastDay(p, 2, Monday + 2 * MsPerDay + 45_000_000, DaysPerWeek);
    IdleDaysSeek();
  }

  /** From Wednesday 12:30 the next shift is the following Monday 9:30, after Friday 12:30. */
  lemma WednesdayAfternoonNext()
    ensures NextOccurrence(TestWeek(4 * MsPerHour), Monday + 2 * MsPerDay + 45_000_000)
            == Shift(Monday + 7 * MsPerDay + 34_200_000, 3 * MsPerHour)
  {
    WednesdayAfternoonSeek();
  }

  /** The search from Thursday 00:00 passes Thursday and Friday, then goes on from Saturday. */
  lemma IdleDaysSeek()
    ensures SeekForward(TestWeek(4 * MsPerHour), Monday + 3 * MsPerDay, 6)
            == Some(Shift(Monday + 7 * MsPerDay + 34_200_000, 3 * MsPerHour))
  {
    var p := TestWeek(4 * MsPerHour);
    SeekPastDay(p, 3, Monday + 3 * MsPerDay, 6);
    SeekPastDay(p, 4, Monday + 4 * MsPerDay, 5);
    WeekendSeek();
  }

  /** The search from Saturday 00:00 passes Saturday, then goes on from Sunday. */
  lemma WeekendSeek()
    ensures SeekForward(TestWeek(4 * MsPerHour), Monday + 5 * MsPerDay, 4)
            == Some(Shift(Monday + 7 * MsPerDay + 34_200_000, 3 * MsPerHour))
  {
    SeekPastDay(TestWeek(4 * MsPerHour), 5, Monday + 5 * MsPerDay, 4);
    SundaySeek();
  }

  /** The search from Sunday 00:00 passes Sunday and finds the following Monday 9:30. */
  lemma SundaySeek()
    ensures SeekForward(TestWeek(4 * MsPerHour), Monday + 6 * MsPerDay, 3)
            == Some(Shift(Monday + 7 * MsPerDay + 34_200_000, 3 * MsPerHour))
  {
    SeekPastDay(TestWeek(4 * MsPerHour), 6, Monday + 6 * MsPerDay, 3);
    MorningSeek(7, 2);
  }

  /** The shifts AscendingShifts meets from Monday 12:30 up to Friday 12:30: Monday 13:30, Tuesday and Wednesday 9:30. */
  lemma AscendingFromNoon()
    ensures Ascending(TestWeek(4 * MsPerHour), Monday + 45_000_000, Monday + 4 * MsPerDay + 45_000_000)
            == [Shift(Monday + 48_600_000, 4 * MsPerHour),
                Shift(Monday + MsPerDay + 34_200_000, 3 * MsPerHour),
                Shift(Monday + 2 * MsPerDay + 34_200_000, 3 * MsPerHour)]
  {
    var p, end := TestWeek(4 * MsPerHour), Monday + 4 * MsPerDay + 45_000_000;
    var b, c, d := Shift(Monday + 48_600_000, 4 * MsPerHour),
                   Shift(Monday + MsPerDay + 34_200_000, 3 * MsPerHour),
                   Shift(Monday + 2 * MsPerDay + 34_200_000, 3 * MsPerHour);
    WednesdayAfternoonNext();
    assert Ascending(p, d.EndTime(), end) == [];
    TuesdayAfternoonNext();
    assert Ascending(p, c.EndTime(), end) == [d] + [];
    EveningNext();
    assert Ascending(p, b.EndTime(), end) == [c] + [d];
    AfternoonNext();
    assert Ascending(p, Monday + 45_000_000, end) == [b] + [c, d];
  }

  /** Four shifts in order: the whole of the test week's working time from Monday 9:30 on. */
  lemma TestWeekTotalOf(a: Shift)
    requires a.duration > 0
    ensures TotalDuration([a,
                           Shift(Monday + 48_600_000, 4 * MsPerHour),
                           Shift(Monday + MsPerDay + 34_200_000, 3 * MsPerHour),
                           Shift(Monday + 2 * MsPerDay + 34_200_000, 3 * MsPerHour)])
            == a.duration + 10 * MsPerHour
  {
    var b, c, d := Shift(Monday + 48_600_000, 4 * MsPerHour),
                   Shift(Monday + MsPerDay + 34_200_000, 3 * MsPerHour),
                   Shift(Monday + 2 * MsPerDay + 34_200_000, 3 * MsPerHour);
    assert [d] == [d] + [] && [c, d] == [c] + [d] && [b, c, d] == [b] + [c, d] && [a, b, c, d] == [a] + [b, c, d];
    TotalPrepend(d, []);
    TotalPrepend(c, [d]);
    TotalPrepend(b, [c, d]);
    TotalPrepend(a, [b, c, d]);
  }

  /** The forward difference as written from a Monday morning instant whose next shift is `a` to Friday 12:30. */
  lemma DiffFromMorning(lo: int, a: Shift)
    requires Monday <= lo < Monday + 45_000_000 && a == Shift(lo, Monday + 45_000_000 - lo)
    requires NextOccurrence(TestWeek(4 * MsPerHour), lo) == a
    ensures Written.DateDiff(TestWeek(4 * MsPerHour), 13 * MsPerHour, lo, Monday + 4 * MsPerDay + 45_000_000)
            == Success(Monday + 45_000_000 - lo + 10 * MsPerHour)
  {
    var p, hi := TestWeek(4 * MsPerHour), Monday + 4 * MsPerDay + 45_000_000;
    var shifts := WrittenFromMorning(lo, a);
    TestWeekTotalOf(a);
    assert (hi - lo) / MsPerWeek == 0;
    Written.DiffsFrom(p, 13 * MsPerHour, lo, hi, 0, lo);
  }

  /** AscendingShifts as written, from that instant to Friday 12:30, yields the same four shifts. */
  lemma WrittenFromMorning(lo: int, a: Shift) returns (shifts: seq<Shift>)
    requires Monday <= lo < Monday + 45_000_000 && a == Shift(lo, Monday + 45_000_000 - lo)
    requires NextOccurrence(TestWeek(4 * MsPerHour), lo) == a
    ensures Written.AscendingShifts(TestWeek(4 * MsPerHour), lo, Monday + 4 * MsPerDay + 45_000_000) == Success(shifts)
    ensures shifts == [a,
                       Shift(Monday + 48_600_000, 4 * MsPerHour),
                       Shift(Monday + MsPerDay + 34_200_000, 3 * MsPerHour),
                       Shift(Monday + 2 * MsPerDay + 34_200_000, 3 * MsPerHour)]
  {
    TestWeekSpaced(4 * MsPerHour);
    shifts := AscendingFromMorning(lo, a);
    Written.AscendingShiftsAgree(TestWeek(4 * MsPerHour), lo, Monday + 4 * MsPerDay + 45_000_000);
  }

  /** From a Monday morning instant whose next shift is `a`, the walk up to Friday 12:30 meets `a` and the three shifts after noon. */
  lemma AscendingFromMorning(lo: int, a: Shift) returns (shifts: seq<Shift>)
    requires Monday <= lo < Monday + 45_000_000 && a == Shift(lo, Monday + 45_000_000 - lo)
    requires NextOccurrence(TestWeek(4 * MsPerHour), lo) == a
    ensures shifts == Ascending(TestWeek(4 * MsPerHour), lo, Monday + 4 * MsPerDay + 45_000_000)
    ensures shifts == [a,
                       Shift(Monday + 48_600_000, 4 * MsPerHour),
                       Shift(Monday + MsPerDay + 34_200_000, 3 * MsPerHour),
                       Shift(Monday + 2 * MsPerDay + 34_200_000, 3 * MsPerHour)]
  {
    var p, hi := TestWeek(4 * MsPerHour), Monday + 4 * MsPerDay + 45_000_000;
    AscendingFromNoon();
    shifts := Ascending(p, lo, hi);
    assert shifts == [a] + Ascending(p, a.EndTime(), hi);
  }

  /** DateDiffTests.TestDateDiff1: from Monday 9:30 to Friday 12:30 there are thirteen hours. */
  lemma TestDateDiff1()
    ensures Written.DateDiff(TestWeek(4 * MsPerHour), 13 * MsPerHour, Monday + 34_200_000, Monday + 4 * MsPerDay + 45_000_000)
            == Success(13 * MsPerHour)
  {
    MondayNext(TestWeek(4 * MsPerHour), Monday + 34_200_000, Shift(34_200_000, 3 * MsPerHour));
    DiffFromMorning(Monday + 34_200_000, Shift(Monday + 34_200_000, 3 * MsPerHour));
  }

  /** DateDiffTests.TestDateDiff2: from Monday 10:00 to Friday 12:30 there are twelve and a half hours. */
  lemma TestDateDiff2()
    ensures Written.DateDiff(TestWeek(4 * MsPerHour), 13 * MsPerHour, Monday + 36_000_000, Monday + 4 * MsPerDay + 45_000_000)
            == Success(750 * MsPerMinute)
  {
    var p := TestWeek(4 * MsPerHour);
    assert NextIn(p[1], 36_000_000) == Some(Shift(36_000_000, 150 * MsPerMinute));
    MondayNext(p, Monday + 36_000_000, Shift(36_000_000, 150 * MsPerMinute));
    DiffFromMorning(Monday + 36_000_000, Shift(Monday + 36_000_000, 150 * MsPerMinute));
  }

  /** DateDiffTests.TestDateDiff3: from Friday 12:30 back to Monday 9:30, minus thirteen hours. */
  lemma TestDateDiff3()
    ensures Written.DateDiff(TestWeek(4 * MsPerHour), 13 * MsPerHour, Monday + 4 * MsPerDay + 45_000_000, Monday + 34_200_000)
            == Success(-13 * MsPerHour)
  {
    TestDateDiff1();
    Written.DateDiffAntisymmetric(TestWeek(4 * MsPerHour), 13 * MsPerHour, Monday + 34_200_000, Monday + 4 * MsPerDay + 45_000_000);
  }

  /** DateDiffTests.TestDateDiff4: from Friday 12:30 back to Monday 10:00, minus twelve and a half hours. */
  lemma TestDateDiff4()
    ensures Written.DateDiff(TestWeek(4 * MsPerHour), 13 * MsPerHour, Monday + 4 * MsPerDay + 45_000_000, Monday + 36_000_000)
            == Success(-750 * MsPerMinute)
  {
    TestDateDiff2();
    Written.DateDiffAntisymmetric(TestWeek(4 * MsPerHour), 13 * MsPerHour, Monday + 36_000_000, Monday + 4 * MsPerDay + 45_000_000);
  }
}
