/**
 * The loops of source/WorkingWeek/Week.cs as they are written.
 *
 * Three things set them apart from the walks of the Walks module:
 *  - the loops hold the Day object they last asked; it is fetched again at
 *    the start and after each move to another day, but not after a shift is
 *    yielded, and a Day refuses a date of another weekday (WrongDayOfWeek);
 *  - going backward, the cursor moves to one millisecond before the start of
 *    the shift just yielded, and a day without an earlier shift is left for
 *    23:59:59.999 of the previous day;
 *  - DateDiff adds up the shifts the ascending walk yields without cutting
 *    the last one off at the end date.
 * The lemmas say when the two agree and where they do not.
 */
module Written {
  import opened Time
  import opened Shifts
  import opened Days
  import opened Walks

  // ---------------------------------------------------------------------
  // Forward
  // ---------------------------------------------------------------------

  /**
   * The loop of AscendingShifts from `cursor`, holding the Day of weekday
   * `day`: a shift found is dated and, while it starts before `end`,
   * yielded; the loop goes on from its end with the same Day.
   */
  function AscendingFrom(p: Pattern, day: int, cursor: int, end: int): (r: Result<seq<Shift>>)
    requires Walkable(p) && ContainsShifts(p)
    ensures r.Failure? ==> r.error == WrongDayOfWeek
    ensures cursor >= end ==> r == Success([])
    decreases end - cursor
  {
    if cursor >= end then Success([])
    else if Weekday(cursor) != day then Failure(WrongDayOfWeek)
    else
      var s := NextOccurrence(p, cursor);
      if s.startTime < end then
        match AscendingFrom(p, Weekday(s.startTime), s.EndTime(), end)
        case Success(rest) => Success([s] + rest)
        case Failure(e) => Failure(e)
      else Success([])
  }

  /** Week.AscendingShifts(startDate, endDate), run to the end date. */
  function AscendingShifts(p: Pattern, startDate: int, endDate: int): (r: Result<seq<Shift>>)
    requires Walkable(p)
    ensures r.Failure? ==> r.error == WrongDayOfWeek
    ensures startDate >= endDate ==> r == Success([])
  {
    if ContainsShifts(p) then AscendingFrom(p, Weekday(startDate), startDate, endDate) else Success([])
  }

  /**
   * The loop of DateAddPositive over the endless ascending walk. The walk
   * moves on to its next shift, with the Day it holds, before the loop body
   * sees that nothing is left to add; `endDate` is the answer so far.
   */
  function AddPositiveFrom(p: Pattern, day: int, cursor: int, rem: nat, endDate: int): (r: Result<int>)
    requires Walkable(p) && ContainsShifts(p)
    ensures r.Failure? ==> r.error == WrongDayOfWeek
    decreases rem
  {
    if Weekday(cursor) != day then Failure(WrongDayOfWeek)
    else
      var s := NextOccurrence(p, cursor);
      if rem == 0 then Success(endDate)
      else if rem >= s.duration then AddPositiveFrom(p, Weekday(s.startTime), s.EndTime(), rem - s.duration, s.EndTime())
      else AddPositiveFrom(p, Weekday(s.startTime), s.EndTime(), 0, s.startTime + rem)
  }

  /**
   * Week.DateAddPositive for a week whose Duration property reads
   * `weekTotal`: C#'s truncating division gives the whole weeks to skip.
   */
  function DateAddPositive(p: Pattern, weekTotal: int, startDate: int, amount: int): (r: Result<int>)
    requires Walkable(p) && amount > 0
    ensures r.Failure? && r.error == DivideByZero <==> weekTotal == 0
  {
    if weekTotal == 0 then Failure(DivideByZero)
    else
      var weeks := WholeWeeks(amount, weekTotal);
      var start := startDate + weeks * MsPerWeek;
      var rem := amount - weeks * weekTotal;
      if ContainsShifts(p) then AddPositiveFrom(p, Weekday(start), start, rem, start) else Success(start)
  }

  /** No shift reaches midnight: each ends before the end of its day. */
  predicate EndsBeforeMidnight(p: Pattern)
    requires |p| == DaysPerWeek
  {
    forall d, i | 0 <= d < |p| && 0 <= i < |p[d]| :: p[d][i].EndTime() < MsPerDay
  }

  /** When no shift reaches midnight, a shift the forward search finds ends on the day it starts. */
  lemma {:induction false} SeekForwardSameDay(p: Pattern, cursor: int, rollovers: nat)
    requires Walkable(p) && EndsBeforeMidnight(p) && SeekForward(p, cursor, rollovers).Some?
    ensures Weekday(SeekForward(p, cursor, rollovers).value.EndTime())
            == Weekday(SeekForward(p, cursor, rollovers).value.startTime)
    decreases rollovers
  {
    var d := Weekday(cursor);
    match NextIn(p[d], TimeOfDay(cursor))
    case Some(s) =>
      NextInWalkable(p, d, TimeOfDay(cursor));
      NextInSpec(p[d], TimeOfDay(cursor));
      var i :| 0 <= i < |p[d]| && s.EndTime() == p[d][i].EndTime();
      var x := Dated(cursor, s);
      SameDay(cursor, x.startTime);
      SameDay(cursor, x.EndTime());
    case None =>
      NextMidnight(cursor);
      SeekForwardSameDay(p, Midnight(cursor) + MsPerDay, rollovers - 1);
  }

  lemma NextOccurrenceSameDay(p: Pattern, cursor: int)
    requires Walkable(p) && ContainsShifts(p) && EndsBeforeMidnight(p)
    ensures Weekday(NextOccurrence(p, cursor).EndTime()) == Weekday(NextOccurrence(p, cursor).startTime)
  {
    NextOccurrenceExists(p, cursor);
    SeekForwardSameDay(p, cursor, DaysPerWeek);
  }

  /**
   * The ascending loop as written yields the shifts of the ascending walk
   * whenever it does not fail, and it does not fail, from the cursor's own
   * day, on a week where no shift reaches midnight.
   */
  lemma {:induction false} AscendingFromAgrees(p: Pattern, day: int, cursor: int, end: int)
    requires Walkable(p) && ContainsShifts(p)
    ensures AscendingFrom(p, day, cursor, end).Success? ==>
              AscendingFrom(p, day, cursor, end).value == Ascending(p, cursor, end)
    ensures EndsBeforeMidnight(p) && day == Weekday(cursor) ==> AscendingFrom(p, day, cursor, end).Success?
    decreases end - cursor
  {
    if cursor < end && Weekday(cursor) == day {
      var s := NextOccurrence(p, cursor);
      if s.startTime < end {
        AscendingFromAgrees(p, Weekday(s.startTime), s.EndTime(), end);
        if EndsBeforeMidnight(p) {
          NextOccurrenceSameDay(p, cursor);
        }
      }
    }
  }

  /** Week.AscendingShifts, when it does not fail, is the ascending walk. */
  lemma AscendingShiftsAgree(p: Pattern, startDate: int, endDate: int)
    requires Walkable(p)
    ensures AscendingShifts(p, startDate, endDate).Success? ==>
              AscendingShifts(p, startDate, endDate).value
              == if ContainsShifts(p) then Ascending(p, startDate, endDate) else []
    ensures EndsBeforeMidnight(p) ==> AscendingShifts(p, startDate, endDate).Success?
  {
    if ContainsShifts(p) {
      AscendingFromAgrees(p, Weekday(startDate), startDate, endDate);
    }
  }

  /**
   * The DateAddPositive loop as written lands where the forward walk does
   * whenever it does not fail, and it does not fail, from the cursor's own
   * day, on a week where no shift reaches midnight.
   */
  lemma {:induction false} AddPositiveFromAgrees(p: Pattern, day: int, cursor: int, rem: nat, endDate: int)
    requires Walkable(p) && ContainsShifts(p)
    ensures AddPositiveFrom(p, day, cursor, rem, endDate).Success? ==>
              AddPositiveFrom(p, day, cursor, rem, endDate).value
              == if rem == 0 then endDate else WalkForward(p, cursor, rem)
    ensures EndsBeforeMidnight(p) && day == Weekday(cursor) ==> AddPositiveFrom(p, day, cursor, rem, endDate).Success?
    decreases rem
  {
    if Weekday(cursor) == day && rem > 0 {
      var s := NextOccurrence(p, cursor);
      if EndsBeforeMidnight(p) {
        NextOccurrenceSameDay(p, cursor);
      }
      if rem >= s.duration {
        AddPositiveFromAgrees(p, Weekday(s.startTime), s.EndTime(), rem - s.duration, s.EndTime());
      } else {
        AddPositiveFromAgrees(p, Weekday(s.startTime), s.EndTime(), 0, s.startTime + rem);
      }
    }
  }

  /** Week.DateAddPositive, when it does not fail, is DateAdd as meant. */
  lemma DateAddPositiveAgrees(p: Pattern, weekTotal: int, startDate: int, amount: int)
    requires Walkable(p) && amount > 0
    ensures DateAddPositive(p, weekTotal, startDate, amount).Success? ==>
              DateAddPositive(p, weekTotal, startDate, amount) == Walks.DateAdd(p, weekTotal, startDate, amount)
    ensures EndsBeforeMidnight(p) && weekTotal != 0 ==> DateAddPositive(p, weekTotal, startDate, amount).Success?
  {
    if weekTotal != 0 {
      var weeks := WholeWeeks(amount, weekTotal);
      var start := startDate + weeks * MsPerWeek;
      var rem := amount - weeks * weekTotal;
      assert Walks.DateAdd(p, weekTotal, startDate, amount) == Success(AddForward(p, weekTotal, startDate, amount));
      DateAddPositiveSteps(p, weekTotal, startDate, amount, start, rem);
      if ContainsShifts(p) {
        AddPositiveFromAgrees(p, Weekday(start), start, rem, start);
      }
    }
  }

  /** DateAddPositive skips the whole weeks, then runs its loop on the rest. */
  lemma DateAddPositiveSteps(p: Pattern, weekTotal: int, startDate: int, amount: int, start: int, rem: nat)
    requires Walkable(p) && amount > 0 && weekTotal != 0
    requires start == startDate + WholeWeeks(amount, weekTotal) * MsPerWeek
    requires rem == amount - WholeWeeks(amount, weekTotal) * weekTotal
    ensures DateAddPositive(p, weekTotal, startDate, amount)
            == if ContainsShifts(p) then AddPositiveFrom(p, Weekday(start), start, rem, start) else Success(start)
  {
  }

  // ---------------------------------------------------------------------
  // Backward
  // ---------------------------------------------------------------------

  /** Some shift starts before 23:59:59.999, the last time of day the backward loop asks for. */
  predicate ReachableBackward(p: Pattern)
    requires |p| == DaysPerWeek
  {
    exists d, i | 0 <= d < |p| && 0 <= i < |p[d]| :: p[d][i].startTime < MsPerDay - 1
  }

  /**
   * The inner loop of DescendingShifts with no end date in sight: ask the
   * cursor's day for its previous shift and, while there is none, move to
   * 23:59:59.999 of the day before, at most `rollovers` times.
   */
  function SeekPrevious(p: Pattern, cursor: int, rollovers: nat): (r: Option<Shift>)
    requires Walkable(p)
    ensures r.Some? ==> r.value.startTime < cursor && r.value.EndTime() <= cursor && 0 < r.value.duration
    decreases rollovers
  {
    match PreviousIn(p[Weekday(cursor)], TimeOfDay(cursor))
    case Some(s) =>
      PreviousInWalkable(p, Weekday(cursor), TimeOfDay(cursor));
      Some(Dated(cursor, s))
    case None =>
      if rollovers == 0 then None else SeekPrevious(p, Midnight(cursor) - 1, rollovers - 1)
  }

  /** With a shift on weekday `d` starting before 23:59:59.999, the search reaches it. */
  lemma {:induction false} SeekPreviousFinds(p: Pattern, cursor: int, rollovers: nat, d: int, i: int)
    requires Walkable(p) && 0 <= d < DaysPerWeek && 0 <= i < |p[d]| && p[d][i].startTime < MsPerDay - 1
    requires DaysBack(Weekday(cursor), d) <= rollovers
    ensures SeekPrevious(p, cursor, rollovers).Some?
    decreases rollovers
  {
    if PreviousIn(p[Weekday(cursor)], TimeOfDay(cursor)).None? {
      var next := Midnight(cursor) - 1;
      PreviousLastMillisecond(cursor);
      if Weekday(next) == d {
        PreviousInSpec(p[d], MsPerDay - 1);
        assert PreviousIn(p[d], MsPerDay - 1).Some?;
      } else {
        SeekPreviousFinds(p, next, rollovers - 1, d, i);
      }
    }
  }

  /** The shift the endless descending walk yields next from `cursor`. */
  function PreviousShift(p: Pattern, cursor: int): (s: Shift)
    requires Walkable(p) && ReachableBackward(p)
    ensures s.startTime < cursor && s.EndTime() <= cursor && 0 < s.duration
  {
    PreviousShiftExists(p, cursor);
    SeekPrevious(p, cursor, DaysPerWeek).value
  }

  lemma PreviousShiftExists(p: Pattern, cursor: int)
    requires Walkable(p) && ReachableBackward(p)
    ensures SeekPrevious(p, cursor, DaysPerWeek).Some?
  {
    var d, i :| 0 <= d < |p| && 0 <= i < |p[d]| && p[d][i].startTime < MsPerDay - 1;
    SeekPreviousFinds(p, cursor, DaysPerWeek, d, i);
  }

  /**
   * The loop of DescendingShifts from `cursor` down to `end`, holding the Day
   * of weekday `day`. The inner search stops at `end` too. A shift found is
   * dated, yielded while it starts after `end`, and the loop goes on from one
   * millisecond before its start with the same Day.
   */
  function DescendingFrom(p: Pattern, day: int, cursor: int, end: int): (r: Result<seq<Shift>>)
    requires Walkable(p)
    ensures r.Success? ==> forall i | 0 <= i < |r.value| ::
              end < r.value[i].startTime && r.value[i].EndTime() <= cursor && 0 < r.value[i].duration
    ensures r.Success? ==> forall i | 0 <= i < |r.value| - 1 :: r.value[i + 1].EndTime() < r.value[i].startTime
    decreases cursor - end
  {
    if cursor <= end then Success([])
    else if Weekday(cursor) != day then Failure(WrongDayOfWeek)
    else
      match PreviousIn(p[day], TimeOfDay(cursor))
      case None =>
        var next := Midnight(cursor) - 1;
        DescendingFrom(p, Weekday(next), next, end)
      case Some(s) =>
        PreviousInWalkable(p, day, TimeOfDay(cursor));
        var d := Dated(cursor, s);
        assert d.startTime < cursor && d.EndTime() <= cursor;
        var tail := DescendingFrom(p, day, d.startTime - 1, end);
        if tail.Success? && d.startTime > end then
          PrependDescending(d, tail.value, end, cursor);
          Success([d] + tail.value)
        else tail
  }

  /** A shift ending before the rest of a descending run starts may be put in front of it. */
  lemma PrependDescending(d: Shift, rest: seq<Shift>, end: int, cursor: int)
    requires end < d.startTime && d.EndTime() <= cursor && 0 < d.duration
    requires forall i | 0 <= i < |rest| ::
               end < rest[i].startTime && rest[i].EndTime() <= d.startTime - 1 && 0 < rest[i].duration
    requires forall i | 0 <= i < |rest| - 1 :: rest[i + 1].EndTime() < rest[i].startTime
    ensures forall i | 0 <= i < |[d] + rest| ::
              end < ([d] + rest)[i].startTime && ([d] + rest)[i].EndTime() <= cursor && 0 < ([d] + rest)[i].duration
    ensures forall i | 0 <= i < |[d] + rest| - 1 :: ([d] + rest)[i + 1].EndTime() < ([d] + rest)[i].startTime
  {
    var r := [d] + rest;
    forall i | 0 <= i < |r| - 1
      ensures r[i + 1].EndTime() < r[i].startTime
    {
      if i > 0 {
        assert r[i] == rest[i - 1] && r[i + 1] == rest[i];
      }
    }
  }

  /** Every instant of a shift the descending loop yields is working time. */
  lemma {:induction false} DescendingFromWorking(p: Pattern, day: int, cursor: int, end: int, t: int)
    requires Walkable(p) && DescendingFrom(p, day, cursor, end).Success?
    ensures forall i | 0 <= i < |DescendingFrom(p, day, cursor, end).value| ::
              DescendingFrom(p, day, cursor, end).value[i].Holds(t) ==> WorkingAt(p, t)
    decreases cursor - end
  {
    if cursor > end {
      var tc := TimeOfDay(cursor);
      match PreviousIn(p[day], tc)
      case None =>
        var next := Midnight(cursor) - 1;
        DescendingFromWorking(p, Weekday(next), next, end, t);
      case Some(s) =>
        PreviousInWalkable(p, day, tc);
        var d := Dated(cursor, s);
        DescendingFromWorking(p, day, d.startTime - 1, end, t);
        if d.Holds(t) {
          SameDay(cursor, t);
          assert s.Holds(TimeOfDay(t));
          PreviousInWorking(p[day], tc, TimeOfDay(t));
        }
    }
  }

  /** Week.DescendingShifts(startDate, endDate), run to the end date. */
  function DescendingShifts(p: Pattern, startDate: int, endDate: int): (r: Result<seq<Shift>>)
    requires Walkable(p)
    ensures r.Success? ==> forall i | 0 <= i < |r.value| ::
              endDate < r.value[i].startTime && r.value[i].EndTime() <= startDate
    ensures startDate <= endDate ==> r == Success([])
  {
    if ContainsShifts(p) then DescendingFrom(p, Weekday(startDate), startDate, endDate) else Success([])
  }

  /** The loop of DateAddNegative over the endless descending walk. */
  function AddNegativeFrom(p: Pattern, day: int, cursor: int, rem: nat, endDate: int): (r: Result<int>)
    requires Walkable(p) && ReachableBackward(p)
    ensures r.Failure? ==> r.error == WrongDayOfWeek
    decreases rem
  {
    if Weekday(cursor) != day then Failure(WrongDayOfWeek)
    else
      var s := PreviousShift(p, cursor);
      if rem == 0 then Success(endDate)
      else if rem >= s.duration then AddNegativeFrom(p, Weekday(s.startTime), s.startTime - 1, rem - s.duration, s.startTime)
      else AddNegativeFrom(p, Weekday(s.startTime), s.startTime - 1, 0, s.EndTime() - rem)
  }

  /** Week.DateAddNegative: the duration is negated, then handled as DateAddPositive's, backward. */
  function DateAddNegative(p: Pattern, weekTotal: int, startDate: int, amount: int): (r: Result<int>)
    requires Walkable(p) && amount < 0 && (ContainsShifts(p) ==> ReachableBackward(p))
    ensures r.Failure? && r.error == DivideByZero <==> weekTotal == 0
  {
    var back := -amount;
    if weekTotal == 0 then Failure(DivideByZero)
    else
      var weeks := WholeWeeks(back, weekTotal);
      var start := startDate - weeks * MsPerWeek;
      var rem := back - weeks * weekTotal;
      if ContainsShifts(p) then AddNegativeFrom(p, Weekday(start), start, rem, start) else Success(start)
  }

  /** The DateAddNegative loop never lands after the answer it starts from, and moves back when time is left. */
  lemma {:induction false} AddNegativeFromBefore(p: Pattern, day: int, cursor: int, rem: nat, endDate: int)
    requires Walkable(p) && ReachableBackward(p) && cursor <= endDate
    ensures AddNegativeFrom(p, day, cursor, rem, endDate).Success? ==>
              && AddNegativeFrom(p, day, cursor, rem, endDate).value <= endDate
              && (rem > 0 ==> AddNegativeFrom(p, day, cursor, rem, endDate).value < endDate)
    decreases rem
  {
    if Weekday(cursor) == day && rem > 0 {
      var s := PreviousShift(p, cursor);
      var next := s.startTime - 1;
      var w := Weekday(s.startTime);
      if rem >= s.duration {
        var rest := AddNegativeFrom(p, w, next, rem - s.duration, s.startTime);
        assert AddNegativeFrom(p, day, cursor, rem, endDate) == rest;
        AddNegativeFromBefore(p, w, next, rem - s.duration, s.startTime);
      } else {
        var rest := AddNegativeFrom(p, w, next, 0, s.EndTime() - rem);
        assert AddNegativeFrom(p, day, cursor, rem, endDate) == rest;
        AddNegativeFromBefore(p, w, next, 0, s.EndTime() - rem);
      }
    }
  }

  /** DateAddNegative skips the whole weeks back, then runs its loop on the rest. */
  lemma DateAddNegativeSteps(p: Pattern, weekTotal: int, startDate: int, amount: int, start: int, rem: nat)
    requires Walkable(p) && amount < 0 && weekTotal != 0 && (ContainsShifts(p) ==> ReachableBackward(p))
    requires start == startDate - WholeWeeks(-amount, weekTotal) * MsPerWeek
    requires rem == -amount - WholeWeeks(-amount, weekTotal) * weekTotal
    ensures DateAddNegative(p, weekTotal, startDate, amount)
            == if ContainsShifts(p) then AddNegativeFrom(p, Weekday(start), start, rem, start) else Success(start)
  {
  }

  /** Week.DateAddNegative, when it does not fail, lands no later than where it starts. */
  lemma DateAddNegativeBefore(p: Pattern, weekTotal: int, startDate: int, amount: int)
    requires Walkable(p) && amount < 0 && (ContainsShifts(p) ==> ReachableBackward(p))
    ensures DateAddNegative(p, weekTotal, startDate, amount).Success? ==>
              DateAddNegative(p, weekTotal, startDate, amount).value <= startDate
  {
    if weekTotal != 0 {
      var weeks := WholeWeeks(-amount, weekTotal);
      var start := startDate - weeks * MsPerWeek;
      var rem := -amount - weeks * weekTotal;
      assert start <= startDate;
      DateAddNegativeSteps(p, weekTotal, startDate, amount, start, rem);
      if ContainsShifts(p) {
        var r := AddNegativeFrom(p, Weekday(start), start, rem, start);
        assert DateAddNegative(p, weekTotal, startDate, amount) == r;
        AddNegativeFromBefore(p, Weekday(start), start, rem, start);
        assert r.Success? ==> r.value <= start;
      }
    }
  }

  // ---------------------------------------------------------------------
  // Backward, against the walk as meant
  // ---------------------------------------------------------------------

  /** No shift starts at 00:00, so stepping back one millisecond from a shift's start stays on its day. */
  predicate StartsAfterMidnight(p: Pattern)
    requires |p| == DaysPerWeek
  {
    forall d, i | 0 <= d < |p| && 0 <= i < |p[d]| :: 0 < p[d][i].startTime
  }

  /**
   * Shifts strictly inside their day, with a gap before each next shift of
   * the day: the millisecond the backward loop steps over is then never
   * working time, and nothing is cut off at 23:59:59.999.
   */
  predicate Spaced(p: Pattern)
    requires |p| == DaysPerWeek
  {
    && StartsAfterMidnight(p)
    && EndsBeforeMidnight(p)
    && forall d, i, j | 0 <= d < |p| && 0 <= i < j < |p[d]| :: p[d][i].EndTime() < p[d][j].startTime
  }

  /** `x` is the start of one of the shifts of its own day. */
  predicate StartsShift(p: Pattern, x: int)
    requires |p| == DaysPerWeek
  {
    exists i | 0 <= i < |p[Weekday(x)]| :: p[Weekday(x)][i].startTime == TimeOfDay(x)
  }

  /** A spaced week with shifts has one the backward loop can reach from 23:59:59.999. */
  lemma SpacedReachable(p: Pattern)
    requires Walkable(p) && Spaced(p) && ContainsShifts(p)
    ensures ReachableBackward(p)
  {
    var d :| 0 <= d < |p| && p[d] != [];
    assert p[d][0].startTime < p[d][0].EndTime() < MsPerDay;
  }

  /** More rollovers do not change a backward search that has already found its shift. */
  lemma {:induction false} SeekPreviousFuel(p: Pattern, cursor: int, n: nat, n': nat)
    requires Walkable(p) && n <= n' && SeekPrevious(p, cursor, n).Some?
    ensures SeekPrevious(p, cursor, n') == SeekPrevious(p, cursor, n)
    decreases n
  {
    if PreviousIn(p[Weekday(cursor)], TimeOfDay(cursor)).None? {
      SeekPreviousFuel(p, Midnight(cursor) - 1, n - 1, n' - 1);
    }
  }

  /** What the backward search finds starts one of the shifts of its day. */
  lemma {:induction false} SeekPreviousStarts(p: Pattern, cursor: int, n: nat)
    requires Walkable(p) && SeekPrevious(p, cursor, n).Some?
    ensures StartsShift(p, SeekPrevious(p, cursor, n).value.startTime)
    decreases n
  {
    var shifts := p[Weekday(cursor)];
    match PreviousIn(shifts, TimeOfDay(cursor))
    case Some(s) =>
      PreviousInSpec(shifts, TimeOfDay(cursor));
      var i :| 0 <= i < |shifts| && shifts[i].startTime < TimeOfDay(cursor) && s.startTime == shifts[i].startTime;
      PreviousInWalkable(p, Weekday(cursor), TimeOfDay(cursor));
      var x := Midnight(cursor) + s.startTime;
      assert SeekPrevious(p, cursor, n).value.startTime == x;
      SameDay(cursor, x);
      assert shifts[i].startTime == TimeOfDay(x);
    case None =>
      assert SeekPrevious(p, cursor, n) == SeekPrevious(p, Midnight(cursor) - 1, n - 1);
      SeekPreviousStarts(p, Midnight(cursor) - 1, n - 1);
  }

  /** On a spaced week the last millisecond of a day is asked what the whole day would be. */
  lemma BeforeMidnight(p: Pattern, d: int)
    requires Walkable(p) && Spaced(p) && 0 <= d < DaysPerWeek
    ensures PreviousIn(p[d], MsPerDay - 1) == PreviousIn(p[d], MsPerDay)
  {
    PreviousInEarlier(p[d], MsPerDay);
  }

  /** On a spaced week the millisecond before shift `i` is asked what shift `i`'s start would be. */
  lemma BeforeStart(p: Pattern, d: int, i: int, t: int)
    requires Walkable(p) && Spaced(p) && 0 <= d < DaysPerWeek && 0 <= i < |p[d]| && t == p[d][i].startTime
    ensures PreviousIn(p[d], t - 1) == PreviousIn(p[d], t)
  {
    var shifts := p[d];
    forall j | i < j < |shifts|
      ensures t < shifts[j].startTime
    {
      assert shifts[i].EndTime() < shifts[j].startTime;
    }
    forall j | 0 <= j < i
      ensures shifts[j].EndTime() < t
    {
      assert shifts[j].EndTime() < shifts[i].startTime;
    }
    PreviousInEarlier(shifts, t);
  }

  /** From 23:59:59.999 the written search finds what the search as meant finds from the next midnight. */
  lemma {:induction false} SeekFromLastMillisecond(p: Pattern, m: int, n: nat, last: int)
    requires Walkable(p) && Spaced(p) && TimeOfDay(m) == 0 && last == m - 1
    ensures SeekPrevious(p, last, n) == SeekBackward(p, m, n)
    decreases n
  {
    PreviousLastMillisecond(m);
    BeforeMidnight(p, Weekday(last));
    if PreviousIn(p[Weekday(last)], MsPerDay).None? && n > 0 {
      var m' := Midnight(last);
      MidnightOfDay(last);
      SeekFromLastMillisecond(p, m', n - 1, m' - 1);
    }
  }

  /** Inside a day, past its midnight, both searches ask the same question. */
  lemma SeekWithinDay(p: Pattern, cursor: int, n: nat)
    requires Walkable(p) && Spaced(p) && TimeOfDay(cursor) > 0
    ensures SeekPrevious(p, cursor, n) == SeekBackward(p, cursor, n)
  {
    var last := cursor - 1;
    SameDay(cursor, last);
    assert Weekday(last) == Weekday(cursor) && TimeOfDay(last) + 1 == TimeOfDay(cursor);
    match PreviousIn(p[Weekday(cursor)], TimeOfDay(cursor))
    case Some(s) =>
      assert Dated(last, s) == Dated(cursor, s);
    case None =>
      if n > 0 {
        var m := Midnight(cursor);
        MidnightOfDay(cursor);
        assert SeekBackward(p, cursor, n) == SeekBackward(p, m, n - 1);
        SeekFromLastMillisecond(p, m, n - 1, m - 1);
      }
  }

  /** On a spaced week a shift's start is past its day's midnight, so the millisecond before it is on the same day. */
  lemma StartAfterMidnight(p: Pattern, x: int)
    requires Walkable(p) && Spaced(p) && StartsShift(p, x)
    ensures TimeOfDay(x) > 0 && Weekday(x - 1) == Weekday(x)
  {
    var d := Weekday(x);
    var i :| 0 <= i < |p[d]| && p[d][i].startTime == TimeOfDay(x);
    assert 0 < p[d][i].startTime;
    SameDay(x, x - 1);
  }

  /** On a spaced week the millisecond before a shift's start finds what the start itself finds. */
  lemma SeekBeforeStart(p: Pattern, x: int, n: nat)
    requires Walkable(p) && Spaced(p) && StartsShift(p, x)
    ensures TimeOfDay(x) > 0 && Weekday(x - 1) == Weekday(x)
    ensures SeekPrevious(p, x - 1, n) == SeekPrevious(p, x, n)
  {
    var d := Weekday(x);
    var i :| 0 <= i < |p[d]| && p[d][i].startTime == TimeOfDay(x);
    SameDay(x, x - 1);
    BeforeStart(p, d, i, TimeOfDay(x));
  }

  /**
   * On a spaced week, the written search from a cursor, or from one
   * millisecond before a midnight or a shift's start, meets the stretch the
   * walk as meant meets from the cursor, the midnight or the start.
   */
  lemma PreviousShiftMeant(p: Pattern, cursor: int, c: int)
    requires Walkable(p) && Spaced(p) && ContainsShifts(p)
    requires c == cursor || (c == cursor + 1 && (TimeOfDay(c) == 0 || StartsShift(p, c)))
    ensures ReachableBackward(p)
    ensures PreviousShift(p, cursor) == PreviousOccurrence(p, c)
  {
    SpacedReachable(p);
    PreviousShiftExists(p, cursor);
    PreviousOccurrenceExists(p, c);
    if c == cursor {
      if TimeOfDay(cursor) > 0 {
        SeekWithinDay(p, cursor, DaysPerWeek);
      } else {
        PreviousInNone(p[Weekday(cursor)], 0);
        SeekPreviousFuel(p, cursor - 1, DaysPerWeek - 1, DaysPerWeek);
        SeekFromLastMillisecond(p, cursor, DaysPerWeek, cursor - 1);
      }
    } else if TimeOfDay(c) == 0 {
      SeekFromLastMillisecond(p, c, DaysPerWeek, cursor);
    } else {
      SeekBeforeStart(p, c, DaysPerWeek);
      SeekWithinDay(p, c, DaysPerWeek);
    }
  }

  /**
   * The DateAddNegative loop as written, on a spaced week, from the cursor or
   * from one millisecond before the start `c` of a shift: it does not fail,
   * and it lands where the backward walk as meant does from `c`.
   */
  lemma {:induction false} AddNegativeFromMeant(p: Pattern, day: int, cursor: int, c: int, rem: nat, endDate: int)
    requires Walkable(p) && Spaced(p) && ContainsShifts(p) && ReachableBackward(p)
    requires day == Weekday(cursor) && (c == cursor || (c == cursor + 1 && StartsShift(p, c)))
    ensures AddNegativeFrom(p, day, cursor, rem, endDate)
            == Success(if rem == 0 then endDate else WalkBackward(p, c, rem))
    decreases rem
  {
    if rem > 0 {
      var w, next, back, rest, landing := AddNegativeRound(p, day, cursor, c, rem, endDate);
      AddNegativeFromMeant(p, w, next, back, rest, landing);
    }
  }

  /** One round of the DateAddNegative loop, side by side with one step of the backward walk as meant. */
  lemma AddNegativeRound(p: Pattern, day: int, cursor: int, c: int, rem: nat, endDate: int)
      returns (w: int, next: int, back: int, rest: nat, landing: int)
    requires Walkable(p) && Spaced(p) && ContainsShifts(p) && ReachableBackward(p)
    requires day == Weekday(cursor) && (c == cursor || (c == cursor + 1 && StartsShift(p, c))) && rem > 0
    ensures w == Weekday(next) && back == next + 1 && StartsShift(p, back) && rest < rem
    ensures AddNegativeFrom(p, day, cursor, rem, endDate) == AddNegativeFrom(p, w, next, rest, landing)
    ensures WalkBackward(p, c, rem) == if rest == 0 then landing else WalkBackward(p, back, rest)
  {
    var s := PreviousShift(p, cursor);
    assert s == PreviousOccurrence(p, c) && StartsShift(p, s.startTime) && Weekday(s.startTime - 1) == Weekday(s.startTime) by {
      PreviousMeant(p, cursor, c, s);
    }
    next, back := s.startTime - 1, s.startTime;
    w := Weekday(back);
    rest, landing := if rem >= s.duration then rem - s.duration else 0, if rem >= s.duration then back else s.EndTime() - rem;
    AddNegativeWritten(p, day, cursor, rem, endDate, s, w, next, rest, landing);
    WalkBackwardStep(p, c, rem, s, back, rest, landing);
  }

  /** One round of the DateAddNegative loop as written. */
  lemma AddNegativeWritten(p: Pattern, day: int, cursor: int, rem: nat, endDate: int, s: Shift, w: int, next: int, rest: nat, landing: int)
    requires Walkable(p) && ReachableBackward(p) && day == Weekday(cursor) && rem > 0
    requires s == PreviousShift(p, cursor) && w == Weekday(s.startTime) && next == s.startTime - 1
    requires rest == (if rem >= s.duration then rem - s.duration else 0)
    requires landing == (if rem >= s.duration then s.startTime else s.EndTime() - rem)
    ensures AddNegativeFrom(p, day, cursor, rem, endDate) == AddNegativeFrom(p, w, next, rest, landing)
  {
    if rem >= s.duration {
      assert AddNegativeFrom(p, day, cursor, rem, endDate) == AddNegativeFrom(p, w, next, rem - s.duration, s.startTime);
    } else {
      assert AddNegativeFrom(p, day, cursor, rem, endDate) == AddNegativeFrom(p, w, next, 0, s.EndTime() - rem);
    }
  }

  /** One step of the backward walk as meant. */
  lemma WalkBackwardStep(p: Pattern, c: int, rem: nat, s: Shift, back: int, rest: nat, landing: int)
    requires Walkable(p) && ContainsShifts(p) && rem > 0 && s == PreviousOccurrence(p, c) && back == s.startTime
    requires rest == (if rem >= s.duration then rem - s.duration else 0)
    requires landing == (if rem >= s.duration then back else s.EndTime() - rem)
    ensures WalkBackward(p, c, rem) == if rest == 0 then landing else WalkBackward(p, back, rest)
  {
  }


  /** The shift the written search meets from `cursor` is the one the walk as meant meets from `c`, and the search goes on from its start. */
  lemma PreviousMeant(p: Pattern, cursor: int, c: int, s: Shift)
    requires Walkable(p) && Spaced(p) && ContainsShifts(p) && ReachableBackward(p)
    requires c == cursor || (c == cursor + 1 && (TimeOfDay(c) == 0 || StartsShift(p, c)))
    requires s == PreviousShift(p, cursor)
    ensures s == PreviousOccurrence(p, c)
    ensures StartsShift(p, s.startTime) && Weekday(s.startTime - 1) == Weekday(s.startTime)
  {
    PreviousShiftMeant(p, cursor, c);
    PreviousStarts(p, cursor, s);
  }

  /** The shift the written search meets starts one of the shifts of its day, after that day's midnight. */
  lemma PreviousStarts(p: Pattern, cursor: int, s: Shift)
    requires Walkable(p) && Spaced(p) && ReachableBackward(p) && s == PreviousShift(p, cursor)
    ensures StartsShift(p, s.startTime) && Weekday(s.startTime - 1) == Weekday(s.startTime)
  {
    PreviousShiftExists(p, cursor);
    assert s == SeekPrevious(p, cursor, DaysPerWeek).value;
    SeekPreviousStarts(p, cursor, DaysPerWeek);
    StartAfterMidnight(p, s.startTime);
  }

  /** On a spaced week, Week.DateAddNegative as written does not fail and is DateAdd as meant. */
  lemma DateAddNegativeAgrees(p: Pattern, weekTotal: int, startDate: int, amount: int)
    requires Walkable(p) && Spaced(p) && amount < 0 && weekTotal != 0
    ensures ContainsShifts(p) ==> ReachableBackward(p)
    ensures DateAddNegative(p, weekTotal, startDate, amount) == Walks.DateAdd(p, weekTotal, startDate, amount)
  {
    var weeks := WholeWeeks(-amount, weekTotal);
    var start := startDate - weeks * MsPerWeek;
    var rem := -amount - weeks * weekTotal;
    assert Walks.DateAdd(p, weekTotal, startDate, amount) == Success(WalkBackward(p, start, rem));
    if ContainsShifts(p) {
      SpacedReachable(p);
      DateAddNegativeSteps(p, weekTotal, startDate, amount, start, rem);
      AddNegativeFromMeant(p, Weekday(start), start, start, rem, start);
    } else {
      DateAddNegativeSteps(p, weekTotal, startDate, amount, start, rem);
    }
  }

  /**
   * On a spaced week Week.DateAdd as written is DateAdd as meant, for every
   * duration: forward, backward, zero, and DivideByZero on a week whose
   * Duration reads zero.
   */
  lemma DateAddAgrees(p: Pattern, weekTotal: int, startDate: int, amount: int)
    requires Walkable(p) && Spaced(p)
    ensures CanAdd(p, amount)
    ensures DateAdd(p, weekTotal, startDate, amount) == Walks.DateAdd(p, weekTotal, startDate, amount)
  {
    if ContainsShifts(p) {
      SpacedReachable(p);
    }
    if amount > 0 && weekTotal != 0 {
      DateAddPositiveAgrees(p, weekTotal, startDate, amount);
    } else if amount < 0 && weekTotal != 0 {
      DateAddNegativeAgrees(p, weekTotal, startDate, amount);
    }
  }

  /** The AddNegativeFrom loop fails only on the stale Day after a shift that starts at 00:00. */
  lemma {:induction false} AddNegativeFromSucceeds(p: Pattern, day: int, cursor: int, rem: nat, endDate: int)
    requires Walkable(p) && ReachableBackward(p) && StartsAfterMidnight(p) && day == Weekday(cursor)
    ensures AddNegativeFrom(p, day, cursor, rem, endDate).Success?
    decreases rem
  {
    var s := PreviousShift(p, cursor);
    PreviousShiftExists(p, cursor);
    SeekPreviousStarts(p, cursor, DaysPerWeek);
    AfterMidnightStep(p, s.startTime);
    if rem > 0 {
      if rem >= s.duration {
        AddNegativeFromSucceeds(p, Weekday(s.startTime), s.startTime - 1, rem - s.duration, s.startTime);
      } else {
        AddNegativeFromSucceeds(p, Weekday(s.startTime), s.startTime - 1, 0, s.EndTime() - rem);
      }
    }
  }

  /** With no shift at 00:00, one millisecond before a shift's start is on the same weekday. */
  lemma AfterMidnightStep(p: Pattern, x: int)
    requires Walkable(p) && StartsAfterMidnight(p) && StartsShift(p, x)
    ensures Weekday(x - 1) == Weekday(x)
  {
    var d := Weekday(x);
    var i :| 0 <= i < |p[d]| && p[d][i].startTime == TimeOfDay(x);
    SameDay(x, x - 1);
  }

  /**
   * With no shift at 00:00, Week.DateAddNegative as written fails only with
   * DivideByZero, on a week whose Duration reads zero.
   */
  lemma DateAddNegativeSucceeds(p: Pattern, weekTotal: int, startDate: int, amount: int)
    requires Walkable(p) && StartsAfterMidnight(p) && amount < 0 && weekTotal != 0
    requires ContainsShifts(p) ==> ReachableBackward(p)
    ensures DateAddNegative(p, weekTotal, startDate, amount).Success?
  {
    var weeks := WholeWeeks(-amount, weekTotal);
    var start := startDate - weeks * MsPerWeek;
    var rem := -amount - weeks * weekTotal;
    DateAddNegativeSteps(p, weekTotal, startDate, amount, start, rem);
    if ContainsShifts(p) {
      AddNegativeFromSucceeds(p, Weekday(start), start, rem, start);
    }
  }

  /**
   * The DescendingShifts loop as written, on a spaced week, from the cursor
   * or from one millisecond before the midnight or the shift's start `c`:
   * it does not fail, and it yields the stretches the walk as meant yields
   * from `c`.
   */
  lemma {:induction false} DescendingFromMeant(p: Pattern, day: int, cursor: int, c: int, end: int)
    requires Walkable(p) && Spaced(p) && ContainsShifts(p)
    requires day == Weekday(cursor)
    requires c == cursor || (c == cursor + 1 && (TimeOfDay(c) == 0 || StartsShift(p, c)))
    ensures DescendingFrom(p, day, cursor, end) == Success(Descending(p, c, end))
    decreases cursor - end
  {
    if cursor > end {
      var w, next, back, head := DescendingRound(p, day, cursor, c, end);
      DescendingFromMeant(p, w, next, back, end);
    } else {
      DescendingNone(p, c, end);
    }
  }

  /** A result with a list of shifts put in front of its list; failures are kept. */
  function Prefixed(front: seq<Shift>, r: Result<seq<Shift>>): Result<seq<Shift>> {
    if r.Success? then Success(front + r.value) else r
  }

  /** One round of the DescendingShifts loop, side by side with the walk as meant from `c`. */
  lemma DescendingRound(p: Pattern, day: int, cursor: int, c: int, end: int)
      returns (w: int, next: int, back: int, head: seq<Shift>)
    requires Walkable(p) && Spaced(p) && ContainsShifts(p)
    requires day == Weekday(cursor) && end < cursor
    requires c == cursor || (c == cursor + 1 && (TimeOfDay(c) == 0 || StartsShift(p, c)))
    ensures w == Weekday(next) && back == next + 1 && next < cursor
    ensures TimeOfDay(back) == 0 || StartsShift(p, back)
    ensures DescendingFrom(p, day, cursor, end) == Prefixed(head, DescendingFrom(p, w, next, end))
    ensures Descending(p, c, end) == head + Descending(p, back, end)
  {
    match PreviousIn(p[day], TimeOfDay(cursor))
    case None =>
      back := Midnight(cursor);
      next, w, head := back - 1, Weekday(back - 1), [];
      DescendingFromRollover(p, day, cursor, end, next);
      RolloverMeant(p, cursor, c, back);
      DescendingSameStretch(p, c, back, end);
      assert head + Descending(p, back, end) == Descending(p, back, end);
      PrefixedNothing(DescendingFrom(p, w, next, end));
    case Some(s) =>
      var d := Dated(cursor, s);
      next, back, w := d.startTime - 1, d.startTime, day;
      DescendingFromStep(p, day, cursor, end, s, d, next);
      StepMeant(p, cursor, c, s, d);
      DescendingStep(p, c, end, d);
      if back > end {
        head := [d];
      } else {
        head := [];
        DescendingNone(p, back, end);
        PrefixedNothing(DescendingFrom(p, w, next, end));
      }
  }

  /** Nothing put in front of a result leaves it as it is. */
  lemma PrefixedNothing(r: Result<seq<Shift>>)
    ensures Prefixed([], r) == r
  {
    if r.Success? {
      assert [] + r.value == r.value;
    }
  }

  /** The walk as meant yields nothing from a cursor at most one millisecond past `end`. */
  lemma DescendingNone(p: Pattern, c: int, end: int)
    requires Walkable(p) && ContainsShifts(p) && c <= end + 1
    ensures Descending(p, c, end) == []
  {
    if c > end {
      assert PreviousOccurrence(p, c).startTime <= end;
    }
  }

  /** A round of the DescendingShifts loop on a day with nothing before the cursor. */
  lemma DescendingFromRollover(p: Pattern, day: int, cursor: int, end: int, next: int)
    requires Walkable(p) && day == Weekday(cursor) && end < cursor
    requires PreviousIn(p[day], TimeOfDay(cursor)).None? && next == Midnight(cursor) - 1
    ensures DescendingFrom(p, day, cursor, end) == DescendingFrom(p, Weekday(next), next, end)
  {
  }

  /** A round of the DescendingShifts loop that meets shift `s` of the cursor's day, dated `d`. */
  lemma DescendingFromStep(p: Pattern, day: int, cursor: int, end: int, s: Shift, d: Shift, next: int)
    requires Walkable(p) && day == Weekday(cursor) && end < cursor
    requires PreviousIn(p[day], TimeOfDay(cursor)) == Some(s) && d == Dated(cursor, s) && next == d.startTime - 1
    ensures DescendingFrom(p, day, cursor, end)
            == var tail := DescendingFrom(p, day, next, end);
               if tail.Success? && d.startTime > end then Success([d] + tail.value) else tail
  {
  }

  /** One step of the descending walk as meant, meeting stretch `d`. */
  lemma DescendingStep(p: Pattern, c: int, end: int, d: Shift)
    requires Walkable(p) && ContainsShifts(p) && end < c && d == PreviousOccurrence(p, c)
    ensures Descending(p, c, end) == if d.startTime > end then [d] + Descending(p, d.startTime, end) else []
  {
  }

  /** Where the day of `cursor` has nothing before it, the walk as meant from `c` and from its midnight meet the same stretch. */
  lemma RolloverMeant(p: Pattern, cursor: int, c: int, m: int)
    requires Walkable(p) && Spaced(p) && ContainsShifts(p)
    requires c == cursor || (c == cursor + 1 && (TimeOfDay(c) == 0 || StartsShift(p, c)))
    requires PreviousIn(p[Weekday(cursor)], TimeOfDay(cursor)).None? && m == Midnight(cursor)
    ensures TimeOfDay(m) == 0 && m <= c
    ensures PreviousOccurrence(p, c) == PreviousOccurrence(p, m)
  {
    SpacedReachable(p);
    MidnightOfDay(cursor);
    var last := m - 1;
    assert PreviousOccurrence(p, c) == PreviousShift(p, cursor) by {
      PreviousShiftMeant(p, cursor, c);
    }
    assert PreviousShift(p, cursor) == PreviousShift(p, last) by {
      RolloverSeek(p, cursor, last);
    }
    assert PreviousShift(p, last) == PreviousOccurrence(p, m) by {
      PreviousShiftMeant(p, last, m);
    }
  }

  /** Where the day of `cursor` has nothing before it, the written search resumes from 23:59:59.999 before. */
  lemma RolloverSeek(p: Pattern, cursor: int, last: int)
    requires Walkable(p) && ReachableBackward(p)
    requires PreviousIn(p[Weekday(cursor)], TimeOfDay(cursor)).None? && last == Midnight(cursor) - 1
    ensures PreviousShift(p, cursor) == PreviousShift(p, last)
  {
    PreviousShiftExists(p, cursor);
    SeekPreviousFuel(p, last, DaysPerWeek - 1, DaysPerWeek);
  }

  /** Where the day of `cursor` has shift `s` before it, that shift, dated, is the stretch the walk as meant meets from `c`. */
  lemma StepMeant(p: Pattern, cursor: int, c: int, s: Shift, d: Shift)
    requires Walkable(p) && Spaced(p) && ContainsShifts(p)
    requires c == cursor || (c == cursor + 1 && (TimeOfDay(c) == 0 || StartsShift(p, c)))
    requires PreviousIn(p[Weekday(cursor)], TimeOfDay(cursor)) == Some(s) && d == Dated(cursor, s)
    ensures d == PreviousOccurrence(p, c) && d.startTime < c
    ensures StartsShift(p, d.startTime) && Weekday(d.startTime - 1) == Weekday(cursor)
  {
    SpacedReachable(p);
    assert d == PreviousShift(p, cursor) by {
      PreviousShiftExists(p, cursor);
    }
    assert d == PreviousOccurrence(p, c) by {
      PreviousShiftMeant(p, cursor, c);
    }
    assert StartsShift(p, d.startTime) && Weekday(d.startTime - 1) == Weekday(d.startTime) by {
      PreviousStarts(p, cursor, d);
    }
    assert Weekday(d.startTime) == Weekday(cursor) by {
      PreviousInWalkable(p, Weekday(cursor), TimeOfDay(cursor));
      SameDay(cursor, d.startTime);
    }
  }

  /** Two cursors that meet the same stretch first yield the same descending run. */
  lemma DescendingSameStretch(p: Pattern, c: int, m: int, end: int)
    requires Walkable(p) && ContainsShifts(p) && m <= c && end < c
    requires PreviousOccurrence(p, c) == PreviousOccurrence(p, m)
    ensures Descending(p, c, end) == Descending(p, m, end)
  {
  }

  /** With no shift at 00:00, the DescendingShifts loop as written does not fail. */
  lemma {:induction false} DescendingFromSucceeds(p: Pattern, day: int, cursor: int, end: int)
    requires Walkable(p) && StartsAfterMidnight(p) && day == Weekday(cursor)
    ensures DescendingFrom(p, day, cursor, end).Success?
    decreases cursor - end
  {
    if cursor > end {
      var w, next := SucceedsRound(p, day, cursor, end);
      DescendingFromSucceeds(p, w, next, end);
    }
  }

  /** One round of the DescendingShifts loop with no shift at 00:00: the Day it goes on with is the right one. */
  lemma SucceedsRound(p: Pattern, day: int, cursor: int, end: int) returns (w: int, next: int)
    requires Walkable(p) && StartsAfterMidnight(p) && day == Weekday(cursor) && end < cursor
    ensures w == Weekday(next) && next < cursor
    ensures DescendingFrom(p, w, next, end).Success? ==> DescendingFrom(p, day, cursor, end).Success?
  {
    match PreviousIn(p[day], TimeOfDay(cursor))
    case None =>
      next := Midnight(cursor) - 1;
      w := Weekday(next);
      DescendingFromRollover(p, day, cursor, end, next);
    case Some(s) =>
      PreviousInSpec(p[day], TimeOfDay(cursor));
      var i :| 0 <= i < |p[day]| && p[day][i].startTime < TimeOfDay(cursor) && s.startTime == p[day][i].startTime;
      PreviousInWalkable(p, day, TimeOfDay(cursor));
      var d := Dated(cursor, s);
      next, w := d.startTime - 1, day;
      assert next == Midnight(cursor) + s.startTime - 1;
      SameDay(cursor, next);
      DescendingFromStep(p, day, cursor, end, s, d, next);
  }

  /**
   * Week.DescendingShifts as written: with no shift at 00:00 it does not
   * fail, and on a spaced week it yields exactly the working stretches as
   * meant, latest first.
   */
  lemma DescendingShiftsAgree(p: Pattern, startDate: int, endDate: int)
    requires Walkable(p) && StartsAfterMidnight(p)
    ensures DescendingShifts(p, startDate, endDate).Success?
    ensures Spaced(p) && ContainsShifts(p) ==>
              DescendingShifts(p, startDate, endDate) == Success(Descending(p, startDate, endDate))
  {
    DescendingFromSucceeds(p, Weekday(startDate), startDate, endDate);
    if Spaced(p) && ContainsShifts(p) {
      DescendingFromMeant(p, Weekday(startDate), startDate, startDate, endDate);
    }
  }

  // ---------------------------------------------------------------------
  // DateAdd and DateDiff
  // ---------------------------------------------------------------------

  /** What DateAdd needs to finish: a backward walk can find a shift. */
  predicate CanAdd(p: Pattern, amount: int)
    requires |p| == DaysPerWeek
  {
    amount < 0 && ContainsShifts(p) ==> ReachableBackward(p)
  }

  /** Week.DateAdd: by the sign of the duration; a zero duration returns the date. */
  function DateAdd(p: Pattern, weekTotal: int, startDate: int, amount: int): (r: Result<int>)
    requires Walkable(p) && CanAdd(p, amount)
    ensures amount == 0 ==> r == Success(startDate)
    ensures r.Failure? && r.error == DivideByZero <==> amount != 0 && weekTotal == 0
  {
    if amount > 0 then DateAddPositive(p, weekTotal, startDate, amount)
    else if amount < 0 then DateAddNegative(p, weekTotal, startDate, amount)
    else Success(startDate)
  }

  /**
   * DateDiff as written from `lo` to a later `hi`: whole weeks are counted
   * at `weekTotal` each, and the durations of the shifts AscendingShifts
   * yields for the rest are added up whole.
   */
  function ForwardDiff(p: Pattern, weekTotal: int, lo: int, hi: int): (r: Result<int>)
    requires Walkable(p)
    ensures r.Failure? ==> r.error == WrongDayOfWeek
    ensures lo == hi ==> r == Success(0)
  {
    var weeks := (hi - lo) / MsPerWeek;
    match AscendingShifts(p, lo + weeks * MsPerWeek, hi)
    case Failure(e) => Failure(e)
    case Success(shifts) => Success(weeks * weekTotal + TotalDuration(shifts))
  }

  /** Week.DateDiff: the dates are put in order; the difference is negated when they were swapped. */
  function DateDiff(p: Pattern, weekTotal: int, startDate: int, endDate: int): (r: Result<int>)
    requires Walkable(p)
    ensures r.Failure? ==> r.error == WrongDayOfWeek
    ensures startDate == endDate ==> r == Success(0)
  {
    if startDate > endDate then
      match ForwardDiff(p, weekTotal, endDate, startDate)
      case Failure(e) => Failure(e)
      case Success(diff) => Success(-diff)
    else ForwardDiff(p, weekTotal, startDate, endDate)
  }

  /**
   * DateAdd as written moves the date the way the duration points: never
   * back for a positive duration, never forward for a negative one.
   */
  lemma DateAddDirection(p: Pattern, weekTotal: int, startDate: int, amount: int)
    requires Walkable(p) && CanAdd(p, amount)
    ensures DateAdd(p, weekTotal, startDate, amount).Success? && amount > 0 ==>
              startDate <= DateAdd(p, weekTotal, startDate, amount).value
    ensures DateAdd(p, weekTotal, startDate, amount).Success? && amount < 0 ==>
              DateAdd(p, weekTotal, startDate, amount).value <= startDate
  {
    if amount > 0 {
      DateAddPositiveAgrees(p, weekTotal, startDate, amount);
    } else if amount < 0 {
      DateAddNegativeBefore(p, weekTotal, startDate, amount);
    }
  }

  /** A duration of exactly k week totals divides into k whole weeks and leaves nothing over. */
  lemma WholeWeeksExact(weekTotal: int, k: nat)
    requires weekTotal > 0 && k > 0
    ensures WholeWeeks(k * weekTotal, weekTotal) == k
  {
    var x := k * weekTotal;
    var q, r := x / weekTotal, x % weekTotal;
    assert x == q * weekTotal + r && 0 <= r < weekTotal;
    if q < k {
      MultipleBelow(q, k, weekTotal);
      assert false;
    } else if q > k {
      MultipleBelow(k, q, weekTotal);
      assert false;
    }
  }

  /** A smaller multiple of a positive number is at least that number smaller. */
  lemma MultipleBelow(a: int, b: int, n: int)
    requires a < b && n > 0
    ensures a * n + n <= b * n
  {
    NonNegativeProduct(b - a - 1, n);
    assert b * n - (a * n + n) == (b - a - 1) * n;
  }

  /**
   * DateAdd as written moves a date by exactly k weeks when the duration is
   * k times the week's Duration, forward or backward.
   */
  lemma DateAddWholeWeeks(p: Pattern, weekTotal: int, startDate: int, k: nat)
    requires Walkable(p) && weekTotal > 0 && k > 0 && CanAdd(p, -1)
    ensures DateAdd(p, weekTotal, startDate, k * weekTotal) == Success(startDate + k * MsPerWeek)
    ensures DateAdd(p, weekTotal, startDate, -(k * weekTotal)) == Success(startDate - k * MsPerWeek)
  {
    var amount := k * weekTotal;
    WholeWeeksExact(weekTotal, k);
    DateAddPositiveSteps(p, weekTotal, startDate, amount, startDate + k * MsPerWeek, 0);
    DateAddNegativeSteps(p, weekTotal, startDate, -amount, startDate - k * MsPerWeek, 0);
  }

  // ---------------------------------------------------------------------
  // DateDiff as written, against DateDiff as meant
  // ---------------------------------------------------------------------

  /** How far the last shift of a list runs past `end`; none when it ends by then. */
  function Overhang(shifts: seq<Shift>, end: int): (r: int)
    ensures r >= 0
    ensures shifts == [] || shifts[|shifts| - 1].EndTime() <= end ==> r == 0
    ensures shifts != [] && end < shifts[|shifts| - 1].EndTime() ==> shifts[|shifts| - 1].EndTime() == end + r
  {
    if shifts == [] || shifts[|shifts| - 1].EndTime() <= end then 0 else shifts[|shifts| - 1].EndTime() - end
  }

  /**
   * A run of shifts in order, each starting before `end`: their whole
   * durations add up to the working time they hold before `end`, plus the
   * overhang of the last one.
   */
  lemma {:induction false} TotalOverhang(shifts: seq<Shift>, end: int)
    requires forall i | 0 <= i < |shifts| :: shifts[i].startTime < end
    requires forall i | 0 <= i < |shifts| - 1 :: shifts[i].EndTime() <= shifts[i + 1].startTime
    ensures TotalDuration(shifts) == TotalDuration(Clip(shifts, end)) + Overhang(shifts, end)
    decreases |shifts|
  {
    if shifts != [] {
      var rest := shifts[1..];
      assert shifts == [shifts[0]] + rest;
      TotalPrepend(shifts[0], rest);
      TotalPrepend(Trim(shifts[0], end), Clip(rest, end));
      TotalOverhang(rest, end);
      if rest != [] {
        assert shifts[0].EndTime() <= rest[0].startTime;
        assert shifts[|shifts| - 1] == rest[|rest| - 1];
      }
    }
  }

  /** The overhang of the last shift the written DateDiff adds up between `lo` and `hi`. */
  function DiffOverhang(p: Pattern, lo: int, hi: int): (r: int)
    requires Walkable(p)
    ensures r >= 0
  {
    var weeks := (hi - lo) / MsPerWeek;
    if ContainsShifts(p) then Overhang(Ascending(p, lo + weeks * MsPerWeek, hi), hi) else 0
  }

  /**
   * The forward difference as written is the one as meant, plus the part of
   * the last shift that runs past the later date; it does not fail on a
   * week with no shift through midnight.
   */
  lemma ForwardDiffOverhang(p: Pattern, weekTotal: int, lo: int, hi: int)
    requires Walkable(p) && lo <= hi
    ensures EndsBeforeMidnight(p) ==> ForwardDiff(p, weekTotal, lo, hi).Success?
    ensures ForwardDiff(p, weekTotal, lo, hi).Success? ==>
              ForwardDiff(p, weekTotal, lo, hi).value == Walks.ForwardDiff(p, weekTotal, lo, hi) + DiffOverhang(p, lo, hi)
  {
    var weeks := (hi - lo) / MsPerWeek;
    var from := lo + weeks * MsPerWeek;
    DiffsFrom(p, weekTotal, lo, hi, weeks, from);
    AscendingShiftsAgree(p, from, hi);
    if ContainsShifts(p) {
      TotalOverhang(Ascending(p, from, hi), hi);
    }
  }

  /** Both differences skip the same whole weeks and go on from the same instant. */
  lemma DiffsFrom(p: Pattern, weekTotal: int, lo: int, hi: int, weeks: int, from: int)
    requires Walkable(p) && lo <= hi && weeks == (hi - lo) / MsPerWeek && from == lo + weeks * MsPerWeek
    ensures ForwardDiff(p, weekTotal, lo, hi)
            == match AscendingShifts(p, from, hi)
               case Failure(e) => Failure(e)
               case Success(shifts) => Success(weeks * weekTotal + TotalDuration(shifts))
    ensures Walks.ForwardDiff(p, weekTotal, lo, hi) == weeks * weekTotal + WorkBetween(p, from, hi)
    ensures DiffOverhang(p, lo, hi) == if ContainsShifts(p) then Overhang(Ascending(p, from, hi), hi) else 0
  {
  }

  /**
   * Week.DateDiff as written is DateDiff as meant, moved away from zero by
   * the overhang of the last shift it adds up: the two agree exactly when
   * the later date is at or after that shift's end. It does not fail on a
   * week with no shift through midnight.
   */
  lemma DateDiffOverhang(p: Pattern, weekTotal: int, startDate: int, endDate: int)
    requires Walkable(p)
    ensures EndsBeforeMidnight(p) ==> DateDiff(p, weekTotal, startDate, endDate).Success?
    ensures DateDiff(p, weekTotal, startDate, endDate).Success? ==>
              DateDiff(p, weekTotal, startDate, endDate).value
              == Walks.DateDiff(p, weekTotal, startDate, endDate)
                 + (if startDate > endDate then -DiffOverhang(p, endDate, startDate) else DiffOverhang(p, startDate, endDate))
  {
    if startDate > endDate {
      ForwardDiffOverhang(p, weekTotal, endDate, startDate);
    } else {
      ForwardDiffOverhang(p, weekTotal, startDate, endDate);
    }
  }

  /** Swapping the dates negates the written difference, or fails the same way. */
  lemma DateDiffAntisymmetric(p: Pattern, weekTotal: int, a: int, b: int)
    requires Walkable(p)
    ensures DateDiff(p, weekTotal, a, b).Failure? <==> DateDiff(p, weekTotal, b, a).Failure?
    ensures DateDiff(p, weekTotal, a, b).Success? ==>
              DateDiff(p, weekTotal, a, b).value == -DateDiff(p, weekTotal, b, a).value
  {
  }

  /** With a Duration of no less than zero, the written difference has the sign of the dates' order. */
  lemma DateDiffSign(p: Pattern, weekTotal: int, a: int, b: int)
    requires Walkable(p) && weekTotal >= 0
    ensures a <= b && DateDiff(p, weekTotal, a, b).Success? ==> DateDiff(p, weekTotal, a, b).value >= 0
    ensures b <= a && DateDiff(p, weekTotal, a, b).Success? ==> DateDiff(p, weekTotal, a, b).value <= 0
  {
    DateDiffOverhang(p, weekTotal, a, b);
    Walks.DateDiffSign(p, weekTotal, a, b);
  }
}
