/**
 * The Week class of source/WorkingWeek/Week.cs: seven Day objects, one per
 * weekday, and a Duration the days' ShiftAdded / ShiftRemoved events keep up
 * to date. Its walkers and business-time arithmetic are loops over the days;
 * each is proved to compute what the Written module says the code computes,
 * and the Written and Walks modules say what that is.
 */
module Weeks {
  import opened Time
  import opened Shifts
  import opened Days
  import opened Walks
  import opened Written

  class Week {
    /** mDays: the seven days, indexed by System.DayOfWeek (Sunday = 0). */
    const days: seq<Day>
    /** The Duration property. */
    var duration: int

    ghost predicate Valid()
      reads days
    {
      && |days| == DaysPerWeek
      && (forall i | 0 <= i < |days| :: days[i].Valid() && days[i].dayOfWeek == i)
    }

    /** The shifts of the seven days as one value. */
    function Pattern(): (p: Pattern)
      requires |days| == DaysPerWeek
      reads days
      ensures |p| == DaysPerWeek && forall i | 0 <= i < DaysPerWeek :: p[i] == days[i].shifts
    {
      [days[0].shifts, days[1].shifts, days[2].shifts, days[3].shifts,
       days[4].shifts, days[5].shifts, days[6].shifts]
    }

    /** Duration agrees with the shifts the days hold. */
    ghost predicate Balanced()
      requires |days| == DaysPerWeek
      reads this, days
    {
      duration == WeekTotal(Pattern())
    }

    /** The constructor: seven empty days and a zero Duration. */
    constructor ()
      ensures Valid() && Balanced()
      ensures forall i | 0 <= i < |days| :: fresh(days[i])
      ensures Pattern() == [[], [], [], [], [], [], []] && duration == 0
    {
      var ds: seq<Day> := [];
      var i := 0;
      while i < DaysPerWeek
        invariant 0 <= i <= DaysPerWeek && |ds| == i
        invariant forall j | 0 <= j < i :: fresh(ds[j]) && ds[j].Valid() && ds[j].dayOfWeek == j && ds[j].shifts == []
        invariant forall j, k | 0 <= j < k < i :: ds[j] != ds[k]
      {
        var d := new Day(i);
        ds := ds + [d];
        i := i + 1;
      }
      days := ds;
      duration := 0;
      new;
      assert Pattern() == [[], [], [], [], [], [], []];
      WeekTotalIdle(Pattern());
    }

    /** The ContainsShifts property: some day is a working day. */
    function ContainsShifts(): (b: bool)
      requires Valid()
      reads this, days
      ensures b <==> Walks.ContainsShifts(Pattern())
    {
      exists i | 0 <= i < DaysPerWeek :: days[i].IsWorking()
    }

    /** ShiftAdded: the week grows by the added shift. */
    method ShiftAdded(shift: Shift)
      modifies this
      ensures duration == old(duration) + shift.duration
    {
      duration := duration + shift.duration;
    }

    /** ShiftRemoved: the week shrinks by the removed shift. */
    method ShiftRemoved(shift: Shift)
      modifies this
      ensures duration == old(duration) - shift.duration
    {
      duration := duration - shift.duration;
    }

    /** `d` is the week's Day object for its own weekday. */
    ghost predicate Owns(d: Day)
      requires |days| == DaysPerWeek
      reads days
    {
      0 <= d.dayOfWeek < DaysPerWeek && days[d.dayOfWeek] == d
    }

    /** The days are indexed by weekday and hold the shift lists of `p`. */
    ghost predicate Shows(p: Pattern)
      reads days
    {
      && |days| == DaysPerWeek && |p| == DaysPerWeek
      && forall i | 0 <= i < DaysPerWeek :: days[i].dayOfWeek == i && days[i].shifts == p[i]
    }

    /** The week has shifts exactly when the shift lists it shows have one. */
    lemma ShownContains(p: Pattern)
      requires Valid() && Shows(p)
      ensures ContainsShifts() <==> Walks.ContainsShifts(p)
    {
      assert Pattern() == p;
    }

    /** GetDay: the Day object of a weekday. */
    function GetDay(dayOfWeek: int): (d: Day)
      requires Valid() && 0 <= dayOfWeek < DaysPerWeek
      reads this, days
      ensures Owns(d) && d.dayOfWeek == dayOfWeek && d.shifts == Pattern()[dayOfWeek]
    {
      days[dayOfWeek]
    }

    /** After a change to one day, the other days are as they were and each is still valid. */
    twostate lemma DayChanged(d: int)
      requires old(Valid()) && 0 <= d < |days| && days[d].Valid()
      requires forall i | 0 <= i < |days| && i != d :: unchanged(days[i])
      ensures Valid() && Pattern() == old(Pattern())[d := days[d].shifts]
    {
    }

    /**
     * AddShift on a weekday: the day's AddShift, whose ShiftAdded event adds
     * the shift's duration to the week. A conflict leaves everything as it was.
     */
    method AddShift(dayOfWeek: int, hour: nat, minute: nat, second: nat, millisecond: nat, shiftDuration: int)
      returns (added: Result<Shift>)
      requires Valid() && 0 <= dayOfWeek < DaysPerWeek
      modifies this, days[dayOfWeek]
      ensures Valid()
      ensures added.Failure? <==> FindIn(old(Pattern())[dayOfWeek], TimeOfDay(Offset(hour, minute, second, millisecond))).Some?
      ensures added.Failure? ==> added.error == ShiftConflict && Pattern() == old(Pattern()) && duration == old(duration)
      ensures added.Success? ==>
                && added.value == ShiftAt(hour, minute, second, millisecond, shiftDuration)
                && Pattern() == old(Pattern())[dayOfWeek := Insert(old(Pattern())[dayOfWeek], added.value)]
                && duration == old(duration) + shiftDuration
      ensures old(Balanced()) ==> Balanced()
    {
      ghost var before := Pattern();
      var day := GetDay(dayOfWeek);
      added := day.AddShift(hour, minute, second, millisecond, shiftDuration);
      DayChanged(dayOfWeek);
      if added.Success? {
        ShiftAdded(added.value);
        InsertTotal(before[dayOfWeek], added.value);
        WeekTotalUpdate(before, dayOfWeek, Insert(before[dayOfWeek], added.value));
      } else {
        assert Pattern() == before;
      }
    }

    /**
     * RemoveShift on a weekday: the day's RemoveShift. Its ShiftRemoved event
     * takes a duration off the week even when no shift matched, as long as the
     * day had a shift to examine; then Duration no longer agrees with the shifts.
     */
    method RemoveShift(dayOfWeek: int, hour: nat, minute: nat, second: nat, millisecond: nat)
      requires Valid() && 0 <= dayOfWeek < DaysPerWeek
      modifies this, days[dayOfWeek]
      ensures Valid()
      ensures var before := old(Pattern())[dayOfWeek];
              var k := MatchIndex(before, hour, minute, second, millisecond);
              && (k < |before| ==>
                    && Pattern() == old(Pattern())[dayOfWeek := before[..k] + before[k + 1..]]
                    && duration == old(duration) - before[k].duration)
              && (k == |before| ==>
                    && Pattern() == old(Pattern())
                    && duration == old(duration) - (if before == [] then 0 else before[|before| - 1].duration))
      ensures var before := old(Pattern())[dayOfWeek];
              old(Balanced()) ==>
                (Balanced() <==> MatchIndex(before, hour, minute, second, millisecond) < |before|
                                 || before == [] || before[|before| - 1].duration == 0)
    {
      ghost var before := Pattern();
      ghost var k := MatchIndex(before[dayOfWeek], hour, minute, second, millisecond);
      var day := GetDay(dayOfWeek);
      var examined := day.RemoveShift(hour, minute, second, millisecond);
      if examined.Some? {
        ShiftRemoved(examined.value);
      }
      DayChanged(dayOfWeek);
      RemovalAccounting(before, dayOfWeek, k, day.shifts, examined, old(duration), duration, Pattern());
    }

    /**
     * The inner loop of AscendingShifts: ask the held day for its next shift
     * after `cursor` and, while it has none, move to midnight of the next day
     * and hold that day instead. Returns the shift dated on the day it was
     * found on, and the day now held. Only the first question can go to a day
     * of the wrong weekday.
     */
    method NextShiftFrom(day: Day, cursor: int, ghost p: Pattern) returns (found: Result<Shift>, held: Day)
      requires Shows(p) && Walkable(p) && Walks.ContainsShifts(p) && Owns(day)
      ensures found == if Weekday(cursor) != day.dayOfWeek then Failure(WrongDayOfWeek)
                       else Success(NextOccurrence(p, cursor))
      ensures found.Success? ==> Owns(held) && held.dayOfWeek == Weekday(found.value.startTime)
    {
      NextOccurrenceExists(p, cursor);
      ghost var goal := SeekForward(p, cursor, DaysPerWeek);
      var currentDate := cursor;
      held := day;
      ghost var fuel: nat := DaysPerWeek;
      ghost var asked := false;
      var shift: Option<Shift> := None;
      while shift.None?
        invariant Owns(held)
        invariant SeekForward(p, currentDate, fuel) == goal
        invariant !asked ==> currentDate == cursor && held == day && shift.None?
        invariant asked ==> held.dayOfWeek == Weekday(currentDate) && Weekday(cursor) == day.dayOfWeek
        invariant shift.Some? ==> goal == Some(Dated(currentDate, shift.value))
        decreases fuel, if shift.None? then 1 else 0
      {
        var next := held.GetNextShift(currentDate);
        if next.Failure? {
          return Failure(next.error), held;
        }
        SeekStep(p, currentDate, fuel, goal);
        assert next.value == NextIn(p[held.dayOfWeek], TimeOfDay(currentDate));
        asked := true;
        shift := next.value;
        if shift.None? {
          currentDate := Midnight(currentDate) + MsPerDay;
          held := days[Weekday(currentDate)];
          fuel := fuel - 1;
        }
      }
      SeekStep(p, currentDate, fuel, goal);
      found := Success(Dated(currentDate, shift.value));
    }

    /**
     * AscendingShifts(startDate, endDate), collected: the iterator's outer
     * loop, which dates each shift found, moves on to its end with the same
     * day held, and yields it while it starts before the end date.
     */
    method AscendingShifts(startDate: int, endDate: int, ghost p: Pattern) returns (r: Result<seq<Shift>>)
      requires Valid() && Shows(p) && Walkable(p)
      ensures r == Written.AscendingShifts(p, startDate, endDate)
    {
      ShownContains(p);
      ghost var goal := Written.AscendingShifts(p, startDate, endDate);
      var shifts: seq<Shift> := [];
      if ContainsShifts() {
        var day := GetDay(Weekday(startDate));
        var currentDate := startDate;
        assert goal == AscendingFrom(p, day.dayOfWeek, currentDate, endDate);
        assert goal == Prefixed(shifts, AscendingFrom(p, day.dayOfWeek, currentDate, endDate)) by {
          var r := AscendingFrom(p, day.dayOfWeek, currentDate, endDate);
          if r.Success? {
            assert [] + r.value == r.value;
          }
        }
        while currentDate < endDate
          invariant Owns(day) && Shows(p)
          invariant goal == Prefixed(shifts, AscendingFrom(p, day.dayOfWeek, currentDate, endDate))
          decreases endDate - currentDate
        {
          AscendingStep(p, shifts, day.dayOfWeek, currentDate, endDate);
          var found, held := NextShiftFrom(day, currentDate, p);
          if found.Failure? {
            return Failure(found.error);
          }
          var adjusted := found.value;
          day := held;
          currentDate := adjusted.EndTime();
          if adjusted.startTime < endDate {
            shifts := shifts + [adjusted];
          }
          assert goal == Prefixed(shifts, AscendingFrom(p, day.dayOfWeek, currentDate, endDate));
        }
        AscendingStep(p, shifts, day.dayOfWeek, currentDate, endDate);
      }
      return Success(shifts);
    }

    /**
     * DateAddPositive: skip the whole weeks the duration covers, then spend
     * the rest on the shifts of the endless ascending walk.
     */
    method DateAddPositive(startDate: int, amount: int, ghost p: Pattern) returns (r: Result<int>)
      requires Valid() && Shows(p) && Walkable(p) && amount > 0
      ensures r == Written.DateAddPositive(p, duration, startDate, amount)
    {
      var endDate := startDate;
      if duration == 0 {
        return Failure(DivideByZero);
      }
      var weeks := TruncDiv(amount, duration);
      var rem := amount;
      if weeks > 0 {
        rem := rem - weeks * duration;
        endDate := endDate + weeks * DaysPerWeek * MsPerDay;
      }
      ShownContains(p);
      if ContainsShifts() {
        DateAddPositiveSkips(p, duration, startDate, amount, endDate, rem);
        var day := days[Weekday(endDate)];
        r := SpendForward(day, endDate, rem, p);
      } else {
        WeeksSkipped(startDate, amount, duration);
        DateAddPositiveSteps(p, duration, startDate, amount, endDate, rem);
        r := Success(endDate);
      }
    }

    /**
     * The loop of DateAddPositive over the ascending walk from `startDate`:
     * each shift met takes its length off what is left, or the part that is
     * left, and the end date moves to where the time spent ends. The walk
     * moves on to its next shift before the loop sees that nothing is left.
     */
    method SpendForward(day: Day, startDate: int, amount: int, ghost p: Pattern) returns (r: Result<int>)
      requires Shows(p) && Walkable(p) && Walks.ContainsShifts(p) && Owns(day) && amount >= 0
      ensures r == AddPositiveFrom(p, day.dayOfWeek, startDate, amount, startDate)
    {
      ghost var goal := AddPositiveFrom(p, day.dayOfWeek, startDate, amount, startDate);
      var held := day;
      var currentDate := startDate;
      var endDate := startDate;
      var rem := amount;
      while true
        invariant Owns(held) && Shows(p) && rem >= 0
        invariant goal == AddPositiveFrom(p, held.dayOfWeek, currentDate, rem, endDate)
        decreases rem
      {
        var found, next := NextShiftFrom(held, currentDate, p);
        if found.Failure? {
          return Failure(found.error);
        }
        var shift := found.value;
        if rem == 0 {
          break;
        }
        var nextEnd, nextRem;
        if rem >= shift.duration {
          nextEnd := shift.EndTime();
          nextRem := rem - shift.duration;
        } else {
          nextEnd := shift.startTime + rem;
          nextRem := 0;
        }
        SpendStep(p, held.dayOfWeek, currentDate, rem, endDate, shift, nextRem, nextEnd);
        held := next;
        currentDate := shift.EndTime();
        endDate := nextEnd;
        rem := nextRem;
      }
      return Success(endDate);
    }

    /**
     * The inner loop of DescendingShifts when the end date is
     * DateTime.MinValue: ask the held day for its previous shift before
     * `cursor` and, while it has none, move to 23:59:59.999 of the day
     * before and hold that day instead. Returns the shift dated on the day it
     * was found on, and the day now held.
     */
    method PreviousShiftFrom(day: Day, cursor: int, ghost p: Pattern) returns (found: Result<Shift>, held: Day)
      requires Shows(p) && Walkable(p) && ReachableBackward(p) && Owns(day)
      ensures found == if Weekday(cursor) != day.dayOfWeek then Failure(WrongDayOfWeek)
                       else Success(PreviousShift(p, cursor))
      ensures found.Success? ==> Owns(held) && held.dayOfWeek == Weekday(found.value.startTime)
    {
      PreviousShiftExists(p, cursor);
      ghost var goal := SeekPrevious(p, cursor, DaysPerWeek);
      var currentDate := cursor;
      held := day;
      ghost var fuel: nat := DaysPerWeek;
      ghost var asked := false;
      var shift: Option<Shift> := None;
      while shift.None?
        invariant Owns(held)
        invariant SeekPrevious(p, currentDate, fuel) == goal
        invariant !asked ==> currentDate == cursor && held == day && shift.None?
        invariant asked ==> held.dayOfWeek == Weekday(currentDate) && Weekday(cursor) == day.dayOfWeek
        invariant shift.Some? ==> goal == Some(Dated(currentDate, shift.value))
        decreases fuel, if shift.None? then 1 else 0
      {
        var previous := held.GetPreviousShift(currentDate);
        if previous.Failure? {
          return Failure(previous.error), held;
        }
        SeekPreviousStep(p, currentDate, fuel, goal);
        assert previous.value == PreviousIn(p[held.dayOfWeek], TimeOfDay(currentDate));
        asked := true;
        shift := previous.value;
        if shift.None? {
          currentDate := Midnight(currentDate) - 1;
          held := days[Weekday(currentDate)];
          fuel := fuel - 1;
        }
      }
      SeekPreviousStep(p, currentDate, fuel, goal);
      found := Success(Dated(currentDate, shift.value));
    }

    /**
     * DescendingShifts(startDate, endDate), collected: with shifts in the
     * week, the iterator's loops from the day of the start date.
     */
    method DescendingShifts(startDate: int, endDate: int, ghost p: Pattern) returns (r: Result<seq<Shift>>)
      requires Valid() && Shows(p) && Walkable(p)
      ensures r == Written.DescendingShifts(p, startDate, endDate)
    {
      ShownContains(p);
      if ContainsShifts() {
        var day := GetDay(Weekday(startDate));
        r := CollectDescending(day, startDate, endDate, p);
      } else {
        r := Success([]);
      }
    }

    /**
     * The outer loop of DescendingShifts: a shift the inner loop finds is
     * dated, the cursor moves to one millisecond before its start with the
     * same day held, and the shift is yielded while it starts after the end
     * date.
     */
    method CollectDescending(day: Day, startDate: int, endDate: int, ghost p: Pattern) returns (r: Result<seq<Shift>>)
      requires Shows(p) && Walkable(p) && Owns(day)
      ensures r == DescendingFrom(p, day.dayOfWeek, startDate, endDate)
    {
      ghost var goal := DescendingFrom(p, day.dayOfWeek, startDate, endDate);
      var shifts: seq<Shift> := [];
      var held := day;
      var currentDate := startDate;
      assert goal == Prefixed(shifts, DescendingFrom(p, held.dayOfWeek, currentDate, endDate)) by {
        if goal.Success? {
          assert [] + goal.value == goal.value;
        }
      }
      while currentDate > endDate
        invariant Owns(held) && Shows(p)
        invariant goal == Prefixed(shifts, DescendingFrom(p, held.dayOfWeek, currentDate, endDate))
        decreases currentDate - endDate
      {
        var shift, next, current := PreviousShiftWithin(held, currentDate, endDate, p);
        if shift.Failure? {
          return Failure(shift.error);
        }
        held, currentDate := next, current;
        if shift.value.Some? {
          DescendingFound(p, shifts, held.dayOfWeek, currentDate, endDate, shift.value.value);
          var adjusted := Dated(currentDate, shift.value.value);
          currentDate := adjusted.startTime - 1;
          if adjusted.startTime > endDate {
            shifts := shifts + [adjusted];
          }
        }
        assert goal == Prefixed(shifts, DescendingFrom(p, held.dayOfWeek, currentDate, endDate));
      }
      DescendingDone(p, shifts, held.dayOfWeek, currentDate, endDate);
      return Success(shifts);
    }

    /**
     * The inner loop of DescendingShifts: ask the held day for its previous
     * shift before the cursor and, while it has none and the cursor is still
     * after the end date, move to 23:59:59.999 of the day before and hold
     * that day instead. Returns the answer, the day held and the cursor; the
     * descending loop goes on from them as it would have from the start.
     */
    method PreviousShiftWithin(day: Day, cursor: int, end: int, ghost p: Pattern)
      returns (shift: Result<Option<Shift>>, held: Day, current: int)
      requires Shows(p) && Walkable(p) && Owns(day) && cursor > end
      ensures shift.Failure? ==>
                && shift.error == WrongDayOfWeek
                && DescendingFrom(p, day.dayOfWeek, cursor, end) == Failure(WrongDayOfWeek)
      ensures shift.Success? ==>
                && Owns(held) && current <= cursor
                && DescendingFrom(p, held.dayOfWeek, current, end) == DescendingFrom(p, day.dayOfWeek, cursor, end)
      ensures shift.Success? && shift.value.None? ==> current <= end
      ensures shift.Success? && shift.value.Some? ==>
                && current > end && Weekday(current) == held.dayOfWeek
                && shift.value == PreviousIn(p[held.dayOfWeek], TimeOfDay(current))
    {
      ghost var goal := DescendingFrom(p, day.dayOfWeek, cursor, end);
      held, current := day, cursor;
      var found: Option<Shift> := None;
      while found.None? && current > end
        invariant Owns(held) && current <= cursor
        invariant DescendingFrom(p, held.dayOfWeek, current, end) == goal
        invariant found.Some? ==> current > end && Weekday(current) == held.dayOfWeek
                                  && found == PreviousIn(p[held.dayOfWeek], TimeOfDay(current))
        decreases current - end, if found.None? then 1 else 0
      {
        var previous := held.GetPreviousShift(current);
        if previous.Failure? {
          return Failure(previous.error), held, current;
        }
        assert previous.value == PreviousIn(p[held.dayOfWeek], TimeOfDay(current));
        found := previous.value;
        if found.None? {
          DescendingRollover(p, held.dayOfWeek, current, end);
          current := Midnight(current) - 1;
          held := days[Weekday(current)];
        }
      }
      shift := Success(found);
    }

    /**
     * DateAddNegative: negate the duration, skip the whole weeks it covers
     * backward, then spend the rest on the shifts of the endless descending
     * walk. The walk finds a shift only if some shift starts before
     * 23:59:59.999; otherwise the code never returns.
     */
    method DateAddNegative(startDate: int, amount: int, ghost p: Pattern) returns (r: Result<int>)
      requires Valid() && Shows(p) && Walkable(p) && amount < 0
      requires Walks.ContainsShifts(p) ==> ReachableBackward(p)
      ensures r == Written.DateAddNegative(p, duration, startDate, amount)
    {
      var endDate := startDate;
      var back := -amount;
      if duration == 0 {
        return Failure(DivideByZero);
      }
      var weeks := TruncDiv(back, duration);
      var rem := back;
      if weeks > 0 {
        rem := rem - weeks * duration;
        endDate := endDate + -weeks * DaysPerWeek * MsPerDay;
      }
      ShownContains(p);
      if ContainsShifts() {
        DateAddNegativeSkips(p, duration, startDate, amount, endDate, rem);
        var day := days[Weekday(endDate)];
        r := SpendBackward(day, endDate, rem, p);
      } else {
        WeeksSkippedBack(startDate, back, duration);
        DateAddNegativeSteps(p, duration, startDate, amount, endDate, rem);
        r := Success(endDate);
      }
    }

    /**
     * The loop of DateAddNegative over the descending walk from `startDate`:
     * each shift met takes its length off what is left, or the part that is
     * left, and the end date moves back to where the time spent begins.
     */
    method SpendBackward(day: Day, startDate: int, amount: int, ghost p: Pattern) returns (r: Result<int>)
      requires Shows(p) && Walkable(p) && ReachableBackward(p) && Owns(day) && amount >= 0
      ensures r == AddNegativeFrom(p, day.dayOfWeek, startDate, amount, startDate)
    {
      ghost var goal := AddNegativeFrom(p, day.dayOfWeek, startDate, amount, startDate);
      var held := day;
      var currentDate := startDate;
      var endDate := startDate;
      var rem := amount;
      while true
        invariant Owns(held) && Shows(p) && rem >= 0
        invariant goal == AddNegativeFrom(p, held.dayOfWeek, currentDate, rem, endDate)
        decreases rem
      {
        var found, next := PreviousShiftFrom(held, currentDate, p);
        if found.Failure? {
          return Failure(found.error);
        }
        var shift := found.value;
        if rem == 0 {
          break;
        }
        var nextEnd, nextRem;
        if rem >= shift.duration {
          nextEnd := shift.startTime;
          nextRem := rem - shift.duration;
        } else {
          nextEnd := shift.EndTime() - rem;
          nextRem := 0;
        }
        SpendBackStep(p, held.dayOfWeek, currentDate, rem, endDate, shift, nextRem, nextEnd);
        held := next;
        currentDate := shift.startTime - 1;
        endDate := nextEnd;
        rem := nextRem;
      }
      return Success(endDate);
    }

    /** DateAdd: by the sign of the duration; a zero duration returns the date. */
    method DateAdd(startDate: int, amount: int, ghost p: Pattern) returns (r: Result<int>)
      requires Valid() && Shows(p) && Walkable(p) && CanAdd(p, amount)
      ensures r == Written.DateAdd(p, duration, startDate, amount)
    {
      if amount > 0 {
        r := DateAddPositive(startDate, amount, p);
      } else if amount < 0 {
        r := DateAddNegative(startDate, amount, p);
      } else {
        r := Success(startDate);
      }
    }

    /**
     * DateDiff: put the dates in order, take the forward difference, and
     * negate it when the dates were swapped.
     */
    method DateDiff(startDate: int, endDate: int, ghost p: Pattern) returns (r: Result<int>)
      requires Valid() && Shows(p) && Walkable(p)
      ensures r == Written.DateDiff(p, duration, startDate, endDate)
    {
      var lo := startDate;
      var hi := endDate;
      var invertedDates := false;
      if lo > hi {
        lo, hi := hi, lo;
        invertedDates := true;
      }
      var workDiff := ForwardDiff(lo, hi, p);
      if workDiff.Failure? {
        return workDiff;
      }
      r := Success(if invertedDates then -workDiff.value else workDiff.value);
    }

    /**
     * The body of DateDiff once `lo` precedes `hi`: the whole weeks between
     * them at Duration each, then the durations of the shifts
     * AscendingShifts yields for the rest, added up whole.
     */
    method ForwardDiff(lo: int, hi: int, ghost p: Pattern) returns (r: Result<int>)
      requires Valid() && Shows(p) && Walkable(p) && lo <= hi
      ensures r == Written.ForwardDiff(p, duration, lo, hi)
    {
      var startDate, workDiff := SkipWeeks(lo, hi, p);
      var walked := AscendingShifts(startDate, hi, p);
      if walked.Failure? {
        return Failure(walked.error);
      }
      var worked := SumDurations(walked.value);
      workDiff := workDiff + worked;
      r := Success(workDiff);
    }

    /**
     * DateDiff's whole weeks: the weeks between `lo` and `hi` count at
     * Duration each, and the rest is walked from that many weeks after `lo`.
     */
    method SkipWeeks(lo: int, hi: int, ghost p: Pattern) returns (startDate: int, workDiff: int)
      requires Walkable(p) && lo <= hi
      ensures Written.ForwardDiff(p, duration, lo, hi)
              == match Written.AscendingShifts(p, startDate, hi)
                 case Failure(e) => Failure(e)
                 case Success(shifts) => Success(workDiff + TotalDuration(shifts))
    {
      startDate := lo;
      var timeDiff := hi - lo;
      workDiff := 0;
      var weeks := timeDiff / MsPerWeek;
      if weeks > 0 {
        workDiff := workDiff + weeks * duration;
        startDate := startDate + weeks * DaysPerWeek * MsPerDay;
      }
      WeeksBetween(p, lo, hi, weeks, startDate, workDiff, duration);
    }

    /** IsWorking(date): the date's day has a shift holding its time of day. */
    function IsWorking(date: int): (b: bool)
      requires Valid()
      reads this, days
      ensures b <==> WorkingAt(Pattern(), date)
    {
      var workingDay := GetDay(Weekday(date));
      if !workingDay.ContainsShifts() then false else workingDay.IsWorkingTime(date)
    }

    /** IsWorking(dayOfWeek): the day has a shift. */
    function IsWorkingDay(dayOfWeek: int): (b: bool)
      requires Valid() && 0 <= dayOfWeek < DaysPerWeek
      reads this, days
      ensures b <==> Pattern()[dayOfWeek] != []
    {
      GetDay(dayOfWeek).IsWorking()
    }
  
  }

  /**
   * The bookkeeping of a removal on day `d`: taking off the removed shift
   * keeps Duration equal to the week's total; taking off the last examined
   * shift when none was removed does so only when that shift lasts no time.
   */
  lemma RemovalAccounting(before: Pattern, d: int, k: nat, shifts: seq<Shift>, examined: Option<Shift>,
                           duration: int, duration': int, after: Pattern)
    requires 0 <= d < |before| && k <= |before[d]| && after == before[d := shifts]
    requires k < |before[d]| ==> shifts == before[d][..k] + before[d][k + 1..] && examined == Some(before[d][k])
    requires k == |before[d]| ==>
               && shifts == before[d]
               && examined == (if before[d] == [] then None else Some(before[d][|before[d]| - 1]))
    requires duration' == duration - (if examined.Some? then examined.value.duration else 0)
    ensures k < |before[d]| ==>
              && after == before[d := before[d][..k] + before[d][k + 1..]]
              && duration' == duration - before[d][k].duration
    ensures k == |before[d]| ==>
              && after == before
              && duration' == duration - (if before[d] == [] then 0 else before[d][|before[d]| - 1].duration)
    ensures duration == WeekTotal(before) ==>
              (duration' == WeekTotal(after) <==> k < |before[d]| || before[d] == [] || before[d][|before[d]| - 1].duration == 0)
  {
    if k < |before[d]| {
      TotalRemove(before[d], k);
      WeekTotalUpdate(before, d, shifts);
    } else {
      assert after == before;
    }
  }

  /** One turn of the ascending loop, on the list collected so far. */
  lemma AscendingStep(p: Pattern, front: seq<Shift>, day: int, cursor: int, end: int)
    requires Walkable(p) && Walks.ContainsShifts(p)
    ensures cursor >= end ==> Prefixed(front, AscendingFrom(p, day, cursor, end)) == Success(front)
    ensures cursor < end && Weekday(cursor) != day ==>
              Prefixed(front, AscendingFrom(p, day, cursor, end)) == Failure(WrongDayOfWeek)
    ensures cursor < end && Weekday(cursor) == day ==>
              var s := NextOccurrence(p, cursor);
              Prefixed(front, AscendingFrom(p, day, cursor, end))
              == if s.startTime < end then Prefixed(front + [s], AscendingFrom(p, Weekday(s.startTime), s.EndTime(), end))
                 else Success(front)
  {
    if cursor >= end {
      assert front + [] == front;
    } else if Weekday(cursor) == day {
      var s := NextOccurrence(p, cursor);
      if s.startTime < end {
        var rest := AscendingFrom(p, Weekday(s.startTime), s.EndTime(), end);
        if rest.Success? {
          assert front + ([s] + rest.value) == (front + [s]) + rest.value;
        }
      } else {
        assert front + [] == front;
      }
    }
  }

  /** One turn of the DateAddPositive loop. */
  lemma SpendStep(p: Pattern, day: int, cursor: int, rem: nat, endDate: int, s: Shift, nextRem: nat, nextEnd: int)
    requires Walkable(p) && Walks.ContainsShifts(p) && Weekday(cursor) == day
    requires s == NextOccurrence(p, cursor) && rem > 0
    requires nextRem == (if rem >= s.duration then rem - s.duration else 0)
    requires nextEnd == (if rem >= s.duration then s.EndTime() else s.startTime + rem)
    ensures nextRem < rem
    ensures AddPositiveFrom(p, day, cursor, rem, endDate)
            == AddPositiveFrom(p, Weekday(s.startTime), s.EndTime(), nextRem, nextEnd)
  {
    if rem >= s.duration {
      assert AddPositiveFrom(p, day, cursor, rem, endDate)
             == AddPositiveFrom(p, Weekday(s.startTime), s.EndTime(), rem - s.duration, s.EndTime());
    } else {
      assert AddPositiveFrom(p, day, cursor, rem, endDate)
             == AddPositiveFrom(p, Weekday(s.startTime), s.EndTime(), 0, s.startTime + rem);
    }
  }

  /** One question of the inner ascending loop, against the shift the walk finds. */
  lemma SeekStep(p: Pattern, cursor: int, rollovers: nat, goal: Option<Shift>)
    requires Walkable(p) && SeekForward(p, cursor, rollovers) == goal && goal.Some?
    ensures var next := NextIn(p[Weekday(cursor)], TimeOfDay(cursor));
            && (next.Some? ==> goal == Some(Dated(cursor, next.value))
                               && Weekday(Dated(cursor, next.value).startTime) == Weekday(cursor))
            && (next.None? ==> rollovers > 0
                               && SeekForward(p, Midnight(cursor) + MsPerDay, rollovers - 1) == goal)
  {
    var next := NextIn(p[Weekday(cursor)], TimeOfDay(cursor));
    if next.Some? {
      NextInWalkable(p, Weekday(cursor), TimeOfDay(cursor));
      SameDay(cursor, Dated(cursor, next.value).startTime);
    }
  }

  /**
   * DateAddPositive's end date and remainder after its whole weeks are
   * skipped, as the method computes them, are where its loop starts.
   */
  lemma DateAddPositiveSkips(p: Pattern, weekTotal: int, startDate: int, amount: int, endDate: int, rem: int)
    requires Walkable(p) && Walks.ContainsShifts(p) && amount > 0 && weekTotal != 0
    requires TruncDiv(amount, weekTotal) > 0 ==> endDate == startDate + TruncDiv(amount, weekTotal) * DaysPerWeek * MsPerDay
    requires TruncDiv(amount, weekTotal) > 0 ==> rem == amount - TruncDiv(amount, weekTotal) * weekTotal
    requires TruncDiv(amount, weekTotal) <= 0 ==> endDate == startDate && rem == amount
    ensures Written.DateAddPositive(p, weekTotal, startDate, amount) == AddPositiveFrom(p, Weekday(endDate), endDate, rem, endDate)
  {
    var weeks := WholeWeeks(amount, weekTotal);
    assert TruncDiv(amount, weekTotal) * DaysPerWeek * MsPerDay == TruncDiv(amount, weekTotal) * MsPerWeek;
    assert endDate == startDate + weeks * MsPerWeek && rem == amount - weeks * weekTotal;
    DateAddPositiveSteps(p, weekTotal, startDate, amount, endDate, rem);
  }

  /** Skipping whole weeks as DateAddPositive writes it out. */
  lemma WeeksSkipped(startDate: int, amount: int, weekTotal: int)
    requires amount > 0 && weekTotal != 0
    ensures var weeks := TruncDiv(amount, weekTotal);
            && (if weeks > 0 then amount - weeks * weekTotal else amount) == amount - WholeWeeks(amount, weekTotal) * weekTotal
            && (if weeks > 0 then startDate + weeks * DaysPerWeek * MsPerDay else startDate)
               == startDate + WholeWeeks(amount, weekTotal) * MsPerWeek
  {
  }

  /**
   * The foreach loop of DateDiff: the durations of the shifts, added up in
   * the order they come.
   */
  method SumDurations(shifts: seq<Shift>) returns (total: int)
    ensures total == TotalDuration(shifts)
  {
    total := 0;
    var i := 0;
    while i < |shifts|
      invariant 0 <= i <= |shifts| && total == TotalDuration(shifts[..i])
    {
      assert shifts[..i + 1][..i] == shifts[..i];
      total := total + shifts[i].duration;
      i := i + 1;
    }
    assert shifts[..i] == shifts;
  }

  /** The descending loop at or past the end date yields nothing more. */
  lemma DescendingDone(p: Pattern, front: seq<Shift>, day: int, cursor: int, end: int)
    requires Walkable(p) && cursor <= end
    ensures Prefixed(front, DescendingFrom(p, day, cursor, end)) == Success(front)
  {
    assert front + [] == front;
  }

  /**
   * A shift found by the descending loop is dated on the cursor's day, put
   * after the list collected so far while it starts after the end date, and
   * the loop goes on from one millisecond before its start.
   */
  lemma DescendingFound(p: Pattern, front: seq<Shift>, day: int, cursor: int, end: int, s: Shift)
    requires Walkable(p) && cursor > end && Weekday(cursor) == day
    requires PreviousIn(p[day], TimeOfDay(cursor)) == Some(s)
    ensures Dated(cursor, s).startTime < cursor
    ensures Prefixed(front, DescendingFrom(p, day, cursor, end))
            == Prefixed(if Dated(cursor, s).startTime > end then front + [Dated(cursor, s)] else front,
                        DescendingFrom(p, day, Dated(cursor, s).startTime - 1, end))
  {
    PreviousInWalkable(p, day, TimeOfDay(cursor));
    var d := Dated(cursor, s);
    var rest := DescendingFrom(p, day, d.startTime - 1, end);
    if rest.Success? && d.startTime > end {
      assert front + ([d] + rest.value) == (front + [d]) + rest.value;
    }
  }

  /** A day with nothing before the cursor hands the descending loop on to the end of the day before. */
  lemma DescendingRollover(p: Pattern, day: int, cursor: int, end: int)
    requires Walkable(p) && cursor > end && Weekday(cursor) == day && PreviousIn(p[day], TimeOfDay(cursor)).None?
    ensures Midnight(cursor) - 1 < cursor
    ensures DescendingFrom(p, day, cursor, end) == DescendingFrom(p, Weekday(Midnight(cursor) - 1), Midnight(cursor) - 1, end)
  {
  }

  /** One turn of the DateAddNegative loop. */
  lemma SpendBackStep(p: Pattern, day: int, cursor: int, rem: nat, endDate: int, s: Shift, nextRem: nat, nextEnd: int)
    requires Walkable(p) && ReachableBackward(p) && Weekday(cursor) == day
    requires s == PreviousShift(p, cursor) && rem > 0
    requires nextRem == (if rem >= s.duration then rem - s.duration else 0)
    requires nextEnd == (if rem >= s.duration then s.startTime else s.EndTime() - rem)
    ensures nextRem < rem
    ensures AddNegativeFrom(p, day, cursor, rem, endDate)
            == AddNegativeFrom(p, Weekday(s.startTime), s.startTime - 1, nextRem, nextEnd)
  {
    if rem >= s.duration {
      assert AddNegativeFrom(p, day, cursor, rem, endDate)
             == AddNegativeFrom(p, Weekday(s.startTime), s.startTime - 1, rem - s.duration, s.startTime);
    } else {
      assert AddNegativeFrom(p, day, cursor, rem, endDate)
             == AddNegativeFrom(p, Weekday(s.startTime), s.startTime - 1, 0, s.EndTime() - rem);
    }
  }

  /** One question of the inner descending loop, against the shift the backward search finds. */
  lemma SeekPreviousStep(p: Pattern, cursor: int, rollovers: nat, goal: Option<Shift>)
    requires Walkable(p) && SeekPrevious(p, cursor, rollovers) == goal && goal.Some?
    ensures var previous := PreviousIn(p[Weekday(cursor)], TimeOfDay(cursor));
            && (previous.Some? ==> goal == Some(Dated(cursor, previous.value))
                                   && Weekday(Dated(cursor, previous.value).startTime) == Weekday(cursor))
            && (previous.None? ==> rollovers > 0
                                   && SeekPrevious(p, Midnight(cursor) - 1, rollovers - 1) == goal)
  {
    var previous := PreviousIn(p[Weekday(cursor)], TimeOfDay(cursor));
    if previous.Some? {
      PreviousInWalkable(p, Weekday(cursor), TimeOfDay(cursor));
      SameDay(cursor, Dated(cursor, previous.value).startTime);
    }
  }

  /**
   * DateAddNegative's end date and remainder after its whole weeks are
   * skipped back, as the method computes them, are where its loop starts.
   */
  lemma DateAddNegativeSkips(p: Pattern, weekTotal: int, startDate: int, amount: int, endDate: int, rem: int)
    requires Walkable(p) && Walks.ContainsShifts(p) && ReachableBackward(p) && amount < 0 && weekTotal != 0
    requires TruncDiv(-amount, weekTotal) > 0 ==> endDate == startDate + -TruncDiv(-amount, weekTotal) * DaysPerWeek * MsPerDay
    requires TruncDiv(-amount, weekTotal) > 0 ==> rem == -amount - TruncDiv(-amount, weekTotal) * weekTotal
    requires TruncDiv(-amount, weekTotal) <= 0 ==> endDate == startDate && rem == -amount
    ensures Written.DateAddNegative(p, weekTotal, startDate, amount) == AddNegativeFrom(p, Weekday(endDate), endDate, rem, endDate)
  {
    var weeks := WholeWeeks(-amount, weekTotal);
    assert -TruncDiv(-amount, weekTotal) * DaysPerWeek * MsPerDay == -(TruncDiv(-amount, weekTotal) * MsPerWeek);
    assert endDate == startDate - weeks * MsPerWeek && rem == -amount - weeks * weekTotal;
    DateAddNegativeSteps(p, weekTotal, startDate, amount, endDate, rem);
  }

  /** Skipping whole weeks back as DateAddNegative writes it out. */
  lemma WeeksSkippedBack(startDate: int, back: int, weekTotal: int)
    requires back > 0 && weekTotal != 0
    ensures var weeks := TruncDiv(back, weekTotal);
            && (if weeks > 0 then back - weeks * weekTotal else back) == back - WholeWeeks(back, weekTotal) * weekTotal
            && (if weeks > 0 then startDate + -weeks * DaysPerWeek * MsPerDay else startDate)
               == startDate - WholeWeeks(back, weekTotal) * MsPerWeek
  {
  }

  /** DateDiff's whole weeks, skipped as the method writes it out. */
  lemma WeeksBetween(p: Pattern, lo: int, hi: int, weeks: int, from: int, base: int, weekTotal: int)
    requires Walkable(p) && lo <= hi && weeks == (hi - lo) / MsPerWeek
    requires weeks > 0 ==> from == lo + weeks * DaysPerWeek * MsPerDay && base == weeks * weekTotal
    requires weeks <= 0 ==> from == lo && base == 0
    ensures Written.ForwardDiff(p, weekTotal, lo, hi)
            == match AscendingShifts(p, from, hi)
               case Failure(e) => Failure(e)
               case Success(shifts) => Success(base + TotalDuration(shifts))
  {
    assert from == lo + weeks * MsPerWeek && base == weeks * weekTotal;
  }
}
