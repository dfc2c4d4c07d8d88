/**
 * The walks of source/WorkingWeek/Week.cs over a weekly pattern of shifts,
 * as the functions they are meant to compute, and what they promise: the
 * shifts met going forward or backward from an instant, business-time
 * addition (DateAdd) and business-time difference (DateDiff).
 *
 * A walk that has yielded a shift looks the next one up on the weekday of
 * its new cursor here; the loops of Week.cs keep asking the day they found
 * the shift on, which the Written module reproduces and relates to these.
 */
module Walks {
  import opened Time
  import opened Shifts
  import opened Days

  /** The shift lists of the seven days, indexed by System.DayOfWeek (Sunday = 0). */
  type Pattern = seq<seq<Shift>>

  /** Week.ContainsShifts: some day has a shift. */
  predicate ContainsShifts(p: Pattern) {
    exists d | 0 <= d < |p| :: p[d] != []
  }

  /**
   * What the walks need to move on: seven days, and every shift starts within
   * its day and lasts a positive time (so its end is after its start).
   */
  predicate Walkable(p: Pattern) {
    && |p| == DaysPerWeek
    && forall d, i | 0 <= d < |p| && 0 <= i < |p[d]| ::
         0 <= p[d][i].startTime < MsPerDay && 0 < p[d][i].duration
  }

  /** A pattern whose every day is well formed: shifts inside the day, not overlapping. */
  predicate WellFormedWeek(p: Pattern) {
    |p| == DaysPerWeek && forall d | 0 <= d < |p| :: WellFormed(p[d])
  }

  lemma WellFormedWalkable(p: Pattern)
    requires WellFormedWeek(p)
    ensures Walkable(p)
  {
  }

  /** The working time of the whole pattern: the shift durations of every day added up. */
  function WeekTotal(p: Pattern): int {
    if p == [] then 0 else WeekTotal(p[..|p| - 1]) + TotalDuration(p[|p| - 1])
  }

  /** A pattern without shifts has no working time. */
  lemma {:induction false} WeekTotalIdle(p: Pattern)
    requires forall d | 0 <= d < |p| :: p[d] == []
    ensures WeekTotal(p) == 0
    decreases |p|
  {
    if p != [] {
      WeekTotalIdle(p[..|p| - 1]);
    }
  }

  /** Replacing one day's shifts changes the week's total by the change in that day's total. */
  lemma {:induction false} WeekTotalUpdate(p: Pattern, d: int, shifts: seq<Shift>)
    requires 0 <= d < |p|
    ensures WeekTotal(p[d := shifts]) == WeekTotal(p) - TotalDuration(p[d]) + TotalDuration(shifts)
    decreases |p|
  {
    var n := |p|;
    var q := p[d := shifts];
    if d == n - 1 {
      assert q[..n - 1] == p[..n - 1];
    } else {
      assert q[..n - 1] == p[..n - 1][d := shifts];
      WeekTotalUpdate(p[..n - 1], d, shifts);
    }
  }

  /** Week.IsWorking(date): a shift of the date's weekday holds its time of day. */
  predicate WorkingAt(p: Pattern, t: int)
    requires |p| == DaysPerWeek
  {
    FindIn(p[Weekday(t)], TimeOfDay(t)).Some?
  }

  /** A shift found by a day lookup, moved onto the date of `cursor`. */
  function Dated(cursor: int, s: Shift): Shift {
    Shift(Midnight(cursor) + TimeOfDay(s.startTime), s.duration)
  }

  /** A time of day is its own time of day. */
  lemma TimeOfDayInDay(x: int)
    requires 0 <= x < MsPerDay
    ensures TimeOfDay(x) == x
  {
  }

  /**
   * What GetNextShift returns on a day of a walkable pattern starts inside the
   * day, no earlier than `t`, and lasts a positive time.
   */
  lemma NextInWalkable(p: Pattern, d: int, t: int)
    requires Walkable(p) && 0 <= d < DaysPerWeek && 0 <= t < MsPerDay
    requires NextIn(p[d], t).Some?
    ensures t <= NextIn(p[d], t).value.startTime < MsPerDay
    ensures 0 < NextIn(p[d], t).value.duration
    ensures TimeOfDay(NextIn(p[d], t).value.startTime) == NextIn(p[d], t).value.startTime
  {
    NextInSpec(p[d], t);
    var s := NextIn(p[d], t).value;
    var i :| 0 <= i < |p[d]| && t < p[d][i].EndTime()
             && s.EndTime() == p[d][i].EndTime()
             && s.startTime == (if t <= p[d][i].startTime then p[d][i].startTime else t);
    assert 0 <= p[d][i].startTime < MsPerDay && 0 < p[d][i].duration;
    TimeOfDayInDay(s.startTime);
  }

  // ---------------------------------------------------------------------
  // Forward
  // ---------------------------------------------------------------------

  /**
   * The inner loop of AscendingShifts: ask the cursor's day for its next
   * shift and, while there is none, move to midnight of the following day,
   * at most `rollovers` times. The shift found is dated on its day.
   */
  function SeekForward(p: Pattern, cursor: int, rollovers: nat): (r: Option<Shift>)
    requires Walkable(p)
    ensures r.Some? ==> cursor <= r.value.startTime && 0 < r.value.duration
    ensures r.Some? ==> Midnight(r.value.startTime) == r.value.startTime - TimeOfDay(r.value.startTime)
    decreases rollovers
  {
    match NextIn(p[Weekday(cursor)], TimeOfDay(cursor))
    case Some(s) =>
      NextInWalkable(p, Weekday(cursor), TimeOfDay(cursor));
      Some(Dated(cursor, s))
    case None =>
      if rollovers == 0 then None
      else
        NextMidnight(cursor);
        SeekForward(p, Midnight(cursor) + MsPerDay, rollovers - 1)
  }

  /** The number of midnights to pass from weekday `w` to reach midnight of weekday `d`: 1 to 7. */
  function DaysUntil(w: int, d: int): (n: int)
    requires 0 <= w < DaysPerWeek && 0 <= d < DaysPerWeek
    ensures 1 <= n <= DaysPerWeek
    ensures (w + n) % DaysPerWeek == d
  {
    if w < d then d - w else d - w + DaysPerWeek
  }

  /** With a shift on weekday `d`, the search succeeds once it may reach midnight of `d`. */
  lemma {:induction false} SeekForwardFinds(p: Pattern, cursor: int, rollovers: nat, d: int)
    requires Walkable(p) && 0 <= d < DaysPerWeek && p[d] != []
    requires DaysUntil(Weekday(cursor), d) <= rollovers
    ensures SeekForward(p, cursor, rollovers).Some?
    decreases rollovers
  {
    if NextIn(p[Weekday(cursor)], TimeOfDay(cursor)).None? {
      var next := Midnight(cursor) + MsPerDay;
      NextMidnight(cursor);
      if Weekday(next) == d {
        assert 0 < p[d][0].EndTime();
        assert NextIn(p[d], 0).Some?;
      } else {
        SeekForwardFinds(p, next, rollovers - 1, d);
      }
    }
  }

  /** A week with shifts always has a next shift, at most seven midnights away. */
  lemma NextOccurrenceExists(p: Pattern, cursor: int)
    requires Walkable(p) && ContainsShifts(p)
    ensures SeekForward(p, cursor, DaysPerWeek).Some?
  {
    var d :| 0 <= d < |p| && p[d] != [];
    SeekForwardFinds(p, cursor, DaysPerWeek, d);
  }

  /** The shift AscendingShifts yields next from `cursor` (its inner loop run to success). */
  function NextOccurrence(p: Pattern, cursor: int): (s: Shift)
    requires Walkable(p) && ContainsShifts(p)
    ensures cursor <= s.startTime && 0 < s.duration
  {
    NextOccurrenceExists(p, cursor);
    SeekForward(p, cursor, DaysPerWeek).value
  }

  /** A shift the cursor's own day returns decides the working time up to its end. */
  lemma FoundOnDay(shifts: seq<Shift>, cursor: int, t: int)
    requires WellFormed(shifts) && NextIn(shifts, TimeOfDay(cursor)).Some?
    requires cursor <= t < Dated(cursor, NextIn(shifts, TimeOfDay(cursor)).value).EndTime()
    ensures Weekday(t) == Weekday(cursor)
    ensures FindIn(shifts, TimeOfDay(t)).Some? <==> Dated(cursor, NextIn(shifts, TimeOfDay(cursor)).value).startTime <= t
  {
    var s := NextIn(shifts, TimeOfDay(cursor)).value;
    var m := Midnight(cursor);
    var tt := t - m;
    assert 0 <= s.startTime < s.EndTime() <= MsPerDay by {
      NextInWithin(shifts, TimeOfDay(cursor));
    }
    assert Dated(cursor, s).startTime == m + s.startTime by {
      TimeOfDayInDay(s.startTime);
    }
    assert TimeOfDay(t) == tt && Weekday(t) == Weekday(cursor) by {
      SameDay(cursor, t);
    }
    assert FindIn(shifts, tt).Some? <==> s.startTime <= tt by {
      NextInDecides(shifts, TimeOfDay(cursor), tt);
    }
  }

  /** A day with nothing left after the cursor has no working time left. */
  lemma NothingOnDay(p: Pattern, cursor: int, t: int)
    requires WellFormedWeek(p)
    requires NextIn(p[Weekday(cursor)], TimeOfDay(cursor)).None?
    requires cursor <= t < Midnight(cursor) + MsPerDay
    ensures !WorkingAt(p, t)
  {
    Split(cursor);
    SameDay(cursor, t);
    NextInExact(p[Weekday(cursor)], TimeOfDay(cursor), TimeOfDay(t));
  }

  /**
   * On a well-formed week the search is exact: nothing is working from the
   * cursor up to the start of the shift it finds, and all of that shift is.
   */
  lemma {:induction false} SeekForwardExact(p: Pattern, cursor: int, rollovers: nat, t: int)
    requires WellFormedWeek(p) && Walkable(p) && SeekForward(p, cursor, rollovers).Some?
    requires cursor <= t < SeekForward(p, cursor, rollovers).value.EndTime()
    ensures WorkingAt(p, t) <==> SeekForward(p, cursor, rollovers).value.startTime <= t
    decreases rollovers
  {
    if NextIn(p[Weekday(cursor)], TimeOfDay(cursor)).Some? {
      FoundOnDay(p[Weekday(cursor)], cursor, t);
    } else {
      var next := Midnight(cursor) + MsPerDay;
      assert SeekForward(p, cursor, rollovers) == SeekForward(p, next, rollovers - 1);
      if t < next {
        NothingOnDay(p, cursor, t);
      } else {
        SeekForwardExact(p, next, rollovers - 1, t);
      }
    }
  }

  /** The shift after `cursor`: no working time is skipped before it, and all of it is working. */
  lemma NextOccurrenceExact(p: Pattern, cursor: int, t: int)
    requires WellFormedWeek(p) && ContainsShifts(p)
    ensures Walkable(p)
    ensures cursor <= t < NextOccurrence(p, cursor).EndTime() ==>
              (WorkingAt(p, t) <==> NextOccurrence(p, cursor).startTime <= t)
  {
    WellFormedWalkable(p);
    NextOccurrenceExists(p, cursor);
    if cursor <= t < NextOccurrence(p, cursor).EndTime() {
      SeekForwardExact(p, cursor, DaysPerWeek, t);
    }
  }

  /**
   * AscendingShifts(cursor, end) on a week with shifts: the shifts met walking
   * forward, in order, for as long as they start before `end`. They lie after
   * the cursor, follow each other without overlapping and are never empty.
   */
  function Ascending(p: Pattern, cursor: int, end: int): (r: seq<Shift>)
    requires Walkable(p) && ContainsShifts(p)
    ensures forall i | 0 <= i < |r| :: cursor <= r[i].startTime < end && 0 < r[i].duration
    ensures forall i | 0 <= i < |r| - 1 :: r[i].EndTime() <= r[i + 1].startTime
    decreases end - cursor
  {
    if cursor >= end then []
    else
      var s := NextOccurrence(p, cursor);
      if s.startTime < end then [s] + Ascending(p, s.EndTime(), end) else []
  }

  /** Some shift of the list holds `t`. */
  predicate Covered(shifts: seq<Shift>, t: int) {
    exists i | 0 <= i < |shifts| :: shifts[i].Holds(t)
  }

  /** A list with a shift in front covers what the shift or the rest covers. */
  lemma CoveredPrepend(s: Shift, rest: seq<Shift>, t: int)
    ensures Covered([s] + rest, t) <==> s.Holds(t) || Covered(rest, t)
  {
    var r := [s] + rest;
    if Covered(r, t) {
      var i :| 0 <= i < |r| && r[i].Holds(t);
      if i > 0 {
        assert rest[i - 1].Holds(t);
      }
    }
    if Covered(rest, t) {
      var i :| 0 <= i < |rest| && rest[i].Holds(t);
      assert r[i + 1].Holds(t);
    }
    if s.Holds(t) {
      assert r[0].Holds(t);
    }
  }

  /**
   * On a well-formed week the ascending walk is exact: an instant from the
   * cursor up to `end` is working if and only if a yielded shift holds it.
   */
  lemma {:induction false} AscendingCoversWork(p: Pattern, cursor: int, end: int, t: int)
    requires WellFormedWeek(p) && ContainsShifts(p) && cursor <= t < end
    ensures Walkable(p)
    ensures WorkingAt(p, t) <==> Covered(Ascending(p, cursor, end), t)
    decreases end - cursor
  {
    WellFormedWalkable(p);
    var s := NextOccurrence(p, cursor);
    NextOccurrenceExact(p, cursor, t);
    if s.startTime < end {
      var rest := Ascending(p, s.EndTime(), end);
      assert Ascending(p, cursor, end) == [s] + rest;
      CoveredPrepend(s, rest, t);
      if t < s.EndTime() {
        assert !Covered(rest, t);
      } else {
        AscendingCoversWork(p, s.EndTime(), end, t);
      }
    }
  }

  /** A shift cut off at `end`. */
  function Trim(s: Shift, end: int): (r: Shift)
    ensures r.startTime == s.startTime
    ensures r.EndTime() == if s.EndTime() <= end then s.EndTime() else end
  {
    if s.EndTime() <= end then s else Shift(s.startTime, end - s.startTime)
  }

  /** The shifts of a walk, each cut off at `end`: the working time they hold before it. */
  function Clip(shifts: seq<Shift>, end: int): (r: seq<Shift>)
    ensures |r| == |shifts|
  {
    if shifts == [] then [] else [Trim(shifts[0], end)] + Clip(shifts[1..], end)
  }

  /**
   * Business time added to an instant, forward: walk the shifts from
   * `cursor`, spending whole shifts while `rem` covers them and stopping
   * inside the first one it does not.
   */
  function WalkForward(p: Pattern, cursor: int, rem: nat): (r: int)
    requires Walkable(p)
    ensures cursor <= r
    ensures rem > 0 && ContainsShifts(p) ==> cursor < r
    decreases rem
  {
    if rem == 0 || !ContainsShifts(p) then cursor
    else
      var s := NextOccurrence(p, cursor);
      if rem >= s.duration then WalkForward(p, s.EndTime(), rem - s.duration)
      else s.startTime + rem
  }

  /** The working time from `cursor` up to `end`, a walk's shifts clipped at `end`. */
  function WorkBetween(p: Pattern, cursor: int, end: int): int
    requires Walkable(p)
  {
    if ContainsShifts(p) then TotalDuration(Clip(Ascending(p, cursor, end), end)) else 0
  }

  /** The total of a list with one more shift in front. */
  lemma TotalPrepend(s: Shift, rest: seq<Shift>)
    ensures TotalDuration([s] + rest) == s.duration + TotalDuration(rest)
  {
    TotalConcat([s], rest);
    assert [s][..0] == [];
  }

  /** The working time up to `end` is that of the next shift, cut off, and what follows it. */
  lemma WorkBetweenStep(p: Pattern, cursor: int, end: int)
    requires Walkable(p) && ContainsShifts(p) && cursor < end
    requires NextOccurrence(p, cursor).startTime < end
    ensures WorkBetween(p, cursor, end)
            == Trim(NextOccurrence(p, cursor), end).duration + WorkBetween(p, NextOccurrence(p, cursor).EndTime(), end)
  {
    var s := NextOccurrence(p, cursor);
    var rest := Ascending(p, s.EndTime(), end);
    assert Ascending(p, cursor, end) == [s] + rest;
    assert ([s] + rest)[1..] == rest;
    TotalPrepend(Trim(s, end), Clip(rest, end));
  }

  /**
   * Forward business-time addition and the working time between two
   * instants are inverse: walking `rem` forward from `cursor` lands where
   * exactly `rem` of working time lies between the two.
   */
  lemma {:induction false} WalkForwardRoundTrip(p: Pattern, cursor: int, rem: nat)
    requires Walkable(p) && ContainsShifts(p)
    ensures WorkBetween(p, cursor, WalkForward(p, cursor, rem)) == rem
    decreases rem
  {
    if rem > 0 {
      var s := NextOccurrence(p, cursor);
      if rem >= s.duration {
        var r := WalkForward(p, s.EndTime(), rem - s.duration);
        assert r == WalkForward(p, cursor, rem);
        WorkBetweenStep(p, cursor, r);
        assert Trim(s, r).duration == s.duration;
        WalkForwardRoundTrip(p, s.EndTime(), rem - s.duration);
      } else {
        var r := s.startTime + rem;
        assert r == WalkForward(p, cursor, rem);
        WorkBetweenStep(p, cursor, r);
        assert Trim(s, r).duration == rem;
        assert Ascending(p, s.EndTime(), r) == [];
      }
    }
  }

  // ---------------------------------------------------------------------
  // Backward
  // ---------------------------------------------------------------------

  /**
   * What GetPreviousShift returns on a day of a walkable pattern starts inside
   * the day, before `t`, and lasts a positive time.
   */
  lemma PreviousInWalkable(p: Pattern, d: int, t: int)
    requires Walkable(p) && 0 <= d < DaysPerWeek
    requires PreviousIn(p[d], t).Some?
    ensures 0 <= PreviousIn(p[d], t).value.startTime < MsPerDay
    ensures 0 < PreviousIn(p[d], t).value.duration
    ensures TimeOfDay(PreviousIn(p[d], t).value.startTime) == PreviousIn(p[d], t).value.startTime
  {
    PreviousInSpec(p[d], t);
    var s := PreviousIn(p[d], t).value;
    var i :| 0 <= i < |p[d]| && p[d][i].startTime < t
             && s.startTime == p[d][i].startTime
             && s.EndTime() == (if p[d][i].EndTime() <= t then p[d][i].EndTime() else t);
    assert 0 <= p[d][i].startTime < MsPerDay && 0 < p[d][i].duration;
    TimeOfDayInDay(s.startTime);
  }

  /**
   * The search DescendingShifts means to make: the last working stretch that
   * ends by `cursor`. The day of the instant just before the cursor is asked
   * up to the cursor; when it has nothing, the search moves to the end of the
   * previous day, which is asked whole.
   */
  function SeekBackward(p: Pattern, cursor: int, rollovers: nat): (r: Option<Shift>)
    requires Walkable(p)
    ensures r.Some? ==> r.value.EndTime() <= cursor && 0 < r.value.duration
    decreases rollovers
  {
    var last := cursor - 1;
    match PreviousIn(p[Weekday(last)], TimeOfDay(last) + 1)
    case Some(s) =>
      PreviousInWalkable(p, Weekday(last), TimeOfDay(last) + 1);
      Some(Dated(last, s))
    case None =>
      if rollovers == 0 then None else SeekBackward(p, Midnight(last), rollovers - 1)
  }

  /** The number of day ends to pass back from weekday `w` to reach the end of weekday `d`: 1 to 7. */
  function DaysBack(w: int, d: int): (n: int)
    requires 0 <= w < DaysPerWeek && 0 <= d < DaysPerWeek
    ensures 1 <= n <= DaysPerWeek
    ensures (w + DaysPerWeek - n) % DaysPerWeek == d
  {
    if d < w then w - d else w - d + DaysPerWeek
  }

  /** With a shift on weekday `d`, the backward search succeeds once it may reach the end of `d`. */
  lemma {:induction false} SeekBackwardFinds(p: Pattern, cursor: int, rollovers: nat, d: int)
    requires Walkable(p) && 0 <= d < DaysPerWeek && p[d] != []
    requires DaysBack(Weekday(cursor - 1), d) <= rollovers
    ensures SeekBackward(p, cursor, rollovers).Some?
    decreases rollovers
  {
    var last := cursor - 1;
    if PreviousIn(p[Weekday(last)], TimeOfDay(last) + 1).None? {
      var next := Midnight(last);
      PreviousLastMillisecond(last);
      if Weekday(next - 1) == d {
        assert p[d][0].startTime < MsPerDay;
        assert PreviousIn(p[d], MsPerDay).Some?;
      } else {
        SeekBackwardFinds(p, next, rollovers - 1, d);
      }
    }
  }

  /** A week with shifts always has a previous shift, at most seven day ends back. */
  lemma PreviousOccurrenceExists(p: Pattern, cursor: int)
    requires Walkable(p) && ContainsShifts(p)
    ensures SeekBackward(p, cursor, DaysPerWeek).Some?
  {
    var d :| 0 <= d < |p| && p[d] != [];
    SeekBackwardFinds(p, cursor, DaysPerWeek, d);
  }

  /** The working stretch before `cursor` that a backward walk meets first. */
  function PreviousOccurrence(p: Pattern, cursor: int): (s: Shift)
    requires Walkable(p) && ContainsShifts(p)
    ensures s.EndTime() <= cursor && 0 < s.duration
  {
    PreviousOccurrenceExists(p, cursor);
    SeekBackward(p, cursor, DaysPerWeek).value
  }

  /** A shift the day of `last` returns up to `last` decides the working time from its start to `last`. */
  lemma FoundBeforeOnDay(shifts: seq<Shift>, last: int, s: Shift, t: int)
    requires WellFormed(shifts) && PreviousIn(shifts, TimeOfDay(last) + 1) == Some(s)
    requires Dated(last, s).startTime <= t <= last
    ensures Weekday(t) == Weekday(last)
    ensures FindIn(shifts, TimeOfDay(t)).Some? <==> t < Dated(last, s).EndTime()
  {
    var m := Midnight(last);
    var tt := t - m;
    assert 0 <= s.startTime < s.EndTime() <= MsPerDay by {
      PreviousInWithin(shifts, TimeOfDay(last) + 1);
    }
    assert Dated(last, s).startTime == m + s.startTime by {
      TimeOfDayInDay(s.startTime);
    }
    assert TimeOfDay(t) == tt && Weekday(t) == Weekday(last) by {
      SameDay(last, t);
    }
    assert FindIn(shifts, tt).Some? <==> tt < s.EndTime() by {
      PreviousInDecides(shifts, TimeOfDay(last) + 1, tt);
    }
  }

  /** A day with nothing up to `last` has no working time up to `last`. */
  lemma NothingBeforeOnDay(p: Pattern, last: int, t: int)
    requires WellFormedWeek(p)
    requires PreviousIn(p[Weekday(last)], TimeOfDay(last) + 1).None?
    requires Midnight(last) <= t <= last
    ensures !WorkingAt(p, t)
  {
    SameDay(last, t);
    PreviousInExact(p[Weekday(last)], TimeOfDay(last) + 1, TimeOfDay(t));
  }

  /**
   * On a well-formed week the backward search is exact: all of the stretch
   * it finds is working, and nothing is from its end up to the cursor.
   */
  lemma {:induction false} SeekBackwardExact(p: Pattern, cursor: int, rollovers: nat, t: int)
    requires WellFormedWeek(p) && Walkable(p) && SeekBackward(p, cursor, rollovers).Some?
    requires SeekBackward(p, cursor, rollovers).value.startTime <= t < cursor
    ensures WorkingAt(p, t) <==> t < SeekBackward(p, cursor, rollovers).value.EndTime()
    decreases rollovers
  {
    var last := cursor - 1;
    var day := p[Weekday(last)];
    match PreviousIn(day, TimeOfDay(last) + 1)
    case Some(s) =>
      assert SeekBackward(p, cursor, rollovers) == Some(Dated(last, s));
      assert WellFormed(day);
      FoundBeforeOnDay(day, last, s, t);
    case None =>
      var next := Midnight(last);
      assert SeekBackward(p, cursor, rollovers) == SeekBackward(p, next, rollovers - 1);
      if next <= t {
        NothingBeforeOnDay(p, last, t);
      } else {
        SeekBackwardExact(p, next, rollovers - 1, t);
      }
  }

  /** The stretch before `cursor`: all of it is working, and no working time after it is skipped. */
  lemma PreviousOccurrenceExact(p: Pattern, cursor: int, t: int)
    requires WellFormedWeek(p) && ContainsShifts(p)
    ensures Walkable(p)
    ensures PreviousOccurrence(p, cursor).startTime <= t < cursor ==>
              (WorkingAt(p, t) <==> t < PreviousOccurrence(p, cursor).EndTime())
  {
    WellFormedWalkable(p);
    PreviousOccurrenceExists(p, cursor);
    if PreviousOccurrence(p, cursor).startTime <= t < cursor {
      SeekBackwardExact(p, cursor, DaysPerWeek, t);
    }
  }

  /**
   * DescendingShifts(cursor, end) on a week with shifts, as meant: the
   * working stretches met walking back, latest first, for as long as they
   * start after `end`. They end by the cursor, follow each other without
   * overlapping and are never empty.
   */
  function Descending(p: Pattern, cursor: int, end: int): (r: seq<Shift>)
    requires Walkable(p) && ContainsShifts(p)
    ensures forall i | 0 <= i < |r| :: end < r[i].startTime && r[i].EndTime() <= cursor && 0 < r[i].duration
    ensures forall i | 0 <= i < |r| - 1 :: r[i + 1].EndTime() <= r[i].startTime
    decreases cursor - end
  {
    if cursor <= end then []
    else
      var s := PreviousOccurrence(p, cursor);
      if s.startTime > end then [s] + Descending(p, s.startTime, end) else []
  }

  /**
   * Business time taken off an instant, backward as meant: walk the working
   * stretches back from `cursor`, spending whole ones while `rem` covers
   * them and stopping inside the first one it does not.
   */
  function WalkBackward(p: Pattern, cursor: int, rem: nat): (r: int)
    requires Walkable(p)
    ensures r <= cursor
    ensures rem > 0 && ContainsShifts(p) ==> r < cursor
    decreases rem
  {
    if rem == 0 || !ContainsShifts(p) then cursor
    else
      var s := PreviousOccurrence(p, cursor);
      if rem >= s.duration then WalkBackward(p, s.startTime, rem - s.duration)
      else s.EndTime() - rem
  }

  // ---------------------------------------------------------------------
  // Business-time arithmetic
  // ---------------------------------------------------------------------

  /**
   * DateAdd as meant, for a week whose Duration property reads `weekTotal`:
   * whole weeks of working time are skipped at once (seven days each), the
   * rest is walked forward or backward. Adding a non-zero amount to a week
   * of zero Duration divides by zero.
   */
  function DateAdd(p: Pattern, weekTotal: int, startDate: int, amount: int): (r: Result<int>)
    requires Walkable(p)
    ensures r.Failure? <==> amount != 0 && weekTotal == 0
    ensures amount == 0 ==> r == Success(startDate)
    ensures r.Success? && amount > 0 ==> startDate <= r.value
    ensures r.Success? && amount < 0 ==> r.value <= startDate
  {
    if amount == 0 then Success(startDate)
    else if weekTotal == 0 then Failure(DivideByZero)
    else if amount > 0 then Success(AddForward(p, weekTotal, startDate, amount))
    else Success(AddBackward(p, weekTotal, startDate, -amount))
  }

  /** DateAdd forward: `span` of working time after `startDate`, whole weeks first. */
  function AddForward(p: Pattern, weekTotal: int, startDate: int, span: int): (r: int)
    requires Walkable(p) && span >= 0 && weekTotal != 0
    ensures startDate <= r
  {
    var skip := WholeWeeks(span, weekTotal);
    WalkForward(p, startDate + skip * MsPerWeek, span - skip * weekTotal)
  }

  /** DateAdd backward: `span` of working time before `startDate`, whole weeks first. */
  function AddBackward(p: Pattern, weekTotal: int, startDate: int, span: int): (r: int)
    requires Walkable(p) && span >= 0 && weekTotal != 0
    ensures r <= startDate
  {
    var skip := WholeWeeks(span, weekTotal);
    WalkBackward(p, startDate - skip * MsPerWeek, span - skip * weekTotal)
  }

  /**
   * The whole weeks DateAdd skips: `span` divided by the week total as C#
   * divides, when that is positive. What is left to walk is never negative
   * and, when weeks are skipped, less than a week's total.
   */
  function WholeWeeks(span: int, weekTotal: int): (k: nat)
    requires span >= 0 && weekTotal != 0
    ensures 0 <= span - k * weekTotal
    ensures k > 0 ==> 0 < weekTotal && span - k * weekTotal < weekTotal
    ensures k == 0 <==> TruncDiv(span, weekTotal) <= 0
  {
    var weeks := TruncDiv(span, weekTotal);
    if weeks > 0 then
      WholeMultiples(span, weekTotal);
      weeks
    else 0
  }

  /**
   * The working time from `lo` to a later `hi`: whole weeks counted at
   * `weekTotal` each, then the rest walked and clipped at `hi`.
   */
  function ForwardDiff(p: Pattern, weekTotal: int, lo: int, hi: int): int
    requires Walkable(p) && lo <= hi
  {
    var weeks := (hi - lo) / MsPerWeek;
    weeks * weekTotal + WorkBetween(p, lo + weeks * MsPerWeek, hi)
  }

  /** DateDiff as meant: negative when the dates come in reverse order. */
  function DateDiff(p: Pattern, weekTotal: int, startDate: int, endDate: int): int
    requires Walkable(p)
  {
    if startDate > endDate then -ForwardDiff(p, weekTotal, endDate, startDate)
    else ForwardDiff(p, weekTotal, startDate, endDate)
  }

  /** Swapping the dates negates the difference. */
  lemma DateDiffAntisymmetric(p: Pattern, weekTotal: int, a: int, b: int)
    requires Walkable(p)
    ensures DateDiff(p, weekTotal, a, b) == -DateDiff(p, weekTotal, b, a)
  {
    if a == b {
      assert WorkBetween(p, a, a) == 0 by {
        if ContainsShifts(p) {
          assert Ascending(p, a, a) == [];
        }
      }
    }
  }

  /** The working time from an instant up to itself or an earlier one is none. */
  lemma WorkBetweenEmpty(p: Pattern, cursor: int, end: int)
    requires Walkable(p) && end <= cursor
    ensures WorkBetween(p, cursor, end) == 0
  {
    if ContainsShifts(p) {
      assert Ascending(p, cursor, end) == [];
    }
  }

  /** The working time of a walk is never negative. */
  lemma WorkBetweenNonNegative(p: Pattern, cursor: int, end: int)
    requires Walkable(p)
    ensures WorkBetween(p, cursor, end) >= 0
    decreases end - cursor
  {
    if ContainsShifts(p) && cursor < end {
      var s := NextOccurrence(p, cursor);
      if s.startTime < end {
        WorkBetweenStep(p, cursor, end);
        WorkBetweenNonNegative(p, s.EndTime(), end);
      } else {
        assert Ascending(p, cursor, end) == [];
      }
    }
  }

  /** A whole number of weeks apart, the difference is that many week totals. */
  lemma DateDiffWholeWeeks(p: Pattern, weekTotal: int, a: int, k: nat)
    requires Walkable(p)
    ensures DateDiff(p, weekTotal, a, a + k * MsPerWeek) == k * weekTotal
  {
    assert (k * MsPerWeek) / MsPerWeek == k;
    WorkBetweenEmpty(p, a + k * MsPerWeek, a + k * MsPerWeek);
  }

  /** With a non-negative week total, the difference follows the order of the dates. */
  lemma DateDiffSign(p: Pattern, weekTotal: int, a: int, b: int)
    requires Walkable(p) && weekTotal >= 0
    ensures a <= b ==> DateDiff(p, weekTotal, a, b) >= 0
    ensures b <= a ==> DateDiff(p, weekTotal, a, b) <= 0
  {
    if a <= b {
      ForwardDiffNonNegative(p, weekTotal, a, b);
    } else {
      ForwardDiffNonNegative(p, weekTotal, b, a);
    }
  }

  lemma ForwardDiffNonNegative(p: Pattern, weekTotal: int, lo: int, hi: int)
    requires Walkable(p) && weekTotal >= 0 && lo <= hi
    ensures ForwardDiff(p, weekTotal, lo, hi) >= 0
  {
    var weeks := (hi - lo) / MsPerWeek;
    var from := lo + weeks * MsPerWeek;
    assert ForwardDiff(p, weekTotal, lo, hi) == weeks * weekTotal + WorkBetween(p, from, hi);
    assert WorkBetween(p, from, hi) >= 0 by {
      WorkBetweenNonNegative(p, from, hi);
    }
    assert weeks * weekTotal >= 0 by {
      NonNegativeProduct(weeks, weekTotal);
    }
  }

  lemma NonNegativeProduct(x: int, y: int)
    requires x >= 0 && y >= 0
    ensures x * y >= 0
  {
  }
}
