/**
 * The working time between two instants, as DateDiff measures it with the
 * ascending walk (source/WorkingWeek/Week.cs), and the round trips it
 * completes with DateAdd.
 *
 * On a week whose days are well formed, the working time is additive,
 * repeats from one week to the next, and any seven consecutive days hold
 * exactly the week's total. DateAdd skips whole weeks at that total, so
 * whatever it adds or takes off, DateDiff gives back.
 */
module WorkTime {
  import opened Time
  import opened Shifts
  import opened Days
  import opened Walks

  // ---------------------------------------------------------------------
  // The forward search asked again later
  // ---------------------------------------------------------------------

  /** More rollovers do not change a search that has already found its shift. */
  lemma {:induction false} SeekForwardFuel(p: Pattern, cursor: int, n: nat, n': nat)
    requires Walkable(p) && n <= n' && SeekForward(p, cursor, n).Some?
    ensures SeekForward(p, cursor, n') == SeekForward(p, cursor, n)
    decreases n
  {
    if NextIn(p[Weekday(cursor)], TimeOfDay(cursor)).None? {
      SeekForwardFuel(p, Midnight(cursor) + MsPerDay, n - 1, n' - 1);
    }
  }

  /** A shift the cursor's own day has left is what the search finds, dated that day. */
  lemma SeekToday(p: Pattern, cursor: int, n: nat, s: Shift)
    requires Walkable(p) && NextIn(p[Weekday(cursor)], TimeOfDay(cursor)) == Some(s)
    ensures SeekForward(p, cursor, n) == Some(Dated(cursor, s))
  {
  }

  /** With nothing left on the cursor's own day, the search goes on from the next midnight. */
  lemma SeekRoll(p: Pattern, cursor: int, n: nat, next: int)
    requires Walkable(p) && NextIn(p[Weekday(cursor)], TimeOfDay(cursor)).None? && 0 < n
    requires next == Midnight(cursor) + MsPerDay
    ensures SeekForward(p, cursor, n) == SeekForward(p, next, n - 1)
  {
  }

  /** A shift of a day dated on it, then resumed later that day, is the shift resumed first, then dated. */
  lemma DatedResumed(cursor: int, t: int, s: Shift)
    requires 0 <= s.startTime < MsPerDay && s.EndTime() <= MsPerDay
    requires Midnight(cursor) <= t < Midnight(cursor) + MsPerDay
    ensures Dated(t, Resumed(s, TimeOfDay(t))) == Resumed(Dated(cursor, s), t)
  {
    SameDay(cursor, t);
    TimeOfDayInDay(s.startTime);
    TimeOfDayInDay(Resumed(s, TimeOfDay(t)).startTime);
  }

  /** Resumed later on the day of the shift the search found, it finds the rest of that shift. */
  lemma SeekLaterToday(p: Pattern, cursor: int, n: nat, t: int)
    requires Walkable(p) && WellFormed(p[Weekday(cursor)]) && NextIn(p[Weekday(cursor)], TimeOfDay(cursor)).Some?
    requires cursor <= t < SeekForward(p, cursor, n).value.EndTime()
    ensures SeekForward(p, t, n) == Some(Resumed(SeekForward(p, cursor, n).value, t))
  {
    var s0 := NextIn(p[Weekday(cursor)], TimeOfDay(cursor)).value;
    SeekToday(p, cursor, n, s0);
    NextInWithin(p[Weekday(cursor)], TimeOfDay(cursor));
    SameDay(cursor, t);
    NextInLater(p[Weekday(cursor)], TimeOfDay(cursor), TimeOfDay(t));
    SeekToday(p, t, n, Resumed(s0, TimeOfDay(t)));
    DatedResumed(cursor, t, s0);
  }

  /** Resumed later on a day with nothing left, the search still goes on from the next midnight. */
  lemma SeekLaterGap(p: Pattern, cursor: int, n: nat, t: int, next: int)
    requires Walkable(p) && NextIn(p[Weekday(cursor)], TimeOfDay(cursor)).None? && 0 < n
    requires next == Midnight(cursor) + MsPerDay && cursor <= t < next
    ensures SeekForward(p, t, n) == SeekForward(p, cursor, n)
  {
    SameDay(cursor, t);
    NextInNoneLater(p[Weekday(cursor)], TimeOfDay(cursor), TimeOfDay(t));
    SeekRoll(p, cursor, n, next);
    SeekRoll(p, t, n, next);
  }

  /**
   * The search resumed from a later cursor, before the end of the shift it
   * found, finds the rest of that same shift.
   */
  lemma {:induction false} SeekForwardLater(p: Pattern, cursor: int, n: nat, t: int)
    requires WellFormedWeek(p) && Walkable(p) && SeekForward(p, cursor, n).Some?
    requires cursor <= t < SeekForward(p, cursor, n).value.EndTime()
    ensures SeekForward(p, t, n) == Some(Resumed(SeekForward(p, cursor, n).value, t))
    decreases n
  {
    if NextIn(p[Weekday(cursor)], TimeOfDay(cursor)).Some? {
      SeekLaterToday(p, cursor, n, t);
    } else {
      var next := Midnight(cursor) + MsPerDay;
      SeekRoll(p, cursor, n, next);
      if t < next {
        SeekLaterGap(p, cursor, n, t, next);
        assert t < SeekForward(p, cursor, n).value.startTime;
      } else {
        SeekForwardLater(p, next, n - 1, t);
        SeekForwardFuel(p, t, n - 1, n);
      }
    }
  }

  /**
   * AscendingShifts restarted inside the gap before its next shift meets
   * the same shift; restarted inside that shift, it meets the rest of it.
   */
  lemma NextOccurrenceLater(p: Pattern, cursor: int, t: int)
    requires WellFormedWeek(p) && ContainsShifts(p)
    ensures Walkable(p)
    ensures cursor <= t < NextOccurrence(p, cursor).EndTime() ==>
              NextOccurrence(p, t) == Resumed(NextOccurrence(p, cursor), t)
  {
    WellFormedWalkable(p);
    if cursor <= t < NextOccurrence(p, cursor).EndTime() {
      NextOccurrenceExists(p, cursor);
      SeekForwardLater(p, cursor, DaysPerWeek, t);
    }
  }

  // ---------------------------------------------------------------------
  // Working time adds up
  // ---------------------------------------------------------------------

  /**
   * The working time from `a` to `b` is the working time from `a` to any
   * instant `m` between them plus the working time from `m` to `b`.
   */
  lemma {:induction false} WorkBetweenSplit(p: Pattern, a: int, m: int, b: int)
    requires WellFormedWeek(p) && a <= m <= b
    ensures Walkable(p)
    ensures WorkBetween(p, a, b) == WorkBetween(p, a, m) + WorkBetween(p, m, b)
    decreases m - a
  {
    WellFormedWalkable(p);
    if !ContainsShifts(p) {
    } else if a == m {
      WorkBetweenEmpty(p, a, m);
    } else {
      var s := NextOccurrence(p, a);
      NextOccurrenceLater(p, a, m);
      if m <= s.startTime {
        assert Ascending(p, a, m) == [];
        if m < b {
          assert Ascending(p, a, b) == Ascending(p, m, b);
        } else {
          assert Ascending(p, m, b) == [];
        }
      } else if s.EndTime() <= m {
        WorkBetweenStep(p, a, m);
        WorkBetweenStep(p, a, b);
        WorkBetweenSplit(p, s.EndTime(), m, b);
      } else {
        WorkBetweenStep(p, a, m);
        WorkBetweenEmpty(p, s.EndTime(), m);
        WorkBetweenStep(p, a, b);
        if m < b {
          WorkBetweenStep(p, m, b);
        } else {
          WorkBetweenEmpty(p, m, b);
          WorkBetweenEmpty(p, s.EndTime(), b);
        }
      }
    }
  }

  /** Where every instant is working time, the working time is the time elapsed. */
  lemma {:induction false} WorkBetweenAllWorking(p: Pattern, a: int, b: int)
    requires WellFormedWeek(p) && a <= b
    requires forall t | a <= t < b :: WorkingAt(p, t)
    ensures Walkable(p)
    ensures WorkBetween(p, a, b) == b - a
    decreases b - a
  {
    WellFormedWalkable(p);
    if a == b {
      WorkBetweenEmpty(p, a, b);
    } else {
      assert WorkingAt(p, a);
      assert p[Weekday(a)] != [];
      var s := NextOccurrence(p, a);
      NextOccurrenceExact(p, a, a);
      WorkBetweenStep(p, a, b);
      if s.EndTime() < b {
        WorkBetweenAllWorking(p, s.EndTime(), b);
      } else {
        WorkBetweenEmpty(p, s.EndTime(), b);
      }
    }
  }

  /** Where no instant is working time, there is no working time. */
  lemma NoWorkBetween(p: Pattern, a: int, b: int)
    requires WellFormedWeek(p)
    requires forall t | a <= t < b :: !WorkingAt(p, t)
    ensures Walkable(p)
    ensures WorkBetween(p, a, b) == 0
  {
    WellFormedWalkable(p);
    if ContainsShifts(p) && a < b {
      var s := NextOccurrence(p, a);
      NextOccurrenceExact(p, a, s.startTime);
      assert WorkingAt(p, s.startTime);
      assert b <= s.startTime;
      assert Ascending(p, a, b) == [];
    }
  }

  // ---------------------------------------------------------------------
  // A day, a week
  // ---------------------------------------------------------------------

  /** When the cursor's own day has nothing left, there is no working time up to its end. */
  lemma NothingLeftToday(p: Pattern, cursor: int, e: int)
    requires Walkable(p) && ContainsShifts(p) && NextIn(p[Weekday(cursor)], TimeOfDay(cursor)).None?
    requires e == Midnight(cursor) + MsPerDay
    ensures WorkBetween(p, cursor, e) == 0
  {
    NextOccurrenceExists(p, cursor);
    SeekRoll(p, cursor, DaysPerWeek, e);
    assert e <= NextOccurrence(p, cursor).startTime;
    assert Ascending(p, cursor, e) == [];
  }

  /** In a well-formed day, the shifts before one that has ended have ended too. */
  lemma EndedBefore(shifts: seq<Shift>, i: nat, t: int)
    requires WellFormed(shifts) && i <= |shifts|
    requires 0 < i ==> shifts[i - 1].EndTime() <= t
    ensures forall j | 0 <= j < i :: shifts[j].EndTime() <= t
  {
    forall j | 0 <= j < i ensures shifts[j].EndTime() <= t {
      if j < i - 1 {
        assert shifts[j].EndTime() <= shifts[i - 1].startTime;
      }
    }
  }

  /** After the last shift of its day has ended, a day holds no more working time. */
  lemma DayDone(p: Pattern, cursor: int, e: int)
    requires Walkable(p) && ContainsShifts(p) && WellFormed(p[Weekday(cursor)])
    requires 0 < |p[Weekday(cursor)]| ==> p[Weekday(cursor)][|p[Weekday(cursor)]| - 1].EndTime() <= TimeOfDay(cursor)
    requires e == Midnight(cursor) + MsPerDay
    ensures WorkBetween(p, cursor, e) == 0
  {
    EndedBefore(p[Weekday(cursor)], |p[Weekday(cursor)]|, TimeOfDay(cursor));
    NextInSpec(p[Weekday(cursor)], TimeOfDay(cursor));
    NothingLeftToday(p, cursor, e);
  }

  /** Before shift `i` of its day and after every shift ahead of it, the next occurrence is shift `i`, dated that day. */
  lemma NextIsShift(p: Pattern, cursor: int, i: nat)
    requires Walkable(p) && ContainsShifts(p)
    requires i < |p[Weekday(cursor)]| && TimeOfDay(cursor) <= p[Weekday(cursor)][i].startTime
    requires forall j | 0 <= j < i :: p[Weekday(cursor)][j].EndTime() <= TimeOfDay(cursor)
    ensures NextOccurrence(p, cursor)
            == Shift(Midnight(cursor) + p[Weekday(cursor)][i].startTime, p[Weekday(cursor)][i].duration)
  {
    var shifts := p[Weekday(cursor)];
    NextInAt(shifts, i, TimeOfDay(cursor));
    TimeOfDayInDay(shifts[i].startTime);
    NextOccurrenceExists(p, cursor);
  }

  /** When the next occurrence ends by `end`, the walk up to `end` holds it whole and then what follows it. */
  lemma StepWhole(p: Pattern, cursor: int, end: int, s: Shift, x: int)
    requires Walkable(p) && ContainsShifts(p) && cursor < end
    requires NextOccurrence(p, cursor) == s && s.EndTime() == x <= end
    ensures WorkBetween(p, cursor, end) == s.duration + WorkBetween(p, x, end)
  {
    WorkBetweenStep(p, cursor, end);
  }

  /**
   * Before shift `i` of its day and after every shift ahead of it, the day
   * up to its end `e` holds shift `i` whole, when it ends by midnight, and
   * then what is left after its end `x`.
   */
  lemma DayStep(p: Pattern, cursor: int, i: nat, e: int, x: int)
    requires Walkable(p) && ContainsShifts(p)
    requires i < |p[Weekday(cursor)]| && TimeOfDay(cursor) <= p[Weekday(cursor)][i].startTime
    requires p[Weekday(cursor)][i].EndTime() <= MsPerDay
    requires forall j | 0 <= j < i :: p[Weekday(cursor)][j].EndTime() <= TimeOfDay(cursor)
    requires e == Midnight(cursor) + MsPerDay && x == Midnight(cursor) + p[Weekday(cursor)][i].EndTime()
    ensures WorkBetween(p, cursor, e) == p[Weekday(cursor)][i].duration + WorkBetween(p, x, e)
  {
    NextIsShift(p, cursor, i);
    StepWhole(p, cursor, e, Shift(Midnight(cursor) + p[Weekday(cursor)][i].startTime, p[Weekday(cursor)][i].duration), x);
  }

  /** From the end `x` of shift `i`, still inside its day, the walk resumes before shift `i + 1`. */
  lemma DayResume(p: Pattern, cursor: int, i: nat, x: int)
    requires |p| == DaysPerWeek && WellFormed(p[Weekday(cursor)]) && i < |p[Weekday(cursor)]|
    requires p[Weekday(cursor)][i].EndTime() < MsPerDay && x == Midnight(cursor) + p[Weekday(cursor)][i].EndTime()
    ensures Weekday(x) == Weekday(cursor) && Midnight(x) == Midnight(cursor)
    ensures TimeOfDay(x) == p[Weekday(cursor)][i].EndTime()
    ensures i + 1 < |p[Weekday(cursor)]| ==> p[Weekday(cursor)][i].EndTime() <= p[Weekday(cursor)][i + 1].startTime
  {
    SameDay(cursor, x);
  }

  /**
   * Walking a well-formed day up to its end `e` from a cursor at or before
   * shift `i` and not before the end of the shift ahead of it: the working
   * time met is that of shift `i` and the shifts after it.
   */
  lemma {:induction false} DayWorkFrom(p: Pattern, cursor: int, i: nat, e: int)
    requires Walkable(p) && ContainsShifts(p) && WellFormed(p[Weekday(cursor)])
    requires i <= |p[Weekday(cursor)]|
    requires i < |p[Weekday(cursor)]| ==> TimeOfDay(cursor) <= p[Weekday(cursor)][i].startTime
    requires 0 < i ==> p[Weekday(cursor)][i - 1].EndTime() <= TimeOfDay(cursor)
    requires e == Midnight(cursor) + MsPerDay
    ensures WorkBetween(p, cursor, e) == TotalDuration(p[Weekday(cursor)][i..])
    decreases |p[Weekday(cursor)]| - i
  {
    var shifts := p[Weekday(cursor)];
    if i == |shifts| {
      assert shifts[i..] == [];
      DayDone(p, cursor, e);
    } else {
      var x := Midnight(cursor) + shifts[i].EndTime();
      EndedBefore(shifts, i, TimeOfDay(cursor));
      DayStep(p, cursor, i, e, x);
      TotalFrom(shifts, i);
      if shifts[i].EndTime() == MsPerDay {
        WorkBetweenEmpty(p, x, e);
        LastOfDay(shifts, i);
        assert shifts[i + 1..] == [];
      } else {
        DayResume(p, cursor, i, x);
        DayWorkFrom(p, x, i + 1, e);
      }
    }
  }

  /** In a well-formed day only the last shift can end at midnight. */
  lemma LastOfDay(shifts: seq<Shift>, i: nat)
    requires WellFormed(shifts) && i < |shifts|
    ensures i + 1 < |shifts| ==> shifts[i].EndTime() < MsPerDay
  {
    if i + 1 < |shifts| {
      assert shifts[i].EndTime() <= shifts[i + 1].startTime;
    }
  }

  /** The total of the shifts from `i` on is shift `i` and the total after it. */
  lemma TotalFrom(shifts: seq<Shift>, i: nat)
    requires i < |shifts|
    ensures TotalDuration(shifts[i..]) == shifts[i].duration + TotalDuration(shifts[i + 1..])
  {
    assert shifts[i..] == [shifts[i]] + shifts[i + 1..];
    TotalPrepend(shifts[i], shifts[i + 1..]);
  }

  /** A whole day, from `midnight` to the next midnight `e`, holds its weekday's total. */
  lemma DayWork(p: Pattern, midnight: int, e: int)
    requires WellFormedWeek(p) && ContainsShifts(p) && TimeOfDay(midnight) == 0 && e == midnight + MsPerDay
    ensures Walkable(p)
    ensures WorkBetween(p, midnight, e) == TotalDuration(p[Weekday(midnight)])
  {
    WellFormedWalkable(p);
    DayWorkFrom(p, midnight, 0, e);
    assert p[Weekday(midnight)][0..] == p[Weekday(midnight)];
  }

  /** The weekday after weekday `w`, Saturday followed by Sunday. */
  function NextWeekday(w: int): (r: int)
    requires 0 <= w < DaysPerWeek
    ensures 0 <= r < DaysPerWeek
  {
    if w == DaysPerWeek - 1 then 0 else w + 1
  }

  /** The working time of `n` consecutive weekdays, the first of them weekday `w`. */
  function DaysTotal(p: Pattern, w: int, n: nat): int
    requires |p| == DaysPerWeek && 0 <= w < DaysPerWeek
    decreases n
  {
    if n == 0 then 0 else TotalDuration(p[w]) + DaysTotal(p, NextWeekday(w), n - 1)
  }

  /** The midnight after a midnight is a midnight, of the following weekday. */
  lemma FollowingMidnight(midnight: int, next: int)
    requires TimeOfDay(midnight) == 0 && next == midnight + MsPerDay
    ensures TimeOfDay(next) == 0 && Weekday(next) == NextWeekday(Weekday(midnight))
  {
    NextMidnight(midnight);
  }

  /** `n` consecutive weekdays from `w` are weekday `w` and the `n'` after it, from `w'`. */
  lemma DaysTotalStep(p: Pattern, w: int, n: nat, w': int, n': nat)
    requires |p| == DaysPerWeek && 0 <= w < DaysPerWeek && 0 < n
    requires w' == NextWeekday(w) && n' == n - 1
    ensures DaysTotal(p, w, n) == TotalDuration(p[w]) + DaysTotal(p, w', n')
  {
  }

  /** From a midnight on, `n` whole days, up to `e`, hold the totals of their weekdays. */
  lemma {:induction false} DaysWork(p: Pattern, midnight: int, n: nat, e: int)
    requires WellFormedWeek(p) && ContainsShifts(p) && TimeOfDay(midnight) == 0
    requires e == midnight + n * MsPerDay
    ensures Walkable(p)
    ensures WorkBetween(p, midnight, e) == DaysTotal(p, Weekday(midnight), n)
    decreases n
  {
    WellFormedWalkable(p);
    if n == 0 {
      WorkBetweenEmpty(p, midnight, e);
    } else {
      var next := midnight + MsPerDay;
      var n' := n - 1;
      FollowingMidnight(midnight, next);
      DaysTotalStep(p, Weekday(midnight), n, Weekday(next), n');
      DayWork(p, midnight, next);
      DaysWork(p, next, n', e);
      WorkBetweenSplit(p, midnight, next, e);
    }
  }

  /** The week total one day at a time, Sunday to Saturday. */
  lemma WeekTotalDays(p: Pattern)
    requires |p| == DaysPerWeek
    ensures WeekTotal(p) == TotalDuration(p[0]) + TotalDuration(p[1]) + TotalDuration(p[2]) + TotalDuration(p[3])
                            + TotalDuration(p[4]) + TotalDuration(p[5]) + TotalDuration(p[6])
  {
    forall k | 0 <= k < DaysPerWeek
      ensures WeekTotal(p[..k + 1]) == WeekTotal(p[..k]) + TotalDuration(p[k])
    {
      assert p[..k + 1][..k] == p[..k];
    }
    assert p[..7] == p;
    assert p[..0] == [];
  }

  /** Seven consecutive weekdays from Sunday are the whole week. */
  lemma SevenDays(p: Pattern)
    requires |p| == DaysPerWeek
    ensures DaysTotal(p, 0, DaysPerWeek) == WeekTotal(p)
  {
    WeekTotalDays(p);
    assert DaysTotal(p, 6, 1) == TotalDuration(p[6]);
    assert DaysTotal(p, 5, 2) == TotalDuration(p[5]) + DaysTotal(p, 6, 1);
    assert DaysTotal(p, 4, 3) == TotalDuration(p[4]) + DaysTotal(p, 5, 2);
    assert DaysTotal(p, 3, 4) == TotalDuration(p[3]) + DaysTotal(p, 4, 3);
    assert DaysTotal(p, 2, 5) == TotalDuration(p[2]) + DaysTotal(p, 3, 4);
    assert DaysTotal(p, 1, 6) == TotalDuration(p[1]) + DaysTotal(p, 2, 5);
  }

  // ---------------------------------------------------------------------
  // Week after week
  // ---------------------------------------------------------------------

  /** A shift moved by `offset` milliseconds. */
  function Moved(s: Shift, offset: int): Shift {
    Shift(s.startTime + offset, s.duration)
  }

  /** The instant `u`, k weeks after `t`, has its weekday and its time of day. */
  lemma WeeksLater(t: int, k: int, u: int)
    requires u == t + k * MsPerWeek
    ensures Weekday(u) == Weekday(t) && TimeOfDay(u) == TimeOfDay(t)
    ensures Midnight(u) == Midnight(t) + k * MsPerWeek
  {
    ShiftByWeeks(t, k);
  }

  /** Days are looked up by weekday and time of day only, so the search repeats every week. */
  lemma {:induction false} SeekForwardPeriodic(p: Pattern, cursor: int, n: nat, k: int, cursor': int)
    requires Walkable(p) && cursor' == cursor + k * MsPerWeek
    ensures SeekForward(p, cursor', n).Some? == SeekForward(p, cursor, n).Some?
    ensures SeekForward(p, cursor, n).Some? ==>
              SeekForward(p, cursor', n).value == Moved(SeekForward(p, cursor, n).value, k * MsPerWeek)
    decreases n
  {
    WeeksLater(cursor, k, cursor');
    if NextIn(p[Weekday(cursor)], TimeOfDay(cursor)).Some? {
      var s := NextIn(p[Weekday(cursor)], TimeOfDay(cursor)).value;
      SeekToday(p, cursor, n, s);
      SeekToday(p, cursor', n, s);
    } else if n > 0 {
      var next := Midnight(cursor) + MsPerDay;
      var next' := Midnight(cursor') + MsPerDay;
      SeekRoll(p, cursor, n, next);
      SeekRoll(p, cursor', n, next');
      SeekForwardPeriodic(p, next, n - 1, k, next');
    }
  }

  /** The next occurrence k weeks later is the same shift moved by k weeks. */
  lemma NextOccurrenceMoved(p: Pattern, a: int, k: int, a': int)
    requires Walkable(p) && ContainsShifts(p) && a' == a + k * MsPerWeek
    ensures NextOccurrence(p, a') == Moved(NextOccurrence(p, a), k * MsPerWeek)
  {
    NextOccurrenceExists(p, a);
    SeekForwardPeriodic(p, a, DaysPerWeek, k, a');
  }

  /** The working time from `a` to `b` is the same k weeks later, from `a'` to `b'`. */
  lemma {:induction false} WorkBetweenPeriodic(p: Pattern, a: int, b: int, k: int, a': int, b': int)
    requires Walkable(p) && a' == a + k * MsPerWeek && b' == b + k * MsPerWeek
    ensures WorkBetween(p, a', b') == WorkBetween(p, a, b)
    decreases b - a
  {
    if !ContainsShifts(p) {
    } else if b <= a {
      WorkBetweenEmpty(p, a, b);
      WorkBetweenEmpty(p, a', b');
    } else {
      NextOccurrenceMoved(p, a, k, a');
      if NextOccurrence(p, a).startTime < b {
        WorkBetweenStep(p, a, b);
        WorkBetweenStep(p, a', b');
        WorkBetweenPeriodic(p, NextOccurrence(p, a).EndTime(), b, k, NextOccurrence(p, a').EndTime(), b');
      } else {
        assert Ascending(p, a, b) == [];
        assert Ascending(p, a', b') == [];
      }
    }
  }

  /** `m`, the Sunday midnight starting the week that holds `x`: a Sunday midnight, less than a week before `x`. */
  lemma SundayBefore(x: int, m: int)
    requires m == Midnight(x) - Weekday(x) * MsPerDay
    ensures TimeOfDay(m) == 0 && Weekday(m) == 0 && m <= x < m + MsPerWeek
  {
    Split(x);
    AtDay(DayNumber(x) - Weekday(x), 0);
  }

  /** Any seven consecutive days, from `x` to `y`, hold exactly the week's total working time. */
  lemma WeekWork(p: Pattern, x: int, y: int)
    requires WellFormedWeek(p) && y == x + MsPerWeek
    ensures Walkable(p)
    ensures WorkBetween(p, x, y) == WeekTotal(p)
  {
    WellFormedWalkable(p);
    if ContainsShifts(p) {
      var m := Midnight(x) - Weekday(x) * MsPerDay;
      var m' := m + MsPerWeek;
      SundayBefore(x, m);
      WorkBetweenSplit(p, m, x, y);
      WorkBetweenSplit(p, m, m', y);
      WorkBetweenPeriodic(p, m, x, 1, m', y);
      DaysWork(p, m, DaysPerWeek, m');
      SevenDays(p);
    } else {
      WeekTotalIdle(p);
    }
  }

  /** A list of shifts of positive length has a positive total unless it is empty. */
  lemma {:induction false} TotalPositive(shifts: seq<Shift>)
    requires forall i | 0 <= i < |shifts| :: 0 < shifts[i].duration
    ensures 0 <= TotalDuration(shifts)
    ensures shifts != [] ==> 0 < TotalDuration(shifts)
    decreases |shifts|
  {
    if shifts != [] {
      TotalPositive(shifts[..|shifts| - 1]);
    }
  }

  /** A walkable week with a shift has a positive Duration. */
  lemma WeekTotalPositive(p: Pattern)
    requires Walkable(p) && ContainsShifts(p)
    ensures 0 < WeekTotal(p)
  {
    WeekTotalDays(p);
    forall d | 0 <= d < DaysPerWeek ensures 0 <= TotalDuration(p[d]) && (p[d] != [] ==> 0 < TotalDuration(p[d])) {
      TotalPositive(p[d]);
    }
  }

  /** Less than a week's total of working time from `a` to `b` fits in less than seven days. */
  lemma WithinWeek(p: Pattern, a: int, b: int)
    requires WellFormedWeek(p) && Walkable(p) && a <= b
    requires WorkBetween(p, a, b) < WeekTotal(p)
    ensures b < a + MsPerWeek
  {
    if b >= a + MsPerWeek {
      var a' := a + MsPerWeek;
      WorkBetweenSplit(p, a, a', b);
      WeekWork(p, a, a');
      WorkBetweenNonNegative(p, a', b);
      assert false;
    }
  }

  // ---------------------------------------------------------------------
  // The round trips
  // ---------------------------------------------------------------------

  /** The stretch a backward walk meets first is all working time, and nothing after it up to the cursor is. */
  lemma PreviousStretch(p: Pattern, cursor: int)
    requires WellFormedWeek(p) && ContainsShifts(p)
    ensures Walkable(p)
    ensures forall t | PreviousOccurrence(p, cursor).startTime <= t < PreviousOccurrence(p, cursor).EndTime() :: WorkingAt(p, t)
    ensures forall t | PreviousOccurrence(p, cursor).EndTime() <= t < cursor :: !WorkingAt(p, t)
  {
    WellFormedWalkable(p);
    forall t | PreviousOccurrence(p, cursor).startTime <= t < cursor
      ensures WorkingAt(p, t) <==> t < PreviousOccurrence(p, cursor).EndTime()
    {
      PreviousOccurrenceExact(p, cursor, t);
    }
  }

  /**
   * Going back from `cursor`, the last `x` milliseconds of the stretch
   * DescendingShifts meets first, from `u` on, hold `x` of working time up
   * to the cursor.
   */
  lemma WorkBackFrom(p: Pattern, cursor: int, x: int, u: int)
    requires WellFormedWeek(p) && ContainsShifts(p)
    ensures Walkable(p)
    ensures 0 <= x <= PreviousOccurrence(p, cursor).duration && u == PreviousOccurrence(p, cursor).EndTime() - x ==>
              WorkBetween(p, u, cursor) == x
  {
    PreviousStretch(p, cursor);
    var e := PreviousOccurrence(p, cursor).EndTime();
    if 0 <= x <= PreviousOccurrence(p, cursor).duration && u == e - x {
      WorkBetweenAllWorking(p, u, e);
      NoWorkBetween(p, e, cursor);
      WorkBetweenSplit(p, u, e, cursor);
    }
  }

  /** Inside the stretch met first, the backward walk stops `rem` before its end. */
  lemma WalkBackwardInside(p: Pattern, cursor: int, rem: nat)
    requires Walkable(p) && ContainsShifts(p) && 0 < rem < PreviousOccurrence(p, cursor).duration
    ensures WalkBackward(p, cursor, rem) == PreviousOccurrence(p, cursor).EndTime() - rem
  {
  }

  /** Past the stretch met first, the backward walk goes on from its start with `rem'` left. */
  lemma WalkBackwardPast(p: Pattern, cursor: int, rem: nat, rem': nat)
    requires Walkable(p) && ContainsShifts(p) && 0 < rem && PreviousOccurrence(p, cursor).duration <= rem
    requires rem' == rem - PreviousOccurrence(p, cursor).duration
    ensures WalkBackward(p, cursor, rem) == WalkBackward(p, PreviousOccurrence(p, cursor).startTime, rem')
  {
  }

  /**
   * Backward business-time addition and the working time between two
   * instants are inverse: walking `rem` back from `cursor` lands where
   * exactly `rem` of working time lies between the two.
   */
  lemma {:induction false} WalkBackwardRoundTrip(p: Pattern, cursor: int, rem: nat)
    requires WellFormedWeek(p) && ContainsShifts(p)
    ensures Walkable(p)
    ensures WorkBetween(p, WalkBackward(p, cursor, rem), cursor) == rem
    decreases rem
  {
    WellFormedWalkable(p);
    var r := WalkBackward(p, cursor, rem);
    var s := PreviousOccurrence(p, cursor);
    if rem == 0 {
      WorkBetweenEmpty(p, cursor, cursor);
    } else if rem < s.duration {
      WalkBackwardInside(p, cursor, rem);
      WorkBackFrom(p, cursor, rem, r);
    } else {
      var rem' := rem - s.duration;
      WalkBackwardPast(p, cursor, rem, rem');
      WorkBackFrom(p, cursor, s.duration, s.startTime);
      WalkBackwardRoundTrip(p, s.startTime, rem');
      WorkBetweenSplit(p, r, s.startTime, cursor);
    }
  }

  /** What DateAdd walks after skipping whole weeks is less than a week's total. */
  lemma RemainderBelowWeek(span: int, weekTotal: int)
    requires span >= 0 && weekTotal > 0
    ensures span - WholeWeeks(span, weekTotal) * weekTotal < weekTotal
  {
    if WholeWeeks(span, weekTotal) == 0 {
      assert span / weekTotal <= 0;
      assert span == weekTotal * (span / weekTotal) + span % weekTotal;
    }
  }

  /** Dates `lo` and `hi`, k weeks and less than one more week apart, are k whole weeks apart. */
  lemma WeeksApart(k: int, lo: int, hi: int)
    requires lo + k * MsPerWeek <= hi < lo + (k + 1) * MsPerWeek
    ensures (hi - lo) / MsPerWeek == k
  {
  }

  /**
   * From `lo` to `hi`, k weeks and less than one more week apart, the
   * difference counts k week totals and walks the rest from `from`, k weeks
   * after `lo`.
   */
  lemma ForwardDiffWeeks(p: Pattern, total: int, lo: int, hi: int, k: int, from: int)
    requires Walkable(p) && 0 <= k && from == lo + k * MsPerWeek && from <= hi < from + MsPerWeek
    ensures ForwardDiff(p, total, lo, hi) == k * total + WorkBetween(p, from, hi)
  {
    WeeksApart(k, lo, hi);
  }

  /**
   * From `t` back to an earlier `r`, k weeks and less than one more week
   * apart, DateDiff counts k week totals and the rest from `r` up to `s`,
   * k weeks before `t`, negated.
   */
  lemma DiffBackward(p: Pattern, total: int, t: int, k: int, s: int, r: int)
    requires Walkable(p) && 0 <= k && s == t - k * MsPerWeek && r <= s < r + MsPerWeek
    ensures DateDiff(p, total, t, r) == -(k * total + WorkBetween(p, r, s))
  {
    var from := r + k * MsPerWeek;
    ForwardDiffWeeks(p, total, r, t, k, from);
    WorkBetweenPeriodic(p, r, s, k, from, t);
    if r == t {
      WorkBetweenEmpty(p, r, s);
    }
  }

  /** DateAdd of a positive amount: skip whole weeks to `s`, walk the remaining `rem` forward. */
  lemma AddForwardIs(p: Pattern, total: int, t: int, amount: int, k: nat, s: int, rem: nat)
    requires Walkable(p) && 0 < total && 0 < amount
    requires k == WholeWeeks(amount, total) && s == t + k * MsPerWeek && rem == amount - k * total
    ensures DateAdd(p, total, t, amount) == Success(WalkForward(p, s, rem))
  {
    assert AddForward(p, total, t, amount) == WalkForward(p, s, rem);
  }

  /** DateAdd of a negative amount: skip whole weeks back to `s`, walk the remaining `rem` backward. */
  lemma AddBackwardIs(p: Pattern, total: int, t: int, amount: int, span: int, k: nat, s: int, rem: nat)
    requires Walkable(p) && 0 < total && amount < 0 && span == -amount
    requires k == WholeWeeks(span, total) && s == t - k * MsPerWeek && rem == span - k * total
    ensures DateAdd(p, total, t, amount) == Success(WalkBackward(p, s, rem))
  {
  }

  /** DateDiff undoes DateAdd of a positive amount. */
  lemma AddThenDiffForward(p: Pattern, total: int, t: int, amount: int)
    requires WellFormedWeek(p) && Walkable(p) && ContainsShifts(p) && total == WeekTotal(p) && 0 < total && 0 < amount
    ensures DateAdd(p, total, t, amount).Success?
    ensures DateDiff(p, total, t, DateAdd(p, total, t, amount).value) == amount
  {
    var k := WholeWeeks(amount, total);
    var s := t + k * MsPerWeek;
    var rem := amount - k * total;
    RemainderBelowWeek(amount, total);
    var r := WalkForward(p, s, rem);
    AddForwardIs(p, total, t, amount, k, s, rem);
    WalkForwardRoundTrip(p, s, rem);
    WithinWeek(p, s, r);
    ForwardDiffWeeks(p, total, t, r, k, s);
  }

  /** DateDiff undoes DateAdd of a negative amount. */
  lemma AddThenDiffBackward(p: Pattern, total: int, t: int, amount: int)
    requires WellFormedWeek(p) && Walkable(p) && ContainsShifts(p) && total == WeekTotal(p) && 0 < total && amount < 0
    ensures DateAdd(p, total, t, amount).Success?
    ensures DateDiff(p, total, t, DateAdd(p, total, t, amount).value) == amount
  {
    var span := -amount;
    var k := WholeWeeks(span, total);
    var s := t - k * MsPerWeek;
    var rem := span - k * total;
    RemainderBelowWeek(span, total);
    var r := WalkBackward(p, s, rem);
    AddBackwardIs(p, total, t, amount, span, k, s, rem);
    WalkBackwardRoundTrip(p, s, rem);
    WithinWeek(p, r, s);
    DiffBackward(p, total, t, k, s, r);
  }

  /**
   * On a week of well-formed days whose Duration is its total, the working
   * time between a date and DateAdd of a duration to it is that duration:
   * DateDiff undoes DateAdd, forward and backward, across whole weeks.
   */
  lemma DateAddThenDiff(p: Pattern, t: int, amount: int)
    requires WellFormedWeek(p) && ContainsShifts(p)
    ensures Walkable(p) && 0 < WeekTotal(p)
    ensures DateAdd(p, WeekTotal(p), t, amount).Success?
    ensures DateDiff(p, WeekTotal(p), t, DateAdd(p, WeekTotal(p), t, amount).value) == amount
  {
    WellFormedWalkable(p);
    WeekTotalPositive(p);
    if amount == 0 {
      WorkBetweenEmpty(p, t, t);
    } else if amount > 0 {
      AddThenDiffForward(p, WeekTotal(p), t, amount);
    } else {
      AddThenDiffBackward(p, WeekTotal(p), t, amount);
    }
  }
}
