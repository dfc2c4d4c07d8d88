/**
 * One weekday of the working pattern (source/WorkingWeek/Day.cs): a list of
 * shifts kept in (start, duration) order, a running total of their durations,
 * and the point and directional lookups the walkers are built on.
 *
 * The lookups are read-only first-match scans, written here as recursive
 * functions over the shift list; `t` is always a time of day. The Day class
 * wraps them with the date handling and the weekday check of the source, and
 * holds the two operations that change the list in place.
 */
module Days {
  import opened Time
  import opened Shifts

  /** Sum of the durations of a list of shifts. */
  function TotalDuration(shifts: seq<Shift>): int {
    if shifts == [] then 0 else TotalDuration(shifts[..|shifts| - 1]) + shifts[|shifts| - 1].duration
  }

  /** The order Day keeps its list in: never a later shift Before an earlier one. */
  predicate Sorted(shifts: seq<Shift>) {
    forall i, j {:trigger Compare(shifts[i], shifts[j])} | 0 <= i < j < |shifts| :: Compare(shifts[i], shifts[j]) <= 0
  }

  /**
   * A well-formed day: every shift lies inside the day and has a positive
   * length, and each shift ends no later than any later one starts.
   */
  predicate WellFormed(shifts: seq<Shift>) {
    && (forall i | 0 <= i < |shifts| ::
          0 <= shifts[i].startTime && 0 < shifts[i].duration && shifts[i].EndTime() <= MsPerDay)
    && (forall i, j | 0 <= i < j < |shifts| :: shifts[i].EndTime() <= shifts[j].startTime)
  }

  /** FindShift's scan: the first listed shift whose [start, end) holds `t`. */
  function FindIn(shifts: seq<Shift>, t: int): (r: Option<Shift>)
    ensures r.None? <==> forall i | 0 <= i < |shifts| :: !shifts[i].Holds(t)
    ensures r.Some? ==> exists i | 0 <= i < |shifts| ::
              && shifts[i] == r.value && shifts[i].Holds(t)
              && forall j | 0 <= j < i :: !shifts[j].Holds(t)
  {
    if shifts == [] then None
    else if shifts[0].Holds(t) then Some(shifts[0])
    else
      var r := FindIn(shifts[1..], t);
      assert forall i | 1 <= i < |shifts| :: shifts[i] == shifts[1..][i - 1];
      r
  }

  /**
   * GetNextShift's scan: the first shift that ends after `t`; whole when it
   * has not started by `t`, otherwise cut down to start at `t`.
   */
  function NextIn(shifts: seq<Shift>, t: int): (r: Option<Shift>)
    ensures r.Some? ==> t <= r.value.startTime && t < r.value.EndTime()
  {
    if shifts == [] then None
    else if t < shifts[0].EndTime() then Some(Resumed(shifts[0], t))
    else NextIn(shifts[1..], t)
  }

  /**
   * What is left of a shift from `t` on: the whole shift when it has not
   * started by `t`, otherwise the part from `t` to the shift's end.
   */
  function Resumed(s: Shift, t: int): (r: Shift)
    ensures r.EndTime() == s.EndTime()
    ensures r.startTime == if t <= s.startTime then s.startTime else t
  {
    if t <= s.startTime then s else Shift(t, s.duration - (t - s.startTime))
  }

  /**
   * NextIn finds nothing exactly when every shift has ended by `t`, and
   * otherwise answers with the first shift still running or yet to start,
   * cut down to start at `t` when it has already started.
   */
  lemma {:induction false} NextInSpec(shifts: seq<Shift>, t: int)
    ensures NextIn(shifts, t).None? <==> forall i | 0 <= i < |shifts| :: shifts[i].EndTime() <= t
    ensures NextIn(shifts, t).Some? ==> exists i | 0 <= i < |shifts| ::
              && t < shifts[i].EndTime()
              && (forall j | 0 <= j < i :: shifts[j].EndTime() <= t)
              && NextIn(shifts, t).value.EndTime() == shifts[i].EndTime()
              && NextIn(shifts, t).value.startTime == (if t <= shifts[i].startTime then shifts[i].startTime else t)
    decreases |shifts|
  {
    if shifts != [] && shifts[0].EndTime() <= t {
      var rest := shifts[1..];
      NextInSpec(rest, t);
      assert forall i | 1 <= i < |shifts| :: shifts[i] == rest[i - 1];
      var r := NextIn(shifts, t);
      assert r == NextIn(rest, t);
      if r.Some? {
        var k :| 0 <= k < |rest| && t < rest[k].EndTime()
                 && (forall j | 0 <= j < k :: rest[j].EndTime() <= t)
                 && r.value.EndTime() == rest[k].EndTime()
                 && r.value.startTime == (if t <= rest[k].startTime then rest[k].startTime else t);
        assert forall j | 0 <= j < k + 1 :: shifts[j].EndTime() <= t;
      }
    }
  }

  /**
   * GetPreviousShift's scan, from the last shift back: the first shift that
   * starts before `t`; whole when it has ended by `t`, otherwise cut down to
   * end at `t`.
   */
  function PreviousIn(shifts: seq<Shift>, t: int): (r: Option<Shift>)
    ensures r.Some? ==> r.value.startTime < t && r.value.EndTime() <= t
  {
    if shifts == [] then None
    else
      var last := shifts[|shifts| - 1];
      if last.startTime < t then
        if last.EndTime() <= t then Some(last)
        else Some(Shift(last.startTime, t - last.startTime))
      else
        PreviousIn(shifts[..|shifts| - 1], t)
  }
  /**
   * PreviousIn finds nothing exactly when no shift starts before `t`, and
   * otherwise answers with the last shift that does, cut down to end at `t`
   * when it is still running then.
   */
  lemma PreviousInSpec(shifts: seq<Shift>, t: int)
    ensures PreviousIn(shifts, t).None? <==> forall i | 0 <= i < |shifts| :: t <= shifts[i].startTime
    ensures PreviousIn(shifts, t).Some? ==> exists i | 0 <= i < |shifts| ::
              && shifts[i].startTime < t
              && (forall j | i < j < |shifts| :: t <= shifts[j].startTime)
              && PreviousIn(shifts, t).value.startTime == shifts[i].startTime
              && PreviousIn(shifts, t).value.EndTime() == (if shifts[i].EndTime() <= t then shifts[i].EndTime() else t)
  {
    PreviousInNone(shifts, t);
    if PreviousIn(shifts, t).Some? {
      PreviousInFound(shifts, t);
      var i := LastStartBefore(shifts, t);
      assert shifts[i].startTime < t;
    }
  }

  /** The first half of PreviousInSpec: nothing is found exactly when nothing starts before `t`. */
  lemma {:induction false} PreviousInNone(shifts: seq<Shift>, t: int)
    ensures PreviousIn(shifts, t).None? <==> forall i | 0 <= i < |shifts| :: t <= shifts[i].startTime
    decreases |shifts|
  {
    if shifts != [] && t <= shifts[|shifts| - 1].startTime {
      var front := shifts[..|shifts| - 1];
      PreviousInNone(front, t);
      assert forall i | 0 <= i < |front| :: shifts[i] == front[i];
    }
  }

  /** The index of the last shift that starts before `t`, or -1 when none does. */
  function LastStartBefore(shifts: seq<Shift>, t: int): (i: int)
    ensures -1 <= i < |shifts|
  {
    if shifts == [] then -1
    else if shifts[|shifts| - 1].startTime < t then |shifts| - 1
    else LastStartBefore(shifts[..|shifts| - 1], t)
  }

  /** The second half of PreviousInSpec: what is found comes from the last shift starting before `t`. */
  lemma {:induction false} PreviousInFound(shifts: seq<Shift>, t: int)
    requires PreviousIn(shifts, t).Some?
    ensures var i := LastStartBefore(shifts, t);
            && 0 <= i
            && shifts[i].startTime < t
            && (forall j | i < j < |shifts| :: t <= shifts[j].startTime)
            && PreviousIn(shifts, t).value.startTime == shifts[i].startTime
            && PreviousIn(shifts, t).value.EndTime() == (if shifts[i].EndTime() <= t then shifts[i].EndTime() else t)
    decreases |shifts|
  {
    var n := |shifts|;
    if t <= shifts[n - 1].startTime {
      var front := shifts[..n - 1];
      PreviousInFound(front, t);
      var k := LastStartBefore(front, t);
      assert shifts[k] == front[k];
      forall j | k < j < n
        ensures t <= shifts[j].startTime
      {
        if j < n - 1 {
          assert shifts[j] == front[j];
        }
      }
    }
  }

  /**
   * Asking one millisecond earlier changes nothing when every shift that
   * starts before `t` has ended before `t`: no shift starts at `t - 1` and
   * none is cut off there.
   */
  lemma {:induction false} PreviousInEarlier(shifts: seq<Shift>, t: int)
    requires forall i | 0 <= i < |shifts| :: 0 < shifts[i].duration
    requires forall i | 0 <= i < |shifts| && shifts[i].startTime < t :: shifts[i].EndTime() < t
    ensures PreviousIn(shifts, t - 1) == PreviousIn(shifts, t)
    decreases |shifts|
  {
    if shifts != [] && t - 1 <= shifts[|shifts| - 1].startTime {
      var front := shifts[..|shifts| - 1];
      assert forall i | 0 <= i < |front| :: front[i] == shifts[i];
      PreviousInEarlier(front, t);
    }
  }

  /** The index of the first shift whose start has the given components. */
  function MatchIndex(shifts: seq<Shift>, hour: int, minute: int, second: int, millisecond: int): (k: nat)
    ensures k <= |shifts|
    ensures k < |shifts| ==> StartsAt(shifts[k], hour, minute, second, millisecond)
  {
    if shifts == [] then 0
    else if StartsAt(shifts[0], hour, minute, second, millisecond) then 0
    else
      var k := MatchIndex(shifts[1..], hour, minute, second, millisecond);
      assert k < |shifts[1..]| ==> shifts[k + 1] == shifts[1..][k];
      k + 1
  }

  /** No shift before the one MatchIndex finds starts at the given components. */
  lemma {:induction false} MatchIndexFirst(shifts: seq<Shift>, hour: int, minute: int, second: int, millisecond: int)
    ensures forall j | 0 <= j < MatchIndex(shifts, hour, minute, second, millisecond) ::
              !StartsAt(shifts[j], hour, minute, second, millisecond)
    decreases |shifts|
  {
    if shifts != [] && !StartsAt(shifts[0], hour, minute, second, millisecond) {
      MatchIndexFirst(shifts[1..], hour, minute, second, millisecond);
      assert forall j | 1 <= j < |shifts| :: shifts[j] == shifts[1..][j - 1];
    }
  }

  /** RemoveShift's test: the start's hour, minute, second and millisecond. */
  predicate StartsAt(s: Shift, hour: int, minute: int, second: int, millisecond: int) {
    Hour(s.startTime) == hour && Minute(s.startTime) == minute &&
    Second(s.startTime) == second && Millisecond(s.startTime) == millisecond
  }

  /** The list AddShift builds: `x` goes before the first shift it compares below. */
  function Insert(shifts: seq<Shift>, x: Shift): (r: seq<Shift>)
    ensures |r| == |shifts| + 1
  {
    if shifts == [] then [x]
    else if Compare(x, shifts[0]) < 0 then [x] + shifts
    else [shifts[0]] + Insert(shifts[1..], x)
  }

  /** AddShift adds exactly the new shift and loses none. */
  lemma {:induction false} InsertPermutes(shifts: seq<Shift>, x: Shift)
    ensures multiset(Insert(shifts, x)) == multiset(shifts) + multiset{x}
  {
    if shifts != [] && Compare(x, shifts[0]) >= 0 {
      InsertPermutes(shifts[1..], x);
      assert shifts == [shifts[0]] + shifts[1..];
    }
  }

  /** AddShift keeps a sorted list sorted. */
  lemma {:induction false} InsertSorted(shifts: seq<Shift>, x: Shift)
    requires Sorted(shifts)
    ensures Sorted(Insert(shifts, x))
  {
    if shifts == [] {
      assert Insert(shifts, x) == [x];
    } else if Compare(x, shifts[0]) < 0 {
      forall k | 0 <= k < |shifts| ensures Compare(x, shifts[k]) <= 0 {
        if k > 0 {
          CompareTransitive(x, shifts[0], shifts[k]);
        }
      }
      PrependSorted(x, shifts);
    } else {
      var rest := shifts[1..];
      assert Sorted(rest) by {
        forall i, j | 0 <= i < j < |rest| ensures Compare(rest[i], rest[j]) <= 0 {
          assert rest[i] == shifts[i + 1] && rest[j] == shifts[j + 1];
        }
      }
      InsertSorted(rest, x);
      InsertLowerBound(rest, x, shifts[0]);
      PrependSorted(shifts[0], Insert(rest, x));
    }
  }

  /** A sorted list stays sorted behind a shift that compares below all of it. */
  lemma PrependSorted(h: Shift, rest: seq<Shift>)
    requires Sorted(rest)
    requires forall k | 0 <= k < |rest| :: Compare(h, rest[k]) <= 0
    ensures Sorted([h] + rest)
  {
    var r := [h] + rest;
    forall i, j | 0 <= i < j < |r| ensures Compare(r[i], r[j]) <= 0 {
      assert r[j] == rest[j - 1];
      if i > 0 {
        assert r[i] == rest[i - 1];
      }
    }
  }

  /** A lower bound of the list and of `x` bounds everything Insert returns. */
  lemma {:induction false} InsertLowerBound(shifts: seq<Shift>, x: Shift, b: Shift)
    requires forall k | 0 <= k < |shifts| :: Compare(b, shifts[k]) <= 0
    requires Compare(b, x) <= 0
    ensures forall k | 0 <= k < |Insert(shifts, x)| :: Compare(b, Insert(shifts, x)[k]) <= 0
  {
    if shifts != [] && Compare(x, shifts[0]) >= 0 {
      var rest := shifts[1..];
      assert forall k | 0 <= k < |rest| :: rest[k] == shifts[k + 1];
      InsertLowerBound(rest, x, b);
      assert Insert(shifts, x) == [shifts[0]] + Insert(rest, x);
    }
  }

  /** Inserting at the first index where `x` compares below is Insert. */
  lemma {:induction false} InsertAt(shifts: seq<Shift>, x: Shift, i: nat)
    requires i <= |shifts|
    requires forall j | 0 <= j < i :: Compare(x, shifts[j]) >= 0
    requires i < |shifts| ==> Compare(x, shifts[i]) < 0
    ensures Insert(shifts, x) == shifts[..i] + [x] + shifts[i..]
  {
    if shifts == [] {
      assert Insert(shifts, x) == [x];
    } else if i == 0 {
      assert Insert(shifts, x) == [x] + shifts;
    } else {
      var rest := shifts[1..];
      assert Compare(x, shifts[0]) >= 0;
      forall j | 0 <= j < i - 1 ensures Compare(x, rest[j]) >= 0 {
        assert rest[j] == shifts[j + 1];
      }
      if i - 1 < |rest| {
        assert rest[i - 1] == shifts[i];
      }
      InsertAt(rest, x, i - 1);
      assert Insert(shifts, x) == [shifts[0]] + Insert(rest, x);
      ConsInsertAt(shifts, x, i);
    }
  }

  /** The list algebra of InsertAt's step: putting the first shift back in front. */
  lemma ConsInsertAt(shifts: seq<Shift>, x: Shift, i: nat)
    requires 0 < i <= |shifts|
    ensures [shifts[0]] + (shifts[1..][..i - 1] + [x] + shifts[1..][i - 1..]) == shifts[..i] + [x] + shifts[i..]
  {
    assert shifts[1..][..i - 1] == shifts[1..i] && shifts[1..][i - 1..] == shifts[i..];
    assert [shifts[0]] + shifts[1..i] == shifts[..i];
  }

  /** AddShift's bookkeeping: the day's total grows by the new duration. */
  lemma {:induction false} InsertTotal(shifts: seq<Shift>, x: Shift)
    ensures TotalDuration(Insert(shifts, x)) == TotalDuration(shifts) + x.duration
  {
    InsertPermutes(shifts, x);
    TotalMultiset(Insert(shifts, x), shifts + [x]);
    assert (shifts + [x])[..|shifts|] == shifts;
  }

  /** The total depends only on which shifts are listed, not on their order. */
  lemma {:induction false} TotalMultiset(a: seq<Shift>, b: seq<Shift>)
    requires multiset(a) == multiset(b)
    ensures TotalDuration(a) == TotalDuration(b)
    decreases |a|
  {
    if a != [] {
      var x := a[|a| - 1];
      assert x in multiset(b);
      var k :| 0 <= k < |b| && b[k] == x;
      var front := a[..|a| - 1];
      var b' := b[..k] + b[k + 1..];
      DropMatching(a, b, k);
      TotalMultiset(front, b');
      TotalRemove(b, k);
      assert TotalDuration(a) == TotalDuration(front) + x.duration;
    }
  }

  /** Dropping the last of `a` and a matching element of `b` keeps two permutations permutations. */
  lemma DropMatching(a: seq<Shift>, b: seq<Shift>, k: nat)
    requires multiset(a) == multiset(b) && a != [] && k < |b| && b[k] == a[|a| - 1]
    ensures multiset(a[..|a| - 1]) == multiset(b[..k] + b[k + 1..])
  {
    DropOne(b, k);
    DropOne(a, |a| - 1);
    assert a[..|a| - 1] + a[|a|..] == a[..|a| - 1];
  }

  /** Dropping the k-th element takes one copy of it out of the multiset. */
  lemma DropOne(s: seq<Shift>, k: nat)
    requires k < |s|
    ensures multiset(s[..k] + s[k + 1..]) == multiset(s) - multiset{s[k]}
  {
    assert s == s[..k] + [s[k]] + s[k + 1..];
  }

  /** RemoveShift's bookkeeping: dropping the k-th shift drops its duration. */
  lemma {:induction false} TotalRemove(shifts: seq<Shift>, k: nat)
    requires k < |shifts|
    ensures TotalDuration(shifts[..k] + shifts[k + 1..]) == TotalDuration(shifts) - shifts[k].duration
    decreases |shifts|
  {
    var n := |shifts|;
    if k < n - 1 {
      var front := shifts[..n - 1];
      TotalRemove(front, k);
      assert front[..k] + front[k + 1..] + [shifts[n - 1]] == shifts[..k] + shifts[k + 1..];
      assert (shifts[..k] + shifts[k + 1..])[..n - 2] == front[..k] + front[k + 1..];
    } else {
      assert shifts[..k] + shifts[k + 1..] == shifts[..n - 1];
    }
  }

  /** The total of a concatenation is the sum of the totals. */
  lemma {:induction false} TotalConcat(a: seq<Shift>, b: seq<Shift>)
    ensures TotalDuration(a + b) == TotalDuration(a) + TotalDuration(b)
    decreases |b|
  {
    if b != [] {
      var front := b[..|b| - 1];
      TotalConcat(a, front);
      assert (a + b)[..|a + b| - 1] == a + front;
      assert (a + b)[|a + b| - 1] == b[|b| - 1];
    } else {
      assert a + b == a;
    }
  }

  /**
   * On a well-formed day GetNextShift's answer is exact: from `t0` up to the
   * start of the shift it returns nothing is working, and all of that shift
   * is working. Without an answer nothing from `t0` on is working.
   */
  lemma NextInExact(shifts: seq<Shift>, t0: int, t: int)
    requires WellFormed(shifts) && t0 <= t
    ensures NextIn(shifts, t0).None? ==> FindIn(shifts, t).None?
    ensures NextIn(shifts, t0).Some? && t < NextIn(shifts, t0).value.startTime ==> FindIn(shifts, t).None?
    ensures NextIn(shifts, t0).Some? && NextIn(shifts, t0).value.Holds(t) ==> FindIn(shifts, t).Some?
  {
    NextInSpec(shifts, t0);
    var r := NextIn(shifts, t0);
    if r.Some? {
      var i :| 0 <= i < |shifts| && t0 < shifts[i].EndTime()
               && (forall j | 0 <= j < i :: shifts[j].EndTime() <= t0)
               && r.value.EndTime() == shifts[i].EndTime()
               && r.value.startTime == (if t0 <= shifts[i].startTime then shifts[i].startTime else t0);
      if t < r.value.startTime {
        forall j | 0 <= j < |shifts| ensures !shifts[j].Holds(t) {
          if i < j {
            assert shifts[i].EndTime() <= shifts[j].startTime;
          }
        }
      } else if r.value.Holds(t) {
        assert shifts[i].Holds(t);
      }
    }
  }

  /** On a well-formed day GetNextShift's answer is a non-empty part of the day. */
  lemma NextInWithin(shifts: seq<Shift>, t0: int)
    requires WellFormed(shifts) && NextIn(shifts, t0).Some? && 0 <= t0
    ensures 0 <= NextIn(shifts, t0).value.startTime < NextIn(shifts, t0).value.EndTime() <= MsPerDay
  {
    NextInSpec(shifts, t0);
    var i :| 0 <= i < |shifts| && NextIn(shifts, t0).value.EndTime() == shifts[i].EndTime();
  }

  /** Up to the end of the shift GetNextShift returns, being in it is being at work. */
  lemma NextInDecides(shifts: seq<Shift>, t0: int, t: int)
    requires WellFormed(shifts) && NextIn(shifts, t0).Some?
    requires t0 <= t < NextIn(shifts, t0).value.EndTime()
    ensures FindIn(shifts, t).Some? <==> NextIn(shifts, t0).value.startTime <= t
  {
    NextInExact(shifts, t0, t);
  }

  /**
   * GetNextShift asked again at a later time, but before the end of the
   * shift it answered, answers with the same shift, cut down to start at the
   * later time once that shift has started.
   */
  lemma {:induction false} NextInLater(shifts: seq<Shift>, t0: int, t: int)
    requires NextIn(shifts, t0).Some? && t0 <= t < NextIn(shifts, t0).value.EndTime()
    ensures NextIn(shifts, t) == Some(Resumed(NextIn(shifts, t0).value, t))
    decreases |shifts|
  {
    if shifts[0].EndTime() <= t0 {
      NextInLater(shifts[1..], t0, t);
    }
  }

  /** Once every shift has ended, none is left later either. */
  lemma {:induction false} NextInNoneLater(shifts: seq<Shift>, t0: int, t: int)
    requires NextIn(shifts, t0).None? && t0 <= t
    ensures NextIn(shifts, t).None?
    decreases |shifts|
  {
    if shifts != [] {
      NextInNoneLater(shifts[1..], t0, t);
    }
  }

  /**
   * Between the end of the shift before index `i` and the start of shift `i`,
   * GetNextShift answers with shift `i`, whole.
   */
  lemma {:induction false} NextInAt(shifts: seq<Shift>, i: nat, t: int)
    requires i < |shifts| && t <= shifts[i].startTime && 0 < shifts[i].duration
    requires forall j | 0 <= j < i :: shifts[j].EndTime() <= t
    ensures NextIn(shifts, t) == Some(shifts[i])
    decreases i
  {
    if i > 0 {
      NextInAt(shifts[1..], i - 1, t);
    }
  }

  /** The working time a day holds at a time of day lies in one of its shifts. */
  lemma PreviousInWorking(shifts: seq<Shift>, t0: int, t: int)
    requires PreviousIn(shifts, t0).Some? && PreviousIn(shifts, t0).value.Holds(t)
    ensures FindIn(shifts, t).Some?
  {
    PreviousInSpec(shifts, t0);
    var r := PreviousIn(shifts, t0);
    var i :| 0 <= i < |shifts| && shifts[i].startTime < t0
             && (forall j | i < j < |shifts| :: t0 <= shifts[j].startTime)
             && r.value.startTime == shifts[i].startTime
             && r.value.EndTime() == (if shifts[i].EndTime() <= t0 then shifts[i].EndTime() else t0);
    assert shifts[i].Holds(t);
  }

  /**
   * On a well-formed day GetPreviousShift's answer is exact: from the end of
   * the shift it returns up to `t0` nothing is working, and all of that
   * shift is working. Without an answer nothing before `t0` is working.
   */
  lemma PreviousInExact(shifts: seq<Shift>, t0: int, t: int)
    requires WellFormed(shifts) && t < t0
    ensures PreviousIn(shifts, t0).None? ==> FindIn(shifts, t).None?
    ensures PreviousIn(shifts, t0).Some? && PreviousIn(shifts, t0).value.EndTime() <= t ==> FindIn(shifts, t).None?
    ensures PreviousIn(shifts, t0).Some? && PreviousIn(shifts, t0).value.Holds(t) ==> FindIn(shifts, t).Some?
  {
    PreviousInSpec(shifts, t0);
    var r := PreviousIn(shifts, t0);
    if r.Some? {
      var i :| 0 <= i < |shifts| && shifts[i].startTime < t0
               && (forall j | i < j < |shifts| :: t0 <= shifts[j].startTime)
               && r.value.startTime == shifts[i].startTime
               && r.value.EndTime() == (if shifts[i].EndTime() <= t0 then shifts[i].EndTime() else t0);
      if r.value.EndTime() <= t {
        forall j | 0 <= j < |shifts| ensures !shifts[j].Holds(t) {
          if j < i {
            assert shifts[j].EndTime() <= shifts[i].startTime;
          }
        }
      } else if r.value.Holds(t) {
        assert shifts[i].Holds(t);
      }
    }
  }

  /** On a well-formed day GetPreviousShift's answer is a non-empty part of the day. */
  lemma PreviousInWithin(shifts: seq<Shift>, t0: int)
    requires WellFormed(shifts) && PreviousIn(shifts, t0).Some?
    ensures 0 <= PreviousIn(shifts, t0).value.startTime < PreviousIn(shifts, t0).value.EndTime() <= MsPerDay
  {
    PreviousInSpec(shifts, t0);
    var i :| 0 <= i < |shifts| && PreviousIn(shifts, t0).value.startTime == shifts[i].startTime
             && PreviousIn(shifts, t0).value.EndTime()
                == (if shifts[i].EndTime() <= t0 then shifts[i].EndTime() else t0);
  }

  /** From the start of the shift GetPreviousShift returns, being in it is being at work. */
  lemma PreviousInDecides(shifts: seq<Shift>, t0: int, t: int)
    requires WellFormed(shifts) && PreviousIn(shifts, t0).Some?
    requires PreviousIn(shifts, t0).value.startTime <= t < t0
    ensures FindIn(shifts, t).Some? <==> t < PreviousIn(shifts, t0).value.EndTime()
  {
    PreviousInExact(shifts, t0, t);
  }

  /** Removing a shift keeps the order. */
  lemma RemoveSorted(shifts: seq<Shift>, k: nat)
    requires k < |shifts| && Sorted(shifts)
    ensures Sorted(shifts[..k] + shifts[k + 1..])
  {
    var r := shifts[..k] + shifts[k + 1..];
    forall i, j | 0 <= i < j < |r| ensures Compare(r[i], r[j]) <= 0 {
      var i' := if i < k then i else i + 1;
      var j' := if j < k then j else j + 1;
      assert r[i] == shifts[i'] && r[j] == shifts[j'];
    }
  }

  class Day {
    /** The day of the week this day stands for, Sunday = 0. */
    const dayOfWeek: int
    /** The shifts, in (start, duration) order. */
    var shifts: seq<Shift>
    /** The running total of the shifts' durations. */
    var duration: int

    ghost predicate Valid()
      reads this
    {
      0 <= dayOfWeek < DaysPerWeek && Sorted(shifts) && duration == TotalDuration(shifts)
    }

    constructor (day: int)
      requires 0 <= day < DaysPerWeek
      ensures Valid() && dayOfWeek == day && shifts == [] && duration == 0
    {
      dayOfWeek := day;
      shifts := [];
      duration := 0;
    }

    /** The IsWorking property: a working day is one with shifts. */
    function IsWorking(): (b: bool)
      reads this
      ensures b <==> shifts != []
    {
      |shifts| > 0
    }

    /** The ContainsShifts property, the same test as IsWorking. */
    function ContainsShifts(): (b: bool)
      reads this
      ensures b <==> shifts != []
      ensures b == IsWorking()
    {
      |shifts| > 0
    }

    /** FindShift: the lookup on the date's time of day; the date is ignored. */
    function FindShift(date: int): (r: Option<Shift>)
      reads this
      ensures r.Some? <==> exists i | 0 <= i < |shifts| :: shifts[i].Holds(TimeOfDay(date))
      ensures r.Some? ==> r.value in shifts && r.value.Holds(TimeOfDay(date))
    {
      FindIn(shifts, TimeOfDay(date))
    }

    /** IsWorkingTime: some shift holds the date's time of day. */
    function IsWorkingTime(date: int): (b: bool)
      reads this
      ensures b <==> exists i | 0 <= i < |shifts| :: shifts[i].Holds(TimeOfDay(date))
    {
      FindShift(date) != None
    }

    /** GetNextShift: an ArgumentException for a date on another weekday. */
    function GetNextShift(date: int): (r: Result<Option<Shift>>)
      reads this
      ensures r.Failure? <==> Weekday(date) != dayOfWeek
      ensures r.Failure? ==> r.error == WrongDayOfWeek
      ensures r.Success? ==> (r.value.None? <==> forall i | 0 <= i < |shifts| :: shifts[i].EndTime() <= TimeOfDay(date))
      ensures r.Success? && r.value.Some? ==>
                TimeOfDay(date) <= r.value.value.startTime && TimeOfDay(date) < r.value.value.EndTime()
    {
      if Weekday(date) != dayOfWeek then Failure(WrongDayOfWeek)
      else
        NextInSpec(shifts, TimeOfDay(date));
        Success(NextIn(shifts, TimeOfDay(date)))
    }

    /** GetPreviousShift: an ArgumentException for a date on another weekday. */
    function GetPreviousShift(date: int): (r: Result<Option<Shift>>)
      reads this
      ensures r.Failure? <==> Weekday(date) != dayOfWeek
      ensures r.Failure? ==> r.error == WrongDayOfWeek
      ensures r.Success? ==> (r.value.None? <==> forall i | 0 <= i < |shifts| :: TimeOfDay(date) <= shifts[i].startTime)
      ensures r.Success? && r.value.Some? ==>
                r.value.value.startTime < TimeOfDay(date) && r.value.value.EndTime() <= TimeOfDay(date)
    {
      if Weekday(date) != dayOfWeek then Failure(WrongDayOfWeek)
      else
        PreviousInSpec(shifts, TimeOfDay(date));
        Success(PreviousIn(shifts, TimeOfDay(date)))
    }

    /**
     * AddShift: refuses a shift whose start falls inside an existing shift
     * (its end is not checked), otherwise inserts it before the first shift
     * that compares greater and adds its duration to the total. The shift is
     * returned for the ShiftAdded event.
     */
    method AddShift(hour: nat, minute: nat, second: nat, millisecond: nat, shiftDuration: int)
      returns (added: Result<Shift>)
      requires Valid()
      modifies this
      ensures Valid()
      ensures added.Failure? <==> FindIn(old(shifts), TimeOfDay(Offset(hour, minute, second, millisecond))).Some?
      ensures added.Failure? ==> added.error == ShiftConflict && shifts == old(shifts) && duration == old(duration)
      ensures added.Success? ==>
                && added.value == ShiftAt(hour, minute, second, millisecond, shiftDuration)
                && shifts == Insert(old(shifts), added.value)
                && duration == old(duration) + shiftDuration
    {
      var startDate := Offset(hour, minute, second, millisecond);
      if IsWorkingTime(startDate) {
        return Failure(ShiftConflict);
      }
      var shift := ShiftAt(hour, minute, second, millisecond, shiftDuration);
      ghost var before := shifts;
      var inserted := false;
      var i := 0;
      while i < |shifts|
        invariant 0 <= i <= |shifts| && shifts == before
        invariant forall j | 0 <= j < i :: Compare(shift, shifts[j]) >= 0
      {
        if Compare(shift, shifts[i]) < 0 {
          InsertAt(before, shift, i);
          shifts := shifts[..i] + [shift] + shifts[i..];
          inserted := true;
          break;
        }
        i := i + 1;
      }
      if !inserted {
        InsertAt(before, shift, |before|);
        assert before[..|before|] + [shift] + before[|before|..] == before + [shift];
        shifts := shifts + [shift];
      }
      assert shifts == Insert(before, shift);
      InsertSorted(before, shift);
      InsertTotal(before, shift);
      duration := duration + shiftDuration;
      added := Success(shift);
    }

    /**
     * RemoveShift: deletes the first shift whose start has the given
     * components and takes its duration off the total. Returns the shift the
     * ShiftRemoved event is raised with: the matching one, or, when nothing
     * matches, the last one examined.
     */
    method RemoveShift(hour: nat, minute: nat, second: nat, millisecond: nat)
      returns (examined: Option<Shift>)
      requires Valid()
      modifies this
      ensures Valid()
      ensures var k := MatchIndex(old(shifts), hour, minute, second, millisecond);
              && (k < |old(shifts)| ==>
                    && shifts == old(shifts)[..k] + old(shifts)[k + 1..]
                    && duration == old(duration) - old(shifts)[k].duration
                    && examined == Some(old(shifts)[k]))
              && (k == |old(shifts)| ==>
                    && shifts == old(shifts) && duration == old(duration)
                    && examined == (if old(shifts) == [] then None else Some(old(shifts)[|old(shifts)| - 1])))
    {
      ghost var before := shifts;
      ghost var k := MatchIndex(before, hour, minute, second, millisecond);
      MatchIndexFirst(before, hour, minute, second, millisecond);
      examined := None;
      var i := 0;
      while i < |shifts|
        invariant 0 <= i <= |shifts| && shifts == before && i <= k
        invariant examined == if i == 0 then None else Some(shifts[i - 1])
      {
        var shift := shifts[i];
        examined := Some(shift);
        if StartsAt(shift, hour, minute, second, millisecond) {
          TotalRemove(shifts, i);
          RemoveSorted(shifts, i);
          duration := duration - shift.duration;
          shifts := shifts[..i] + shifts[i + 1..];
          break;
        }
        i := i + 1;
      }
    }
  }
}
