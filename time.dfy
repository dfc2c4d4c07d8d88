/**
 * Instants and spans of time, as the working-week engine uses them.
 *
 * An instant (a .NET DateTime) is an integer number of milliseconds since
 * DateTime.MinValue, 0001-01-01 00:00, which was a Monday. A span (a .NET
 * TimeSpan) is an integer number of milliseconds. The engine only ever takes
 * apart an instant into its date and its hour, minute, second and millisecond,
 * so a millisecond grid loses nothing as long as every input lies on it.
 */
module Time {

  const MsPerSecond: int := 1000
  const MsPerMinute: int := 60_000
  const MsPerHour: int := 3_600_000
  const MsPerDay: int := 86_400_000
  const DaysPerWeek: int := 7
  const MsPerWeek: int := 604_800_000

  /** The number of whole days between DateTime.MinValue and `t`. */
  function DayNumber(t: int): int {
    t / MsPerDay
  }

  /** DateTime.TimeOfDay: the time elapsed since midnight. */
  function TimeOfDay(t: int): (r: int)
    ensures 0 <= r < MsPerDay
  {
    t % MsPerDay
  }

  /** DateTime.Date: midnight at the start of the day holding `t`. */
  function Midnight(t: int): int {
    t - TimeOfDay(t)
  }

  /** DateTime.DayOfWeek, with Sunday = 0 as in System.DayOfWeek. */
  function Weekday(t: int): (w: int)
    ensures 0 <= w < DaysPerWeek
  {
    (DayNumber(t) + 1) % DaysPerWeek
  }

  /** The components DateTime exposes for the time of day. */
  function Hour(t: int): int { TimeOfDay(t) / MsPerHour }
  function Minute(t: int): int { TimeOfDay(t) / MsPerMinute % 60 }
  function Second(t: int): int { TimeOfDay(t) / MsPerSecond % 60 }
  function Millisecond(t: int): int { TimeOfDay(t) % MsPerSecond }

  /**
   * DateTime.MinValue.AddHours(hour).AddMinutes(minute).AddSeconds(second)
   * .AddMilliseconds(millisecond): an offset from MinValue, which is a time of
   * day only while each component is in its usual range.
   */
  function Offset(hour: nat, minute: nat, second: nat, millisecond: nat): int {
    hour * MsPerHour + minute * MsPerMinute + second * MsPerSecond + millisecond
  }

  /** C#'s `/` on long: the quotient truncated toward zero. */
  function TruncDiv(a: int, b: int): (q: int)
    requires b != 0
    ensures a >= 0 && b > 0 ==> q == a / b
    ensures (a >= 0) != (b > 0) ==> q <= 0
  {
    var n := if a < 0 then -a else a;
    var d := if b < 0 then -b else b;
    if (a >= 0) == (b > 0) then n / d else -(n / d)
  }

  /** An instant is determined by its day number and its time of day. */
  lemma AtDay(d: int, r: int)
    requires 0 <= r < MsPerDay
    ensures DayNumber(d * MsPerDay + r) == d
    ensures TimeOfDay(d * MsPerDay + r) == r
    ensures Midnight(d * MsPerDay + r) == d * MsPerDay
  {
  }

  /** Every instant splits into its day and its time of day. */
  lemma Split(t: int)
    ensures t == DayNumber(t) * MsPerDay + TimeOfDay(t)
    ensures Midnight(t) == DayNumber(t) * MsPerDay
  {
  }

  /** Instants from `t` up to the end of its day lie on the same day. */
  lemma SameDay(t: int, u: int)
    requires Midnight(t) <= u < Midnight(t) + MsPerDay
    ensures DayNumber(u) == DayNumber(t) && Weekday(u) == Weekday(t)
    ensures TimeOfDay(u) == u - Midnight(t) && Midnight(u) == Midnight(t)
  {
    Split(t);
    AtDay(DayNumber(t), u - Midnight(t));
  }

  /** The midnight of an instant's day is itself a midnight. */
  lemma MidnightOfDay(t: int)
    ensures TimeOfDay(Midnight(t)) == 0 && Midnight(Midnight(t)) == Midnight(t)
  {
    Split(t);
    AtDay(DayNumber(t), 0);
  }

  /** Midnight of the following day, where the forward walk resumes. */
  lemma NextMidnight(t: int)
    ensures DayNumber(Midnight(t) + MsPerDay) == DayNumber(t) + 1
    ensures TimeOfDay(Midnight(t) + MsPerDay) == 0
    ensures Midnight(Midnight(t) + MsPerDay) == Midnight(t) + MsPerDay
    ensures Weekday(Midnight(t) + MsPerDay) == (Weekday(t) + 1) % DaysPerWeek
  {
    Split(t);
    AtDay(DayNumber(t) + 1, 0);
  }

  /** 23:59:59.999 of the previous day, where the backward walk resumes. */
  lemma PreviousLastMillisecond(t: int)
    ensures DayNumber(Midnight(t) - 1) == DayNumber(t) - 1
    ensures TimeOfDay(Midnight(t) - 1) == MsPerDay - 1
    ensures Midnight(Midnight(t) - 1) == Midnight(t) - MsPerDay
    ensures Weekday(Midnight(t) - 1) == (Weekday(t) + DaysPerWeek - 1) % DaysPerWeek
  {
    Split(t);
    AtDay(DayNumber(t) - 1, MsPerDay - 1);
  }

  /** Moving by a whole week keeps the weekday and the time of day. */
  lemma ShiftByWeeks(t: int, k: int)
    ensures DayNumber(t + k * MsPerWeek) == DayNumber(t) + 7 * k
    ensures TimeOfDay(t + k * MsPerWeek) == TimeOfDay(t)
    ensures Midnight(t + k * MsPerWeek) == Midnight(t) + k * MsPerWeek
    ensures Weekday(t + k * MsPerWeek) == Weekday(t)
  {
    Split(t);
    AtDay(DayNumber(t) + 7 * k, TimeOfDay(t));
  }

  /** The components of an in-range offset are the ones it was built from. */
  lemma OffsetComponents(hour: nat, minute: nat, second: nat, millisecond: nat)
    requires hour < 24 && minute < 60 && second < 60 && millisecond < 1000
    ensures 0 <= Offset(hour, minute, second, millisecond) < MsPerDay
    ensures TimeOfDay(Offset(hour, minute, second, millisecond)) == Offset(hour, minute, second, millisecond)
    ensures Hour(Offset(hour, minute, second, millisecond)) == hour
    ensures Minute(Offset(hour, minute, second, millisecond)) == minute
    ensures Second(Offset(hour, minute, second, millisecond)) == second
    ensures Millisecond(Offset(hour, minute, second, millisecond)) == millisecond
  {
    var x := Offset(hour, minute, second, millisecond);
    var seconds := (hour * 60 + minute) * 60 + second;
    var minutes := hour * 60 + minute;
    assert x == seconds * MsPerSecond + millisecond;
    assert x / MsPerSecond == seconds && x % MsPerSecond == millisecond;
    assert seconds == minutes * 60 + second;
    assert seconds / 60 == minutes && seconds % 60 == second;
    assert minutes / 60 == hour && minutes % 60 == minute;
    assert x == minutes * MsPerMinute + (second * MsPerSecond + millisecond);
    assert x / MsPerMinute == minutes;
    assert x == hour * MsPerHour + (minute * MsPerMinute + second * MsPerSecond + millisecond);
    assert x / MsPerHour == hour;
  }

  /** Conversely, a time of day is the offset of its own components. */
  lemma ComponentsOffset(t: int)
    ensures Hour(t) < 24 && Minute(t) < 60 && Second(t) < 60 && Millisecond(t) < 1000
    ensures Offset(Hour(t), Minute(t), Second(t), Millisecond(t)) == TimeOfDay(t)
  {
    var r := TimeOfDay(t);
    var seconds, ms := r / MsPerSecond, r % MsPerSecond;
    var minutes, sec := seconds / 60, seconds % 60;
    var h, min := minutes / 60, minutes % 60;
    assert r == seconds * MsPerSecond + ms;
    assert seconds == minutes * 60 + sec;
    assert minutes == h * 60 + min;
    var inHour := min * MsPerMinute + sec * MsPerSecond + ms;
    assert r == minutes * MsPerMinute + sec * MsPerSecond + ms;
    assert r == h * MsPerHour + inHour && 0 <= inHour < MsPerHour;
    assert Hour(t) == h;
    assert r / MsPerMinute == minutes;
    assert Minute(t) == min && Second(t) == sec && Millisecond(t) == ms;
  }

  /** Taking whole multiples of `b` out of `a` by C#'s division leaves less than one `b`. */
  lemma WholeMultiples(a: int, b: int)
    requires a >= 0 && b != 0 && TruncDiv(a, b) > 0
    ensures b > 0 && 0 <= a - TruncDiv(a, b) * b < b
  {
    assert a == b * (a / b) + a % b;
  }
}
