/**
 * The immutable Shift value of WorkingWeek/Shift.cs: a start instant and a
 * duration, ordered by start and then by duration.
 */
module Shifts {
  import opened Time

  datatype Error = NotAShift | NullReference | ShiftConflict | WrongDayOfWeek | DivideByZero

  datatype Result<T> = Success(value: T) | Failure(error: Error)

  datatype Option<T> = None | Some(value: T)

  /**
   * A shift. For the shifts a Day stores, `startTime` is an offset from
   * DateTime.MinValue, so it is a pure time of day; the walkers re-date shifts
   * onto real calendar days.
   */
  datatype Shift = Shift(startTime: int, duration: int) {

    /** The EndTime property: the start moved on by the duration. */
    function EndTime(): (e: int)
      ensures e - startTime == duration
    {
      startTime + duration
    }

    /** [StartTime, EndTime) holds the instant `t`. */
    predicate Holds(t: int) {
      startTime <= t < EndTime()
    }
  }

  /**
   * The hour/minute/second/millisecond constructor: the start is anchored on
   * the date of DateTime.MinValue.
   */
  function ShiftAt(hour: nat, minute: nat, second: nat, millisecond: nat, duration: int): (s: Shift)
    ensures hour < 24 && minute < 60 && second < 60 && millisecond < 1000 ==>
              0 <= s.startTime < MsPerDay &&
              Hour(s.startTime) == hour && Minute(s.startTime) == minute &&
              Second(s.startTime) == second && Millisecond(s.startTime) == millisecond
    ensures s.duration == duration
  {
    var s := Shift(Offset(hour, minute, second, millisecond), duration);
    if hour < 24 && minute < 60 && second < 60 && millisecond < 1000 then
      OffsetComponents(hour, minute, second, millisecond); s
    else
      s
  }

  /** DateTime.CompareTo and TimeSpan.CompareTo: -1, 0 or 1. */
  function Sign(x: int): (c: int)
    ensures c == -1 || c == 0 || c == 1
    ensures c < 0 <==> x < 0
    ensures c == 0 <==> x == 0
  {
    if x < 0 then -1 else if x > 0 then 1 else 0
  }

  /** Strictly before in the (start, duration) order. */
  predicate Before(a: Shift, b: Shift) {
    a.startTime < b.startTime || (a.startTime == b.startTime && a.duration < b.duration)
  }

  /** Shift.CompareTo on two shifts: start time first, then duration. */
  function Compare(a: Shift, b: Shift): (c: int)
    ensures c == -1 || c == 0 || c == 1
    ensures c < 0 <==> Before(a, b)
    ensures c > 0 <==> Before(b, a)
    ensures c == 0 <==> a == b
  {
    var byStart := Sign(a.startTime - b.startTime);
    if byStart != 0 then byStart else Sign(a.duration - b.duration)
  }

  /** What CompareTo may be handed: a shift, null, or an object of another type. */
  datatype Comparand = ShiftObject(shift: Shift) | NullObject | OtherObject

  /**
   * Shift.CompareTo(object): asking null for its type throws a
   * NullReferenceException, and an object of another type an ArgumentException.
   */
  function CompareTo(a: Shift, obj: Comparand): (r: Result<int>)
    ensures r.Failure? <==> !obj.ShiftObject?
    ensures r.Failure? ==> (r.error == NullReference <==> obj.NullObject?)
    ensures r.Failure? ==> (r.error == NotAShift <==> obj.OtherObject?)
    ensures r.Success? ==> (r.value < 0 <==> Before(a, obj.shift)) &&
                           (r.value == 0 <==> a == obj.shift)
  {
    match obj
    case NullObject => Failure(NullReference)
    case OtherObject => Failure(NotAShift)
    case ShiftObject(b) => Success(Compare(a, b))
  }

  /** The comparison is antisymmetric. */
  lemma CompareAntisymmetric(a: Shift, b: Shift)
    ensures Compare(a, b) == -Compare(b, a)
  {
  }

  /** ... and transitive, so it is a total order on (start, duration) pairs. */
  lemma CompareTransitive(a: Shift, b: Shift, c: Shift)
    requires Compare(a, b) <= 0 && Compare(b, c) <= 0
    ensures Compare(a, c) <= 0
    ensures Compare(a, c) == 0 ==> a == b == c
  {
  }
}
