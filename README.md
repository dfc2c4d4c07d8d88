# WorkingWeek in Dafny

A model of the business-time engine of WorkingWeek (`source/WorkingWeek/`) and
of the `Shift` value it is built on. A `Week` holds seven `Day`s, one per
weekday (Sunday = 0, as `System.DayOfWeek` numbers them). Each `Day` keeps a
list of shifts, sorted by start and then by duration, together with the
running total of their durations. The week:

- walks real-dated shift occurrences forward (`AscendingShifts`) and backward
  (`DescendingShifts`);
- adds working time to an instant (`DateAdd`);
- measures the working time between two instants (`DateDiff`).

Both `DateAdd` and `DateDiff` first skip whole weeks, counting the week's
`Duration` for each.

An instant (`DateTime`) is an integer number of milliseconds since
`DateTime.MinValue`, which was a Monday. A span (`TimeSpan`) is an integer
number of milliseconds. The code takes instants apart only into their date
and a millisecond-precision time of day, so this grid is exact for inputs that
lie on it.

Modules, one file each:

- `Time` (time.dfy): day number, time of day, weekday and the
  hour/minute/second/millisecond components of an instant. It also has C#'s
  truncating division.
- `Shifts` (shift.dfy): `Shift` (start, duration, `EndTime`), the
  hour/minute/second/millisecond constructor, and `CompareTo`.
- `Days` (day.dfy): the read-only scans of a day's list as functions
  (`FindShift`, `GetNextShift`, `GetPreviousShift`), and class `Day`. Its
  `AddShift` and `RemoveShift` are methods with the source's loops.
- `Walks` (walks.dfy): what the walkers, `DateAdd` and `DateDiff` are meant to
  compute, over the seven shift lists as one value (`Pattern`). These are the
  reference definitions, and the properties the engine promises are proved
  about them: exactness of the walks, the round trip of adding and measuring
  working time, symmetry of `DateDiff`, and the direction of `DateAdd`.
- `Written` (written.dfy): the loops of `Week.cs` as written, as recursive
  functions. They keep the `Day` object they last asked, step back one
  millisecond before a yielded shift, and add up whole shifts in `DateDiff`.
  Lemmas say when these succeed and when they agree with `Walks`: the
  forward walk and `DateAdd` when no shift reaches midnight, the backward walk
  and `DateAdd` on spaced weeks (shifts strictly inside their day, with gaps
  between them). `DateDiff` as written is shown to be the intended one plus
  the overhang of the last shift it adds up.
- `Weeks` (week.dfy): class `Week`. It has its seven `Day` objects, the
  `Duration` that the days' add/remove events keep, and every walker and
  arithmetic operation as a method with the source's loops. Each method is
  proved to return what the matching `Written` function computes.
- `WorkTime` (worktime.dfy): the working time between two instants on a week
  of well-formed days. It is additive, repeats from week to week, and any
  seven consecutive days hold exactly the week's total. From these follows
  the round trip: `DateDiff` undoes `DateAdd` across whole weeks.
- `Examples` (examples.dfy): concrete weeks, in July 2010, on which the code
  as written and the intended walks give different answers (see Findings).
  It also states the values the repository's `DateAdd` and `DateDiff` tests
  expect, as facts about the code as written.

C# events are direct calls. `Day.AddShift` and `Day.RemoveShift` return the
shift they would raise the event with, and `Week.AddShift` and
`Week.RemoveShift` pass it to `ShiftAdded` or `ShiftRemoved`. An exception is
a `Failure` of a `Result`:

- `ShiftConflict`: the new shift starts inside an existing one;
- `WrongDayOfWeek`: a Day is asked about a date of another weekday;
- `NotAShift`: `CompareTo` gets an object that is not a shift;
- `NullReference`: `CompareTo` gets null, whose type it asks for;
- `DivideByZero`: `DateAdd` on a week whose `Duration` is zero.

The week's `Duration` property is a field of its own. It is not derived from
the shifts, because the source keeps it only through the events. When
`RemoveShift` finds no match, `Day.RemoveShift` still raises `ShiftRemoved`
with the last shift it examined (source/WorkingWeek/Day.cs lines 165-185). The
week's `Duration` then drops although no shift left, and
`Weeks.Week.RemoveShift` states exactly when this happens.

Walks over the week, and the arithmetic, need a `Walkable` pattern: seven days
whose shifts start within their day and last a positive time. Statements about
which instants are working also need each day to be well formed: shifts inside
the day and not overlapping. `AddShift` does not enforce this, because it
checks only the new shift's start.

## Model

| member | source | states |
|---|---|---|
| Time.TimeOfDay | source/WorkingWeek/Day.cs:229 | DateTime.TimeOfDay lies in [0, one day) |
| Time.Weekday | source/WorkingWeek/Week.cs:314-317 | DayOfWeek is a valid index into the seven days |
| Time.TruncDiv | source/WorkingWeek/Week.cs:333 | C#'s long division agrees with floor division for a non-negative dividend and positive divisor, and is never positive when the signs differ |
| Time.SameDay | source/WorkingWeek/Week.cs:174 | an instant up to a day after midnight has that day's weekday and midnight, and its time of day is its distance from midnight |
| Time.NextMidnight | source/WorkingWeek/Week.cs:165-167 | midnight of the next date is weekday + 1 (mod 7), at time of day 0 |
| Time.PreviousLastMillisecond | source/WorkingWeek/Week.cs:215-217 | 23:59:59.999 of the previous date is weekday − 1 (mod 7), at the last millisecond of the day |
| Time.ShiftByWeeks | source/WorkingWeek/Week.cs:289 | adding k weeks keeps the weekday and the time of day and moves midnight by k weeks |
| Time.OffsetComponents | source/WorkingWeek/Day.cs:116 | MinValue.AddHours(h).AddMinutes(m)… with in-range components is a time of day whose Hour, Minute, Second and Millisecond are h, m, s, ms |
| Time.ComponentsOffset | source/WorkingWeek/Day.cs:229 | rebuilding a time of day from its own components gives it back, so searchTime is the date's time of day |
| Time.WholeMultiples | source/WorkingWeek/Week.cs:333-339 | when the division gives a positive count of weeks, what is left is non-negative and less than one week total |
| Shifts.Shift.EndTime | WorkingWeek/Shift.cs:27-33 | EndTime − StartTime is Duration |
| Shifts.ShiftAt | WorkingWeek/Shift.cs:67-71 | the component constructor yields a start that is a pure time of day with the given components, and the given duration |
| Shifts.Sign | WorkingWeek/Shift.cs:91-96 | DateTime/TimeSpan.CompareTo answer −1, 0 or 1 with the sign of the difference |
| Shifts.Compare | WorkingWeek/Shift.cs:91-96 | negative iff strictly earlier by (start, duration), positive iff strictly later, 0 iff both fields are equal |
| Shifts.CompareTo | WorkingWeek/Shift.cs:83-97 | NullReferenceException (NullReference) exactly for null, ArgumentException (NotAShift) exactly for an object of another type; otherwise the (start, duration) comparison |
| Shifts.CompareAntisymmetric | WorkingWeek/Shift.cs:91-96 | Compare(a, b) = −Compare(b, a) |
| Shifts.CompareTransitive | WorkingWeek/Shift.cs:83-97 | the comparison is transitive, and a ≤ b ≤ c with a = c forces all equal: a total order |
| Days.FindIn | source/WorkingWeek/Day.cs:206-216 | None iff no shift's [start, end) holds the time; otherwise the first listed shift that holds it |
| Days.NextIn | source/WorkingWeek/Day.cs:229-246 | an answer starts no earlier than the time and ends after it |
| Days.NextInSpec | source/WorkingWeek/Day.cs:229-246 | None iff every shift has ended by t; otherwise the first shift ending after t, whole if it starts at or after t, else trimmed to start at t with the same end |
| Days.PreviousIn | source/WorkingWeek/Day.cs:259-279 | an answer starts before the time and ends by it |
| Days.PreviousInSpec | source/WorkingWeek/Day.cs:259-279 | None iff no shift starts before t; otherwise the last shift starting before t, whole if it has ended by t, else trimmed to end at t with the same start |
| Days.PreviousInNone | source/WorkingWeek/Day.cs:262-279 | the backward scan finds nothing iff every shift starts at or after t |
| Days.PreviousInFound | source/WorkingWeek/Day.cs:262-276 | a found shift is the last one starting before t; all later ones start at or after t; its end is the shift's end or t |
| Days.MatchIndex | source/WorkingWeek/Day.cs:165-173 | the index found, when inside the list, is a shift whose start has the given hour, minute, second and millisecond |
| Days.MatchIndexFirst | source/WorkingWeek/Day.cs:165-178 | no earlier shift matches: the first match is the one removed |
| Days.InsertPermutes | source/WorkingWeek/Day.cs:128-142 | the new list is the old list plus exactly the new shift, as a multiset |
| Days.InsertSorted | source/WorkingWeek/Day.cs:125-142 | inserting before the first shift that compares greater keeps a sorted list sorted |
| Days.InsertLowerBound | source/WorkingWeek/Day.cs:128-142 | a shift below the new one and below all the old ones is below everything in the new list |
| Days.InsertAt | source/WorkingWeek/Day.cs:128-141 | inserting at the first index whose shift compares greater (or appending when there is none) is the list Insert defines |
| Days.InsertTotal | source/WorkingWeek/Day.cs:144 | the new list's total duration is the old total plus the new shift's duration |
| Days.TotalMultiset | source/WorkingWeek/Day.cs:58-62 | the total duration depends only on which shifts the list holds, not on their order |
| Days.TotalRemove | source/WorkingWeek/Day.cs:176-177 | removing the k-th shift takes exactly its duration off the total |
| Days.TotalConcat | source/WorkingWeek/Week.cs:293-296 | the total of two lists put together is the sum of their totals |
| Days.RemoveSorted | source/WorkingWeek/Day.cs:177 | removing a shift keeps the list sorted |
| Days.NextInExact | source/WorkingWeek/Day.cs:223-247 | on a well-formed day, nothing is working from t up to the start of the answer (or ever after t, without one), and all of the answer is working |
| Days.NextInWithin | source/WorkingWeek/Day.cs:240-242 | on a well-formed day, the answer is a non-empty interval inside the day |
| Days.NextInDecides | source/WorkingWeek/Day.cs:229-246 | up to the answer's end, an instant is working iff it is at or after the answer's start |
| Days.Resumed | source/WorkingWeek/Day.cs:237-242 | a shift resumed at a later time keeps its end and starts at that time once it has begun |
| Days.NextInLater | source/WorkingWeek/Day.cs:229-246 | asked again later, before the end of its answer, GetNextShift answers with the same shift resumed at the later time |
| Days.NextInNoneLater | source/WorkingWeek/Day.cs:229-246 | once GetNextShift finds nothing, it finds nothing at any later time of day |
| Days.NextInAt | source/WorkingWeek/Day.cs:229-240 | after every shift ahead of shift i has ended and before shift i starts, GetNextShift answers with shift i, whole |
| Days.PreviousInWorking | source/WorkingWeek/Day.cs:273-275 | every instant of the (possibly trimmed) answer is working time |
| Days.PreviousInExact | source/WorkingWeek/Day.cs:254-280 | on a well-formed day, nothing is working between the answer's end and t (or before t, without one), and all of the answer is working |
| Days.PreviousInWithin | source/WorkingWeek/Day.cs:273-275 | on a well-formed day, the answer is a non-empty interval inside the day |
| Days.PreviousInDecides | source/WorkingWeek/Day.cs:259-279 | from the answer's start up to t, an instant is working iff it is before the answer's end |
| Days.Day.constructor | source/WorkingWeek/Day.cs:95-100 | a new day of the given weekday has no shifts and zero Duration |
| Days.Day.IsWorking | source/WorkingWeek/Day.cs:47-53 | true iff the day has at least one shift |
| Days.Day.ContainsShifts | source/WorkingWeek/Day.cs:68-71 | true iff the day has at least one shift, so it always agrees with IsWorking |
| Days.Day.FindShift | source/WorkingWeek/Day.cs:206-216 | a shift is returned iff one holds the date's time of day, and the one returned holds it; the date itself is ignored |
| Days.Day.IsWorkingTime | source/WorkingWeek/Day.cs:194-197 | true iff some shift holds the date's time of day |
| Days.Day.GetNextShift | source/WorkingWeek/Day.cs:223-247 | WrongDayOfWeek iff the date is on another weekday; otherwise null iff every shift has ended by the time of day, and an answer starts at or after it and ends after it |
| Days.Day.GetPreviousShift | source/WorkingWeek/Day.cs:254-280 | WrongDayOfWeek iff the date is on another weekday; otherwise null iff no shift starts before the time of day, and an answer starts before it and ends by it |
| Days.Day.AddShift | source/WorkingWeek/Day.cs:114-151 | ShiftConflict iff the new start lies inside an existing shift, and then nothing changes; otherwise the list becomes Insert(old, shift) and stays sorted, and Duration grows by the new duration |
| Days.Day.RemoveShift | source/WorkingWeek/Day.cs:160-186 | the first matching shift is removed and its duration taken off, the list staying sorted; with no match nothing changes, but the last shift examined is still returned for the event |
| Walks.WeekTotalIdle | source/WorkingWeek/Week.cs:27-37 | a week without shifts has zero total working time |
| Walks.WeekTotalUpdate | source/WorkingWeek/Week.cs:65-78 | replacing one day's list changes the week total by the change in that day's total |
| Walks.NextInWalkable | source/WorkingWeek/Day.cs:229-246 | on a walkable week, GetNextShift's answer starts inside the day, at or after t, with positive duration |
| Walks.SeekForward | source/WorkingWeek/Week.cs:157-169 | a shift found by the inner loop starts at or after the cursor and has positive length |
| Walks.SeekForwardFinds | source/WorkingWeek/Week.cs:157-169 | with a shift on some weekday, the inner loop finds one once it may roll over to that weekday |
| Walks.NextOccurrenceExists | source/WorkingWeek/Week.cs:146-169 | a week with shifts always yields a next shift within seven rollovers: the inner loop terminates |
| Walks.NextOccurrence | source/WorkingWeek/Week.cs:155-175 | the next shift starts at or after the cursor and has positive length |
| Walks.FoundOnDay | source/WorkingWeek/Day.cs:223-247 | a shift the cursor's own day returns decides the working time from the cursor to its end |
| Walks.NothingOnDay | source/WorkingWeek/Week.cs:163-168 | when the cursor's day has nothing more, nothing is working from the cursor to midnight |
| Walks.SeekForwardExact | source/WorkingWeek/Week.cs:157-175 | from the cursor to the end of the shift found, an instant is working iff it is at or after the shift's start |
| Walks.NextOccurrenceExact | source/WorkingWeek/Week.cs:155-175 | no working time is skipped before the next shift, and all of it is working |
| Walks.Ascending | source/WorkingWeek/Week.cs:144-185 | the shifts yielded start in [startDate, endDate), have positive length, and each starts at or after the previous one's end |
| Walks.AscendingCoversWork | source/WorkingWeek/Week.cs:144-185 | on a well-formed week, an instant in [startDate, endDate) is working iff a yielded shift holds it |
| Walks.Trim | source/WorkingWeek/Week.cs:293-296 | a shift cut at the end date keeps its start and ends at the earlier of its end and the end date; intended reading, see Findings row 1 |
| Walks.WalkForward | source/WorkingWeek/Week.cs:342-360 | adding working time never moves back, and moves strictly forward when there is time to add and shifts to spend it on |
| Walks.WorkBetweenStep | source/WorkingWeek/Week.cs:293-296 | the working time from the cursor is that of the next shift, cut at the end, plus the working time after it; intended reading, see Findings row 1 |
| Walks.WalkForwardRoundTrip | source/WorkingWeek/Week.cs:342-362 | the working time between the cursor and where the forward walk lands is exactly the amount added |
| Walks.PreviousInWalkable | source/WorkingWeek/Day.cs:259-279 | on a walkable week, GetPreviousShift's answer lies inside the day, before t, with positive duration |
| Walks.SeekBackward | source/WorkingWeek/Week.cs:207-219 | a stretch found going back ends at or before the cursor and has positive length; intended reading, see Findings rows 3 and 4 |
| Walks.SeekBackwardFinds | source/WorkingWeek/Week.cs:207-219 | with a shift on some weekday, the backward search finds one once it may reach that weekday; intended reading, see Findings rows 3 and 4 |
| Walks.PreviousOccurrenceExists | source/WorkingWeek/Week.cs:196-219 | a week with shifts always has a previous stretch within seven day ends; intended reading, see Findings rows 3 and 4 |
| Walks.PreviousOccurrence | source/WorkingWeek/Week.cs:205-225 | the previous stretch ends at or before the cursor and has positive length; intended reading, see Findings rows 3 and 4 |
| Walks.FoundBeforeOnDay | source/WorkingWeek/Day.cs:254-280 | a stretch the cursor's day returns decides the working time from its start to the cursor; intended reading, see Findings rows 3 and 4 |
| Walks.NothingBeforeOnDay | source/WorkingWeek/Week.cs:213-218 | when the cursor's day has nothing earlier, nothing is working from its midnight to the cursor; intended reading, see Findings rows 3 and 4 |
| Walks.SeekBackwardExact | source/WorkingWeek/Week.cs:207-225 | from the start of the stretch found up to the cursor, an instant is working iff it is before the stretch's end; intended reading, see Findings rows 3 and 4 |
| Walks.PreviousOccurrenceExact | source/WorkingWeek/Week.cs:205-225 | the stretch before the cursor is all working time and no working time after it is skipped; intended reading, see Findings rows 3 and 4 |
| Walks.Descending | source/WorkingWeek/Week.cs:194-235 | the stretches yielded start after endDate, end by startDate, have positive length, and each ends by the start of the one before it; intended reading, see Findings rows 3 and 4 |
| Walks.WalkBackward | source/WorkingWeek/Week.cs:390-408 | taking off working time never moves forward, and moves strictly back when there is time to take and shifts to take it from; intended reading, see Findings rows 3 and 4 |
| Walks.DateAdd | source/WorkingWeek/Week.cs:244-256 | DateAdd(t, 0) = t; a non-zero duration fails iff the week's Duration is zero; the result is never before t for a positive duration, never after t for a negative one |
| Walks.AddForward | source/WorkingWeek/Week.cs:325-363 | the whole weeks and then the walk never land before the start |
| Walks.AddBackward | source/WorkingWeek/Week.cs:371-411 | the whole weeks and then the backward walk never land after the start |
| Walks.WholeWeeks | source/WorkingWeek/Week.cs:333-339 | the weeks skipped leave a non-negative remainder, less than one week total when any are skipped, and none are skipped iff the division is not positive |
| Walks.DateDiffAntisymmetric | source/WorkingWeek/Week.cs:264-307 | DateDiff(a, b) = −DateDiff(b, a) |
| Walks.WorkBetweenEmpty | source/WorkingWeek/Week.cs:153 | there is no working time from an instant up to itself or an earlier one |
| Walks.WorkBetweenNonNegative | source/WorkingWeek/Week.cs:293-296 | the working time between two instants is never negative |
| Walks.DateDiffWholeWeeks | source/WorkingWeek/Week.cs:281-290 | dates k weeks apart differ by k times the week's Duration |
| Walks.DateDiffSign | source/WorkingWeek/Week.cs:264-307 | with a non-negative Duration, DateDiff is ≥ 0 for dates in order and ≤ 0 for dates in reverse |
| Walks.ForwardDiffNonNegative | source/WorkingWeek/Week.cs:278-296 | for dates in order, whole weeks plus the walked time are non-negative |
| Written.AddPositiveFrom | source/WorkingWeek/Week.cs:342-360 | the loop over the ascending walk fails only with WrongDayOfWeek |
| Written.DateAddPositive | source/WorkingWeek/Week.cs:325-363 | fails with a division by zero iff the week's Duration is zero |
| Written.SeekForwardSameDay | source/WorkingWeek/Week.cs:171-175 | when no shift reaches midnight, a shift found ends on the weekday it starts on |
| Written.NextOccurrenceSameDay | source/WorkingWeek/Week.cs:171-175 | the same for the next shift of the walk, so the day held is still the cursor's day |
| Written.AscendingFromAgrees | source/WorkingWeek/Week.cs:153-183 | the ascending loop as written yields the intended walk whenever it does not fail, and it does not fail when no shift reaches midnight |
| Written.AscendingShiftsAgree | source/WorkingWeek/Week.cs:144-185 | AscendingShifts as written, when it does not fail, is the intended walk, or nothing for a week without shifts; it cannot fail when no shift reaches midnight |
| Written.AddPositiveFromAgrees | source/WorkingWeek/Week.cs:342-360 | the DateAddPositive loop lands where the forward walk does whenever it does not fail, and it does not fail when no shift reaches midnight |
| Written.DateAddPositiveAgrees | source/WorkingWeek/Week.cs:325-363 | DateAddPositive as written, when it does not fail, is DateAdd as meant, and it does not fail when no shift reaches midnight and Duration is not zero |
| Written.DateAddPositiveSteps | source/WorkingWeek/Week.cs:333-342 | DateAddPositive skips the whole weeks, then runs its loop from the later date on the remainder |
| Written.SeekPrevious | source/WorkingWeek/Week.cs:207-219 | a shift found by the unbounded backward inner loop starts before the cursor, ends by it, and has positive length |
| Written.SeekPreviousFinds | source/WorkingWeek/Week.cs:207-219 | with a shift starting before 23:59:59.999, the backward inner loop finds one within seven rollovers |
| Written.PreviousShift | source/WorkingWeek/Week.cs:205-225 | the shift the unbounded descending walk yields next starts before the cursor and ends by it |
| Written.PreviousShiftExists | source/WorkingWeek/Week.cs:207-219 | with a shift starting before 23:59:59.999, the backward inner loop terminates |
| Written.DescendingFrom | source/WorkingWeek/Week.cs:203-233 | the descending loop as written yields shifts that start after endDate, end by the cursor and have positive length, each ending strictly before the previous one starts |
| Written.PrependDescending | source/WorkingWeek/Week.cs:221-231 | a dated shift ending before the rest of a descending run starts keeps the run ordered |
| Written.DescendingFromWorking | source/WorkingWeek/Week.cs:194-235 | every instant of every shift the descending loop yields is working time |
| Written.AddNegativeFrom | source/WorkingWeek/Week.cs:390-408 | the loop over the descending walk fails only with WrongDayOfWeek |
| Written.DateAddNegative | source/WorkingWeek/Week.cs:371-411 | fails with a division by zero iff the week's Duration is zero |
| Written.AddNegativeFromBefore | source/WorkingWeek/Week.cs:390-410 | the DateAddNegative loop never lands after its start, and lands strictly before it when time is left |
| Written.DateAddNegativeSteps | source/WorkingWeek/Week.cs:378-390 | DateAddNegative negates the duration, skips the whole weeks back, then runs its loop from the earlier date |
| Written.DateAddNegativeBefore | source/WorkingWeek/Week.cs:371-411 | DateAddNegative, when it does not fail, lands no later than its start |
| Written.DateAdd | source/WorkingWeek/Week.cs:244-256 | DateAdd(t, 0) = t, and a non-zero duration fails with a division by zero iff Duration is zero |
| Written.DateAddDirection | source/WorkingWeek/Week.cs:244-256 | DateAdd as written never moves back for a positive duration, nor forward for a negative one |
| Written.WholeWeeksExact | source/WorkingWeek/Week.cs:333 | k week totals divide into exactly k weeks |
| Written.DateAddWholeWeeks | source/WorkingWeek/Week.cs:325-411 | ± k times Duration moves the date by exactly ± 7k days |
| Written.AscendingFrom | source/WorkingWeek/Week.cs:153-183 | the ascending loop as written fails only with WrongDayOfWeek, and yields nothing once the cursor has reached the end date |
| Written.AscendingShifts | source/WorkingWeek/Week.cs:144-185 | AscendingShifts as written fails only with WrongDayOfWeek, and yields nothing when the start date is not before the end date |
| Written.DescendingShifts | source/WorkingWeek/Week.cs:194-235 | every shift DescendingShifts as written yields starts after endDate and ends by startDate; nothing when startDate is not after endDate |
| Written.SpacedReachable | source/WorkingWeek/Week.cs:207-219 | on a spaced week with shifts (every shift strictly inside its day, a gap before each next one), the backward inner loop can always find a shift |
| Written.PreviousShiftMeant | source/WorkingWeek/Week.cs:205-225 | on a spaced week, the backward inner loop as written, from the cursor or from one millisecond before a midnight or a shift's start, meets the stretch the intended walk meets from the cursor, the midnight or the start |
| Written.AddNegativeFromMeant | source/WorkingWeek/Week.cs:390-408 | on a spaced week the DateAddNegative loop as written does not fail and lands where the intended backward walk does |
| Written.DateAddNegativeAgrees | source/WorkingWeek/Week.cs:371-411 | on a spaced week, DateAddNegative as written is DateAdd as meant: it does not fail and lands on the same instant |
| Written.DateAddAgrees | source/WorkingWeek/Week.cs:244-256 | on a spaced week, DateAdd as written equals DateAdd as meant for every duration: positive, negative, zero, and the division by zero when Duration is zero |
| Written.AddNegativeFromSucceeds | source/WorkingWeek/Week.cs:390-408 | with no shift starting at 00:00, the DateAddNegative loop as written never fails |
| Written.AfterMidnightStep | source/WorkingWeek/Week.cs:224-225 | with no shift starting at 00:00, one millisecond before a shift's start is on the same weekday, so the Day held is still the right one |
| Written.DateAddNegativeSucceeds | source/WorkingWeek/Week.cs:371-411 | with no shift starting at 00:00, DateAddNegative as written fails only by division by zero, when Duration is zero |
| Written.DescendingFromMeant | source/WorkingWeek/Week.cs:203-233 | on a spaced week the descending loop as written does not fail and yields exactly the intended stretches, latest first |
| Written.DescendingFromSucceeds | source/WorkingWeek/Week.cs:203-233 | with no shift starting at 00:00, the descending loop as written never fails |
| Written.DescendingShiftsAgree | source/WorkingWeek/Week.cs:194-235 | DescendingShifts as written does not fail when no shift starts at 00:00, and on a spaced week it yields exactly the intended stretches |
| Written.ForwardDiff | source/WorkingWeek/Week.cs:278-306 | the forward difference as written fails only with WrongDayOfWeek, and is zero from a date to itself |
| Written.DateDiff | source/WorkingWeek/Week.cs:264-307 | DateDiff as written fails only with WrongDayOfWeek, and DateDiff(a, a) = 0 |
| Written.Overhang | source/WorkingWeek/Week.cs:293-296 | the part of a list's last shift past the end date is never negative; it is zero when that shift ends by then, and otherwise the shift ends exactly that much after the end date |
| Written.TotalOverhang | source/WorkingWeek/Week.cs:293-296 | for shifts in order that all start before the end date, the sum of their whole durations is the working time they hold before it plus the last shift's overhang |
| Written.ForwardDiffOverhang | source/WorkingWeek/Week.cs:278-306 | the forward difference as written is the intended one plus the overhang of the last shift it adds up; it does not fail when no shift reaches midnight |
| Written.DateDiffOverhang | source/WorkingWeek/Week.cs:264-307 | DateDiff as written is DateDiff as meant, moved away from zero by that overhang, so the two agree iff the later date is at or after the end of the last shift; it does not fail when no shift reaches midnight |
| Written.DateDiffAntisymmetric | source/WorkingWeek/Week.cs:264-307 | swapping the dates negates DateDiff as written, or it fails both ways |
| Written.DateDiffSign | source/WorkingWeek/Week.cs:264-307 | with a non-negative Duration, DateDiff as written is ≥ 0 for dates in order and ≤ 0 for dates in reverse |
| Weeks.Week.constructor | source/WorkingWeek/Week.cs:27-37 | seven fresh empty days, indexed by weekday, and a zero Duration that matches them |
| Weeks.Week.ContainsShifts | source/WorkingWeek/Week.cs:51-54 | true iff some day has a shift |
| Weeks.Week.ShiftAdded | source/WorkingWeek/Week.cs:65-68 | Duration grows by the shift's duration |
| Weeks.Week.ShiftRemoved | source/WorkingWeek/Week.cs:75-78 | Duration shrinks by the shift's duration |
| Weeks.Week.GetDay | source/WorkingWeek/Week.cs:314-317 | the Day of a weekday is the one holding that weekday's shifts |
| Weeks.Week.AddShift | source/WorkingWeek/Week.cs:93-96 | the day's AddShift on that day only: a conflict changes nothing; otherwise the day's list gains the shift in order, Duration grows by its duration, and a Duration that matched the shifts still does |
| Weeks.Week.RemoveShift | source/WorkingWeek/Week.cs:106-109 | the matching shift leaves the day and its duration leaves Duration; with no match the shifts stay but Duration still loses the last examined shift's duration; a matching Duration stays matching iff a shift matched, the day was empty, or that last shift lasts zero |
| Weeks.Week.NextShiftFrom | source/WorkingWeek/Week.cs:155-169 | the inner loop fails iff the held day is not the cursor's weekday; otherwise it returns the next shift of the walk and holds the day it was found on |
| Weeks.Week.AscendingShifts | source/WorkingWeek/Week.cs:144-185 | the shifts collected are those of the ascending loop as written (failing where the held day is stale) |
| Weeks.Week.DateAddPositive | source/WorkingWeek/Week.cs:325-363 | the result is DateAddPositive as written |
| Weeks.Week.SpendForward | source/WorkingWeek/Week.cs:342-362 | the foreach loop over the endless ascending walk returns the as-written loop's answer |
| Weeks.Week.PreviousShiftFrom | source/WorkingWeek/Week.cs:205-219 | the unbounded backward inner loop fails iff the held day is not the cursor's weekday; otherwise it returns the walk's previous shift and holds its day |
| Weeks.Week.DescendingShifts | source/WorkingWeek/Week.cs:194-235 | the shifts collected are those of the descending loop as written, and nothing for a week without shifts |
| Weeks.Week.CollectDescending | source/WorkingWeek/Week.cs:199-233 | the outer descending loop from the start date's day returns the as-written descending walk |
| Weeks.Week.PreviousShiftWithin | source/WorkingWeek/Week.cs:205-219 | the bounded inner loop either fails where the walk fails, or stops at a found shift or at the end date, from where the walk goes on unchanged |
| Weeks.Week.DateAddNegative | source/WorkingWeek/Week.cs:371-411 | the result is DateAddNegative as written |
| Weeks.Week.SpendBackward | source/WorkingWeek/Week.cs:390-410 | the foreach loop over the endless descending walk returns the as-written loop's answer |
| Weeks.Week.DateAdd | source/WorkingWeek/Week.cs:244-256 | the result is DateAdd as written, by the sign of the duration |
| Weeks.Week.DateDiff | source/WorkingWeek/Week.cs:264-307 | the result is DateDiff as written, which is zero for equal dates, antisymmetric, and the intended DateDiff plus the overhang of the last shift it adds up (Written.DateDiffOverhang) |
| Weeks.Week.ForwardDiff | source/WorkingWeek/Week.cs:278-306 | whole weeks at Duration each plus the summed durations of the shifts AscendingShifts yields |
| Weeks.Week.SkipWeeks | source/WorkingWeek/Week.cs:278-290 | the weeks skipped and their work, with the walk from the later date, give DateDiff's forward difference |
| Weeks.Week.IsWorking | source/WorkingWeek/Week.cs:116-125 | true iff a shift of the date's weekday holds its time of day |
| Weeks.Week.IsWorkingDay | source/WorkingWeek/Week.cs:132-135 | true iff that weekday has a shift |
| Weeks.RemovalAccounting | source/WorkingWeek/Week.cs:75-78 | the removed shift's duration leaves Duration, or with no match the last examined one's does; a Duration equal to the week total stays equal iff a shift matched, the day was empty, or that last shift lasts zero |
| Weeks.AscendingStep | source/WorkingWeek/Week.cs:153-182 | one turn of the ascending outer loop keeps the collected-so-far invariant |
| Weeks.SpendStep | source/WorkingWeek/Week.cs:345-359 | one turn of the DateAddPositive loop takes a positive amount off what is left and keeps the answer |
| Weeks.SeekStep | source/WorkingWeek/Week.cs:158-168 | one turn of the inner forward loop keeps its answer |
| Weeks.DateAddPositiveSkips | source/WorkingWeek/Week.cs:333-339 | the skipped weeks and the remainder computed in place are those the function skips |
| Weeks.WeeksSkipped | source/WorkingWeek/Week.cs:333-339 | the if-guarded skip of DateAddPositive leaves the remainder and date of WholeWeeks |
| Weeks.SumDurations | source/WorkingWeek/Week.cs:293-296 | the foreach sum is the total duration of the shifts |
| Weeks.DescendingDone | source/WorkingWeek/Week.cs:203 | the descending walk past its end date yields nothing more |
| Weeks.DescendingFound | source/WorkingWeek/Week.cs:221-231 | a shift found adds itself, when after the end date, in front of the walk from one millisecond before its start |
| Weeks.DescendingRollover | source/WorkingWeek/Week.cs:213-218 | moving to 23:59:59.999 of the previous date, held on that date's day, keeps the walk |
| Weeks.SpendBackStep | source/WorkingWeek/Week.cs:393-407 | one turn of the DateAddNegative loop takes a positive amount off what is left and keeps the answer |
| Weeks.SeekPreviousStep | source/WorkingWeek/Week.cs:208-218 | one turn of the unbounded inner backward loop keeps its answer |
| Weeks.DateAddNegativeSkips | source/WorkingWeek/Week.cs:382-388 | the weeks skipped back and the remainder computed in place are those the function skips |
| Weeks.WeeksSkippedBack | source/WorkingWeek/Week.cs:382-388 | the if-guarded skip back of DateAddNegative leaves the remainder and date of WholeWeeks |
| Weeks.WeeksBetween | source/WorkingWeek/Week.cs:283-290 | the weeks between the dates and their work, computed in place, are those of DateDiff's forward difference |
| WorkTime.SeekForwardLater | source/WorkingWeek/Week.cs:157-169 | the forward search restarted later, before the end of the shift it found, finds the rest of that same shift |
| WorkTime.NextOccurrenceLater | source/WorkingWeek/Week.cs:144-185 | AscendingShifts restarted inside the gap before its first shift meets that shift; restarted inside it, the rest of it |
| WorkTime.WorkBetweenSplit | source/WorkingWeek/Week.cs:293-296 | the working time from a to b is that from a to any m between them plus that from m to b |
| WorkTime.WorkBetweenAllWorking | source/WorkingWeek/Week.cs:293-296 | where every instant is working, the working time equals the time elapsed |
| WorkTime.NoWorkBetween | source/WorkingWeek/Week.cs:293-296 | where no instant is working, the working time is zero |
| WorkTime.DayWorkFrom | source/WorkingWeek/Week.cs:157-169 | from before shift i of a well-formed day to its midnight, the walk meets exactly shift i and the shifts after it |
| WorkTime.DayWork | source/WorkingWeek/Day.cs:58-62 | one whole day, midnight to midnight, holds exactly the total of its weekday's shifts |
| WorkTime.DaysWork | source/WorkingWeek/Week.cs:144-185 | n whole days from a midnight hold the totals of their n consecutive weekdays |
| WorkTime.SevenDays | source/WorkingWeek/Week.cs:27-37 | seven consecutive weekdays from Sunday hold the total of all seven days |
| WorkTime.SeekForwardPeriodic | source/WorkingWeek/Day.cs:226-229 | days are looked up by weekday and time of day, so the forward search k weeks later finds the same shift moved k weeks |
| WorkTime.NextOccurrenceMoved | source/WorkingWeek/Week.cs:144-185 | the next occurrence k weeks later is the same occurrence moved k weeks |
| WorkTime.WorkBetweenPeriodic | source/WorkingWeek/Week.cs:286-296 | the working time between two instants is the same k weeks later, which is why DateDiff may skip whole weeks |
| WorkTime.WeekWork | source/WorkingWeek/Week.cs:284-290 | any seven consecutive days, from any instant, hold exactly the week total DateDiff counts per whole week |
| WorkTime.WeekTotalPositive | source/WorkingWeek/Week.cs:333-339 | a walkable week with a shift has a positive total, so DateAdd's division by Duration is defined |
| WorkTime.WithinWeek | source/WorkingWeek/Week.cs:342-360 | less than a week total of working time from a to b means b is less than seven days after a |
| WorkTime.WorkBackFrom | source/WorkingWeek/Week.cs:390-408 | the last x milliseconds of the first stretch met going back hold x of working time up to the cursor |
| WorkTime.WalkBackwardRoundTrip | source/WorkingWeek/Week.cs:390-408 | walking rem back from the cursor lands where exactly rem of working time lies between the two |
| WorkTime.ForwardDiffWeeks | source/WorkingWeek/Week.cs:281-296 | for dates k weeks and less than one more week apart, DateDiff counts k week totals and walks the rest |
| WorkTime.DiffBackward | source/WorkingWeek/Week.cs:264-307 | for dates in reverse order, k weeks and less than one more week apart, DateDiff is minus k week totals and the working time left |
| WorkTime.AddThenDiffForward | source/WorkingWeek/Week.cs:325-363 | DateDiff undoes DateAdd of a positive duration, across whole weeks |
| WorkTime.AddThenDiffBackward | source/WorkingWeek/Week.cs:371-411 | DateDiff undoes DateAdd of a negative duration, across whole weeks |
| WorkTime.DateAddThenDiff | source/WorkingWeek/Week.cs:244-256 | on well-formed days with a shift, DateAdd of any duration succeeds and DateDiff from the start to its result gives that duration back |
| Examples.DateDiffUntrimmed | source/WorkingWeek/Week.cs:293-296 | DateDiff as written gives 3h from Monday 9:30 to 10:30 with one shift Monday 9:30–12:30 |
| Examples.DateDiffTrimmed | source/WorkingWeek/Week.cs:264-307 | the intended DateDiff gives 1h on those dates |
| Examples.AscendingStaleDay | source/WorkingWeek/Week.cs:171-175 | AscendingShifts as written fails from Monday 00:00 to Tuesday 12:00 with one shift Monday 16:00–24:00 |
| Examples.AscendingFresh | source/WorkingWeek/Week.cs:144-185 | the intended ascending walk yields exactly the Monday shift on those dates |
| Examples.DateAddNegativeOffByOne | source/WorkingWeek/Week.cs:225 | DateAdd as written takes 90 minutes back from Monday 10:00 to 8:29:59.999 with shifts Monday 8:00–9:00 and 9:00–10:00 |
| Examples.DateAddNegativeExact | source/WorkingWeek/Week.cs:371-411 | the intended DateAdd gives 8:30 on that input |
| Examples.DateAddNegativeStaleDay | source/WorkingWeek/Week.cs:224-225 | DateAdd as written fails with WrongDayOfWeek taking 2h back from Tuesday 05:00, with shifts Monday 20:00 for 2h and Tuesday 00:00 for 1h |
| Examples.DateAddNegativeAcrossMidnight | source/WorkingWeek/Week.cs:371-411 | the intended DateAdd gives Monday 21:00 on that input |
| Examples.PositiveSingleShift | Tests/DateAddTests.cs:24 | DateAdd as written: Monday 9:30 plus 3h is 12:30 |
| Examples.PositiveTwoShifts | Tests/DateAddTests.cs:39 | DateAdd as written: Monday 9:30 plus 7h is 17:30 |
| Examples.PositiveShortStartShift | Tests/DateAddTests.cs:54 | DateAdd as written: Monday 10:30 plus 6h is 17:30 |
| Examples.PositiveShortStartEndShift | Tests/DateAddTests.cs:69 | DateAdd as written: Monday 10:30 plus 5h30 is 17:00 |
| Examples.Positive30Days | Tests/DateAddTests.cs:85 | DateAdd as written: Monday 9:30 plus 30 days of working time, on a 12h week, is 9:30 sixty weeks later |
| Examples.NegativeSingleShift | Tests/DateAddTests.cs:100 | DateAdd as written: Monday 12:30 minus 3h is 9:30 |
| Examples.NegativeTwoShifts | Tests/DateAddTests.cs:115 | DateAdd as written: Monday 17:30 minus 7h is 9:30 |
| Examples.NegativeShortStartShift | Tests/DateAddTests.cs:130 | DateAdd as written: Monday 17:30 minus 6h is 10:30 |
| Examples.NegativeShortStartEndShift | Tests/DateAddTests.cs:145 | DateAdd as written: Monday 17:00 minus 5h30 is 10:30 |
| Examples.Negative30Days | Tests/DateAddTests.cs:162 | DateAdd as written: 30 days of working time back from 9:30 sixty weeks later is Monday 9:30 |
| Examples.TestDateDiff1 | Tests/DateDiffTests.cs:24 | DateDiff as written from Monday 9:30 to Friday 12:30 is 13h |
| Examples.TestDateDiff2 | Tests/DateDiffTests.cs:39 | DateDiff as written from Monday 10:00 to Friday 12:30 is 12h30 |
| Examples.TestDateDiff3 | Tests/DateDiffTests.cs:54 | DateDiff as written from Friday 12:30 to Monday 9:30 is −13h |
| Examples.TestDateDiff4 | Tests/DateDiffTests.cs:69 | DateDiff as written from Friday 12:30 to Monday 10:00 is −12h30 |

## Left out

- `yield` laziness: each iterator is collected into a finite list. The endless walks that `DateAdd` consumes (end date `DateTime.MaxValue` or `MinValue`) are step functions.
- The calendar's ends: `DateTime` between years 1 and 9999, `AddDays` overflow, and the `MaxValue`/`MinValue` sentinels themselves. Instants are unbounded integers.
- `TimeSpan` ticks below a millisecond. Durations and instants are whole milliseconds.
- The `double` hour/minute/second/millisecond parameters are natural numbers. Fractional components are not modelled.
- C# events and delegates are direct calls, and a `Day` outside a `Week` raises no event.
- `Debug.Assert` at source/WorkingWeek/Week.cs lines 327 and 373.
- Weeks.Week.DateAddNegative: requires a shift starting before 23:59:59.999 when the week has shifts. Without one, the source's backward walk never finds a shift and does not return.
- Weeks.Week.AscendingShifts: requires a Walkable week, meaning positive durations and starts within the day. With a zero-length shift or a start at or after midnight, the source can loop without end.
- Days.PreviousInExact: holds only for well-formed days. `GetPreviousShift` can return a whole zero-length shift, and `AddShift` does not prevent overlaps or shifts past midnight.
- WorkTime.DateAddThenDiff: requires well-formed days (no overlaps, nothing past midnight) and takes the week's Duration to be its shifts' total. The round trip is not proved for weeks with overlapping shifts or shifts past midnight, which `AddShift` allows.
- The earlier copies of the engine (WorkingWeek/Week.cs and the Library lineage) are not part of this model. The `Shift` of `source/WorkingWeek` is not shown, so WorkingWeek/Shift.cs stands for it.
- Written.DateAddNegativeAgrees: agreement of the backward DateAdd as written with DateAdd as meant is proved only on spaced weeks (every shift strictly inside its day, a gap before each next shift of the day). Elsewhere it is proved only to fail by division by zero alone when no shift starts at 00:00, and never to move forward; Findings rows 3 and 4 show where it lands elsewhere or fails.
- No concurrency, I/O or clock is involved.

## Findings

| source | as written | input that shows it | evidently intended | confidence | as-written member | corrected member |
|---|---|---|---|---|---|---|
| source/WorkingWeek/Week.cs:293-296 | DateDiff adds the whole duration of every shift AscendingShifts yields, including a last shift that runs past the end date | one shift, Monday 9:30 for 3h; DateDiff(2010-07-05 09:30, 2010-07-05 10:30) gives 3h | 1h, the working time between the dates, so that DateDiff undoes DateAdd | not executed | Examples.DateDiffUntrimmed | WorkTime.DateAddThenDiff |
| source/WorkingWeek/Week.cs:171-175 | after yielding a shift the iterator keeps the Day it found it on, so a shift that ends at midnight makes the next GetNextShift throw for the wrong weekday | one shift, Monday 16:00 for 8h; AscendingShifts(2010-07-05 00:00, 2010-07-06 12:00) throws ArgumentException | the Monday shift is yielded and the walk goes on with Tuesday | not executed | Examples.AscendingStaleDay | Walks.AscendingCoversWork |
| source/WorkingWeek/Week.cs:225 | after a shift the backward walk resumes at its start minus 1 ms, and GetPreviousShift trims an adjacent earlier shift by that millisecond | shifts Monday 8:00 and 9:00 for 1h each; DateAdd(2010-07-05 10:00, −90 min) gives 08:29:59.999 | 08:30, thirty minutes before the end of the 8:00 shift | not executed | Examples.DateAddNegativeOffByOne | Walks.PreviousOccurrenceExact |
| source/WorkingWeek/Week.cs:224-225 | after a shift that starts at 00:00 the backward walk resumes at 23:59:59.999 of the previous date but still holds the later Day, so GetPreviousShift throws for the wrong weekday | shifts Monday 20:00 for 2h and Tuesday 00:00 for 1h, Duration 3h; DateAdd(2010-07-06 05:00, −2h) throws ArgumentException | 2010-07-05 21:00: the Tuesday shift and the last hour of the Monday one | not executed | Examples.DateAddNegativeStaleDay | Examples.DateAddNegativeAcrossMidnight |
