/**
 * The slot finder: the first one-hour slot of a shift's window on a given day
 * that no earlier class of the timetable already takes.
 */
module Slots {
  import opened Wrappers
  import opened Domain

  /** `isTimeOccupied`: the instant is one of the recorded occupied start times. */
  function IsTimeOccupied(t: Instant, occupiedTimes: seq<Instant>): (r: bool)
    ensures r <==> t in occupiedTimes
  {
    if |occupiedTimes| == 0 then false
    else occupiedTimes[0] == t || IsTimeOccupied(t, occupiedTimes[1..])
  }

  /** A class with this weekday name and shift starts at `start`. */
  predicate ScheduledAt(c: Class, dayOfWeek: string, start: Instant, shift: string) {
    c.dayOfWeek == dayOfWeek && c.shift == shift && c.startTime == start
  }

  /** `isClassScheduled`: some class of the list starts at `start` with this weekday name and shift. */
  function IsClassScheduled(classes: seq<Class>, dayOfWeek: string, start: Instant, shift: string): (r: bool)
    ensures r <==> exists k | 0 <= k < |classes| :: ScheduledAt(classes[k], dayOfWeek, start, shift)
  {
    if |classes| == 0 then false
    else
      ScheduledAt(classes[0], dayOfWeek, start, shift)
      || (assert forall k | 1 <= k < |classes| :: classes[k] == classes[1..][k - 1];
          IsClassScheduled(classes[1..], dayOfWeek, start, shift))
  }

  /** An instant the slot finder may hand out: not occupied and not already scheduled. */
  predicate Free(t: Instant, shift: string, occupiedTimes: seq<Instant>, dayOfWeek: string, classes: seq<Class>) {
    && t !in occupiedTimes
    && !exists k | 0 <= k < |classes| :: ScheduledAt(classes[k], dayOfWeek, t, shift)
  }

  /** What the slot finder reports: a slot, the "zero time" sentinel, or the fatal unknown shift. */
  datatype SlotResult = Found(start: Instant, end: Instant) | NoSlot | InvalidShift

  /**
   * `GenerateNextAvailableTime`: scan the hours of the shift's window on `day`
   * in ascending order and return the first free one, with an end one hour later.
   */
  function GenerateNextAvailableTime(day: int, shift: string, occupiedTimes: seq<Instant>,
                                     dayOfWeek: string, classes: seq<Class>): (r: SlotResult)
    ensures r.InvalidShift? <==> !KnownShift(shift)
    ensures r.Found? ==>
              && InShiftWindow(r.start.hour, shift)
              && r.start.day == day
              && r.end == AddHour(r.start)
              && Free(r.start, shift, occupiedTimes, dayOfWeek, classes)
              && forall h: Hour | ShiftWindow(shift).value.start <= h < r.start.hour ::
                   !Free(At(day, h), shift, occupiedTimes, dayOfWeek, classes)
    ensures r.NoSlot? ==>
              && KnownShift(shift)
              && forall h: Hour | ShiftWindow(shift).value.start <= h < ShiftWindow(shift).value.end ::
                   !Free(At(day, h), shift, occupiedTimes, dayOfWeek, classes)
  {
    match ShiftWindow(shift)
    case None => InvalidShift
    case Some(w) => ScanHours(day, shift, occupiedTimes, dayOfWeek, classes, w, w.start)
  }

  /** The loop of the slot finder from `hour` to the end of the window. */
  function ScanHours(day: int, shift: string, occupiedTimes: seq<Instant>, dayOfWeek: string,
                     classes: seq<Class>, w: Window, hour: Hour): (r: SlotResult)
    requires w.start <= hour <= w.end
    ensures !r.InvalidShift?
    ensures r.Found? ==>
              && hour <= r.start.hour < w.end
              && r.start.day == day
              && r.end == AddHour(r.start)
              && Free(r.start, shift, occupiedTimes, dayOfWeek, classes)
              && forall h: Hour | hour <= h < r.start.hour ::
                   !Free(At(day, h), shift, occupiedTimes, dayOfWeek, classes)
    ensures r.NoSlot? ==>
              forall h: Hour | hour <= h < w.end :: !Free(At(day, h), shift, occupiedTimes, dayOfWeek, classes)
    decreases w.end - hour
  {
    if hour == w.end then NoSlot
    else
      var t := At(day, hour);
      if !IsTimeOccupied(t, occupiedTimes) && !IsClassScheduled(classes, dayOfWeek, t, shift) then
        Found(t, AddHour(t))
      else
        ScanHours(day, shift, occupiedTimes, dayOfWeek, classes, w, hour + 1)
  }
}
