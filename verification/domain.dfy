/**
 * Records of the timetable engine: disciplines, professors with their
 * eligible-discipline lists, availabilities, classes and timetables, plus the
 * calendar and shift vocabulary they share.
 */
module Domain {
  import opened Wrappers

  /** The range of Go's `int32`, used for credits, hour caps and credit limits. */
  type Int32 = x: int | -0x8000_0000 <= x < 0x8000_0000

  /** An hour of the day on a 24-hour clock. */
  type Hour = h: int | 0 <= h < 24

  /**
   * An instant with one-hour resolution. `day` counts days from the start
   * date of the generator, Monday 7 October 2024 (UTC); all times the engine
   * builds fall on a whole hour.
   */
  datatype Instant = At(day: int, hour: Hour)

  /** Hours elapsed since midnight of day 0. */
  function HoursSinceOrigin(t: Instant): int {
    t.day * 24 + t.hour
  }

  /** `t.Add(time.Hour)`: the instant one hour later, rolling over midnight. */
  function AddHour(t: Instant): (r: Instant)
    ensures HoursSinceOrigin(r) == HoursSinceOrigin(t) + 1
  {
    if t.hour == 23 then At(t.day + 1, 0) else At(t.day, t.hour + 1)
  }

  /** Names `time.Weekday.String()` gives, starting at day 0 (a Monday). */
  const WeekdayNames: seq<string> :=
    ["Monday", "Tuesday", "Wednesday", "Thursday", "Friday", "Saturday", "Sunday"]

  /** The weekday name of a day; `%` is Euclidean, so days before day 0 cycle too. */
  function WeekdayName(day: int): string {
    WeekdayNames[day % 7]
  }

  /** The shifts the generator walks through, in order. */
  const Shifts: seq<string> := ["Morning", "Afternoon", "Night"]

  predicate KnownShift(shift: string) {
    shift in Shifts
  }

  /** The hours a class of a shift may start at: `start <= h < end`. */
  datatype Window = Window(start: Hour, end: Hour)

  /** Shift windows of the slot finder; any other name is fatal there. */
  function ShiftWindow(shift: string): (r: Option<Window>)
    ensures r.Some? <==> KnownShift(shift)
    ensures r.Some? ==> 8 <= r.value.start < r.value.end <= 23
  {
    if shift == "Morning" then Some(Window(8, 12))
    else if shift == "Afternoon" then Some(Window(13, 18))
    else if shift == "Night" then Some(Window(19, 23))
    else None
  }

  /** True when `hour` lies inside the window of a known shift. */
  predicate InShiftWindow(hour: int, shift: string) {
    ShiftWindow(shift).Some? && ShiftWindow(shift).value.start <= hour < ShiftWindow(shift).value.end
  }

  datatype Discipline = Discipline(
    id: int,
    uuid: string,
    code: string,
    name: string,
    credits: Int32,
    courseId: int)

  /** A professor with the list of disciplines it may teach (repetitions allowed). */
  datatype Professor = Professor(
    id: int,
    uuid: string,
    name: string,
    hoursToAllocate: Int32,
    disciplines: seq<Discipline>)

  /** A professor's declared willingness to teach in a day/shift window. */
  datatype Availability = Availability(
    id: int,
    professorId: int,
    dayOfWeek: string,
    shift: string)

  datatype Class = Class(
    dayOfWeek: string,
    shift: string,
    startTime: Instant,
    endTime: Instant,
    disciplineId: int,
    professorId: int)

  /** An ordered list of classes and its score; every sub-score is 0 or 1, so `fitness` is an integer. */
  datatype Timetable = Timetable(classes: seq<Class>, fitness: int)

  datatype Parameterization = Parameterization(
    maxCreditsToOffer: Int32,
    numClassesPerDiscipline: Int32,
    semesterId: int,
    courseId: int,
    disciplines: seq<Discipline>,
    professors: seq<Professor>)

  /** Some entry of the professor's discipline list has this identity. */
  predicate Teaches(p: Professor, disciplineId: int) {
    exists e | e in p.disciplines :: e.id == disciplineId
  }

  /** Duration of a class in whole hours (`EndTime.Sub(StartTime).Hours()`). */
  function DurationHours(c: Class): int {
    HoursSinceOrigin(c.endTime) - HoursSinceOrigin(c.startTime)
  }
}
