/**
 * The candidate generator: walks week, weekday, shift and discipline in a
 * fixed order and appends a class whenever an eligible professor, a matching
 * availability, a free hour and spare hours under the professor's cap exist.
 */
module Generator {
  import opened Wrappers
  import opened Domain
  import opened Filters
  import opened Slots

  /**
   * The `rand.Intn` draws of one run, keyed by (week, day, shift index,
   * discipline index); a draw `x` stands for index `x % n` among `n`
   * eligible professors, so every index in `[0, n)` is reachable.
   */
  type Picker = (nat, nat, nat, nat) -> nat

  /** The inputs of one generator run. */
  datatype Input = Input(
    disciplines: seq<Discipline>,
    professors: seq<Professor>,
    availabilities: seq<Availability>,
    pick: Picker)

  /** Loop state: classes so far, start times taken per shift, hours allocated per professor. */
  datatype GenState = GenState(
    classes: seq<Class>,
    occupied: map<string, seq<Instant>>,
    hoursAllocated: map<int, int>)

  const Empty: GenState := GenState([], map[], map[])

  /** `occupiedSlots[shift]`, nil (empty) when absent. */
  function OccupiedIn(st: GenState, shift: string): seq<Instant> {
    if shift in st.occupied then st.occupied[shift] else []
  }

  /** `allocatedHours[id]`, zero when absent. */
  function AllocatedTo(st: GenState, professorId: int): int {
    if professorId in st.hoursAllocated then st.hoursAllocated[professorId] else 0
  }

  // ---------------------------------------------------------------------
  // Reference views of a class list
  // ---------------------------------------------------------------------

  /** Start times of the classes of a shift, in list order. */
  function StartsInShift(cs: seq<Class>, shift: string): seq<Instant> {
    if |cs| == 0 then []
    else StartsInShift(cs[..|cs| - 1], shift)
         + (if cs[|cs| - 1].shift == shift then [cs[|cs| - 1].startTime] else [])
  }

  /** Number of classes a professor teaches. */
  function ClassesOf(cs: seq<Class>, professorId: int): nat {
    if |cs| == 0 then 0
    else ClassesOf(cs[..|cs| - 1], professorId) + (if cs[|cs| - 1].professorId == professorId then 1 else 0)
  }

  /** Some class of the list has this shift and starts at `t`. */
  predicate Taken(cs: seq<Class>, shift: string, t: Instant) {
    exists j | 0 <= j < |cs| :: cs[j].shift == shift && cs[j].startTime == t
  }

  lemma {:induction false} StartsInShiftTaken(cs: seq<Class>, shift: string, t: Instant)
    ensures t in StartsInShift(cs, shift) <==> Taken(cs, shift, t)
  {
    if |cs| > 0 {
      var init := cs[..|cs| - 1];
      StartsInShiftTaken(init, shift, t);
      assert forall j | 0 <= j < |init| :: init[j] == cs[j];
      if Taken(cs, shift, t) && !Taken(init, shift, t) {
        assert cs[|cs| - 1].shift == shift && cs[|cs| - 1].startTime == t;
      }
    }
  }

  lemma AppendViews(cs: seq<Class>, c: Class)
    ensures forall s :: StartsInShift(cs + [c], s) == StartsInShift(cs, s) + (if c.shift == s then [c.startTime] else [])
    ensures forall id :: ClassesOf(cs + [c], id) == ClassesOf(cs, id) + (if c.professorId == id then 1 else 0)
  {
    assert (cs + [c])[..|cs|] == cs;
  }

  // ---------------------------------------------------------------------
  // What every generated class satisfies
  // ---------------------------------------------------------------------

  /**
   * A class the generator (or the mutator) can produce from these inputs: a
   * one-hour slot inside its shift's window on a day whose name it carries,
   * a listed discipline, a professor eligible for it, and an availability of
   * that professor for that weekday and shift.
   */
  predicate ValidClass(c: Class, ds: seq<Discipline>, ps: seq<Professor>, avs: seq<Availability>) {
    && InShiftWindow(c.startTime.hour, c.shift)
    && c.endTime == AddHour(c.startTime)
    && c.dayOfWeek == WeekdayName(c.startTime.day)
    && (exists d | d in ds :: d.id == c.disciplineId)
    && (exists q | q in ps :: q.id == c.professorId && Teaches(q, c.disciplineId))
    && (exists a | a in avs :: a.professorId == c.professorId && a.dayOfWeek == c.dayOfWeek && a.shift == c.shift)
  }

  predicate AllValid(cs: seq<Class>, ds: seq<Discipline>, ps: seq<Professor>, avs: seq<Availability>) {
    forall k | 0 <= k < |cs| :: ValidClass(cs[k], ds, ps, avs)
  }

  /** The occupancy and hour maps agree with the class list. */
  ghost predicate Bookkept(st: GenState) {
    && (forall s :: OccupiedIn(st, s) == StartsInShift(st.classes, s))
    && (forall id :: AllocatedTo(st, id) == ClassesOf(st.classes, id))
  }

  /** A professor record with this identity allows at least `n` hours. */
  predicate CappedBy(ps: seq<Professor>, professorId: int, n: int) {
    exists q | q in ps :: q.id == professorId && n <= q.hoursToAllocate
  }

  /** Every professor that teaches is within the cap of a record carrying its identity. */
  ghost predicate WithinCaps(cs: seq<Class>, ps: seq<Professor>) {
    forall id | ClassesOf(cs, id) > 0 :: CappedBy(ps, id, ClassesOf(cs, id))
  }

  /** No two classes share a shift and a start time. */
  predicate DistinctSlots(cs: seq<Class>) {
    forall j, k | 0 <= j < k < |cs| :: cs[j].shift != cs[k].shift || cs[j].startTime != cs[k].startTime
  }

  /** Hour `h` of class `k`'s day is taken by an earlier class of the same shift. */
  predicate TakenBefore(cs: seq<Class>, k: int, h: Hour)
    requires 0 <= k < |cs|
  {
    exists j | 0 <= j < k :: cs[j].shift == cs[k].shift && cs[j].startTime == At(cs[k].startTime.day, h)
  }

  /** First fit: every earlier hour of a class's window was taken when the class was added. */
  predicate FirstFit(cs: seq<Class>) {
    forall k, h: Hour | 0 <= k < |cs| && InShiftWindow(h, cs[k].shift) && h < cs[k].startTime.hour ::
      TakenBefore(cs, k, h)
  }

  ghost predicate Inv(st: GenState, input: Input) {
    && AllValid(st.classes, input.disciplines, input.professors, input.availabilities)
    && Bookkept(st)
    && WithinCaps(st.classes, input.professors)
    && DistinctSlots(st.classes)
    && FirstFit(st.classes)
  }

  // ---------------------------------------------------------------------
  // One (week, day, shift, discipline) tuple
  // ---------------------------------------------------------------------

  datatype StepResult = Skip | Stop | Add(c: Class)

  /** What the generator checked before appending `c` on `weekDay` in `shift`. */
  predicate Addable(c: Class, st: GenState, input: Input, weekDay: int, shift: string) {
    && ValidClass(c, input.disciplines, input.professors, input.availabilities)
    && c.startTime.day == weekDay
    && c.shift == shift
    && Free(c.startTime, shift, OccupiedIn(st, shift), c.dayOfWeek, st.classes)
    && EarlierHoursTaken(st, weekDay, shift, c.dayOfWeek, c.startTime.hour)
    && CappedBy(input.professors, c.professorId, AllocatedTo(st, c.professorId) + DurationHours(c))
  }

  /** No hour of the shift's window on `weekDay` before `hour` is free. */
  predicate EarlierHoursTaken(st: GenState, weekDay: int, shift: string, dayOfWeek: string, hour: int) {
    forall h: Hour | InShiftWindow(h, shift) && h < hour ::
      !Free(At(weekDay, h), shift, OccupiedIn(st, shift), dayOfWeek, st.classes)
  }

  /** No hour of the shift's window on `weekDay` is free: the slot finder returns its sentinel. */
  predicate WindowExhausted(st: GenState, shift: string, weekDay: int) {
    forall h: Hour {:trigger Free(At(weekDay, h), shift, OccupiedIn(st, shift), WeekdayName(weekDay), st.classes)}
      | InShiftWindow(h, shift) ::
      !Free(At(weekDay, h), shift, OccupiedIn(st, shift), WeekdayName(weekDay), st.classes)
  }

  /** The chosen professor has an availability for this weekday and shift. */
  predicate Matched(input: Input, weekDay: int, shift: string, professor: Professor) {
    exists a | a in input.availabilities :: a.professorId == professor.id && MatchesSlot(a, shift, weekDay)
  }

  /** The step breaks: the chosen professor has a matching availability and no hour of the window is free. */
  predicate Stops(st: GenState, input: Input, weekDay: int, shift: string, professor: Professor) {
    Matched(input, weekDay, shift, professor) && WindowExhausted(st, shift, weekDay)
  }

  /** The step adds a class: a matching availability, a free hour, and one more hour within the professor's cap. */
  predicate Adds(st: GenState, input: Input, weekDay: int, shift: string, professor: Professor) {
    && Matched(input, weekDay, shift, professor)
    && !WindowExhausted(st, shift, weekDay)
    && AllocatedTo(st, professor.id) + 1 <= professor.hoursToAllocate
  }

  /** The professor the `rand.Intn` draw picks for discipline `i`, or None when nobody may teach it. */
  function Drawn(input: Input, week: nat, day: nat, s: nat, i: nat): (r: Option<Professor>)
    requires i < |input.disciplines|
    ensures r.None? <==> forall q | q in input.professors :: !Teaches(q, input.disciplines[i].id)
    ensures r.Some? ==> r.value in input.professors && Teaches(r.value, input.disciplines[i].id)
  {
    var eligible := FilterEligibleProfessors(input.disciplines[i].id, input.professors);
    if |eligible| == 0 then None
    else
      var professor := eligible[input.pick(week, day, s, i) % |eligible|];
      assert professor in eligible;
      Some(professor)
  }

  /**
   * The body of the innermost loop for discipline `i` in shift `s` of day
   * `day` of week `week`: `Skip` is `continue`, `Stop` is the `break` taken
   * when no hour is free, `Add(c)` appends `c`.
   */
  method Step(st: GenState, input: Input, week: nat, day: nat, s: nat, i: nat) returns (r: StepResult)
    requires s < |Shifts| && i < |input.disciplines|
    ensures r.Add? ==> Addable(r.c, st, input, week * 7 + day, Shifts[s])
    ensures r.Stop? <==> Drawn(input, week, day, s, i).Some?
                         && Stops(st, input, week * 7 + day, Shifts[s], Drawn(input, week, day, s, i).value)
    ensures r.Add? <==> Drawn(input, week, day, s, i).Some?
                        && Adds(st, input, week * 7 + day, Shifts[s], Drawn(input, week, day, s, i).value)
    ensures r.Add? ==> r.c.professorId == Drawn(input, week, day, s, i).value.id
                       && r.c.disciplineId == input.disciplines[i].id
  {
    var drawn := Drawn(input, week, day, s, i);
    if drawn.None? {
      return Skip;
    }
    r := Place(st, input, week * 7 + day, Shifts[s], input.disciplines[i], drawn.value);
  }

  /** The chosen professor's first availability for this weekday and shift, then the slot finder. */
  function Place(st: GenState, input: Input, weekDay: int, shift: string,
                 discipline: Discipline, professor: Professor): (r: StepResult)
    requires KnownShift(shift)
    requires discipline in input.disciplines
    requires professor in input.professors && Teaches(professor, discipline.id)
    ensures r.Add? ==> Addable(r.c, st, input, weekDay, shift)
    ensures r.Stop? <==> Stops(st, input, weekDay, shift, professor)
    ensures r.Add? <==> Adds(st, input, weekDay, shift, professor)
    ensures r.Add? ==> r.c.professorId == professor.id && r.c.disciplineId == discipline.id
  {
    var slots := FilterAvailableSlots(professor.id, input.availabilities);
    if |slots| == 0 then Skip
    else
      match FindMatchingSlot(shift, slots, weekDay)
      case None => Skip
      case Some(slot) =>
        assert slot in slots && MatchesSlot(slot, shift, weekDay);
        PlaceAt(st, input, weekDay, shift, discipline, professor, slot)
  }

  /** The slot finder on the matched availability, then the hour cap. */
  function PlaceAt(st: GenState, input: Input, weekDay: int, shift: string,
                   discipline: Discipline, professor: Professor, slot: Availability): (r: StepResult)
    requires KnownShift(shift)
    requires discipline in input.disciplines
    requires professor in input.professors && Teaches(professor, discipline.id)
    requires slot in input.availabilities && slot.professorId == professor.id
    requires slot.shift == shift && slot.dayOfWeek == WeekdayName(weekDay)
    ensures r.Add? ==> Addable(r.c, st, input, weekDay, shift)
    ensures r.Stop? <==> WindowExhausted(st, shift, weekDay)
    ensures r.Skip? <==> !WindowExhausted(st, shift, weekDay) && AllocatedTo(st, professor.id) + 1 > professor.hoursToAllocate
    ensures r.Add? ==> r.c.professorId == professor.id && r.c.disciplineId == discipline.id
  {
    match GenerateNextAvailableTime(weekDay, slot.shift, OccupiedIn(st, slot.shift), slot.dayOfWeek, st.classes)
    case InvalidShift => assert false; Stop
    case NoSlot => Stop
    case Found(start, end) =>
      var c := Class(slot.dayOfWeek, slot.shift, start, end, discipline.id, professor.id);
      assert DurationHours(c) == 1;
      if AllocatedTo(st, professor.id) + DurationHours(c) > professor.hoursToAllocate then Skip
      else Add(c)
  }

  /** Append `c` and update the occupancy and hour maps, as lines 77-79 of `GenerateRandomTimetable` do. */
  function Record(st: GenState, c: Class): (r: GenState)
    ensures r.classes == st.classes + [c]
  {
    GenState(
      st.classes + [c],
      st.occupied[c.shift := OccupiedIn(st, c.shift) + [c.startTime]],
      st.hoursAllocated[c.professorId := AllocatedTo(st, c.professorId) + DurationHours(c)])
  }

  /**
   * Recording a class adds its start to its own shift's occupancy and its
   * duration to its own professor's hours; every other shift and every other
   * professor is left as it was.
   */
  lemma RecordUpdates(st: GenState, c: Class)
    ensures OccupiedIn(Record(st, c), c.shift) == OccupiedIn(st, c.shift) + [c.startTime]
    ensures forall s | s != c.shift :: OccupiedIn(Record(st, c), s) == OccupiedIn(st, s)
    ensures AllocatedTo(Record(st, c), c.professorId) == AllocatedTo(st, c.professorId) + DurationHours(c)
    ensures forall id | id != c.professorId :: AllocatedTo(Record(st, c), id) == AllocatedTo(st, id)
  {
  }

  lemma RecordKeepsBookkeeping(st: GenState, c: Class)
    requires Bookkept(st)
    requires DurationHours(c) == 1
    ensures Bookkept(Record(st, c))
  {
    AppendViews(st.classes, c);
  }

  lemma RecordKeepsCaps(st: GenState, input: Input, c: Class)
    requires Bookkept(st) && WithinCaps(st.classes, input.professors)
    requires DurationHours(c) == 1
    requires CappedBy(input.professors, c.professorId, AllocatedTo(st, c.professorId) + DurationHours(c))
    ensures WithinCaps(st.classes + [c], input.professors)
  {
    AppendViews(st.classes, c);
  }

  lemma RecordKeepsDistinct(st: GenState, c: Class)
    requires Bookkept(st) && DistinctSlots(st.classes)
    requires c.startTime !in OccupiedIn(st, c.shift)
    ensures DistinctSlots(st.classes + [c])
  {
    var cs := st.classes;
    var cs' := cs + [c];
    StartsInShiftTaken(cs, c.shift, c.startTime);
    forall j, k | 0 <= j < k < |cs'|
      ensures cs'[j].shift != cs'[k].shift || cs'[j].startTime != cs'[k].startTime
    {
      if k == |cs| {
        assert cs'[j] == cs[j];
        assert !(cs[j].shift == c.shift && cs[j].startTime == c.startTime);
      } else {
        assert cs'[j] == cs[j] && cs'[k] == cs[k];
      }
    }
  }

  lemma RecordKeepsFirstFit(st: GenState, input: Input, c: Class, weekDay: int)
    requires Bookkept(st) && FirstFit(st.classes)
    requires c.startTime.day == weekDay
    requires EarlierHoursTaken(st, weekDay, c.shift, c.dayOfWeek, c.startTime.hour)
    ensures FirstFit(st.classes + [c])
  {
    var cs := st.classes;
    var cs' := cs + [c];
    forall k, h: Hour | 0 <= k < |cs'| && InShiftWindow(h, cs'[k].shift) && h < cs'[k].startTime.hour
      ensures TakenBefore(cs', k, h)
    {
      if k < |cs| {
        assert TakenBefore(cs, k, h);
        var j :| 0 <= j < k && cs[j].shift == cs[k].shift && cs[j].startTime == At(cs[k].startTime.day, h);
        assert cs'[j] == cs[j] && cs'[k] == cs[k];
      } else {
        var t := At(weekDay, h);
        assert !Free(t, c.shift, OccupiedIn(st, c.shift), c.dayOfWeek, cs);
        if t in OccupiedIn(st, c.shift) {
          StartsInShiftTaken(cs, c.shift, t);
          var j :| 0 <= j < |cs| && cs[j].shift == c.shift && cs[j].startTime == t;
          assert cs'[j] == cs[j];
        } else {
          var j :| 0 <= j < |cs| && ScheduledAt(cs[j], c.dayOfWeek, t, c.shift);
          assert cs'[j] == cs[j];
        }
      }
    }
  }

  /** Appending a class the generator checked keeps the loop invariant. */
  lemma RecordKeepsInv(st: GenState, input: Input, c: Class, weekDay: int)
    requires Inv(st, input)
    requires ValidClass(c, input.disciplines, input.professors, input.availabilities)
    requires c.startTime.day == weekDay
    requires Free(c.startTime, c.shift, OccupiedIn(st, c.shift), c.dayOfWeek, st.classes)
    requires EarlierHoursTaken(st, weekDay, c.shift, c.dayOfWeek, c.startTime.hour)
    requires CappedBy(input.professors, c.professorId, AllocatedTo(st, c.professorId) + DurationHours(c))
    ensures Inv(Record(st, c), input)
  {
    assert HoursSinceOrigin(c.endTime) == HoursSinceOrigin(c.startTime) + 1;
    RecordKeepsBookkeeping(st, c);
    RecordKeepsCaps(st, input, c);
    RecordKeepsDistinct(st, c);
    RecordKeepsFirstFit(st, input, c, weekDay);
  }

  // ---------------------------------------------------------------------
  // The four nested loops
  // ---------------------------------------------------------------------

  /** Appending an addable class keeps the loop invariant. */
  lemma AddKeepsInv(st: GenState, input: Input, c: Class, weekDay: int, shift: string)
    requires Inv(st, input)
    requires Addable(c, st, input, weekDay, shift)
    ensures Inv(Record(st, c), input)
  {
    assert ValidClass(c, input.disciplines, input.professors, input.availabilities);
    assert Free(c.startTime, c.shift, OccupiedIn(st, c.shift), c.dayOfWeek, st.classes);
    assert EarlierHoursTaken(st, weekDay, c.shift, c.dayOfWeek, c.startTime.hour);
    assert CappedBy(input.professors, c.professorId, AllocatedTo(st, c.professorId) + DurationHours(c));
    RecordKeepsInv(st, input, c, weekDay);
  }

  /** The classes past `st`'s are appended, and start on a day in `[lo, hi)`. */
  predicate AddedOn(st: GenState, r: GenState, lo: int, hi: int) {
    && st.classes <= r.classes
    && forall k | |st.classes| <= k < |r.classes| :: lo <= r.classes[k].startTime.day < hi
  }

  lemma RecordAddedOn(st: GenState, r: GenState, c: Class, weekDay: int)
    requires AddedOn(st, r, weekDay, weekDay + 1)
    requires c.startTime.day == weekDay
    ensures AddedOn(st, Record(r, c), weekDay, weekDay + 1)
  {
    assert Record(r, c).classes[|r.classes|] == c;
  }

  lemma AddedOnTrans(a: GenState, b: GenState, c: GenState, lo: int, hi: int)
    requires AddedOn(a, b, lo, hi) && AddedOn(b, c, lo, hi)
    ensures AddedOn(a, c, lo, hi)
  {
    forall k | |a.classes| <= k < |c.classes| ensures lo <= c.classes[k].startTime.day < hi {
      if k < |b.classes| {
        assert c.classes[k] == b.classes[k];
      }
    }
  }

  /**
   * One turn of the discipline loop: run the step for discipline `i` and
   * append its class, if any; `stop` reports the `break`.
   */
  method Advance(st: GenState, input: Input, week: nat, day: nat, s: nat, i: nat)
    returns (next: GenState, stop: bool)
    requires s < |Shifts| && i < |input.disciplines|
    requires Inv(st, input)
    ensures Inv(next, input)
    ensures AddedOn(st, next, week * 7 + day, week * 7 + day + 1)
    ensures |next.classes| <= |st.classes| + 1
    ensures stop ==> next == st && WindowExhausted(st, Shifts[s], week * 7 + day)
  {
    var step := Step(st, input, week, day, s, i);
    next, stop := st, step.Stop?;
    if step.Add? {
      AddKeepsInv(st, input, step.c, week * 7 + day, Shifts[s]);
      RecordAddedOn(st, st, step.c, week * 7 + day);
      next := Record(st, step.c);
    }
  }

  /**
   * The discipline loop of shift `s` on day `day` of week `week`: a `Stop`
   * step ends the loop, a `Skip` step moves to the next discipline.
   */
  method ShiftPass(st: GenState, input: Input, week: nat, day: nat, s: nat) returns (r: GenState)
    requires s < |Shifts|
    requires Inv(st, input)
    ensures Inv(r, input)
    ensures AddedOn(st, r, week * 7 + day, week * 7 + day + 1)
    ensures |r.classes| <= |st.classes| + |input.disciplines|
  {
    var weekDay := week * 7 + day;
    r := st;
    var i := 0;
    while i < |input.disciplines|
      invariant i <= |input.disciplines|
      invariant Inv(r, input)
      invariant AddedOn(st, r, weekDay, weekDay + 1)
      invariant |r.classes| <= |st.classes| + i
    {
      var next, stop := Advance(r, input, week, day, s, i);
      AddedOnTrans(st, r, next, weekDay, weekDay + 1);
      r := next;
      if stop {
        break;
      }
      i := i + 1;
    }
  }

  /** The shift loop of one day: Morning, Afternoon, then Night. */
  method DayPass(st: GenState, input: Input, week: nat, day: nat) returns (r: GenState)
    requires Inv(st, input)
    ensures Inv(r, input)
    ensures AddedOn(st, r, week * 7 + day, week * 7 + day + 1)
  {
    var weekDay := week * 7 + day;
    r := st;
    var s := 0;
    while s < |Shifts|
      invariant s <= |Shifts|
      invariant Inv(r, input)
      invariant AddedOn(st, r, weekDay, weekDay + 1)
    {
      var next := ShiftPass(r, input, week, day, s);
      AddedOnTrans(st, r, next, weekDay, weekDay + 1);
      r := next;
      s := s + 1;
    }
  }

  /** The weekday loop of one week: Monday to Friday. */
  method WeekPass(st: GenState, input: Input, week: nat) returns (r: GenState)
    requires Inv(st, input)
    ensures Inv(r, input)
    ensures AddedOn(st, r, week * 7, week * 7 + 5)
  {
    r := st;
    var day := 0;
    while day < 5
      invariant day <= 5
      invariant Inv(r, input)
      invariant AddedOn(st, r, week * 7, week * 7 + 5)
    {
      var next := DayPass(r, input, week, day);
      Widen(r, next, week * 7 + day, week * 7 + day + 1, week * 7, week * 7 + 5);
      AddedOnTrans(st, r, next, week * 7, week * 7 + 5);
      r := next;
      day := day + 1;
    }
  }

  lemma Widen(a: GenState, b: GenState, lo: int, hi: int, lo': int, hi': int)
    requires AddedOn(a, b, lo, hi)
    requires lo' <= lo && hi <= hi'
    ensures AddedOn(a, b, lo', hi')
  {
  }

  /** Days `7 * week` to `7 * week + 4` are a Monday to a Friday. */
  lemma WeekdayOfWeek(week: nat)
    ensures forall d | week * 7 <= d < week * 7 + 5 :: d % 7 < 5
  {
    forall d | week * 7 <= d < week * 7 + 5 ensures d % 7 < 5 {
      assert d == week * 7 + (d - week * 7);
      assert d % 7 == d - week * 7;
    }
  }

  /**
   * `GenerateRandomTimetable`: every class is valid for the inputs, starts
   * on a weekday of the generated weeks, no two classes share a shift and a
   * start time, each start is the first hour of its window not taken by an
   * earlier class, and each professor stays within the cap of its record.
   */
  method GenerateRandomTimetable(disciplines: seq<Discipline>, professors: seq<Professor>,
                                 availabilities: seq<Availability>, weeksToGenerate: int,
                                 pick: Picker) returns (r: Timetable)
    ensures r.fitness == 0
    ensures AllValid(r.classes, disciplines, professors, availabilities)
    ensures forall k | 0 <= k < |r.classes| ::
              && 0 <= r.classes[k].startTime.day < weeksToGenerate * 7
              && r.classes[k].startTime.day % 7 < 5
    ensures DistinctSlots(r.classes)
    ensures FirstFit(r.classes)
    ensures WithinCaps(r.classes, professors)
  {
    var input := Input(disciplines, professors, availabilities, pick);
    var st := Empty;
    var week: nat := 0;
    while week < weeksToGenerate
      invariant week == 0 || week <= weeksToGenerate
      invariant Inv(st, input)
      invariant forall k | 0 <= k < |st.classes| ::
                  && 0 <= st.classes[k].startTime.day < week * 7
                  && st.classes[k].startTime.day % 7 < 5
    {
      var next := WeekPass(st, input, week);
      WeekdayOfWeek(week);
      assert forall k | 0 <= k < |st.classes| :: next.classes[k] == st.classes[k];
      st := next;
      week := week + 1;
    }
    r := Timetable(st.classes, 0);
  }
}
