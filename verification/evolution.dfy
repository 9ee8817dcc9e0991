/**
 * The genetic operators and the evolution loop: tournament selection,
 * one-point crossover, mutation by re-assigning a class to another eligible
 * professor, population replacement, and the final best-of-population pick.
 */
module Evolution {
  import opened Wrappers
  import opened Domain
  import opened Filters
  import opened Slots
  import opened Generator
  import opened Fitness

  const PopulationSize: nat := 100
  const Generations: nat := 1000
  const TournamentSize: nat := 5

  // ---------------------------------------------------------------------
  // Selection
  // ---------------------------------------------------------------------

  /** `k` holds a highest fitness, and every earlier position a strictly lower one. */
  predicate FirstFittestAt(pop: seq<Timetable>, k: nat)
    requires k < |pop|
  {
    && (forall j | 0 <= j < |pop| :: pop[j].fitness <= pop[k].fitness)
    && (forall j | 0 <= j < k :: pop[j].fitness < pop[k].fitness)
  }

  /** The best-so-far loop from position `i`, with `b` the current best. */
  function FittestFrom(pop: seq<Timetable>, i: nat, b: nat): (k: nat)
    requires b < |pop| && i <= |pop|
    requires forall j | 0 <= j < i :: pop[j].fitness <= pop[b].fitness
    requires forall j | 0 <= j < b :: pop[j].fitness < pop[b].fitness
    ensures k < |pop| && FirstFittestAt(pop, k)
    decreases |pop| - i
  {
    if i == |pop| then b
    else if pop[i].fitness > pop[b].fitness then FittestFrom(pop, i + 1, i)
    else FittestFrom(pop, i + 1, b)
  }

  /** Start with the first individual and replace it by any strictly fitter one. */
  function FirstFittest(pop: seq<Timetable>): (k: nat)
    requires |pop| > 0
    ensures k < |pop| && FirstFittestAt(pop, k)
  {
    FittestFrom(pop, 0, 0)
  }

  /** The best-pick loop of `RunGeneticAlgorithm`: a fittest individual, the first one on ties. */
  function Best(pop: seq<Timetable>): (r: Timetable)
    requires |pop| > 0
    ensures exists k | 0 <= k < |pop| :: r == pop[k] && FirstFittestAt(pop, k)
  {
    var k := FirstFittest(pop);
    pop[k]
  }

  /** Two positions satisfying `FirstFittestAt` coincide: the pick is determined. */
  lemma FirstFittestUnique(pop: seq<Timetable>, k: nat, k': nat)
    requires k < |pop| && k' < |pop|
    requires FirstFittestAt(pop, k) && FirstFittestAt(pop, k')
    ensures k == k'
  {
    assert pop[k].fitness == pop[k'].fitness;
  }

  /**
   * `TournamentSelection`: five draws `draw(0)` to `draw(4)` pick positions
   * (`rand.Intn(len(population))` is `draw(i) % |pop|`); the first fittest of
   * the five wins.
   */
  function TournamentSelection(pop: seq<Timetable>, draw: nat -> nat): (r: Timetable)
    requires |pop| > 0
    ensures r in pop
    ensures exists i | 0 <= i < TournamentSize ::
              && r == pop[draw(i) % |pop|]
              && forall j | 0 <= j < i :: pop[draw(j) % |pop|].fitness < r.fitness
    ensures forall i | 0 <= i < TournamentSize :: pop[draw(i) % |pop|].fitness <= r.fitness
  {
    var tournament := Tournament(pop, draw);
    var k := FirstFittest(tournament);
    assert tournament[k] == pop[draw(k) % |pop|];
    tournament[k]
  }

  /** The five drawn contestants, in draw order. */
  function Tournament(pop: seq<Timetable>, draw: nat -> nat): (r: seq<Timetable>)
    requires |pop| > 0
    ensures |r| == TournamentSize
    ensures forall i | 0 <= i < TournamentSize :: r[i] == pop[draw(i) % |pop|]
  {
    seq(TournamentSize, i requires 0 <= i => pop[draw(i) % |pop|])
  }

  // ---------------------------------------------------------------------
  // Crossover
  // ---------------------------------------------------------------------

  /**
   * `Crossover`: empty when either parent has no classes; otherwise, with
   * `k = cut % min(|p1|, |p2|)` standing for `rand.Intn(minLength)`, the
   * first `k` classes of `p1` followed by the classes of `p2` from `k` on.
   */
  function Crossover(p1: Timetable, p2: Timetable, cut: nat): (r: Timetable)
    ensures r.fitness == 0
    ensures |r.classes| == 0 <==> |p1.classes| == 0 || |p2.classes| == 0
    ensures |p1.classes| > 0 && |p2.classes| > 0 ==>
              && |r.classes| == |p2.classes|
              && var k := cut % Min(|p1.classes|, |p2.classes|);
                 forall i | 0 <= i < |r.classes| :: r.classes[i] == if i < k then p1.classes[i] else p2.classes[i]
  {
    if |p1.classes| == 0 || |p2.classes| == 0 then Timetable([], 0)
    else
      var k := cut % Min(|p1.classes|, |p2.classes|);
      Timetable(p1.classes[..k] + p2.classes[k..], 0)
  }

  /** `minLength`: the shorter of two lengths, the first on a tie. */
  function Min(a: nat, b: nat): (r: nat)
    ensures r <= a && r <= b
    ensures r == a || r == b
  {
    if b < a then b else a
  }

  /** Every class of the child comes from a parent, so valid parents give a valid child. */
  lemma CrossoverKeepsValid(p1: Timetable, p2: Timetable, cut: nat,
                            ds: seq<Discipline>, ps: seq<Professor>, avs: seq<Availability>)
    requires AllValid(p1.classes, ds, ps, avs) && AllValid(p2.classes, ds, ps, avs)
    ensures AllValid(Crossover(p1, p2, cut).classes, ds, ps, avs)
  {
    var r := Crossover(p1, p2, cut);
    if |r.classes| > 0 {
      var k := cut % Min(|p1.classes|, |p2.classes|);
      forall i | 0 <= i < |r.classes| ensures ValidClass(r.classes[i], ds, ps, avs) {
        if i < k {
          assert r.classes[i] == p1.classes[i];
        } else {
          assert r.classes[i] == p2.classes[i];
        }
      }
    }
  }

  /** Crossing a timetable with itself gives back its classes. */
  lemma CrossoverSelf(p: Timetable, cut: nat)
    ensures Crossover(p, p, cut).classes == p.classes
  {
    var r := Crossover(p, p, cut);
    if |p.classes| > 0 {
      assert forall i | 0 <= i < |r.classes| :: r.classes[i] == p.classes[i];
    }
  }

  // ---------------------------------------------------------------------
  // Mutation
  // ---------------------------------------------------------------------

  /**
   * What a re-assigned class keeps and gains, whatever the rest of the list:
   * same weekday name, shift, discipline and date; a one-hour slot in the
   * shift's window; a professor eligible for the discipline with an
   * availability for that weekday and shift.
   */
  predicate Moved(c: Class, n: Class, ps: seq<Professor>, avs: seq<Availability>) {
    && n.dayOfWeek == c.dayOfWeek
    && n.shift == c.shift
    && n.disciplineId == c.disciplineId
    && n.startTime.day == c.startTime.day
    && InShiftWindow(n.startTime.hour, c.shift)
    && n.endTime == AddHour(n.startTime)
    && (exists q | q in ps :: q.id == n.professorId && Teaches(q, c.disciplineId))
    && (exists a | a in avs :: a.professorId == n.professorId && a.dayOfWeek == WeekdayName(c.startTime.day) && a.shift == c.shift)
  }

  /**
   * A re-assigned class of list `cs`: moved as above, to the first hour of
   * the window that no class of `cs` with the date's weekday name and the
   * shift starts at (the mutator passes no occupied times).
   */
  predicate Reassigned(c: Class, n: Class, cs: seq<Class>, ps: seq<Professor>, avs: seq<Availability>) {
    && Moved(c, n, ps, avs)
    && Free(n.startTime, c.shift, [], WeekdayName(c.startTime.day), cs)
    && forall h: Hour | InShiftWindow(h, c.shift) && h < n.startTime.hour ::
         !Free(At(c.startTime.day, h), c.shift, [], WeekdayName(c.startTime.day), cs)
  }

  /** The professor the draw picks for class `c` (`draw % n` for `rand.Intn(n)`), or None when nobody may teach it. */
  function DrawnFor(c: Class, ps: seq<Professor>, draw: nat): (r: Option<Professor>)
    ensures r.None? <==> forall q | q in ps :: !Teaches(q, c.disciplineId)
    ensures r.Some? ==> r.value in ps && Teaches(r.value, c.disciplineId)
  {
    var eligible := FilterEligibleProfessors(c.disciplineId, ps);
    if |eligible| == 0 then None
    else
      var professor := eligible[draw % |eligible|];
      assert professor in eligible;
      Some(professor)
  }

  /** The drawn professor for `c` is the one with identity `id`. */
  predicate DrawnIs(c: Class, ps: seq<Professor>, draw: nat, id: int) {
    DrawnFor(c, ps, draw).Some? && DrawnFor(c, ps, draw).value.id == id
  }

  /** Professor `p` has an availability for the weekday of `c`'s date and for its shift. */
  predicate SlotFor(p: Professor, c: Class, avs: seq<Availability>) {
    exists a | a in avs :: a.professorId == p.id && MatchesSlot(a, c.shift, c.startTime.day)
  }

  /** A professor is drawn for `c` and has an availability for its date's weekday and its shift. */
  predicate DrawnMatch(c: Class, ps: seq<Professor>, avs: seq<Availability>, draw: nat) {
    DrawnFor(c, ps, draw).Some? && SlotFor(DrawnFor(c, ps, draw).value, c, avs)
  }

  /** Some hour of the window of `c`'s shift on its date is free in `cs`. */
  predicate WindowHasRoom(c: Class, cs: seq<Class>) {
    exists h: Hour | InShiftWindow(h, c.shift) ::
      Free(At(c.startTime.day, h), c.shift, [], WeekdayName(c.startTime.day), cs)
  }

  /** Every step of the mutation succeeds for `c` in list `cs`: no `continue` is taken. */
  predicate Succeeds(c: Class, cs: seq<Class>, ps: seq<Professor>, avs: seq<Availability>, draw: nat) {
    DrawnMatch(c, ps, avs, draw) && KnownShift(c.shift) && WindowHasRoom(c, cs)
  }

  /** `n` starts at the first hour of `c`'s shift window on its date that is free in `cs`, for one hour. */
  predicate FirstFreeHour(c: Class, n: Class, cs: seq<Class>) {
    && n.startTime.day == c.startTime.day
    && InShiftWindow(n.startTime.hour, c.shift)
    && n.endTime == AddHour(n.startTime)
    && Free(n.startTime, c.shift, [], WeekdayName(c.startTime.day), cs)
    && forall h: Hour | InShiftWindow(h, c.shift) && h < n.startTime.hour ::
         !Free(At(c.startTime.day, h), c.shift, [], WeekdayName(c.startTime.day), cs)
  }

  /**
   * The second half of the mutation step, once professor `p` is drawn: its
   * first availability for the date and shift, then the slot finder over the
   * current classes.
   */
  function Relocate(c: Class, cs: seq<Class>, p: Professor, avs: seq<Availability>): (r: Outcome<Class>)
    ensures r.Fatal? <==> SlotFor(p, c, avs) && !KnownShift(c.shift)
    ensures r.Ok? ==> r.value == c || (SlotFor(p, c, avs) && r.value == c.(professorId := p.id, startTime := r.value.startTime, endTime := r.value.endTime) && FirstFreeHour(c, r.value, cs))
    ensures r.Ok? && !(SlotFor(p, c, avs) && KnownShift(c.shift) && WindowHasRoom(c, cs)) ==> r.value == c
    ensures SlotFor(p, c, avs) && KnownShift(c.shift) && WindowHasRoom(c, cs) ==>
              r.Ok? && r.value.professorId == p.id && FirstFreeHour(c, r.value, cs)
              && r.value == c.(professorId := p.id, startTime := r.value.startTime, endTime := r.value.endTime)
  {
    var slots := FilterAvailableSlots(p.id, avs);
    if |slots| == 0 then
      assert forall a | a in avs && a.professorId == p.id :: a in slots;
      Ok(c)
    else
      match FindMatchingSlot(c.shift, slots, c.startTime.day)
      case None =>
        assert forall a | a in avs && a.professorId == p.id :: a in slots;
        Ok(c)
      case Some(slot) =>
        assert slot in slots;
        match GenerateNextAvailableTime(c.startTime.day, slot.shift, [], slot.dayOfWeek, cs)
        case InvalidShift => Fatal("invalid shift")
        case NoSlot => Ok(c)
        case Found(start, end) => Ok(c.(professorId := p.id, startTime := start, endTime := end))
  }

  /**
   * The body of the mutation loop for a selected class `i`: a new eligible
   * professor (`draw % n` for `rand.Intn(n)`), its first availability for the
   * class's date and shift, and the slot finder over the current classes.
   * Any missing piece leaves the class untouched; an unknown shift reaching
   * the slot finder is fatal.
   */
  function Reassign(cs: seq<Class>, i: nat, ps: seq<Professor>, avs: seq<Availability>, draw: nat): (r: Outcome<Class>)
    requires i < |cs|
    ensures r.Fatal? <==> DrawnMatch(cs[i], ps, avs, draw) && !KnownShift(cs[i].shift)
    ensures r.Ok? ==> r.value == cs[i] || (Reassigned(cs[i], r.value, cs, ps, avs) && DrawnIs(cs[i], ps, draw, r.value.professorId))
    ensures r.Ok? && !Succeeds(cs[i], cs, ps, avs, draw) ==> r.value == cs[i]
    ensures Succeeds(cs[i], cs, ps, avs, draw) ==>
              r.Ok? && Reassigned(cs[i], r.value, cs, ps, avs) && DrawnIs(cs[i], ps, draw, r.value.professorId)
  {
    match DrawnFor(cs[i], ps, draw)
    case None => Ok(cs[i])
    case Some(p) =>
      var r := Relocate(cs[i], cs, p, avs);
      if r.Ok? && (r.value != cs[i] || Succeeds(cs[i], cs, ps, avs, draw)) then
        RelocatedIsReassigned(cs[i], r.value, cs, p, ps, avs);
        r
      else r
  }

  /** A class relocated for an eligible professor with a matching availability is a re-assignment. */
  lemma RelocatedIsReassigned(c: Class, n: Class, cs: seq<Class>, p: Professor, ps: seq<Professor>, avs: seq<Availability>)
    requires p in ps && Teaches(p, c.disciplineId) && SlotFor(p, c, avs)
    requires n == c.(professorId := p.id, startTime := n.startTime, endTime := n.endTime)
    requires FirstFreeHour(c, n, cs)
    ensures Reassigned(c, n, cs, ps, avs)
  {
  }

  /** A re-assigned valid class is still valid. */
  lemma MovedKeepsValid(c: Class, n: Class, ds: seq<Discipline>, ps: seq<Professor>, avs: seq<Availability>)
    requires ValidClass(c, ds, ps, avs)
    requires Moved(c, n, ps, avs)
    ensures ValidClass(n, ds, ps, avs)
  {
  }

  /**
   * A class carrying its date's weekday name never keeps its start time when
   * re-assigned: the slot finder sees the class itself at its old hour.
   */
  lemma ReassignedMoves(cs: seq<Class>, i: nat, n: Class, ps: seq<Professor>, avs: seq<Availability>)
    requires i < |cs|
    requires cs[i].dayOfWeek == WeekdayName(cs[i].startTime.day)
    requires Reassigned(cs[i], n, cs, ps, avs)
    ensures n.startTime != cs[i].startTime
  {
  }

  /**
   * The mutation loop from class `i` on; `flip(k)` stands for
   * `rand.Float64() < mutationRate` at class `k` and `pick(k)` for its
   * professor draw. Each class is re-assigned against the list as already
   * mutated.
   */
  function MutateFrom(cs: seq<Class>, i: nat, ps: seq<Professor>, avs: seq<Availability>,
                      flip: nat -> bool, pick: nat -> nat): (r: Outcome<seq<Class>>)
    requires i <= |cs|
    ensures r.Ok? ==> |r.value| == |cs|
    ensures r.Ok? ==> forall k | 0 <= k < i :: r.value[k] == cs[k]
    ensures r.Ok? ==> forall k | i <= k < |cs| ::
              || r.value[k] == cs[k]
              || (&& flip(k)
                  && Reassigned(cs[k], r.value[k], r.value[..k] + cs[k..], ps, avs)
                  && DrawnIs(cs[k], ps, pick(k), r.value[k].professorId))
    ensures r.Ok? ==> forall k | i <= k < |cs| ::
              flip(k) && Succeeds(cs[k], r.value[..k] + cs[k..], ps, avs, pick(k)) ==>
                && Reassigned(cs[k], r.value[k], r.value[..k] + cs[k..], ps, avs)
                && DrawnIs(cs[k], ps, pick(k), r.value[k].professorId)
    ensures r.Ok? ==> forall k | i <= k < |cs| ::
              !(flip(k) && Succeeds(cs[k], r.value[..k] + cs[k..], ps, avs, pick(k))) ==> r.value[k] == cs[k]
    ensures r.Fatal? <==> exists k | i <= k < |cs| :: flip(k) && DrawnMatch(cs[k], ps, avs, pick(k)) && !KnownShift(cs[k].shift)
    decreases |cs| - i
  {
    if i == |cs| then Ok(cs)
    else if !flip(i) then MutateFrom(cs, i + 1, ps, avs, flip, pick)
    else
      match Reassign(cs, i, ps, avs, pick(i))
      case Fatal(reason) => Fatal(reason)
      case Ok(n) =>
        var r := MutateFrom(cs[i := n], i + 1, ps, avs, flip, pick);
        assert r.Ok? ==> r.value[i] == n && r.value[..i] + cs[i..] == cs;
        assert forall k | i < k <= |cs| :: cs[i := n][k..] == cs[k..];
        r
  }

  /** Mutating valid classes cannot fail and keeps every class valid. */
  lemma MutateFromKeepsValid(cs: seq<Class>, i: nat, ds: seq<Discipline>, ps: seq<Professor>,
                             avs: seq<Availability>, flip: nat -> bool, pick: nat -> nat)
    requires i <= |cs|
    requires AllValid(cs, ds, ps, avs)
    ensures MutateFrom(cs, i, ps, avs, flip, pick).Ok?
    ensures AllValid(MutateFrom(cs, i, ps, avs, flip, pick).value, ds, ps, avs)
  {
    var r := MutateFrom(cs, i, ps, avs, flip, pick);
    forall k | i <= k < |cs| ensures KnownShift(cs[k].shift) {
      assert ValidClass(cs[k], ds, ps, avs);
    }
    forall k | 0 <= k < |r.value| ensures ValidClass(r.value[k], ds, ps, avs) {
      assert ValidClass(cs[k], ds, ps, avs);
      if r.value[k] != cs[k] {
        MovedKeepsValid(cs[k], r.value[k], ds, ps, avs);
      }
    }
  }

  lemma UpdateKeepsValid(cs: seq<Class>, i: nat, n: Class, ds: seq<Discipline>, ps: seq<Professor>, avs: seq<Availability>)
    requires i < |cs|
    requires AllValid(cs, ds, ps, avs) && ValidClass(n, ds, ps, avs)
    ensures AllValid(cs[i := n], ds, ps, avs)
  {
    var cs' := cs[i := n];
    forall k | 0 <= k < |cs'| ensures ValidClass(cs'[k], ds, ps, avs) {
      if k != i {
        assert cs'[k] == cs[k];
      }
    }
  }

  /**
   * `Mutate`: the fitness and the number of classes are kept; each class is
   * either untouched or, when selected, re-assigned within its date and shift
   * to an eligible professor at the first hour free in the list as mutated so
   * far, to the professor its draw picks. A selected class is re-assigned
   * exactly when every step succeeds: a professor is drawn, it has an
   * availability for the date and shift, and the window has a free hour.
   * Failure comes exactly from a selected class whose drawn professor has such
   * an availability but whose shift is unknown.
   */
  function Mutate(t: Timetable, ps: seq<Professor>, avs: seq<Availability>,
                  flip: nat -> bool, pick: nat -> nat): (r: Outcome<Timetable>)
    ensures r.Ok? ==> r.value.fitness == t.fitness && |r.value.classes| == |t.classes|
    ensures r.Ok? ==> forall k | 0 <= k < |t.classes| ::
              || r.value.classes[k] == t.classes[k]
              || (&& flip(k)
                  && Reassigned(t.classes[k], r.value.classes[k], r.value.classes[..k] + t.classes[k..], ps, avs)
                  && DrawnIs(t.classes[k], ps, pick(k), r.value.classes[k].professorId))
    ensures r.Ok? ==> forall k | 0 <= k < |t.classes| ::
              flip(k) && Succeeds(t.classes[k], r.value.classes[..k] + t.classes[k..], ps, avs, pick(k)) ==>
                && Reassigned(t.classes[k], r.value.classes[k], r.value.classes[..k] + t.classes[k..], ps, avs)
                && DrawnIs(t.classes[k], ps, pick(k), r.value.classes[k].professorId)
    ensures r.Ok? ==> forall k | 0 <= k < |t.classes| ::
              !(flip(k) && Succeeds(t.classes[k], r.value.classes[..k] + t.classes[k..], ps, avs, pick(k))) ==>
                r.value.classes[k] == t.classes[k]
    ensures r.Fatal? <==> exists k | 0 <= k < |t.classes| ::
              flip(k) && DrawnMatch(t.classes[k], ps, avs, pick(k)) && !KnownShift(t.classes[k].shift)
  {
    match MutateFrom(t.classes, 0, ps, avs, flip, pick)
    case Fatal(reason) => Fatal(reason)
    case Ok(cs) => Ok(Timetable(cs, t.fitness))
  }

  /** A timetable of valid classes mutates into one of valid classes. */
  lemma MutateKeepsValid(t: Timetable, ds: seq<Discipline>, ps: seq<Professor>, avs: seq<Availability>,
                         flip: nat -> bool, pick: nat -> nat)
    requires AllValid(t.classes, ds, ps, avs)
    ensures Mutate(t, ps, avs, flip, pick).Ok?
    ensures AllValid(Mutate(t, ps, avs, flip, pick).value.classes, ds, ps, avs)
  {
    MutateFromKeepsValid(t.classes, 0, ds, ps, avs, flip, pick);
  }

  // ---------------------------------------------------------------------
  // Replacement
  // ---------------------------------------------------------------------

  /** `copy(population, newPopulation)`: overwrite the common prefix, keep the rest. */
  function ReplacePopulation(pop: seq<Timetable>, newPop: seq<Timetable>): (r: seq<Timetable>)
    ensures |r| == |pop|
    ensures forall k | 0 <= k < |r| :: r[k] == if k < |newPop| then newPop[k] else pop[k]
  {
    var m := Min(|pop|, |newPop|);
    newPop[..m] + pop[m..]
  }

  /** With populations of equal size the new one replaces the old one entirely. */
  lemma ReplaceEqualSize(pop: seq<Timetable>, newPop: seq<Timetable>)
    requires |pop| == |newPop|
    ensures ReplacePopulation(pop, newPop) == newPop
  {
  }

  // ---------------------------------------------------------------------
  // The evolution loop
  // ---------------------------------------------------------------------

  /**
   * The random draws of one run: per individual of the initial population,
   * per (generation, child, parent) the five tournament draws, per
   * (generation, child) the crossover point, the mutation flags and the
   * professor draws of the mutation.
   */
  datatype Randomness = Randomness(
    initial: nat -> Picker,
    tournament: (nat, nat, nat) -> (nat -> nat),
    cut: (nat, nat) -> nat,
    flip: (nat, nat) -> (nat -> bool),
    pick: (nat, nat) -> (nat -> nat))

  /** The fitness stored in `t` is the score of its classes. */
  predicate Scored(t: Timetable, param: Parameterization) {
    t == EvaluateFitness(t, param)
  }

  /** Every individual consists of valid classes. */
  predicate PopulationValid(pop: seq<Timetable>, ds: seq<Discipline>, ps: seq<Professor>, avs: seq<Availability>) {
    forall k | 0 <= k < |pop| :: AllValid(pop[k].classes, ds, ps, avs)
  }

  /** What `GenerateRandomTimetable` promises of the timetable it returns. */
  ghost predicate Candidate(t: Timetable, ds: seq<Discipline>, ps: seq<Professor>, avs: seq<Availability>, weeksToGenerate: int) {
    && t.fitness == 0
    && AllValid(t.classes, ds, ps, avs)
    && (forall k | 0 <= k < |t.classes| ::
          0 <= t.classes[k].startTime.day < weeksToGenerate * 7 && t.classes[k].startTime.day % 7 < 5)
    && DistinctSlots(t.classes)
    && FirstFit(t.classes)
    && WithinCaps(t.classes, ps)
  }

  /** Every individual is a candidate the generator can return. */
  ghost predicate AllCandidates(pop: seq<Timetable>, ds: seq<Discipline>, ps: seq<Professor>, avs: seq<Availability>,
                          weeksToGenerate: int) {
    forall k | 0 <= k < |pop| :: Candidate(pop[k], ds, ps, avs, weeksToGenerate)
  }

  lemma CandidatesAppend(pop: seq<Timetable>, t: Timetable, ds: seq<Discipline>, ps: seq<Professor>,
                         avs: seq<Availability>, weeksToGenerate: int)
    requires AllCandidates(pop, ds, ps, avs, weeksToGenerate)
    requires Candidate(t, ds, ps, avs, weeksToGenerate)
    ensures AllCandidates(pop + [t], ds, ps, avs, weeksToGenerate)
  {
    var next := pop + [t];
    forall k | 0 <= k < |next| ensures Candidate(next[k], ds, ps, avs, weeksToGenerate) {
      if k < |pop| { assert next[k] == pop[k]; } else { assert next[k] == t; }
    }
  }

  /**
   * `InitializePopulation`: `size` independently generated timetables, each
   * carrying every guarantee of the generator.
   */
  method InitializePopulation(size: nat, ds: seq<Discipline>, ps: seq<Professor>, avs: seq<Availability>,
                              weeksToGenerate: int, initial: nat -> Picker) returns (pop: seq<Timetable>)
    ensures |pop| == size
    ensures PopulationValid(pop, ds, ps, avs)
    ensures AllCandidates(pop, ds, ps, avs, weeksToGenerate)
  {
    pop := [];
    var i := 0;
    while i < size
      invariant i <= size && |pop| == i
      invariant AllCandidates(pop, ds, ps, avs, weeksToGenerate)
    {
      var t := GenerateRandomTimetable(ds, ps, avs, weeksToGenerate, initial(i));
      CandidatesAppend(pop, t, ds, ps, avs, weeksToGenerate);
      pop := pop + [t];
      i := i + 1;
    }
  }


  /**
   * One child of generation `g`: the winners of two tournaments over `pop`
   * are crossed, the child is mutated and then scored. A child of valid
   * parents is valid, its fitness is the score of its classes, and it lies
   * between 1 and 4.
   */
  function Child(pop: seq<Timetable>, ds: seq<Discipline>, ps: seq<Professor>, avs: seq<Availability>,
                 param: Parameterization, rnd: Randomness, g: nat, j: nat): (r: Timetable)
    requires |pop| > 0
    requires PopulationValid(pop, ds, ps, avs)
    ensures AllValid(r.classes, ds, ps, avs)
    ensures Scored(r, param)
    ensures 1 <= r.fitness <= 4
  {
    var parent1 := TournamentSelection(pop, rnd.tournament(g, j, 0));
    var parent2 := TournamentSelection(pop, rnd.tournament(g, j, 1));
    var child := Crossover(parent1, parent2, rnd.cut(g, j));
    CrossoverKeepsValid(parent1, parent2, rnd.cut(g, j), ds, ps, avs);
    MutateKeepsValid(child, ds, ps, avs, rnd.flip(g, j), rnd.pick(g, j));
    var mutated := Mutate(child, ps, avs, rnd.flip(g, j), rnd.pick(g, j)).value;
    EvaluateFitnessIdempotent(mutated, param);
    EvaluateFitness(mutated, param)
  }

  /** A population of valid, scored individuals. */
  predicate Generation(pop: seq<Timetable>, ds: seq<Discipline>, ps: seq<Professor>, avs: seq<Availability>,
                       param: Parameterization) {
    && PopulationValid(pop, ds, ps, avs)
    && forall k | 0 <= k < |pop| :: Scored(pop[k], param) && 1 <= pop[k].fitness <= 4
  }

  /** Adding the score of a valid child keeps a generation valid and scored. */
  lemma GenerationAppend(pop: seq<Timetable>, child: Timetable, ds: seq<Discipline>, ps: seq<Professor>,
                         avs: seq<Availability>, param: Parameterization)
    requires Generation(pop, ds, ps, avs, param)
    requires AllValid(child.classes, ds, ps, avs)
    ensures Generation(pop + [EvaluateFitness(child, param)], ds, ps, avs, param)
  {
    var scored := EvaluateFitness(child, param);
    EvaluateFitnessIdempotent(child, param);
    var next := pop + [scored];
    forall k | 0 <= k < |next|
      ensures AllValid(next[k].classes, ds, ps, avs) && Scored(next[k], param) && 1 <= next[k].fitness <= 4
    {
      if k < |pop| {
        assert next[k] == pop[k];
      } else {
        assert next[k] == scored;
      }
    }
  }

  /** The sequence `[f(0), ..., f(n - 1)]`, built by appending as the generation loop does. */
  function Build<T>(f: nat -> T, n: nat): (r: seq<T>)
    ensures |r| == n
  {
    if n == 0 then [] else Build(f, n - 1) + [f(n - 1)]
  }

  /** Position `j` of `Build(f, n)` holds `f(j)`. */
  lemma {:induction false} BuildAt<T>(f: nat -> T, n: nat, j: nat)
    requires j < n
    ensures Build(f, n)[j] == f(j)
  {
    if j < n - 1 {
      BuildAt(f, n - 1, j);
      assert Build(f, n)[j] == Build(f, n - 1)[j];
    }
  }

  /**
   * The first `n` children generation `g` breeds from `pop`, in order. They
   * form a valid, scored generation.
   */
  function Children(pop: seq<Timetable>, ds: seq<Discipline>, ps: seq<Professor>, avs: seq<Availability>,
                    param: Parameterization, rnd: Randomness, g: nat, n: nat): (cs: seq<Timetable>)
    requires |pop| > 0
    requires PopulationValid(pop, ds, ps, avs)
    ensures |cs| == n
    ensures Generation(cs, ds, ps, avs, param)
  {
    var f := (j: nat) => Child(pop, ds, ps, avs, param, rnd, g, j);
    forall j | 0 <= j < n ensures Build(f, n)[j] == f(j) {
      BuildAt(f, n, j);
    }
    Build(f, n)
  }

  /** The `j`-th of the first `n` children is the child bred at position `j`. */
  lemma ChildrenAt(pop: seq<Timetable>, ds: seq<Discipline>, ps: seq<Professor>, avs: seq<Availability>,
                   param: Parameterization, rnd: Randomness, g: nat, n: nat, j: nat)
    requires |pop| > 0
    requires PopulationValid(pop, ds, ps, avs)
    requires j < n
    ensures Children(pop, ds, ps, avs, param, rnd, g, n)[j] == Child(pop, ds, ps, avs, param, rnd, g, j)
  {
    BuildAt((j: nat) => Child(pop, ds, ps, avs, param, rnd, g, j), n, j);
  }

  /**
   * The population after the first `n` generations of a run started from
   * `initial`: each generation consists of `PopulationSize` children bred
   * from the one before. After at least one generation it is a valid,
   * scored generation.
   */
  function Evolve(initial: seq<Timetable>, ds: seq<Discipline>, ps: seq<Professor>, avs: seq<Availability>,
                  param: Parameterization, rnd: Randomness, n: nat): (pop: seq<Timetable>)
    requires |initial| == PopulationSize
    requires PopulationValid(initial, ds, ps, avs)
    ensures |pop| == PopulationSize
    ensures PopulationValid(pop, ds, ps, avs)
    ensures n > 0 ==> Generation(pop, ds, ps, avs, param)
  {
    if n == 0 then initial
    else Children(Evolve(initial, ds, ps, avs, param, rnd, n - 1), ds, ps, avs, param, rnd, n - 1, PopulationSize)
  }

  /**
   * One generation: `PopulationSize` children, then `ReplacePopulation`. The
   * `j`-th individual of the result is the `j`-th child bred from `pop`: the
   * old population is replaced wholesale, with no elitism.
   */
  method NextGeneration(pop: seq<Timetable>, ds: seq<Discipline>, ps: seq<Professor>, avs: seq<Availability>,
                        param: Parameterization, rnd: Randomness, g: nat) returns (next: seq<Timetable>)
    requires |pop| == PopulationSize
    requires PopulationValid(pop, ds, ps, avs)
    ensures |next| == PopulationSize
    ensures forall j | 0 <= j < PopulationSize :: next[j] == Child(pop, ds, ps, avs, param, rnd, g, j)
    ensures next == Children(pop, ds, ps, avs, param, rnd, g, PopulationSize)
    ensures Generation(next, ds, ps, avs, param)
  {
    var newPop: seq<Timetable> := [];
    for j := 0 to PopulationSize
      invariant newPop == Children(pop, ds, ps, avs, param, rnd, g, j)
    {
      newPop := newPop + [Child(pop, ds, ps, avs, param, rnd, g, j)];
    }
    forall j | 0 <= j < PopulationSize ensures newPop[j] == Child(pop, ds, ps, avs, param, rnd, g, j) {
      ChildrenAt(pop, ds, ps, avs, param, rnd, g, PopulationSize, j);
    }
    ReplaceEqualSize(pop, newPop);
    next := ReplacePopulation(pop, newPop);
  }

  /**
   * `RunGeneticAlgorithm`: `Generations` rounds over an initial population
   * of `PopulationSize` timetables the generator can return, then the first
   * fittest individual of the final population. The result consists of
   * valid classes, and its fitness is the score of its classes, between 1
   * and 4.
   */
  method RunGeneticAlgorithm(ds: seq<Discipline>, ps: seq<Professor>, avs: seq<Availability>,
                             param: Parameterization, weeksToGenerate: int, rnd: Randomness)
    returns (best: Timetable)
    ensures exists initial: seq<Timetable> | |initial| == PopulationSize && AllCandidates(initial, ds, ps, avs, weeksToGenerate) ::
              && PopulationValid(initial, ds, ps, avs)
              && best == Best(Evolve(initial, ds, ps, avs, param, rnd, Generations))
    ensures AllValid(best.classes, ds, ps, avs)
    ensures Scored(best, param) && 1 <= best.fitness <= 4
  {
    var initial := InitializePopulation(PopulationSize, ds, ps, avs, weeksToGenerate, rnd.initial);
    var pop := initial;
    for g := 0 to Generations
      invariant pop == Evolve(initial, ds, ps, avs, param, rnd, g)
    {
      pop := NextGeneration(pop, ds, ps, avs, param, rnd, g);
    }
    best := Best(pop);
    ghost var k :| 0 <= k < |pop| && best == pop[k] && FirstFittestAt(pop, k);
    assert AllValid(pop[k].classes, ds, ps, avs);
  }
}
