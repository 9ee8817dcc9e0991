/**
 * The fitness function: four sub-scores of 0 or 1 (credit goal, distribution,
 * no overlaps, teacher hours) summed into a timetable's fitness.
 */
module Fitness {
  import opened Domain

  const TwoTo32: int := 0x1_0000_0000
  const TwoTo31: int := 0x8000_0000

  /** Two's-complement truncation to 32 bits, as Go's `int32` arithmetic wraps. */
  function Wrap32(x: int): (r: Int32)
    ensures r % TwoTo32 == x % TwoTo32
    ensures -TwoTo31 <= x < TwoTo31 ==> r == x
  {
    var m := x % TwoTo32;
    if m >= TwoTo31 then m - TwoTo32 else m
  }

  /** Adding a multiple of 2^32 does not change the residue. */
  lemma {:induction false} ModShift(x: int, q: int)
    ensures (x + q * TwoTo32) % TwoTo32 == x % TwoTo32
    decreases if q < 0 then -q else q
  {
    if q > 0 {
      ModShift(x, q - 1);
      assert x + q * TwoTo32 == (x + (q - 1) * TwoTo32) + TwoTo32;
    } else if q < 0 {
      ModShift(x, q + 1);
      assert x + q * TwoTo32 == (x + (q + 1) * TwoTo32) - TwoTo32;
    }
  }

  /** Two values with the same residue wrap to the same `int32`. */
  lemma WrapCongruent(x: int, y: int)
    requires x % TwoTo32 == y % TwoTo32
    ensures Wrap32(x) == Wrap32(y)
  {
  }

  /** Wrapping after every addition is wrapping once at the end. */
  lemma WrapAdd(a: int, b: int)
    ensures Wrap32(Wrap32(a) + b) == Wrap32(a + b)
  {
    var w := Wrap32(a);
    var q := (a - w) / TwoTo32;
    assert a - w == q * TwoTo32;
    ModShift(w + b, q);
    WrapCongruent(w + b, a + b);
  }

  // ---------------------------------------------------------------------
  // Credit goal
  // ---------------------------------------------------------------------

  /** Exact credits a class contributes: the credits of every listed discipline entry with its identity. */
  function CreditsFor(c: Class, ds: seq<Discipline>): int {
    if |ds| == 0 then 0
    else (if ds[0].id == c.disciplineId then ds[0].credits else 0) + CreditsFor(c, ds[1..])
  }

  /** Exact credits of a class list. */
  function TotalCredits(cs: seq<Class>, ds: seq<Discipline>): int {
    if |cs| == 0 then 0 else CreditsFor(cs[0], ds) + TotalCredits(cs[1..], ds)
  }

  /** The inner loop of the credit count, adding into an `int32` accumulator. */
  function InnerCredits(acc: Int32, c: Class, ds: seq<Discipline>): (r: Int32)
    ensures r == Wrap32(acc + CreditsFor(c, ds))
    decreases |ds|
  {
    if |ds| == 0 then acc
    else
      var next := if ds[0].id == c.disciplineId then Wrap32(acc + ds[0].credits) else acc;
      var r := InnerCredits(next, c, ds[1..]);
      WrapAdd(acc + (if ds[0].id == c.disciplineId then ds[0].credits else 0), CreditsFor(c, ds[1..]));
      r
  }

  /** The outer loop of the credit count, over the classes in order. */
  function OuterCredits(acc: Int32, cs: seq<Class>, ds: seq<Discipline>): (r: Int32)
    ensures r == Wrap32(acc + TotalCredits(cs, ds))
    decreases |cs|
  {
    if |cs| == 0 then acc
    else
      var r := OuterCredits(InnerCredits(acc, cs[0], ds), cs[1..], ds);
      WrapAdd(acc + CreditsFor(cs[0], ds), TotalCredits(cs[1..], ds));
      r
  }

  /**
   * The `int32` credit count of `EvaluateCreditGoals`: wrapping at every
   * addition yields the exact total wrapped once, hence the exact total
   * whenever that total fits in an `int32`.
   */
  function CreditCount(cs: seq<Class>, ds: seq<Discipline>): (r: Int32)
    ensures r == Wrap32(TotalCredits(cs, ds))
    ensures -TwoTo31 <= TotalCredits(cs, ds) < TwoTo31 ==> r == TotalCredits(cs, ds)
  {
    OuterCredits(0, cs, ds)
  }

  /** One point when the credit count stays within the offer limit. */
  function CreditScore(t: Timetable, param: Parameterization): (r: int)
    ensures r == 0 || r == 1
    ensures r == 1 <==> Wrap32(TotalCredits(t.classes, param.disciplines)) <= param.maxCreditsToOffer
  {
    if CreditCount(t.classes, param.disciplines) <= param.maxCreditsToOffer then 1 else 0
  }

  /** The credit point when no overflow happens: exactly "total credits within the limit". */
  lemma CreditScoreExact(t: Timetable, param: Parameterization)
    requires -TwoTo31 <= TotalCredits(t.classes, param.disciplines) < TwoTo31
    ensures CreditScore(t, param) == 1 <==> TotalCredits(t.classes, param.disciplines) <= param.maxCreditsToOffer
  {
  }

  // ---------------------------------------------------------------------
  // Distribution
  // ---------------------------------------------------------------------

  /** The distribution criterion awards its point to every timetable. */
  function DistributionScore(t: Timetable): (r: int)
    ensures r == 1
  {
    1
  }

  // ---------------------------------------------------------------------
  // No overlaps
  // ---------------------------------------------------------------------

  /**
   * Two classes clash: same weekday name, same shift, same start time, and
   * they share the professor or the discipline.
   */
  predicate Conflict(a: Class, b: Class) {
    && a.dayOfWeek == b.dayOfWeek
    && a.shift == b.shift
    && (a.professorId == b.professorId || a.disciplineId == b.disciplineId)
    && a.startTime == b.startTime
  }

  /** Two distinct positions of the list hold clashing classes. */
  predicate Overlapping(cs: seq<Class>) {
    exists i, j | 0 <= i < |cs| && 0 <= j < |cs| :: i != j && Conflict(cs[i], cs[j])
  }

  /** The inner loop: does class `i` clash with a class at position `j` or later? */
  function ClashFrom(cs: seq<Class>, i: nat, j: nat): (r: bool)
    requires i < |cs| && j <= |cs|
    ensures r <==> exists k | j <= k < |cs| :: k != i && Conflict(cs[i], cs[k])
    decreases |cs| - j
  {
    if j == |cs| then false
    else (j != i && Conflict(cs[i], cs[j])) || ClashFrom(cs, i, j + 1)
  }

  /** The outer loop: does some class at position `i` or later clash with another? */
  function AnyClashFrom(cs: seq<Class>, i: nat): (r: bool)
    requires i <= |cs|
    ensures r <==> exists a, b | i <= a < |cs| && 0 <= b < |cs| :: a != b && Conflict(cs[a], cs[b])
    decreases |cs| - i
  {
    if i == |cs| then false
    else ClashFrom(cs, i, 0) || AnyClashFrom(cs, i + 1)
  }

  /** `EvaluateNoOverlaps`: one point exactly when no two classes clash. */
  function NoOverlapScore(t: Timetable): (r: int)
    ensures r == 0 || r == 1
    ensures r == 1 <==> !Overlapping(t.classes)
  {
    if AnyClashFrom(t.classes, 0) then 0 else 1
  }

  // ---------------------------------------------------------------------
  // Teacher hours
  // ---------------------------------------------------------------------

  /** Reference: the hours the classes of one professor last in total. */
  function HoursOf(cs: seq<Class>, professorId: int): int {
    if |cs| == 0 then 0
    else HoursOf(cs[..|cs| - 1], professorId)
         + (if cs[|cs| - 1].professorId == professorId then DurationHours(cs[|cs| - 1]) else 0)
  }

  /** `teacherHours[id]`, zero when absent. */
  function Lookup(m: map<int, int>, id: int): int {
    if id in m then m[id] else 0
  }

  /** The first loop of `EvaluateTeacherHours`: accumulate each class's duration under its professor. */
  function TeacherHours(cs: seq<Class>): (m: map<int, int>)
    ensures forall id :: Lookup(m, id) == HoursOf(cs, id)
    ensures forall id :: id in m <==> exists k | 0 <= k < |cs| :: cs[k].professorId == id
  {
    if |cs| == 0 then map[]
    else
      var init := cs[..|cs| - 1];
      var c := cs[|cs| - 1];
      var m := TeacherHours(init);
      assert forall k | 0 <= k < |init| :: init[k] == cs[k];
      m[c.professorId := Lookup(m, c.professorId) + DurationHours(c)]
  }

  /** Every professor record stays within its hour cap. */
  predicate HoursRespected(cs: seq<Class>, ps: seq<Professor>) {
    forall k | 0 <= k < |ps| :: HoursOf(cs, ps[k].id) <= ps[k].hoursToAllocate
  }

  /** The second loop: scan the professor records from `k` on for one over its cap. */
  function CapsFrom(hours: map<int, int>, ps: seq<Professor>, k: nat): (r: int)
    requires k <= |ps|
    ensures r == 0 || r == 1
    ensures r == 1 <==> forall j | k <= j < |ps| :: Lookup(hours, ps[j].id) <= ps[j].hoursToAllocate
    decreases |ps| - k
  {
    if k == |ps| then 1
    else if Lookup(hours, ps[k].id) > ps[k].hoursToAllocate then 0
    else CapsFrom(hours, ps, k + 1)
  }

  /** `EvaluateTeacherHours`: one point exactly when every professor record is within its cap. */
  function TeacherHoursScore(t: Timetable, param: Parameterization): (r: int)
    ensures r == 0 || r == 1
    ensures r == 1 <==> HoursRespected(t.classes, param.professors)
  {
    CapsFrom(TeacherHours(t.classes), param.professors, 0)
  }

  // ---------------------------------------------------------------------
  // Total
  // ---------------------------------------------------------------------

  /** All four criteria hold. */
  predicate Perfect(t: Timetable, param: Parameterization) {
    && Wrap32(TotalCredits(t.classes, param.disciplines)) <= param.maxCreditsToOffer
    && !Overlapping(t.classes)
    && HoursRespected(t.classes, param.professors)
  }

  /**
   * `EvaluateFitness`: the classes are kept and the fitness is the number of
   * criteria met, counting the distribution point that is always awarded: it
   * lies between 1 and 4, and it is 4 exactly when every criterion holds.
   */
  function EvaluateFitness(t: Timetable, param: Parameterization): (r: Timetable)
    ensures r.classes == t.classes
    ensures 1 <= r.fitness <= 4
    ensures r.fitness == 4 <==> Perfect(t, param)
    ensures !Overlapping(t.classes) ==> r.fitness >= 2
    ensures r.fitness == (if Wrap32(TotalCredits(t.classes, param.disciplines)) <= param.maxCreditsToOffer then 1 else 0)
                         + 1
                         + (if Overlapping(t.classes) then 0 else 1)
                         + (if HoursRespected(t.classes, param.professors) then 1 else 0)
  {
    Timetable(t.classes,
              CreditScore(t, param) + DistributionScore(t) + NoOverlapScore(t) + TeacherHoursScore(t, param))
  }

  /** Scoring depends on the classes only, so scoring twice changes nothing. */
  lemma EvaluateFitnessIdempotent(t: Timetable, param: Parameterization)
    ensures EvaluateFitness(EvaluateFitness(t, param), param) == EvaluateFitness(t, param)
  {
  }
}
