/**
 * The eligibility filters shared by both generators and the mutator:
 * professors eligible for a discipline, a professor's availabilities, and the
 * first availability matching a weekday and a shift.
 */
module Filters {
  import opened Wrappers
  import opened Domain

  /** How many entries of a discipline list carry the given identity. */
  function CountMatches(ds: seq<Discipline>, disciplineId: int): (n: nat)
    ensures n <= |ds|
    ensures n > 0 <==> exists e | e in ds :: e.id == disciplineId
  {
    if |ds| == 0 then 0
    else (if ds[0].id == disciplineId then 1 else 0) + CountMatches(ds[1..], disciplineId)
  }

  /** The inner loop of FilterEligibleProfessors: one copy of `p` per matching entry of `es`. */
  function CopiesPerMatch(p: Professor, es: seq<Discipline>, disciplineId: int): (r: seq<Professor>)
    ensures |r| == CountMatches(es, disciplineId)
    ensures forall k | 0 <= k < |r| :: r[k] == p
  {
    if |es| == 0 then []
    else (if es[0].id == disciplineId then [p] else []) + CopiesPerMatch(p, es[1..], disciplineId)
  }

  /**
   * Professors eligible for a discipline, in input order. A professor appears
   * once for every entry of its discipline list with that identity.
   */
  function FilterEligibleProfessors(disciplineId: int, professors: seq<Professor>): (r: seq<Professor>)
    ensures forall q :: q in r <==> q in professors && Teaches(q, disciplineId)
  {
    if |professors| == 0 then []
    else
      var p := professors[0];
      var c := CopiesPerMatch(p, p.disciplines, disciplineId);
      assert forall q :: q in professors <==> q == p || q in professors[1..];
      assert forall q :: q in c <==> q == p && Teaches(p, disciplineId) by {
        forall q ensures q in c <==> q == p && Teaches(p, disciplineId) {
          if q == p && Teaches(p, disciplineId) {
            assert c[0] == p;
          }
        }
      }
      CopiesPerMatch(p, p.disciplines, disciplineId) + FilterEligibleProfessors(disciplineId, professors[1..])
  }

  /** Each occurrence of `q` among the professors yields one copy per matching entry of its list. */
  lemma {:induction false} FilterEligibleMultiplicity(disciplineId: int, professors: seq<Professor>, q: Professor)
    ensures multiset(FilterEligibleProfessors(disciplineId, professors))[q]
            == CountMatches(q.disciplines, disciplineId) * multiset(professors)[q]
  {
    if |professors| > 0 {
      var p := professors[0];
      var c := CopiesPerMatch(p, p.disciplines, disciplineId);
      var rest := FilterEligibleProfessors(disciplineId, professors[1..]);
      FilterEligibleMultiplicity(disciplineId, professors[1..], q);
      assert professors == [p] + professors[1..];
      assert multiset(professors)[q] == multiset([p])[q] + multiset(professors[1..])[q];
      assert multiset(c + rest)[q] == multiset(c)[q] + multiset(rest)[q];
      CopiesMultiset(p, p.disciplines, disciplineId, q);
      var n := CountMatches(q.disciplines, disciplineId);
      var m := multiset(professors[1..])[q];
      assert multiset(rest)[q] == n * m;
      if q == p {
        assert multiset(professors)[q] == 1 + m;
        assert multiset(c)[q] == n;
        MulSucc(n, m);
      } else {
        assert multiset(professors)[q] == m;
        assert multiset(c)[q] == 0;
      }
    }
  }

  lemma MulSucc(n: nat, m: nat)
    ensures n * (1 + m) == n + n * m
  {
  }

  lemma CopiesMultiset(p: Professor, es: seq<Discipline>, disciplineId: int, q: Professor)
    ensures multiset(CopiesPerMatch(p, es, disciplineId))[q] == if q == p then CountMatches(es, disciplineId) else 0
  {
    var c := CopiesPerMatch(p, es, disciplineId);
    if q != p {
      assert q !in c;
    } else {
      assert c == Repeat(p, |c|);
      RepeatMultiset(p, |c|);
    }
  }

  function Repeat<T>(x: T, n: nat): (r: seq<T>)
    ensures |r| == n
    ensures forall k | 0 <= k < n :: r[k] == x
  {
    if n == 0 then [] else [x] + Repeat(x, n - 1)
  }

  lemma RepeatMultiset<T>(x: T, n: nat)
    ensures multiset(Repeat(x, n))[x] == n
  {
    if n > 0 {
      assert Repeat(x, n) == [x] + Repeat(x, n - 1);
      RepeatMultiset(x, n - 1);
    }
  }

  /** Filtering a concatenation filters each part: the filter keeps input order. */
  lemma {:induction false} FilterEligibleProfessorsAppend(disciplineId: int, a: seq<Professor>, b: seq<Professor>)
    ensures FilterEligibleProfessors(disciplineId, a + b)
            == FilterEligibleProfessors(disciplineId, a) + FilterEligibleProfessors(disciplineId, b)
  {
    if |a| > 0 {
      assert (a + b)[1..] == a[1..] + b;
      assert (a + b)[0] == a[0];
      FilterEligibleProfessorsAppend(disciplineId, a[1..], b);
    } else {
      assert a + b == b;
    }
  }

  /** The availabilities declared by one professor, in input order. */
  function FilterAvailableSlots(professorId: int, availabilities: seq<Availability>): (r: seq<Availability>)
    ensures forall k | 0 <= k < |r| :: r[k].professorId == professorId
    ensures forall a :: a in r <==> a in availabilities && a.professorId == professorId
  {
    if |availabilities| == 0 then []
    else
      var a := availabilities[0];
      assert forall x :: x in availabilities <==> x == a || x in availabilities[1..];
      (if a.professorId == professorId then [a] else []) + FilterAvailableSlots(professorId, availabilities[1..])
  }

  /** Every availability of the professor is kept as often as it occurs; no other is kept. */
  lemma {:induction false} FilterAvailableSlotsMultiplicity(professorId: int, availabilities: seq<Availability>, a: Availability)
    ensures multiset(FilterAvailableSlots(professorId, availabilities))[a]
            == if a.professorId == professorId then multiset(availabilities)[a] else 0
  {
    if |availabilities| > 0 {
      var x := availabilities[0];
      FilterAvailableSlotsMultiplicity(professorId, availabilities[1..], a);
      assert availabilities == [x] + availabilities[1..];
      assert multiset(availabilities)[a] == multiset([x])[a] + multiset(availabilities[1..])[a];
    }
  }

  /** Filtering a concatenation filters each part: the filter keeps input order. */
  lemma {:induction false} FilterAvailableSlotsAppend(professorId: int, a: seq<Availability>, b: seq<Availability>)
    ensures FilterAvailableSlots(professorId, a + b)
            == FilterAvailableSlots(professorId, a) + FilterAvailableSlots(professorId, b)
  {
    if |a| > 0 {
      assert (a + b)[1..] == a[1..] + b;
      assert (a + b)[0] == a[0];
      FilterAvailableSlotsAppend(professorId, a[1..], b);
    } else {
      assert a + b == b;
    }
  }

  /** An availability for the weekday of `day` and the given shift. */
  predicate MatchesSlot(a: Availability, shift: string, day: int) {
    a.dayOfWeek == WeekdayName(day) && a.shift == shift
  }

  /** The first availability whose weekday name and shift match, or None. */
  function FindMatchingSlot(shift: string, slots: seq<Availability>, day: int): (r: Option<Availability>)
    ensures r.None? <==> forall k | 0 <= k < |slots| :: !MatchesSlot(slots[k], shift, day)
    ensures r.Some? ==> exists k | 0 <= k < |slots| ::
              && slots[k] == r.value
              && MatchesSlot(r.value, shift, day)
              && forall j | 0 <= j < k :: !MatchesSlot(slots[j], shift, day)
  {
    FindMatchingSlotFrom(shift, slots, day, 0)
  }

  function FindMatchingSlotFrom(shift: string, slots: seq<Availability>, day: int, i: nat): (r: Option<Availability>)
    requires i <= |slots|
    requires forall k | 0 <= k < i :: !MatchesSlot(slots[k], shift, day)
    ensures r.None? <==> forall k | 0 <= k < |slots| :: !MatchesSlot(slots[k], shift, day)
    ensures r.Some? ==> exists k | i <= k < |slots| ::
              && slots[k] == r.value
              && MatchesSlot(r.value, shift, day)
              && forall j | 0 <= j < k :: !MatchesSlot(slots[j], shift, day)
    decreases |slots| - i
  {
    if i == |slots| then None
    else if MatchesSlot(slots[i], shift, day) then Some(slots[i])
    else FindMatchingSlotFrom(shift, slots, day, i + 1)
  }
}
