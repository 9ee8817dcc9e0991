/**
 * The older generator: one pass over the disciplines, at most one class per
 * discipline, with a randomly chosen eligible professor and a randomly chosen
 * availability of that professor. Its class times are wall-clock readings,
 * supplied here by the caller.
 */
module LegacyGenerator {
  import opened Wrappers
  import opened Domain
  import opened Filters

  /**
   * The outside inputs of one run, per discipline position `i`: the two
   * `rand.Intn` draws (`x % n` for `rand.Intn(n)`) and the two clock readings
   * used as start and end time.
   */
  datatype Choices = Choices(
    pickProfessor: nat -> nat,
    pickSlot: nat -> nat,
    startAt: nat -> Instant,
    endAt: nat -> Instant)

  /** A class this generator can emit for discipline `d` at position `i`. */
  predicate LegacyValid(c: Class, d: Discipline, i: nat, ps: seq<Professor>, avs: seq<Availability>, ch: Choices) {
    && c.disciplineId == d.id
    && (exists q | q in ps :: q.id == c.professorId && Teaches(q, d.id))
    && (exists a | a in avs :: a.professorId == c.professorId && a.dayOfWeek == c.dayOfWeek && a.shift == c.shift)
    && c.startTime == ch.startAt(i)
    && c.endTime == ch.endAt(i)
  }

  /** Every professor eligible for `d` has at least one availability, and one exists. */
  predicate Served(d: Discipline, ps: seq<Professor>, avs: seq<Availability>) {
    && (exists q | q in ps :: Teaches(q, d.id))
    && forall q | q in ps && Teaches(q, d.id) :: exists a | a in avs :: a.professorId == q.id
  }

  /** No professor may teach `d`. */
  predicate Untaught(d: Discipline, ps: seq<Professor>) {
    forall q | q in ps :: !Teaches(q, d.id)
  }

  /** The first `n` disciplines are all served. */
  predicate AllServed(ds: seq<Discipline>, n: nat, ps: seq<Professor>, avs: seq<Availability>)
    requires n <= |ds|
  {
    forall k | 0 <= k < n :: Served(ds[k], ps, avs)
  }

  /** None of the first `n` disciplines can be taught. */
  predicate AllUntaught(ds: seq<Discipline>, n: nat, ps: seq<Professor>)
    requires n <= |ds|
  {
    forall k | 0 <= k < n :: Untaught(ds[k], ps)
  }

  /** The professor the `rand.Intn` draw picks for `d` at position `i`, or None when nobody may teach `d`. */
  function Chosen(d: Discipline, i: nat, ps: seq<Professor>, ch: Choices): (r: Option<Professor>)
    ensures r.None? <==> Untaught(d, ps)
    ensures r.Some? ==> r.value in ps && Teaches(r.value, d.id)
  {
    var eligible := FilterEligibleProfessors(d.id, ps);
    if |eligible| == 0 then None
    else
      var professor := eligible[ch.pickProfessor(i) % |eligible|];
      assert professor in eligible;
      Some(professor)
  }

  /** Discipline `d` at position `i` gets a class: its chosen professor has some availability. */
  predicate Contributes(d: Discipline, i: nat, ps: seq<Professor>, avs: seq<Availability>, ch: Choices) {
    Chosen(d, i, ps, ch).Some? && exists a | a in avs :: a.professorId == Chosen(d, i, ps, ch).value.id
  }

  /** Reference: the identities of the first `n` disciplines that get a class, in discipline order. */
  function ContributingIds(ds: seq<Discipline>, n: nat, ps: seq<Professor>, avs: seq<Availability>, ch: Choices): seq<int>
    requires n <= |ds|
  {
    if n == 0 then []
    else ContributingIds(ds, n - 1, ps, avs, ch)
         + (if Contributes(ds[n - 1], n - 1, ps, avs, ch) then [ds[n - 1].id] else [])
  }

  /**
   * The loop body for discipline `d` at position `i`: a class exactly when the
   * chosen professor has an availability, taught by that professor.
   */
  method ClassFor(d: Discipline, i: nat, ps: seq<Professor>, avs: seq<Availability>, ch: Choices)
    returns (r: Option<Class>)
    ensures r.Some? ==> LegacyValid(r.value, d, i, ps, avs, ch)
    ensures r.Some? <==> Contributes(d, i, ps, avs, ch)
    ensures r.Some? ==> r.value.professorId == Chosen(d, i, ps, ch).value.id
    ensures Untaught(d, ps) ==> r.None?
    ensures Served(d, ps, avs) ==> r.Some?
  {
    var chosen := Chosen(d, i, ps, ch);
    if chosen.None? {
      return None;
    }
    var professor := chosen.value;
    var slots := FilterAvailableSlots(professor.id, avs);
    if |slots| == 0 {
      forall a | a in avs ensures a.professorId != professor.id {
        assert a !in slots;
      }
      return None;
    }
    var slot := slots[ch.pickSlot(i) % |slots|];
    assert slot in slots;
    r := Some(Class(slot.dayOfWeek, slot.shift, ch.startAt(i), ch.endAt(i), d.id, professor.id));
  }

  /** `xs` can be obtained from `ys` by deleting elements. */
  predicate IsSubsequence(xs: seq<int>, ys: seq<int>)
    decreases |ys|
  {
    if |xs| == 0 then true
    else if |ys| == 0 then false
    else (xs[|xs| - 1] == ys[|ys| - 1] && IsSubsequence(xs[..|xs| - 1], ys[..|ys| - 1]))
         || IsSubsequence(xs, ys[..|ys| - 1])
  }

  lemma SubsequenceSkip(xs: seq<int>, ys: seq<int>, y: int)
    requires IsSubsequence(xs, ys)
    ensures IsSubsequence(xs, ys + [y])
  {
    assert (ys + [y])[..|ys|] == ys;
  }

  lemma SubsequenceKeep(xs: seq<int>, ys: seq<int>, y: int)
    requires IsSubsequence(xs, ys)
    ensures IsSubsequence(xs + [y], ys + [y])
  {
    assert (ys + [y])[..|ys|] == ys;
    assert (xs + [y])[..|xs|] == xs;
  }

  function DisciplineIds(cs: seq<Class>): (r: seq<int>)
    ensures |r| == |cs| && forall k | 0 <= k < |cs| :: r[k] == cs[k].disciplineId
  {
    seq(|cs|, k requires 0 <= k < |cs| => cs[k].disciplineId)
  }

  function Ids(ds: seq<Discipline>): (r: seq<int>)
    ensures |r| == |ds| && forall k | 0 <= k < |ds| :: r[k] == ds[k].id
  {
    seq(|ds|, k requires 0 <= k < |ds| => ds[k].id)
  }

  /** Class `c` is valid for the discipline at some position before `n`. */
  predicate ValidBefore(c: Class, ds: seq<Discipline>, n: nat, ps: seq<Professor>, avs: seq<Availability>, ch: Choices)
    requires n <= |ds|
  {
    exists j | 0 <= j < n :: LegacyValid(c, ds[j], j, ps, avs, ch)
  }

  /** Each class is valid for the discipline at some position before `n`. */
  predicate EachValid(cs: seq<Class>, ds: seq<Discipline>, n: nat, ps: seq<Professor>, avs: seq<Availability>, ch: Choices)
    requires n <= |ds|
  {
    forall k | 0 <= k < |cs| :: ValidBefore(cs[k], ds, n, ps, avs, ch)
  }

  /** Appending the class of discipline `i` keeps every class valid. */
  lemma KeepStep(classes: seq<Class>, c: Class, ds: seq<Discipline>, i: nat, ps: seq<Professor>, avs: seq<Availability>, ch: Choices)
    requires i < |ds|
    requires EachValid(classes, ds, i, ps, avs, ch)
    requires LegacyValid(c, ds[i], i, ps, avs, ch)
    ensures EachValid(classes + [c], ds, i + 1, ps, avs, ch)
  {
    var r := classes + [c];
    forall k | 0 <= k < |r| ensures ValidBefore(r[k], ds, i + 1, ps, avs, ch) {
      if k < |classes| {
        assert r[k] == classes[k];
        var j :| 0 <= j < i && LegacyValid(classes[k], ds[j], j, ps, avs, ch);
      } else {
        assert LegacyValid(r[k], ds[i], i, ps, avs, ch);
      }
    }
  }

  /** Skipping discipline `i` keeps every class valid. */
  lemma SkipStep(classes: seq<Class>, ds: seq<Discipline>, i: nat, ps: seq<Professor>, avs: seq<Availability>, ch: Choices)
    requires i < |ds|
    requires EachValid(classes, ds, i, ps, avs, ch)
    ensures EachValid(classes, ds, i + 1, ps, avs, ch)
  {
    forall k | 0 <= k < |classes| ensures ValidBefore(classes[k], ds, i + 1, ps, avs, ch) {
      var j :| 0 <= j < i && LegacyValid(classes[k], ds[j], j, ps, avs, ch);
    }
  }

  /** The classes so far belong, in order, to exactly the contributing disciplines among the first `i`. */
  predicate IdsMatch(classes: seq<Class>, ds: seq<Discipline>, i: nat, ps: seq<Professor>, avs: seq<Availability>, ch: Choices)
    requires i <= |ds|
  {
    DisciplineIds(classes) == ContributingIds(ds, i, ps, avs, ch)
  }

  /** A contributing discipline extends the identity list by its own identity. */
  lemma IdsKeep(classes: seq<Class>, c: Class, ds: seq<Discipline>, i: nat, ps: seq<Professor>, avs: seq<Availability>, ch: Choices)
    requires i < |ds|
    requires IdsMatch(classes, ds, i, ps, avs, ch)
    requires c.disciplineId == ds[i].id && Contributes(ds[i], i, ps, avs, ch)
    ensures IdsMatch(classes + [c], ds, i + 1, ps, avs, ch)
  {
    assert DisciplineIds(classes + [c]) == DisciplineIds(classes) + [c.disciplineId];
  }

  /** A discipline that does not contribute leaves the identity list as it is. */
  lemma IdsSkip(classes: seq<Class>, ds: seq<Discipline>, i: nat, ps: seq<Professor>, avs: seq<Availability>, ch: Choices)
    requires i < |ds|
    requires IdsMatch(classes, ds, i, ps, avs, ch)
    requires !Contributes(ds[i], i, ps, avs, ch)
    ensures IdsMatch(classes, ds, i + 1, ps, avs, ch)
  {
  }

  /** The identity list grows by at most the identity of discipline `n - 1` at each position. */
  lemma ContributingStep(ds: seq<Discipline>, n: nat, ps: seq<Professor>, avs: seq<Availability>, ch: Choices)
    requires 0 < n <= |ds|
    ensures ContributingIds(ds, n, ps, avs, ch)
            == ContributingIds(ds, n - 1, ps, avs, ch) + (if Contributes(ds[n - 1], n - 1, ps, avs, ch) then [ds[n - 1].id] else [])
  {
  }

  /** The identities of a longer prefix extend those of the shorter one. */
  lemma IdsPrefix(ds: seq<Discipline>, n: nat)
    requires 0 < n <= |ds|
    ensures Ids(ds[..n]) == Ids(ds[..n - 1]) + [ds[n - 1].id]
  {
    assert Ids(ds[..n]) == Ids(ds[..n - 1]) + [ds[n - 1].id];
  }

  lemma SubsequenceExtend(xs: seq<int>, ys: seq<int>, y: int, keep: bool)
    requires IsSubsequence(xs, ys)
    ensures IsSubsequence(xs + (if keep then [y] else []), ys + [y])
  {
    if keep {
      SubsequenceKeep(xs, ys, y);
    } else {
      assert xs + [] == xs;
      SubsequenceSkip(xs, ys, y);
    }
  }

  /** The contributing disciplines keep discipline order: a subsequence of the first `n` identities. */
  lemma {:induction false} ContributingOrdered(ds: seq<Discipline>, n: nat, ps: seq<Professor>, avs: seq<Availability>, ch: Choices)
    requires n <= |ds|
    ensures IsSubsequence(ContributingIds(ds, n, ps, avs, ch), Ids(ds[..n]))
  {
    if n > 0 {
      ContributingOrdered(ds, n - 1, ps, avs, ch);
      ContributingStep(ds, n, ps, avs, ch);
      IdsPrefix(ds, n);
      SubsequenceExtend(ContributingIds(ds, n - 1, ps, avs, ch), Ids(ds[..n - 1]), ds[n - 1].id,
                        Contributes(ds[n - 1], n - 1, ps, avs, ch));
    }
  }

  /** A subsequence is never longer than the sequence it is taken from. */
  lemma {:induction false} SubsequenceLength(xs: seq<int>, ys: seq<int>)
    requires IsSubsequence(xs, ys)
    ensures |xs| <= |ys|
    decreases |ys|
  {
    if |xs| > 0 {
      if xs[|xs| - 1] == ys[|ys| - 1] && IsSubsequence(xs[..|xs| - 1], ys[..|ys| - 1]) {
        SubsequenceLength(xs[..|xs| - 1], ys[..|ys| - 1]);
      } else {
        SubsequenceLength(xs, ys[..|ys| - 1]);
      }
    }
  }

  /** A served discipline always contributes; one nobody may teach never does. */
  lemma ContributesWhen(d: Discipline, i: nat, ps: seq<Professor>, avs: seq<Availability>, ch: Choices)
    ensures Served(d, ps, avs) ==> Contributes(d, i, ps, avs, ch)
    ensures Untaught(d, ps) ==> !Contributes(d, i, ps, avs, ch)
  {
    var chosen := Chosen(d, i, ps, ch);
    if Served(d, ps, avs) {
      assert chosen.value in ps && Teaches(chosen.value, d.id);
    }
  }

  /** When all of the first `n` disciplines are served, each of them contributes; when none can be taught, none does. */
  lemma {:induction false} ContributingExtremes(ds: seq<Discipline>, n: nat, ps: seq<Professor>, avs: seq<Availability>, ch: Choices)
    requires n <= |ds|
    ensures AllServed(ds, n, ps, avs) ==> ContributingIds(ds, n, ps, avs, ch) == Ids(ds[..n])
    ensures AllUntaught(ds, n, ps) ==> ContributingIds(ds, n, ps, avs, ch) == []
  {
    if n > 0 {
      ContributingExtremes(ds, n - 1, ps, avs, ch);
      ContributesWhen(ds[n - 1], n - 1, ps, avs, ch);
      assert Ids(ds[..n]) == Ids(ds[..n - 1]) + [ds[n - 1].id];
    }
  }

  /** What holds of the classes produced from the first `i` disciplines. */
  predicate LoopInv(classes: seq<Class>, ds: seq<Discipline>, i: nat, ps: seq<Professor>, avs: seq<Availability>, ch: Choices)
    requires i <= |ds|
  {
    EachValid(classes, ds, i, ps, avs, ch) && IdsMatch(classes, ds, i, ps, avs, ch)
  }

  /** One turn of the discipline loop: append the class of discipline `i`, if any. */
  method Visit(classes: seq<Class>, ds: seq<Discipline>, i: nat, ps: seq<Professor>, avs: seq<Availability>, ch: Choices)
    returns (next: seq<Class>)
    requires i < |ds|
    requires LoopInv(classes, ds, i, ps, avs, ch)
    ensures LoopInv(next, ds, i + 1, ps, avs, ch)
  {
    var o := ClassFor(ds[i], i, ps, avs, ch);
    if o.Some? {
      KeepStep(classes, o.value, ds, i, ps, avs, ch);
      IdsKeep(classes, o.value, ds, i, ps, avs, ch);
      next := classes + [o.value];
    } else {
      SkipStep(classes, ds, i, ps, avs, ch);
      IdsSkip(classes, ds, i, ps, avs, ch);
      next := classes;
    }
  }

  /**
   * A timetable the older generator can return for these inputs and choices:
   * unscored, at most one class per discipline, its classes in discipline
   * order and each valid for its discipline, and exactly the contributing
   * disciplines represented.
   */
  predicate Generated(t: Timetable, ds: seq<Discipline>, ps: seq<Professor>, avs: seq<Availability>, ch: Choices) {
    && t.fitness == 0
    && |t.classes| <= |ds|
    && IsSubsequence(DisciplineIds(t.classes), Ids(ds))
    && EachValid(t.classes, ds, |ds|, ps, avs, ch)
    && DisciplineIds(t.classes) == ContributingIds(ds, |ds|, ps, avs, ch)
  }

  /** The invariant after the last discipline. */
  lemma LoopDone(classes: seq<Class>, ds: seq<Discipline>, ps: seq<Professor>, avs: seq<Availability>, ch: Choices)
    requires LoopInv(classes, ds, |ds|, ps, avs, ch)
    ensures Generated(Timetable(classes, 0), ds, ps, avs, ch)
    ensures AllServed(ds, |ds|, ps, avs) ==> |classes| == |ds|
    ensures AllUntaught(ds, |ds|, ps) ==> classes == []
  {
    assert ds[..|ds|] == ds;
    ContributingOrdered(ds, |ds|, ps, avs, ch);
    SubsequenceLength(DisciplineIds(classes), Ids(ds));
    ContributingExtremes(ds, |ds|, ps, avs, ch);
    assert DisciplineIds(classes) == ContributingIds(ds, |ds|, ps, avs, ch);
  }

  /**
   * The older `GenerateRandomTimetable`: at most one class per discipline,
   * in discipline order, each valid for its discipline, exactly for the
   * disciplines whose chosen professor has an availability; a class for
   * every discipline when all are served, none when none can be taught.
   */
  method GenerateRandomTimetable(ds: seq<Discipline>, ps: seq<Professor>, avs: seq<Availability>, ch: Choices)
    returns (r: Timetable)
    ensures Generated(r, ds, ps, avs, ch)
    ensures AllServed(ds, |ds|, ps, avs) ==> |r.classes| == |ds|
    ensures AllUntaught(ds, |ds|, ps) ==> r.classes == []
  {
    var classes := VisitAll(ds, ps, avs, ch);
    LoopDone(classes, ds, ps, avs, ch);
    r := Timetable(classes, 0);
  }

  /** Before the first discipline the invariant holds of the empty list. */
  lemma LoopStart(ds: seq<Discipline>, ps: seq<Professor>, avs: seq<Availability>, ch: Choices)
    ensures LoopInv([], ds, 0, ps, avs, ch)
  {
    assert DisciplineIds([]) == [] == ContributingIds(ds, 0, ps, avs, ch);
  }

  /** The discipline loop of the older generator, over every discipline in order. */
  method VisitAll(ds: seq<Discipline>, ps: seq<Professor>, avs: seq<Availability>, ch: Choices)
    returns (classes: seq<Class>)
    ensures LoopInv(classes, ds, |ds|, ps, avs, ch)
  {
    LoopStart(ds, ps, avs, ch);
    classes := [];
    for i := 0 to |ds|
      invariant LoopInv(classes, ds, i, ps, avs, ch)
    {
      classes := Visit(classes, ds, i, ps, avs, ch);
    }
  }

  /** Every individual so far was generated with its own choices. */
  predicate AllGenerated(pop: seq<Timetable>, ds: seq<Discipline>, ps: seq<Professor>, avs: seq<Availability>,
                         choices: nat -> Choices) {
    forall k | 0 <= k < |pop| :: Generated(pop[k], ds, ps, avs, choices(k))
  }

  lemma AllGeneratedAppend(pop: seq<Timetable>, t: Timetable, ds: seq<Discipline>, ps: seq<Professor>,
                           avs: seq<Availability>, choices: nat -> Choices)
    requires AllGenerated(pop, ds, ps, avs, choices)
    requires Generated(t, ds, ps, avs, choices(|pop|))
    ensures AllGenerated(pop + [t], ds, ps, avs, choices)
  {
    var next := pop + [t];
    forall k | 0 <= k < |next| ensures Generated(next[k], ds, ps, avs, choices(k)) {
      if k < |pop| { assert next[k] == pop[k]; } else { assert next[k] == t; }
    }
  }

  /** The older `InitializePopulation`: `size` timetables, individual `k` drawn with `choices(k)`. */
  method InitializePopulation(size: nat, ds: seq<Discipline>, ps: seq<Professor>, avs: seq<Availability>,
                              choices: nat -> Choices) returns (pop: seq<Timetable>)
    ensures |pop| == size
    ensures forall k | 0 <= k < size :: Generated(pop[k], ds, ps, avs, choices(k))
  {
    pop := [];
    while |pop| < size
      invariant |pop| <= size
      invariant AllGenerated(pop, ds, ps, avs, choices)
    {
      var t := GenerateRandomTimetable(ds, ps, avs, choices(|pop|));
      AllGeneratedAppend(pop, t, ds, ps, avs, choices);
      pop := pop + [t];
    }
  }
}
