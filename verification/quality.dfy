/**
 * What the fitness function says about a freshly generated timetable: the
 * generator's own checks already earn the no-overlap point, and the
 * teacher-hours point when professor identities are unique.
 */
module Quality {
  import opened Domain
  import opened Generator
  import opened Fitness

  /** A clash needs the same shift and start time, which the generator never hands out twice. */
  lemma DistinctSlotsNoOverlap(cs: seq<Class>)
    requires DistinctSlots(cs)
    ensures !Overlapping(cs)
  {
  }

  /** With one-hour classes, a professor's hours are its number of classes. */
  lemma {:induction false} HoursAreClassCount(cs: seq<Class>, ds: seq<Discipline>, ps: seq<Professor>,
                                              avs: seq<Availability>, id: int)
    requires AllValid(cs, ds, ps, avs)
    ensures HoursOf(cs, id) == ClassesOf(cs, id)
  {
    if |cs| > 0 {
      var init := cs[..|cs| - 1];
      assert AllValid(init, ds, ps, avs) by {
        forall k | 0 <= k < |init| ensures ValidClass(init[k], ds, ps, avs) {
          assert init[k] == cs[k];
        }
      }
      HoursAreClassCount(init, ds, ps, avs, id);
      assert ValidClass(cs[|cs| - 1], ds, ps, avs);
      assert DurationHours(cs[|cs| - 1]) == 1;
    }
  }

  /** No two professor records share an identity. */
  predicate UniqueIds(ps: seq<Professor>) {
    forall j, k | 0 <= j < k < |ps| :: ps[j].id != ps[k].id
  }

  /**
   * The generator's per-record cap implies the teacher-hours criterion when
   * identities are unique and no cap is negative (a professor without
   * classes has zero hours).
   */
  lemma GeneratedHoursRespected(cs: seq<Class>, ds: seq<Discipline>, ps: seq<Professor>, avs: seq<Availability>)
    requires AllValid(cs, ds, ps, avs)
    requires WithinCaps(cs, ps)
    requires UniqueIds(ps)
    requires forall k | 0 <= k < |ps| :: ps[k].hoursToAllocate >= 0
    ensures HoursRespected(cs, ps)
  {
    forall k | 0 <= k < |ps| ensures HoursOf(cs, ps[k].id) <= ps[k].hoursToAllocate {
      var id := ps[k].id;
      HoursAreClassCount(cs, ds, ps, avs, id);
      if ClassesOf(cs, id) > 0 {
        assert CappedBy(ps, id, ClassesOf(cs, id));
        var q :| q in ps && q.id == id && ClassesOf(cs, id) <= q.hoursToAllocate;
        var j :| 0 <= j < |ps| && ps[j] == q;
        assert j == k;
      }
    }
  }

  /**
   * Scoring a generated timetable: at least the distribution and no-overlap
   * points, and the teacher-hours point as well under unique identities and
   * non-negative caps.
   */
  lemma GeneratedFitness(t: Timetable, param: Parameterization, ds: seq<Discipline>, avs: seq<Availability>)
    requires AllValid(t.classes, ds, param.professors, avs)
    requires DistinctSlots(t.classes)
    requires WithinCaps(t.classes, param.professors)
    ensures EvaluateFitness(t, param).fitness >= 2
    ensures UniqueIds(param.professors) && (forall k | 0 <= k < |param.professors| :: param.professors[k].hoursToAllocate >= 0)
            ==> EvaluateFitness(t, param).fitness >= 3
  {
    DistinctSlotsNoOverlap(t.classes);
    if UniqueIds(param.professors) && (forall k | 0 <= k < |param.professors| :: param.professors[k].hoursToAllocate >= 0) {
      GeneratedHoursRespected(t.classes, ds, param.professors, avs);
      assert TeacherHoursScore(t, param) == 1;
    }
  }
}
