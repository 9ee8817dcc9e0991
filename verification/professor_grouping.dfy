/**
 * Folding the rows of the professor/discipline join into one professor
 * record per professor id, each carrying the disciplines of its rows.
 */
module ProfessorGrouping {
  import opened Domain

  /**
   * One row of the join. The discipline columns come from an outer join and
   * may be null; `disciplineValid` is the null flag of the discipline id,
   * and a null column holds its zero value.
   */
  datatype Row = Row(
    professorId: int,
    professorUuid: string,
    professorName: string,
    professorHours: Int32,
    disciplineValid: bool,
    disciplineId: int,
    disciplineUuid: string,
    disciplineName: string,
    disciplineCredits: Int32,
    disciplineCourseId: int)

  /** The discipline a row carries; the join has no code column, so the code stays empty. */
  function DisciplineOf(row: Row): (d: Discipline)
    ensures d.id == row.disciplineId && d.uuid == row.disciplineUuid && d.code == ""
    ensures d.name == row.disciplineName && d.credits == row.disciplineCredits && d.courseId == row.disciplineCourseId
  {
    Discipline(row.disciplineId, row.disciplineUuid, "", row.disciplineName, row.disciplineCredits, row.disciplineCourseId)
  }

  /** The professor record created for the first row of an id, with no disciplines yet. */
  function Header(row: Row): (p: Professor)
    ensures p.id == row.professorId && p.uuid == row.professorUuid
    ensures p.name == row.professorName && p.hoursToAllocate == row.professorHours
    ensures p.disciplines == []
  {
    Professor(row.professorId, row.professorUuid, row.professorName, row.professorHours, [])
  }

  /** Some row carries professor `id`. */
  predicate HasRow(rows: seq<Row>, id: int) {
    exists k | 0 <= k < |rows| :: rows[k].professorId == id
  }

  /** The position of the first row carrying professor `id`. */
  function FirstIndex(rows: seq<Row>, id: int): (k: nat)
    requires HasRow(rows, id)
    ensures k < |rows| && rows[k].professorId == id
    ensures forall j | 0 <= j < k :: rows[j].professorId != id
  {
    if rows[0].professorId == id then 0
    else
      assert HasRow(rows[1..], id) by {
        var k :| 0 <= k < |rows| && rows[k].professorId == id;
        assert rows[1..][k - 1] == rows[k];
      }
      var k := FirstIndex(rows[1..], id);
      assert forall j | 0 <= j < k :: rows[1..][j] == rows[j + 1];
      k + 1
  }

  /** Reference: the disciplines of the rows of professor `id` whose discipline is not null, in row order. */
  function ValidDisciplinesOf(rows: seq<Row>, id: int): seq<Discipline> {
    if |rows| == 0 then []
    else (if rows[0].professorId == id && rows[0].disciplineValid then [DisciplineOf(rows[0])] else [])
         + ValidDisciplinesOf(rows[1..], id)
  }

  /** Appending a row does not move the first row of an id that already has one. */
  lemma FirstIndexAppend(rows: seq<Row>, row: Row, id: int)
    requires HasRow(rows, id)
    ensures HasRow(rows + [row], id)
    ensures FirstIndex(rows + [row], id) == FirstIndex(rows, id)
  {
    var b := FirstIndex(rows, id);
    assert (rows + [row])[b] == rows[b];
  }

  /** The first row of an id that had none is the appended row. */
  lemma FirstIndexNew(rows: seq<Row>, row: Row)
    requires !HasRow(rows, row.professorId)
    ensures HasRow(rows + [row], row.professorId)
    ensures FirstIndex(rows + [row], row.professorId) == |rows|
  {
    assert (rows + [row])[|rows|] == row;
  }

  /** Appending a row extends an id's discipline list by that row's discipline, if any. */
  lemma {:induction false} ValidDisciplinesAppend(rows: seq<Row>, row: Row, id: int)
    ensures ValidDisciplinesOf(rows + [row], id)
         == ValidDisciplinesOf(rows, id) + (if row.professorId == id && row.disciplineValid then [DisciplineOf(row)] else [])
  {
    if |rows| > 0 {
      assert (rows + [row])[1..] == rows[1..] + [row];
      ValidDisciplinesAppend(rows[1..], row, id);
    } else {
      assert rows + [row] == [row];
    }
  }

  /** The listed disciplines of a professor are exactly those carried by its rows with a non-null discipline. */
  lemma {:induction false} DisciplinesFromRows(rows: seq<Row>, id: int, d: Discipline)
    ensures d in ValidDisciplinesOf(rows, id) <==>
              exists k | 0 <= k < |rows| :: rows[k].professorId == id && rows[k].disciplineValid && DisciplineOf(rows[k]) == d
  {
    if |rows| > 0 {
      DisciplinesFromRows(rows[1..], id, d);
      assert forall k | 0 <= k < |rows| - 1 :: rows[1..][k] == rows[k + 1];
      if exists k | 0 <= k < |rows| :: rows[k].professorId == id && rows[k].disciplineValid && DisciplineOf(rows[k]) == d {
        var k :| 0 <= k < |rows| && rows[k].professorId == id && rows[k].disciplineValid && DisciplineOf(rows[k]) == d;
        if k > 0 {
          assert rows[1..][k - 1] == rows[k];
        }
      }
    }
  }

  /** The record `Group` must hold for professor `id`. */
  function Expected(rows: seq<Row>, id: int): (p: Professor)
    requires HasRow(rows, id)
  {
    Header(rows[FirstIndex(rows, id)]).(disciplines := ValidDisciplinesOf(rows, id))
  }

  /**
   * The grouping loop: one entry per professor id among the rows, holding
   * the professor columns of the first row with that id and the disciplines
   * of all its rows with a non-null discipline, in row order.
   */
  function Group(rows: seq<Row>): (m: map<int, Professor>)
    ensures forall id :: id in m <==> HasRow(rows, id)
    ensures forall id | id in m :: m[id] == Expected(rows, id)
    decreases |rows|
  {
    if |rows| == 0 then map[]
    else
      var init := rows[..|rows| - 1];
      var row := rows[|rows| - 1];
      var m := Group(init);
      var p := if row.professorId in m then m[row.professorId] else Header(row);
      var p' := if row.disciplineValid then p.(disciplines := p.disciplines + [DisciplineOf(row)]) else p;
      var r := m[row.professorId := p'];
      assert rows == init + [row];
      GroupStep(init, row, m, r);
      r
  }

  /** The step of `Group`: the new map describes the longer row list. */
  lemma GroupStep(init: seq<Row>, row: Row, m: map<int, Professor>, r: map<int, Professor>)
    requires forall id :: id in m <==> HasRow(init, id)
    requires forall id | id in m :: m[id] == Expected(init, id)
    requires r == m[row.professorId :=
                    var p := if row.professorId in m then m[row.professorId] else Header(row);
                    if row.disciplineValid then p.(disciplines := p.disciplines + [DisciplineOf(row)]) else p]
    ensures forall id :: id in r <==> HasRow(init + [row], id)
    ensures forall id | id in r :: r[id] == Expected(init + [row], id)
  {
    var rows := init + [row];
    forall id ensures id in r <==> HasRow(rows, id) {
      if HasRow(init, id) {
        var k :| 0 <= k < |init| && init[k].professorId == id;
        assert rows[k] == init[k];
      }
      assert rows[|init|] == row;
      if HasRow(rows, id) && id != row.professorId {
        var k :| 0 <= k < |rows| && rows[k].professorId == id;
        assert init[k] == rows[k];
      }
    }
    forall id | id in r ensures r[id] == Expected(rows, id) {
      ValidDisciplinesAppend(init, row, id);
      if id != row.professorId {
        FirstIndexAppend(init, row, id);
        assert rows[FirstIndex(init, id)] == init[FirstIndex(init, id)];
        assert r[id] == m[id];
      } else if id in m {
        FirstIndexAppend(init, row, id);
        assert rows[FirstIndex(init, id)] == init[FirstIndex(init, id)];
      } else {
        FirstIndexNew(init, row);
        NoRowNoDisciplines(init, id);
      }
    }
  }

  /**
   * The grouped record of a professor carries its own identity and the
   * professor columns of its first row, whatever later rows hold.
   */
  lemma GroupedColumns(rows: seq<Row>, id: int)
    requires HasRow(rows, id)
    ensures id in Group(rows)
    ensures Group(rows)[id].id == id
    ensures Group(rows)[id].(disciplines := []) == Header(rows[FirstIndex(rows, id)])
  {
  }

  /** An id with no row has no disciplines. */
  lemma {:induction false} NoRowNoDisciplines(rows: seq<Row>, id: int)
    requires !HasRow(rows, id)
    ensures ValidDisciplinesOf(rows, id) == []
  {
    if |rows| > 0 {
      assert forall k | 0 <= k < |rows| - 1 :: rows[1..][k] == rows[k + 1];
      NoRowNoDisciplines(rows[1..], id);
    }
  }

  /** A professor none of whose rows has a discipline gets an empty discipline list. */
  lemma {:induction false} NoValidRowsNoDisciplines(rows: seq<Row>, id: int)
    requires forall k | 0 <= k < |rows| && rows[k].professorId == id :: !rows[k].disciplineValid
    ensures ValidDisciplinesOf(rows, id) == []
  {
    if |rows| > 0 {
      assert forall k | 0 <= k < |rows| - 1 :: rows[1..][k] == rows[k + 1];
      NoValidRowsNoDisciplines(rows[1..], id);
    }
  }

  /** A listing of the ids of the grouped map in Go's map iteration order: every id exactly once. */
  predicate ListsIds(order: seq<int>, rows: seq<Row>) {
    && (forall i | 0 <= i < |order| :: HasRow(rows, order[i]))
    && (forall k | 0 <= k < |rows| :: rows[k].professorId in order)
    && (forall i, j | 0 <= i < j < |order| :: order[i] != order[j])
  }

  /**
   * `GetProfessorsWithDisciplines` after the query: the grouped records in
   * map iteration order, one per distinct professor id among the rows.
   */
  function GetProfessorsWithDisciplines(rows: seq<Row>, order: seq<int>): (r: seq<Professor>)
    requires ListsIds(order, rows)
    ensures forall i, j | 0 <= i < j < |r| :: r[i].id != r[j].id
    ensures forall k | 0 <= k < |rows| :: exists i | 0 <= i < |r| :: r[i].id == rows[k].professorId
    ensures forall i | 0 <= i < |r| :: HasRow(rows, r[i].id) && r[i] == Expected(rows, r[i].id)
  {
    var m := Group(rows);
    var r := seq(|order|, i requires 0 <= i < |order| => m[order[i]]);
    assert forall i | 0 <= i < |r| :: r[i] == m[order[i]] == Expected(rows, order[i]);
    assert forall i | 0 <= i < |r| :: r[i].id == order[i];
    assert forall i | 0 <= i < |r| :: HasRow(rows, r[i].id) && r[i] == Expected(rows, r[i].id);
    assert forall k | 0 <= k < |rows| :: exists i | 0 <= i < |r| :: r[i].id == rows[k].professorId by {
      forall k | 0 <= k < |rows| ensures exists i | 0 <= i < |r| :: r[i].id == rows[k].professorId {
        var i :| 0 <= i < |order| && order[i] == rows[k].professorId;
        assert r[i].id == rows[k].professorId;
      }
    }
    r
  }
}
