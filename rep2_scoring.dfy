/**
 * The second copy's group table (rep2/app.js `calculateGroupScores`): a
 * group's score is the sum of its members' raw totals divided by the
 * number of members, members without any evaluation included.
 */
module Rep2Scoring {
  import opened Domain
  import opened Scoring
  import App2Scoring

  datatype GroupRow = GroupRow(score: real, members: nat)

  /** The table once the members of `students` have been added, before dividing. */
  ghost predicate Summed(options: seq<ScoringOption>, evals: seq<Evaluation>, students: seq<Student>,
                         groups: seq<Group>, r: map<string, GroupRow>)
  {
    && r.Keys == App2Scoring.GroupIds(groups)
    && forall id :: id in r ==>
         var m := Members(students, id);
         r[id] == GroupRow(MembersTotal(options, evals, m) as real, |m|)
  }

  /** The row update one student causes: every member of a known group counts, scored or not. */
  ghost function Added(options: seq<ScoringOption>, evals: seq<Evaluation>, student: Student, r: map<string, GroupRow>)
    : map<string, GroupRow>
  {
    var g := student.groupId;
    if g != "" && g in r then
      r[g := GroupRow(r[g].score + StudentTotal(options, evals, student.id) as real, r[g].members + 1)]
    else r
  }

  lemma MembersStep(students: seq<Student>, i: nat, g: string)
    requires i < |students|
    ensures Members(students[..i + 1], g)
         == Members(students[..i], g) + (if g != "" && students[i].groupId == g then [students[i]] else [])
  {
    assert students[..i + 1][..i] == students[..i];
  }

  lemma RowStep(options: seq<ScoringOption>, evals: seq<Evaluation>, student: Student, hit: bool,
                row: GroupRow, m0: seq<Student>, m1: seq<Student>)
    requires row == GroupRow(MembersTotal(options, evals, m0) as real, |m0|)
    requires m1 == m0 + (if hit then [student] else [])
    ensures (if hit then GroupRow(row.score + StudentTotal(options, evals, student.id) as real, row.members + 1) else row)
         == GroupRow(MembersTotal(options, evals, m1) as real, |m1|)
  {
    if hit {
      assert m1[..|m1| - 1] == m0;
    } else {
      assert m1 == m0;
    }
  }

  lemma SummedStep(options: seq<ScoringOption>, evals: seq<Evaluation>, students: seq<Student>, groups: seq<Group>,
                   i: nat, r0: map<string, GroupRow>)
    requires i < |students|
    requires Summed(options, evals, students[..i], groups, r0)
    ensures Summed(options, evals, students[..i + 1], groups, Added(options, evals, students[i], r0))
  {
    var student := students[i];
    var r := Added(options, evals, student, r0);
    forall id | id in r
      ensures var m := Members(students[..i + 1], id);
        r[id] == GroupRow(MembersTotal(options, evals, m) as real, |m|)
    {
      var hit := id != "" && student.groupId == id;
      assert id in r0;
      assert r[id] == (if hit then GroupRow(r0[id].score + StudentTotal(options, evals, student.id) as real, r0[id].members + 1)
                       else r0[id]);
      MembersStep(students, i, id);
      RowStep(options, evals, student, hit, r0[id], Members(students[..i], id), Members(students[..i + 1], id));
    }
  }

  method InitGroupTable(groups: seq<Group>) returns (r: map<string, GroupRow>)
    ensures r.Keys == App2Scoring.GroupIds(groups)
    ensures forall id :: id in r ==> r[id] == GroupRow(0.0, 0)
  {
    r := map[];
    var i := 0;
    while i < |groups|
      invariant 0 <= i <= |groups|
      invariant r.Keys == App2Scoring.GroupIds(groups[..i])
      invariant forall id :: id in r ==> r[id] == GroupRow(0.0, 0)
    {
      assert groups[..i + 1] == groups[..i] + [groups[i]];
      r := r[groups[i].id := GroupRow(0.0, 0)];
      i := i + 1;
    }
    assert groups[..i] == groups;
  }

  /** The body of the loop over students: the student's total over all evaluations goes to its group. */
  method AddMember(options: seq<ScoringOption>, evals: seq<Evaluation>, student: Student, r0: map<string, GroupRow>)
    returns (r: map<string, GroupRow>)
    ensures r == Added(options, evals, student, r0)
  {
    r := r0;
    var total := App2Scoring.CalculateStudentTotalScore(options, evals, student.id);
    if student.groupId != "" && student.groupId in r {
      var g := r[student.groupId];
      r := r[student.groupId := GroupRow(g.score + total as real, g.members + 1)];
    }
  }

  /** The closing `for … in` loop: a row with members gets its score divided by them. */
  method DivideRows(r0: map<string, GroupRow>) returns (r: map<string, GroupRow>)
    ensures r.Keys == r0.Keys
    ensures forall id :: id in r ==>
      r[id] == (if r0[id].members > 0 then r0[id].(score := r0[id].score / r0[id].members as real) else r0[id])
  {
    r := r0;
    var keys := r.Keys;
    while keys != {}
      invariant keys <= r.Keys == r0.Keys
      invariant forall id :: id in r ==> id in keys ==> r[id] == r0[id]
      invariant forall id :: id in r ==> id !in keys ==>
        r[id] == (if r0[id].members > 0 then r0[id].(score := r0[id].score / r0[id].members as real) else r0[id])
      decreases keys
    {
      var id :| id in keys;
      if r[id].members > 0 {
        r := r[id := r[id].(score := r[id].score / r[id].members as real)];
      }
      keys := keys - {id};
    }
  }

  /** `calculateGroupScores`: every known group, with its member count and mean member total. */
  method CalculateGroupScores(options: seq<ScoringOption>, evals: seq<Evaluation>, students: seq<Student>, groups: seq<Group>)
    returns (r: map<string, GroupRow>)
    ensures r.Keys == App2Scoring.GroupIds(groups)
    ensures forall id :: id in r ==>
      && r[id].members == |Members(students, id)|
      && r[id].score == Rep2GroupScore(options, evals, students, id)
  {
    r := InitGroupTable(groups);
    assert students[..0] == [];
    var i := 0;
    while i < |students|
      invariant 0 <= i <= |students|
      invariant Summed(options, evals, students[..i], groups, r)
    {
      SummedStep(options, evals, students, groups, i, r);
      r := AddMember(options, evals, students[i], r);
      i := i + 1;
    }
    assert students[..i] == students;
    r := DivideRows(r);
  }
}
