/**
 * The scoring loops of google/app2.js. Each method accumulates with the
 * source's `forEach` loops and is proved to compute the function of Scoring
 * that states the rule. The option table is a parameter: google/app2.js
 * itself uses `App2Options`.
 */
module App2Scoring {
  import opened Wrappers
  import opened Domain
  import opened Scoring
  import Sorting

  /** The per-entry computation each score loop repeats: task plus teamwork score, then the selected options' marks. */
  method RawScoreOf(options: seq<ScoringOption>, sc: StudentScore) returns (v: int)
    ensures v == RawScore(options, sc)
  {
    var marks := sc.optionMarks;
    v := sc.taskScore.GetOr(0) + sc.teamworkScore.GetOr(0);
    var i := 0;
    while i < |marks|
      invariant 0 <= i <= |marks|
      invariant v == sc.taskScore.GetOr(0) + sc.teamworkScore.GetOr(0) + MarksSum(options, marks[..i])
    {
      if marks[i].selected {
        v := v + OptionValue(options, marks[i].optionId);
      }
      assert marks[..i + 1][..i] == marks[..i];
      i := i + 1;
    }
    assert marks[..i] == marks;
  }

  /** Sums the raw scores of a `scores` object's entries. */
  method EntriesTotalOf(options: seq<ScoringOption>, entries: seq<ScoreEntry>) returns (total: int)
    ensures total == EntriesTotal(options, entries)
  {
    total := 0;
    var j := 0;
    while j < |entries|
      invariant 0 <= j <= |entries|
      invariant total == EntriesTotal(options, entries[..j])
    {
      var v := RawScoreOf(options, entries[j].score);
      total := total + v;
      assert entries[..j + 1][..j] == entries[..j];
      j := j + 1;
    }
    assert entries[..j] == entries;
  }

  /** `calculateTaskAverage`: the filter on `taskId` is fused with the accumulation loop. */
  method CalculateTaskAverage(options: seq<ScoringOption>, evals: seq<Evaluation>, taskId: string) returns (r: real)
    ensures r == TaskAverage(options, evals, taskId)
  {
    var totalScore := 0;
    var totalStudents := 0;
    var i := 0;
    while i < |evals|
      invariant 0 <= i <= |evals|
      invariant totalScore == TaskTotal(options, evals[..i], taskId)
      invariant totalStudents == TaskCount(evals[..i], taskId)
    {
      if evals[i].taskId == taskId {
        var t := EntriesTotalOf(options, evals[i].scores);
        totalScore := totalScore + t;
        totalStudents := totalStudents + |evals[i].scores|;
      }
      assert evals[..i + 1][..i] == evals[..i];
      i := i + 1;
    }
    assert evals[..i] == evals;
    r := if totalStudents > 0 then totalScore as real / totalStudents as real else 0.0;
  }

  /** `calculateEvaluationAverageScore`. */
  method CalculateEvaluationAverageScore(options: seq<ScoringOption>, e: Evaluation) returns (r: real)
    ensures r == EvaluationAverage(options, e)
  {
    if |e.scores| == 0 {
      return 0.0;
    }
    var total := EntriesTotalOf(options, e.scores);
    r := total as real / |e.scores| as real;
  }

  /** `calculateEvaluationTotalScore` (the later of its two equivalent definitions). */
  method CalculateEvaluationTotalScore(options: seq<ScoringOption>, e: Evaluation) returns (r: int)
    ensures r == EntriesTotal(options, e.scores)
  {
    r := EntriesTotalOf(options, e.scores);
  }

  /** `calculateStudentTotalScore`. */
  method CalculateStudentTotalScore(options: seq<ScoringOption>, evals: seq<Evaluation>, studentId: string) returns (r: int)
    ensures r == StudentTotal(options, evals, studentId)
  {
    r := 0;
    var i := 0;
    while i < |evals|
      invariant 0 <= i <= |evals|
      invariant r == StudentTotal(options, evals[..i], studentId)
    {
      var score := Lookup(evals[i].scores, studentId);
      if score.Some? {
        var v := RawScoreOf(options, score.value);
        r := r + v;
      }
      assert evals[..i + 1][..i] == evals[..i];
      i := i + 1;
    }
    assert evals[..i] == evals;
  }

  /** `getStudentEvaluationCount`. */
  method GetStudentEvaluationCount(evals: seq<Evaluation>, studentId: string) returns (count: nat)
    ensures count == EvaluationCount(evals, studentId)
  {
    count := 0;
    var i := 0;
    while i < |evals|
      invariant 0 <= i <= |evals|
      invariant count == EvaluationCount(evals[..i], studentId)
    {
      if Lookup(evals[i].scores, studentId).Some? {
        count := count + 1;
      }
      assert evals[..i + 1][..i] == evals[..i];
      i := i + 1;
    }
    assert evals[..i] == evals;
  }

  datatype GroupScore = GroupScore(totalScore: real, totalStudents: nat, averageScore: real, name: string)

  function GroupIds(groups: seq<Group>): set<string> {
    set g | g in groups :: g.id
  }

  /** The name the group table ends up holding for `id`: the last group with that id wins. */
  function LastName(groups: seq<Group>, id: string): string {
    if groups == [] then ""
    else if groups[|groups| - 1].id == id then groups[|groups| - 1].name
    else LastName(groups[..|groups| - 1], id)
  }

  lemma ScoredMembersStep(evals: seq<Evaluation>, students: seq<Student>, i: nat, g: string)
    requires i < |students|
    ensures ScoredMembers(evals, students[..i + 1], g)
         == ScoredMembers(evals, students[..i], g)
            + (if g != "" && students[i].groupId == g && EvaluationCount(evals, students[i].id) > 0 then [students[i]] else [])
  {
    assert students[..i + 1][..i] == students[..i];
  }

  lemma AveragesSumSnoc(options: seq<ScoringOption>, evals: seq<Evaluation>, xs: seq<Student>, s: Student)
    ensures AveragesSum(options, evals, xs + [s]) == AveragesSum(options, evals, xs) + StudentAverage(options, evals, s.id)
  {
    assert (xs + [s])[..|xs|] == xs;
  }

  /** The group table once the members of `students` have been added, before averaging. */
  ghost predicate Tallied(options: seq<ScoringOption>, evals: seq<Evaluation>, students: seq<Student>,
                          groups: seq<Group>, r: map<string, GroupScore>)
  {
    && r.Keys == GroupIds(groups)
    && forall id :: id in r ==>
         var m := ScoredMembers(evals, students, id);
         r[id] == GroupScore(AveragesSum(options, evals, m), |m|, 0.0, LastName(groups, id))
  }

  /** The first loop of `calculateGroupScores`: one zeroed row per group. */
  method InitGroupTable(groups: seq<Group>) returns (r: map<string, GroupScore>)
    ensures r.Keys == GroupIds(groups)
    ensures forall id :: id in r ==> r[id] == GroupScore(0.0, 0, 0.0, LastName(groups, id))
  {
    r := map[];
    var i := 0;
    while i < |groups|
      invariant 0 <= i <= |groups|
      invariant r.Keys == GroupIds(groups[..i])
      invariant forall id :: id in r ==> r[id] == GroupScore(0.0, 0, 0.0, LastName(groups[..i], id))
    {
      assert groups[..i + 1][..i] == groups[..i];
      assert groups[..i + 1] == groups[..i] + [groups[i]];
      r := r[groups[i].id := GroupScore(0.0, 0, 0.0, groups[i].name)];
      i := i + 1;
    }
    assert groups[..i] == groups;
  }

  /** The row update one student causes, if any. */
  ghost function Added(options: seq<ScoringOption>, evals: seq<Evaluation>, student: Student, r: map<string, GroupScore>)
    : map<string, GroupScore>
  {
    var g := student.groupId;
    if g != "" && g in r && EvaluationCount(evals, student.id) > 0 then
      r[g := r[g].(totalScore := r[g].totalScore + StudentAverage(options, evals, student.id),
                   totalStudents := r[g].totalStudents + 1)]
    else r
  }

  lemma RowStep(options: seq<ScoringOption>, evals: seq<Evaluation>, student: Student, hit: bool,
                row: GroupScore, m0: seq<Student>, m1: seq<Student>, name: string)
    requires row == GroupScore(AveragesSum(options, evals, m0), |m0|, 0.0, name)
    requires m1 == m0 + (if hit then [student] else [])
    ensures (if hit then row.(totalScore := row.totalScore + StudentAverage(options, evals, student.id),
                              totalStudents := row.totalStudents + 1) else row)
         == GroupScore(AveragesSum(options, evals, m1), |m1|, 0.0, name)
  {
    if hit {
      AveragesSumSnoc(options, evals, m0, student);
    } else {
      assert m1 == m0;
    }
  }

  lemma TalliedStep(options: seq<ScoringOption>, evals: seq<Evaluation>, students: seq<Student>, groups: seq<Group>,
                    i: nat, r0: map<string, GroupScore>)
    requires i < |students|
    requires Tallied(options, evals, students[..i], groups, r0)
    ensures Tallied(options, evals, students[..i + 1], groups, Added(options, evals, students[i], r0))
  {
    var r := Added(options, evals, students[i], r0);
    assert r.Keys == r0.Keys;
    forall id | id in r
      ensures var m := ScoredMembers(evals, students[..i + 1], id);
        r[id] == GroupScore(AveragesSum(options, evals, m), |m|, 0.0, LastName(groups, id))
    {
      TalliedRow(options, evals, students, i, r0, id, LastName(groups, id));
    }
  }

  /** The row of group `id` after one more student. */
  lemma TalliedRow(options: seq<ScoringOption>, evals: seq<Evaluation>, students: seq<Student>,
                   i: nat, r0: map<string, GroupScore>, id: string, name: string)
    requires i < |students| && id in r0
    requires var m := ScoredMembers(evals, students[..i], id);
      r0[id] == GroupScore(AveragesSum(options, evals, m), |m|, 0.0, name)
    ensures id in Added(options, evals, students[i], r0)
    ensures var m := ScoredMembers(evals, students[..i + 1], id);
      Added(options, evals, students[i], r0)[id] == GroupScore(AveragesSum(options, evals, m), |m|, 0.0, name)
  {
    var student := students[i];
    var r := Added(options, evals, student, r0);
    var hit := id != "" && student.groupId == id && EvaluationCount(evals, student.id) > 0;
    assert r[id] == (if hit then r0[id].(totalScore := r0[id].totalScore + StudentAverage(options, evals, student.id),
                            totalStudents := r0[id].totalStudents + 1) else r0[id]);
    ScoredMembersStep(evals, students, i, id);
    RowStep(options, evals, student, hit, r0[id], ScoredMembers(evals, students[..i], id),
            ScoredMembers(evals, students[..i + 1], id), name);
  }

  /** One iteration of the loop over students: a scored member of a known group adds its average. */
  method AddMember(options: seq<ScoringOption>, evals: seq<Evaluation>, student: Student, r0: map<string, GroupScore>)
    returns (r: map<string, GroupScore>)
    ensures r == Added(options, evals, student, r0)
  {
    r := r0;
    if student.groupId != "" && student.groupId in r {
      var studentScore := CalculateStudentTotalScore(options, evals, student.id);
      var studentEvaluationCount := GetStudentEvaluationCount(evals, student.id);
      if studentEvaluationCount > 0 {
        var studentAverage := studentScore as real / studentEvaluationCount as real;
        var g := r[student.groupId];
        r := r[student.groupId := g.(totalScore := g.totalScore + studentAverage, totalStudents := g.totalStudents + 1)];
      }
    }
  }

  /** The last loop of `calculateGroupScores`: every row gets its mean, 0 for a row with no scored member. */
  method AverageGroups(r0: map<string, GroupScore>) returns (r: map<string, GroupScore>)
    ensures r.Keys == r0.Keys
    ensures forall id :: id in r ==>
      r[id] == r0[id].(averageScore := if r0[id].totalStudents > 0 then r0[id].totalScore / r0[id].totalStudents as real else 0.0)
  {
    r := r0;
    var keys := r.Keys;
    while keys != {}
      invariant keys <= r.Keys == r0.Keys
      invariant forall id :: id in r ==> id in keys ==> r[id] == r0[id]
      invariant forall id :: id in r ==> id !in keys ==>
        r[id] == r0[id].(averageScore := if r0[id].totalStudents > 0 then r0[id].totalScore / r0[id].totalStudents as real else 0.0)
      decreases keys
    {
      var id :| id in keys;
      var g := r[id];
      r := r[id := g.(averageScore := if g.totalStudents > 0 then g.totalScore / g.totalStudents as real else 0.0)];
      keys := keys - {id};
    }
  }

  /** `calculateGroupScores`: the table of every known group, holding the mean of its scored members' averages. */
  method CalculateGroupScores(options: seq<ScoringOption>, evals: seq<Evaluation>, students: seq<Student>, groups: seq<Group>)
    returns (r: map<string, GroupScore>)
    ensures r.Keys == GroupIds(groups)
    ensures forall id :: id in r ==>
      && r[id].name == LastName(groups, id)
      && r[id].totalStudents == |ScoredMembers(evals, students, id)|
      && r[id].totalScore == AveragesSum(options, evals, ScoredMembers(evals, students, id))
      && r[id].averageScore == GroupAverage(options, evals, students, id)
  {
    r := InitGroupTable(groups);
    assert students[..0] == [];
    var i := 0;
    while i < |students|
      invariant 0 <= i <= |students|
      invariant Tallied(options, evals, students[..i], groups, r)
    {
      TalliedStep(options, evals, students, groups, i, r);
      r := AddMember(options, evals, students[i], r);
      i := i + 1;
    }
    assert students[..i] == students;
    r := AverageGroups(r);
  }

  lemma RankedTotalStep(options: seq<ScoringOption>, evals: seq<Evaluation>, i: nat, id: string)
    requires i < |evals|
    ensures RankedTotal(options, evals[..i + 1], id) == RankedTotal(options, evals[..i], id) + EntrySum(options, evals[i].scores, id)
    ensures RankedCount(evals[..i + 1], id) == RankedCount(evals[..i], id) + EntryHits(evals[i].scores, id)
  {
    assert evals[..i + 1][..i] == evals[..i];
  }

  lemma EntrySumStep(options: seq<ScoringOption>, entries: seq<ScoreEntry>, j: nat, id: string)
    requires j < |entries|
    ensures EntrySum(options, entries[..j + 1], id)
         == EntrySum(options, entries[..j], id) + (if entries[j].studentId == id then RawScore(options, entries[j].score) else 0)
    ensures EntryHits(entries[..j + 1], id) == EntryHits(entries[..j], id) + (if entries[j].studentId == id then 1 else 0)
  {
    assert entries[..j + 1][..j] == entries[..j];
  }

  /** The ranking table after the evaluations `evals`, before averaging: one row per student, keyed by id. */
  ghost predicate RankTable(options: seq<ScoringOption>, evals: seq<Evaluation>, students: seq<Student>,
                            table: map<string, Ranked>)
  {
    && table.Keys == (set k | 0 <= k < |students| :: students[k].id)
    && forall k :: 0 <= k < |students| ==>
         table[students[k].id] == Ranked(students[k], RankedTotal(options, evals, students[k].id), RankedCount(evals, students[k].id), 0.0)
  }

  /** The first loop of `calculateStudentRankings`: a zeroed row per student. */
  method InitRankTable(options: seq<ScoringOption>, students: seq<Student>) returns (table: map<string, Ranked>)
    requires DistinctIds(students)
    ensures RankTable(options, [], students, table)
  {
    table := map[];
    var i := 0;
    while i < |students|
      invariant 0 <= i <= |students|
      invariant table.Keys == set k | 0 <= k < i :: students[k].id
      invariant forall k :: 0 <= k < i ==> table[students[k].id] == Ranked(students[k], 0, 0, 0.0)
    {
      table := table[students[i].id := Ranked(students[i], 0, 0, 0.0)];
      i := i + 1;
    }
  }

  /** The inner loop over one evaluation's `scores`: an entry of a known student adds its raw score and one count. */
  method AddEntries(options: seq<ScoringOption>, entries: seq<ScoreEntry>, table0: map<string, Ranked>)
    returns (table: map<string, Ranked>)
    ensures table.Keys == table0.Keys
    ensures forall id :: id in table ==>
      table[id] == table0[id].(totalScore := table0[id].totalScore + EntrySum(options, entries, id),
                               evaluationCount := table0[id].evaluationCount + EntryHits(entries, id))
  {
    table := table0;
    var j := 0;
    while j < |entries|
      invariant 0 <= j <= |entries|
      invariant table.Keys == table0.Keys
      invariant forall id :: id in table ==>
        table[id] == table0[id].(totalScore := table0[id].totalScore + EntrySum(options, entries[..j], id),
                                 evaluationCount := table0[id].evaluationCount + EntryHits(entries[..j], id))
    {
      var x := entries[j];
      forall id | id in table
        ensures EntrySum(options, entries[..j + 1], id)
             == EntrySum(options, entries[..j], id) + (if x.studentId == id then RawScore(options, x.score) else 0)
        ensures EntryHits(entries[..j + 1], id) == EntryHits(entries[..j], id) + (if x.studentId == id then 1 else 0)
      {
        EntrySumStep(options, entries, j, id);
      }
      if x.studentId in table {
        var v := RawScoreOf(options, x.score);
        var d := table[x.studentId];
        table := table[x.studentId := d.(totalScore := d.totalScore + v, evaluationCount := d.evaluationCount + 1)];
      }
      j := j + 1;
    }
    assert entries[..j] == entries;
  }

  /** The averaging pass fused with the filter on `evaluationCount > 0`, in student order. */
  method ScoredRows(options: seq<ScoringOption>, evals: seq<Evaluation>, students: seq<Student>, table: map<string, Ranked>)
    returns (scored: seq<Ranked>)
    requires RankTable(options, evals, students, table)
    ensures scored == RankedStudents(options, evals, students)
  {
    scored := [];
    var k := 0;
    while k < |students|
      invariant 0 <= k <= |students|
      invariant scored == RankedStudents(options, evals, students[..k])
    {
      assert students[..k + 1][..k] == students[..k];
      var d := table[students[k].id];
      if d.evaluationCount > 0 {
        d := d.(averageScore := d.totalScore as real / d.evaluationCount as real);
        scored := scored + [d];
      }
      k := k + 1;
    }
    assert students[..k] == students;
  }

  /**
   * `calculateStudentRankings`. The table is keyed by student id, so the
   * ids must be distinct, as document ids are.
   */
  method CalculateStudentRankings(options: seq<ScoringOption>, evals: seq<Evaluation>, students: seq<Student>)
    returns (r: seq<Ranked>)
    requires DistinctIds(students)
    ensures r == Rankings(options, evals, students)
  {
    var table := InitRankTable(options, students);
    assert evals[..0] == [];
    var i := 0;
    while i < |evals|
      invariant 0 <= i <= |evals|
      invariant RankTable(options, evals[..i], students, table)
    {
      table := AddEntries(options, evals[i].scores, table);
      forall k | 0 <= k < |students|
        ensures RankedTotal(options, evals[..i + 1], students[k].id)
             == RankedTotal(options, evals[..i], students[k].id) + EntrySum(options, evals[i].scores, students[k].id)
        ensures RankedCount(evals[..i + 1], students[k].id)
             == RankedCount(evals[..i], students[k].id) + EntryHits(evals[i].scores, students[k].id)
      {
        RankedTotalStep(options, evals, i, students[k].id);
      }
      i := i + 1;
    }
    assert evals[..i] == evals;
    var scored := ScoredRows(options, evals, students, table);
    r := Sorting.SortBy(scored, NegatedAverage);
  }

  /** The `switch` over one score's option marks. */
  method TallyMarks(st: ProblemStats, marks: seq<OptionMark>) returns (r: ProblemStats)
    ensures r == AddStats(st, ProblemStats(0, MarkHits(marks, "cannot_do"), MarkHits(marks, "learned_cannot_write"),
      MarkHits(marks, "learned_can_write"), MarkHits(marks, "weekly_homework"), MarkHits(marks, "weekly_attendance")))
  {
    r := st;
    var i := 0;
    while i < |marks|
      invariant 0 <= i <= |marks|
      invariant r == AddStats(st, ProblemStats(0, MarkHits(marks[..i], "cannot_do"), MarkHits(marks[..i], "learned_cannot_write"),
        MarkHits(marks[..i], "learned_can_write"), MarkHits(marks[..i], "weekly_homework"), MarkHits(marks[..i], "weekly_attendance")))
    {
      assert marks[..i + 1][..i] == marks[..i];
      var m := marks[i];
      if m.selected {
        if m.optionId == "cannot_do" {
          r := r.(cannotDo := r.cannotDo + 1);
        } else if m.optionId == "learned_cannot_write" {
          r := r.(learnedCannotWrite := r.learnedCannotWrite + 1);
        } else if m.optionId == "learned_can_write" {
          r := r.(learnedCanWrite := r.learnedCanWrite + 1);
        } else if m.optionId == "weekly_homework" {
          r := r.(weeklyHomework := r.weeklyHomework + 1);
        } else if m.optionId == "weekly_attendance" {
          r := r.(weeklyAttendance := r.weeklyAttendance + 1);
        }
      }
      i := i + 1;
    }
    assert marks[..i] == marks;
  }

  /** `calculateProblemSolvingStats` (rep2/app.js has the same loop): entries counted, selected marks tallied per option. */
  method CalculateProblemSolvingStats(evals: seq<Evaluation>) returns (stats: ProblemStats)
    ensures stats == StatsOf(evals)
  {
    stats := ProblemStats(0, 0, 0, 0, 0, 0);
    var i := 0;
    while i < |evals|
      invariant 0 <= i <= |evals|
      invariant stats == StatsOf(evals[..i])
    {
      assert evals[..i + 1][..i] == evals[..i];
      var entries := evals[i].scores;
      var j := 0;
      while j < |entries|
        invariant 0 <= j <= |entries|
        invariant stats == AddStats(StatsOf(evals[..i]), EntriesStats(entries[..j]))
      {
        assert entries[..j + 1][..j] == entries[..j];
        stats := stats.(totalProblems := stats.totalProblems + 1);
        stats := TallyMarks(stats, entries[j].score.optionMarks);
        j := j + 1;
      }
      assert entries[..j] == entries;
      i := i + 1;
    }
    assert evals[..i] == evals;
  }

  /** `calculateStudentStatistics`: like the student total, but over task and teamwork scores only. */
  method CalculateStudentStatistics(evals: seq<Evaluation>, studentId: string) returns (r: StudentStatistics)
    ensures r.totalScore == BaseTotal(evals, studentId)
    ensures r.evaluationCount == EvaluationCount(evals, studentId)
    ensures r.averageScore == if r.evaluationCount > 0 then r.totalScore as real / r.evaluationCount as real else 0.0
  {
    var totalScore := 0;
    var evaluationCount := 0;
    var i := 0;
    while i < |evals|
      invariant 0 <= i <= |evals|
      invariant totalScore == BaseTotal(evals[..i], studentId)
      invariant evaluationCount == EvaluationCount(evals[..i], studentId)
    {
      assert evals[..i + 1][..i] == evals[..i];
      var score := Lookup(evals[i].scores, studentId);
      if score.Some? {
        totalScore := totalScore + score.value.taskScore.GetOr(0) + score.value.teamworkScore.GetOr(0);
        evaluationCount := evaluationCount + 1;
      }
      i := i + 1;
    }
    assert evals[..i] == evals;
    r := StudentStatistics(totalScore, evaluationCount,
                           if evaluationCount > 0 then totalScore as real / evaluationCount as real else 0.0);
  }
}
