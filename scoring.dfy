/**
 * The scoring engine's rules as functions over the in-memory collections:
 * a student's raw score for one evaluation, per-evaluation and per-task
 * totals and averages, per-student totals, counts and averages, the two
 * per-group rules (google/app2.js averages the averages of the scored
 * members; rep2/app.js divides the members' totals by the member count), the
 * student ranking and the option-usage statistics. Averages are `real`
 * quotients guarded against a zero count. The loops that compute them are in
 * App2Scoring and Rep2Scoring.
 */
module Scoring {
  import opened Wrappers
  import opened Domain
  import Sorting

  // ----- one student's score in one evaluation -----

  /** The marks of the first option with this id (`evaluationOptions.find`); 0 for an unknown id. */
  function OptionValue(options: seq<ScoringOption>, id: string): (v: int)
    ensures (forall k :: 0 <= k < |options| ==> options[k].id != id) ==> v == 0
    ensures forall k ::
              0 <= k < |options| && options[k].id == id && (forall j :: 0 <= j < k ==> options[j].id != id)
              ==> v == options[k].marks
  {
    if options == [] then 0
    else if options[0].id == id then options[0].marks
    else
      var v := OptionValue(options[1..], id);
      assert forall k :: 1 <= k < |options| ==> options[k] == options[1..][k - 1];
      v
  }

  function MarkValue(options: seq<ScoringOption>, m: OptionMark): int {
    if m.selected then OptionValue(options, m.optionId) else 0
  }

  function MarksSum(options: seq<ScoringOption>, marks: seq<OptionMark>): int {
    if marks == [] then 0 else MarksSum(options, marks[..|marks| - 1]) + MarkValue(options, marks[|marks| - 1])
  }

  /** Task score plus teamwork score (each 0 when missing) plus the marks of the selected options. */
  function RawScore(options: seq<ScoringOption>, sc: StudentScore): int {
    sc.taskScore.GetOr(0) + sc.teamworkScore.GetOr(0) + MarksSum(options, sc.optionMarks)
  }

  // ----- evaluations and tasks -----

  function EntriesTotal(options: seq<ScoringOption>, entries: seq<ScoreEntry>): int {
    if entries == [] then 0
    else EntriesTotal(options, entries[..|entries| - 1]) + RawScore(options, entries[|entries| - 1].score)
  }

  function EvaluationAverage(options: seq<ScoringOption>, e: Evaluation): real {
    if |e.scores| == 0 then 0.0 else EntriesTotal(options, e.scores) as real / |e.scores| as real
  }

  /** The raw scores of every entry of every evaluation of the task, summed. */
  function TaskTotal(options: seq<ScoringOption>, evals: seq<Evaluation>, taskId: string): int {
    if evals == [] then 0
    else
      var e := evals[|evals| - 1];
      TaskTotal(options, evals[..|evals| - 1], taskId) + (if e.taskId == taskId then EntriesTotal(options, e.scores) else 0)
  }

  /** The number of (evaluation, student) entries of the task, not the number of evaluations. */
  function TaskCount(evals: seq<Evaluation>, taskId: string): nat {
    if evals == [] then 0
    else
      var e := evals[|evals| - 1];
      TaskCount(evals[..|evals| - 1], taskId) + (if e.taskId == taskId then |e.scores| else 0)
  }

  function TaskAverage(options: seq<ScoringOption>, evals: seq<Evaluation>, taskId: string): real {
    if TaskCount(evals, taskId) == 0 then 0.0
    else TaskTotal(options, evals, taskId) as real / TaskCount(evals, taskId) as real
  }

  // ----- students -----

  /** `scores[studentId]`. */
  function Lookup(entries: seq<ScoreEntry>, id: string): Option<StudentScore> {
    if entries == [] then None
    else if entries[0].studentId == id then Some(entries[0].score)
    else Lookup(entries[1..], id)
  }

  function ScoreIn(options: seq<ScoringOption>, e: Evaluation, id: string): int {
    match Lookup(e.scores, id)
    case Some(sc) => RawScore(options, sc)
    case None => 0
  }

  function StudentTotal(options: seq<ScoringOption>, evals: seq<Evaluation>, id: string): int {
    if evals == [] then 0
    else StudentTotal(options, evals[..|evals| - 1], id) + ScoreIn(options, evals[|evals| - 1], id)
  }

  /** The number of evaluations holding an entry for the student. */
  function EvaluationCount(evals: seq<Evaluation>, id: string): nat {
    if evals == [] then 0
    else EvaluationCount(evals[..|evals| - 1], id) + (if Lookup(evals[|evals| - 1].scores, id).Some? then 1 else 0)
  }

  function StudentAverage(options: seq<ScoringOption>, evals: seq<Evaluation>, id: string): real {
    if EvaluationCount(evals, id) == 0 then 0.0
    else StudentTotal(options, evals, id) as real / EvaluationCount(evals, id) as real
  }

  // ----- groups -----

  /** The members of group `g` with at least one evaluation entry (google/app2.js). */
  function ScoredMembers(evals: seq<Evaluation>, students: seq<Student>, g: string): seq<Student> {
    if students == [] then []
    else
      var s := students[|students| - 1];
      ScoredMembers(evals, students[..|students| - 1], g)
        + (if g != "" && s.groupId == g && EvaluationCount(evals, s.id) > 0 then [s] else [])
  }

  function AveragesSum(options: seq<ScoringOption>, evals: seq<Evaluation>, members: seq<Student>): real {
    if members == [] then 0.0
    else AveragesSum(options, evals, members[..|members| - 1]) + StudentAverage(options, evals, members[|members| - 1].id)
  }

  /** google/app2.js: the mean of the scored members' averages, 0 when no member is scored. */
  function GroupAverage(options: seq<ScoringOption>, evals: seq<Evaluation>, students: seq<Student>, g: string): real {
    var m := ScoredMembers(evals, students, g);
    if |m| == 0 then 0.0 else AveragesSum(options, evals, m) / |m| as real
  }

  /** Every student carrying the (non-empty) group id `g` (rep2/app.js). */
  function Members(students: seq<Student>, g: string): seq<Student> {
    if students == [] then []
    else
      var s := students[|students| - 1];
      Members(students[..|students| - 1], g) + (if g != "" && s.groupId == g then [s] else [])
  }

  function MembersTotal(options: seq<ScoringOption>, evals: seq<Evaluation>, members: seq<Student>): int {
    if members == [] then 0
    else MembersTotal(options, evals, members[..|members| - 1]) + StudentTotal(options, evals, members[|members| - 1].id)
  }

  /** rep2/app.js: the members' totals summed and divided by the member count, 0 for no members. */
  function Rep2GroupScore(options: seq<ScoringOption>, evals: seq<Evaluation>, students: seq<Student>, g: string): real {
    var m := Members(students, g);
    if |m| == 0 then 0.0 else MembersTotal(options, evals, m) as real / |m| as real
  }

  // ----- rankings -----

  /** The raw scores of every entry keyed by `id` (the ranking reads `Object.entries(scores)`). */
  function EntrySum(options: seq<ScoringOption>, entries: seq<ScoreEntry>, id: string): int {
    if entries == [] then 0
    else
      var x := entries[|entries| - 1];
      EntrySum(options, entries[..|entries| - 1], id) + (if x.studentId == id then RawScore(options, x.score) else 0)
  }

  function EntryHits(entries: seq<ScoreEntry>, id: string): nat {
    if entries == [] then 0
    else EntryHits(entries[..|entries| - 1], id) + (if entries[|entries| - 1].studentId == id then 1 else 0)
  }

  function RankedTotal(options: seq<ScoringOption>, evals: seq<Evaluation>, id: string): int {
    if evals == [] then 0
    else RankedTotal(options, evals[..|evals| - 1], id) + EntrySum(options, evals[|evals| - 1].scores, id)
  }

  function RankedCount(evals: seq<Evaluation>, id: string): nat {
    if evals == [] then 0
    else RankedCount(evals[..|evals| - 1], id) + EntryHits(evals[|evals| - 1].scores, id)
  }

  datatype Ranked = Ranked(student: Student, totalScore: int, evaluationCount: nat, averageScore: real)

  function RankOf(options: seq<ScoringOption>, evals: seq<Evaluation>, s: Student): Ranked {
    var t := RankedTotal(options, evals, s.id);
    var c := RankedCount(evals, s.id);
    Ranked(s, t, c, if c > 0 then t as real / c as real else 0.0)
  }

  /** The ranking records of the students with at least one entry, in student order. */
  function RankedStudents(options: seq<ScoringOption>, evals: seq<Evaluation>, students: seq<Student>): seq<Ranked> {
    if students == [] then []
    else
      var r := RankOf(options, evals, students[|students| - 1]);
      RankedStudents(options, evals, students[..|students| - 1]) + (if r.evaluationCount > 0 then [r] else [])
  }

  function NegatedAverage(r: Ranked): real {
    -r.averageScore
  }

  /** The stable sort by descending average of the scored students. */
  function Rankings(options: seq<ScoringOption>, evals: seq<Evaluation>, students: seq<Student>): seq<Ranked> {
    Sorting.SortBy(RankedStudents(options, evals, students), NegatedAverage)
  }

  // ----- option-usage statistics -----

  datatype ProblemStats = ProblemStats(
    totalProblems: nat, cannotDo: nat, learnedCannotWrite: nat, learnedCanWrite: nat,
    weeklyHomework: nat, weeklyAttendance: nat)

  function TotalEntries(evals: seq<Evaluation>): nat {
    if evals == [] then 0 else TotalEntries(evals[..|evals| - 1]) + |evals[|evals| - 1].scores|
  }

  function MarkHits(marks: seq<OptionMark>, optionId: string): nat {
    if marks == [] then 0
    else
      var m := marks[|marks| - 1];
      MarkHits(marks[..|marks| - 1], optionId) + (if m.selected && m.optionId == optionId then 1 else 0)
  }

  function EntriesMarkHits(entries: seq<ScoreEntry>, optionId: string): nat {
    if entries == [] then 0
    else EntriesMarkHits(entries[..|entries| - 1], optionId) + MarkHits(entries[|entries| - 1].score.optionMarks, optionId)
  }

  /** How many selected marks across all evaluations carry `optionId`. */
  function SelectedCount(evals: seq<Evaluation>, optionId: string): nat {
    if evals == [] then 0
    else SelectedCount(evals[..|evals| - 1], optionId) + EntriesMarkHits(evals[|evals| - 1].scores, optionId)
  }

  function StatsOf(evals: seq<Evaluation>): ProblemStats {
    ProblemStats(
      TotalEntries(evals), SelectedCount(evals, "cannot_do"), SelectedCount(evals, "learned_cannot_write"),
      SelectedCount(evals, "learned_can_write"), SelectedCount(evals, "weekly_homework"),
      SelectedCount(evals, "weekly_attendance"))
  }

  /** The statistics of the entries of one `scores` object, added component-wise to the rest. */
  function EntriesStats(entries: seq<ScoreEntry>): ProblemStats {
    ProblemStats(
      |entries|, EntriesMarkHits(entries, "cannot_do"), EntriesMarkHits(entries, "learned_cannot_write"),
      EntriesMarkHits(entries, "learned_can_write"), EntriesMarkHits(entries, "weekly_homework"),
      EntriesMarkHits(entries, "weekly_attendance"))
  }

  function AddStats(a: ProblemStats, b: ProblemStats): ProblemStats {
    ProblemStats(
      a.totalProblems + b.totalProblems, a.cannotDo + b.cannotDo, a.learnedCannotWrite + b.learnedCannotWrite,
      a.learnedCanWrite + b.learnedCanWrite, a.weeklyHomework + b.weeklyHomework,
      a.weeklyAttendance + b.weeklyAttendance)
  }

  // ----- the per-student statistics of the report view -----

  /** Task score plus teamwork score, each 0 when missing; the option marks are not counted here. */
  function BaseScore(sc: StudentScore): int {
    sc.taskScore.GetOr(0) + sc.teamworkScore.GetOr(0)
  }

  function BaseIn(e: Evaluation, id: string): int {
    match Lookup(e.scores, id)
    case Some(sc) => BaseScore(sc)
    case None => 0
  }

  function BaseTotal(evals: seq<Evaluation>, id: string): int {
    if evals == [] then 0 else BaseTotal(evals[..|evals| - 1], id) + BaseIn(evals[|evals| - 1], id)
  }

  /** The option marks a student collected over all evaluations. */
  function MarksTotal(options: seq<ScoringOption>, evals: seq<Evaluation>, id: string): int {
    if evals == [] then 0
    else
      var e := evals[|evals| - 1];
      MarksTotal(options, evals[..|evals| - 1], id)
        + (match Lookup(e.scores, id) case Some(sc) => MarksSum(options, sc.optionMarks) case None => 0)
  }

  datatype StudentStatistics = StudentStatistics(totalScore: int, evaluationCount: nat, averageScore: real)
}
