/**
 * The records of the evaluation tool as the engine reads them: groups,
 * students, admins, evaluations with their per-student score entries, and
 * the table of scoring options. Text fields the source may leave empty are
 * the empty string here (no group, no role); a missing `taskScore` or
 * `teamworkScore` is `None`, and an evaluation without a `scores` object has
 * an empty list of entries.
 */
module Domain {
  import opened Wrappers

  datatype Group = Group(id: string, name: string)

  datatype Student = Student(
    id: string, name: string, roll: string, gender: string, groupId: string,
    contact: string, academicGroup: string, session: string, role: string)

  datatype Admin = Admin(id: string, email: string, adminType: string)

  /** One checkbox of the evaluation form: whether it was ticked and which option it stands for. */
  datatype OptionMark = OptionMark(selected: bool, optionId: string)

  datatype StudentScore = StudentScore(taskScore: Option<int>, teamworkScore: Option<int>, optionMarks: seq<OptionMark>)

  /** One property of an evaluation's `scores` object: the student's id and what was recorded for them. */
  datatype ScoreEntry = ScoreEntry(studentId: string, score: StudentScore)

  datatype Task = Task(id: string, name: string)

  datatype Evaluation = Evaluation(id: string, taskId: string, groupId: string, scores: seq<ScoreEntry>)

  /** A scoring option and its signed point value. */
  datatype ScoringOption = ScoringOption(id: string, marks: int)

  /** The option table of google/app2.js, where homework is worth 5. */
  const App2Options: seq<ScoringOption> := [
    ScoringOption("cannot_do", -5), ScoringOption("learned_cannot_write", 5),
    ScoringOption("learned_can_write", 10), ScoringOption("weekly_homework", 5),
    ScoringOption("weekly_attendance", 5)]

  /** The option table shared by rep2/app.js and google/app.js, where homework is worth 15. */
  const StandardOptions: seq<ScoringOption> := [
    ScoringOption("cannot_do", -5), ScoringOption("learned_cannot_write", 5),
    ScoringOption("learned_can_write", 10), ScoringOption("weekly_homework", 15),
    ScoringOption("weekly_attendance", 5)]

  /** The labels shown and exported for the five role keys. */
  const RoleNames: map<string, string> := map[
    "team-leader" := "টিম লিডার", "time-keeper" := "টাইম কিপার", "reporter" := "রিপোর্টার",
    "resource-manager" := "রিসোর্স ম্যানেজার", "peace-maker" := "পিস মেকার"]

  /** Student ids are document ids of one collection, hence distinct. */
  ghost predicate DistinctIds(students: seq<Student>) {
    forall i, j :: 0 <= i < j < |students| ==> students[i].id != students[j].id
  }

  /** A JavaScript object has at most one property per student id. */
  ghost predicate KeysDistinct(entries: seq<ScoreEntry>) {
    forall i, j :: 0 <= i < j < |entries| ==> entries[i].studentId != entries[j].studentId
  }
}
