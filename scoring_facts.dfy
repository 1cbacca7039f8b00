/**
 * What the scoring rules promise: which marks count, how the two option
 * tables differ, how task, group and student figures are formed, how the
 * two group rules compare, and what the ranking contains and in what order.
 */
module ScoringFacts {
  import opened Wrappers
  import opened Domain
  import opened Scoring
  import Sorting

  // ----- raw scores -----

  /** Unticked marks and marks naming an option that is not in the table add nothing. */
  lemma {:induction false} MarksSumIgnored(options: seq<ScoringOption>, marks: seq<OptionMark>)
    requires forall k :: 0 <= k < |marks| ==>
      !marks[k].selected || forall j :: 0 <= j < |options| ==> options[j].id != marks[k].optionId
    ensures MarksSum(options, marks) == 0
  {
    if marks != [] {
      var init := marks[..|marks| - 1];
      assert forall k :: 0 <= k < |init| ==> init[k] == marks[k];
      MarksSumIgnored(options, init);
    }
  }

  /** A score without marks is its task score plus its teamwork score, a missing one counting as 0. */
  lemma RawScoreWithoutMarks(options: seq<ScoringOption>, sc: StudentScore)
    requires forall k :: 0 <= k < |sc.optionMarks| ==> !sc.optionMarks[k].selected
    ensures RawScore(options, sc) == sc.taskScore.GetOr(0) + sc.teamworkScore.GetOr(0)
  {
    MarksSumIgnored(options, sc.optionMarks);
  }

  lemma HomeworkValue(id: string)
    ensures OptionValue(StandardOptions, id) == OptionValue(App2Options, id) + (if id == "weekly_homework" then 10 else 0)
  {
    var tail := [ScoringOption("weekly_attendance", 5)];
    StepValue(StandardOptions, id);
    StepValue(App2Options, id);
    StepValue(StandardOptions[1..], id);
    StepValue(App2Options[1..], id);
    StepValue(StandardOptions[1..][1..], id);
    StepValue(App2Options[1..][1..], id);
    assert StandardOptions[1..][1..][1..] == [ScoringOption("weekly_homework", 15)] + tail;
    assert App2Options[1..][1..][1..] == [ScoringOption("weekly_homework", 5)] + tail;
    StepValue([ScoringOption("weekly_homework", 15)] + tail, id);
    StepValue([ScoringOption("weekly_homework", 5)] + tail, id);
  }

  /** A lookup checks the first option, then the rest. */
  lemma StepValue(options: seq<ScoringOption>, id: string)
    requires options != []
    ensures OptionValue(options, id) == if options[0].id == id then options[0].marks else OptionValue(options[1..], id)
  {
  }

  lemma {:induction false} MarksSumHomework(marks: seq<OptionMark>)
    ensures MarksSum(StandardOptions, marks) == MarksSum(App2Options, marks) + 10 * MarkHits(marks, "weekly_homework")
  {
    if marks != [] {
      MarksSumHomework(marks[..|marks| - 1]);
      HomeworkValue(marks[|marks| - 1].optionId);
    }
  }

  /** The two option tables give raw scores that differ by 10 for each ticked homework mark, and in nothing else. */
  lemma HomeworkDifference(sc: StudentScore)
    ensures RawScore(StandardOptions, sc) == RawScore(App2Options, sc) + 10 * MarkHits(sc.optionMarks, "weekly_homework")
  {
    MarksSumHomework(sc.optionMarks);
  }

  // ----- tasks -----

  lemma {:induction false} TaskAbsent(options: seq<ScoringOption>, evals: seq<Evaluation>, t: string)
    requires forall i :: 0 <= i < |evals| ==> evals[i].taskId != t
    ensures TaskTotal(options, evals, t) == 0 && TaskCount(evals, t) == 0
  {
    if evals != [] {
      var init := evals[..|evals| - 1];
      assert forall i :: 0 <= i < |init| ==> init[i] == evals[i];
      TaskAbsent(options, init, t);
    }
  }

  /** A task with no evaluation averages 0. */
  lemma TaskAverageUnevaluated(options: seq<ScoringOption>, evals: seq<Evaluation>, t: string)
    requires forall i :: 0 <= i < |evals| ==> evals[i].taskId != t
    ensures TaskAverage(options, evals, t) == 0.0
  {
    TaskAbsent(options, evals, t);
  }

  /** An evaluation of another task leaves a task's average alone. */
  lemma TaskAverageOtherTask(options: seq<ScoringOption>, evals: seq<Evaluation>, e: Evaluation, t: string)
    requires e.taskId != t
    ensures TaskAverage(options, evals + [e], t) == TaskAverage(options, evals, t)
  {
    assert (evals + [e])[..|evals|] == evals;
  }

  /** The only evaluation of a task gives the task the evaluation's own average. */
  lemma TaskAverageSingle(options: seq<ScoringOption>, evals: seq<Evaluation>, e: Evaluation)
    requires forall i :: 0 <= i < |evals| ==> evals[i].taskId != e.taskId
    ensures TaskAverage(options, evals + [e], e.taskId) == EvaluationAverage(options, e)
  {
    assert (evals + [e])[..|evals|] == evals;
    TaskAbsent(options, evals, e.taskId);
  }

  /**
   * Two evaluations of one task are pooled entry by entry: the mean is over
   * all entries, so an evaluation with more entries weighs more.
   */
  lemma TaskAverageOfTwo(options: seq<ScoringOption>, e1: Evaluation, e2: Evaluation)
    requires e1.taskId == e2.taskId
    requires |e1.scores| + |e2.scores| > 0
    ensures TaskAverage(options, [e1, e2], e1.taskId)
         == (EntriesTotal(options, e1.scores) + EntriesTotal(options, e2.scores)) as real
            / (|e1.scores| + |e2.scores|) as real
  {
    assert [e1, e2][..1] == [e1];
    assert [e1][..0] == [];
    assert TaskTotal(options, [e1], e1.taskId) == EntriesTotal(options, e1.scores);
    assert TaskCount([e1], e1.taskId) == |e1.scores|;
    assert TaskTotal(options, [e1, e2], e1.taskId) == EntriesTotal(options, e1.scores) + EntriesTotal(options, e2.scores);
    assert TaskCount([e1, e2], e1.taskId) == |e1.scores| + |e2.scores|;
  }

  /** An example: one evaluation with a 10 and one with three 0s give the task 2.5, not the mean 5.0 of the two. */
  lemma TaskAverageWeighsEntries()
    ensures var hit := StudentScore(Some(10), None, []);
            var miss := StudentScore(Some(0), None, []);
            var e1 := Evaluation("e1", "t", "g", [ScoreEntry("a", hit)]);
            var e2 := Evaluation("e2", "t", "g", [ScoreEntry("b", miss), ScoreEntry("c", miss), ScoreEntry("d", miss)]);
            && TaskAverage(App2Options, [e1, e2], "t") == 2.5
            && (EvaluationAverage(App2Options, e1) + EvaluationAverage(App2Options, e2)) / 2.0 == 5.0
  {
    var hit := StudentScore(Some(10), None, []);
    var miss := StudentScore(Some(0), None, []);
    var e1 := Evaluation("e1", "t", "g", [ScoreEntry("a", hit)]);
    var e2 := Evaluation("e2", "t", "g", [ScoreEntry("b", miss), ScoreEntry("c", miss), ScoreEntry("d", miss)]);
    TaskAverageOfTwo(App2Options, e1, e2);
    assert EntriesTotal(App2Options, e1.scores) == 10 by {
      assert e1.scores[..0] == [];
    }
    assert RawScore(App2Options, miss) == 0;
    assert EntriesTotal(App2Options, e2.scores) == 0 by {
      var s := e2.scores;
      assert s[..2][..1][..0] == [];
      assert EntriesTotal(App2Options, s[..1]) == 0;
      assert s[..2][..1] == s[..1];
      assert EntriesTotal(App2Options, s[..2]) == 0;
      assert s[..3] == s;
    }
  }

  lemma {:induction false} EntriesTotalBounds(options: seq<ScoringOption>, entries: seq<ScoreEntry>, lo: int, hi: int)
    requires forall k :: 0 <= k < |entries| ==> lo <= RawScore(options, entries[k].score) <= hi
    ensures lo * |entries| <= EntriesTotal(options, entries) <= hi * |entries|
  {
    if entries != [] {
      var init := entries[..|entries| - 1];
      assert forall k :: 0 <= k < |init| ==> init[k] == entries[k];
      EntriesTotalBounds(options, init, lo, hi);
    }
  }

  /** Every entry of every evaluation of task `t` has a raw score in `[lo, hi]`. */
  ghost predicate ScoresWithin(options: seq<ScoringOption>, evals: seq<Evaluation>, t: string, lo: int, hi: int) {
    forall i, k :: 0 <= i < |evals| && evals[i].taskId == t && 0 <= k < |evals[i].scores| ==>
      lo <= RawScore(options, evals[i].scores[k].score) <= hi
  }

  lemma SumBounds(lo: int, hi: int, a: int, b: int, c0: nat, n: nat)
    requires lo * c0 <= a <= hi * c0
    requires lo * n <= b <= hi * n
    ensures lo * (c0 + n) <= a + b <= hi * (c0 + n)
  {
    assert lo * (c0 + n) == lo * c0 + lo * n;
    assert hi * (c0 + n) == hi * c0 + hi * n;
  }

  lemma {:induction false} TaskTotalBounds(options: seq<ScoringOption>, evals: seq<Evaluation>, t: string, lo: int, hi: int)
    requires ScoresWithin(options, evals, t, lo, hi)
    ensures lo * TaskCount(evals, t) <= TaskTotal(options, evals, t) <= hi * TaskCount(evals, t)
  {
    if evals != [] {
      var init := evals[..|evals| - 1];
      var e := evals[|evals| - 1];
      assert forall i :: 0 <= i < |init| ==> init[i] == evals[i];
      TaskTotalBounds(options, init, t, lo, hi);
      if e.taskId == t {
        assert forall k :: 0 <= k < |e.scores| ==> lo <= RawScore(options, e.scores[k].score) <= hi by {
          assert evals[|evals| - 1] == e;
        }
        EntriesTotalBounds(options, e.scores, lo, hi);
        SumBounds(lo, hi, TaskTotal(options, init, t), EntriesTotal(options, e.scores), TaskCount(init, t), |e.scores|);
      }
    }
  }

  lemma QuotientBounds(total: int, count: int, lo: int, hi: int)
    requires count > 0
    requires lo * count <= total <= hi * count
    ensures lo as real <= total as real / count as real <= hi as real
  {
    var q := total as real / count as real;
    assert q * count as real == total as real;
    assert (lo * count) as real == lo as real * count as real;
    assert (hi * count) as real == hi as real * count as real;
  }

  /** The task average lies between the least and the greatest raw score the task's entries can have. */
  lemma TaskAverageBounds(options: seq<ScoringOption>, evals: seq<Evaluation>, t: string, lo: int, hi: int)
    requires lo <= 0 <= hi
    requires ScoresWithin(options, evals, t, lo, hi)
    ensures lo as real <= TaskAverage(options, evals, t) <= hi as real
  {
    TaskTotalBounds(options, evals, t, lo, hi);
    if TaskCount(evals, t) > 0 {
      QuotientBounds(TaskTotal(options, evals, t), TaskCount(evals, t), lo, hi);
    }
  }

  // ----- groups -----

  /** The members with at least one evaluation, in order. */
  function Scored(evals: seq<Evaluation>, members: seq<Student>): seq<Student> {
    if members == [] then []
    else
      var s := members[|members| - 1];
      Scored(evals, members[..|members| - 1]) + (if EvaluationCount(evals, s.id) > 0 then [s] else [])
  }

  lemma ScoredSnoc(evals: seq<Evaluation>, xs: seq<Student>, s: Student)
    ensures Scored(evals, xs + [s]) == Scored(evals, xs) + (if EvaluationCount(evals, s.id) > 0 then [s] else [])
  {
    assert (xs + [s])[..|xs|] == xs;
  }

  lemma {:induction false} ScoredOfMembers(evals: seq<Evaluation>, students: seq<Student>, g: string)
    ensures ScoredMembers(evals, students, g) == Scored(evals, Members(students, g))
  {
    if students != [] {
      var s := students[|students| - 1];
      ScoredOfMembers(evals, students[..|students| - 1], g);
      var m0 := Members(students[..|students| - 1], g);
      if g != "" && s.groupId == g {
        assert Members(students, g) == m0 + [s];
        ScoredSnoc(evals, m0, s);
      } else {
        assert Members(students, g) == m0;
      }
    }
  }

  /** A group's average depends on its own members only. */
  lemma GroupAverageLocal(options: seq<ScoringOption>, evals: seq<Evaluation>, s1: seq<Student>, s2: seq<Student>, g: string)
    requires Members(s1, g) == Members(s2, g)
    ensures GroupAverage(options, evals, s1, g) == GroupAverage(options, evals, s2, g)
  {
    ScoredOfMembers(evals, s1, g);
    ScoredOfMembers(evals, s2, g);
  }

  /** A student of another group, or of none, changes neither a group's members nor its average. */
  lemma GroupAverageIgnoresOthers(options: seq<ScoringOption>, evals: seq<Evaluation>, students: seq<Student>, x: Student, g: string)
    requires x.groupId != g || g == ""
    ensures Members(students + [x], g) == Members(students, g)
    ensures GroupAverage(options, evals, students + [x], g) == GroupAverage(options, evals, students, g)
  {
    assert (students + [x])[..|students|] == students;
    GroupAverageLocal(options, evals, students + [x], students, g);
  }

  /** The group average is 0 exactly when, or because, no member has been evaluated. */
  lemma GroupAverageUnscored(options: seq<ScoringOption>, evals: seq<Evaluation>, students: seq<Student>, g: string)
    requires forall s :: s in Members(students, g) ==> EvaluationCount(evals, s.id) == 0
    ensures GroupAverage(options, evals, students, g) == 0.0
  {
    ScoredOfMembers(evals, students, g);
    ScoredNone(evals, Members(students, g));
  }

  lemma {:induction false} ScoredNone(evals: seq<Evaluation>, xs: seq<Student>)
    requires forall s :: s in xs ==> EvaluationCount(evals, s.id) == 0
    ensures Scored(evals, xs) == []
  {
    if xs != [] {
      var init := xs[..|xs| - 1];
      assert forall s :: s in init ==> s in xs;
      ScoredNone(evals, init);
    }
  }

  lemma ScoredAll(evals: seq<Evaluation>, xs: seq<Student>)
    requires forall s :: s in xs ==> EvaluationCount(evals, s.id) > 0
    ensures Scored(evals, xs) == xs
  {
    assert forall k :: 0 <= k < |xs| ==> xs[k] in xs;
    ScoredEvery(evals, xs);
  }

  lemma {:induction false} ScoredEvery(evals: seq<Evaluation>, xs: seq<Student>)
    requires forall k :: 0 <= k < |xs| ==> EvaluationCount(evals, xs[k].id) > 0
    ensures Scored(evals, xs) == xs
  {
    if xs != [] {
      var init := xs[..|xs| - 1];
      assert forall k :: 0 <= k < |init| ==> init[k] == xs[k];
      ScoredEvery(evals, init);
      assert xs == init + [xs[|xs| - 1]];
    }
  }

  lemma {:induction false} AveragesOfSingles(options: seq<ScoringOption>, evals: seq<Evaluation>, xs: seq<Student>)
    requires forall s :: s in xs ==> EvaluationCount(evals, s.id) == 1
    ensures AveragesSum(options, evals, xs) == MembersTotal(options, evals, xs) as real
  {
    if xs != [] {
      var init := xs[..|xs| - 1];
      assert forall s :: s in init ==> s in xs;
      AveragesOfSingles(options, evals, init);
    }
  }

  /** When every member has exactly one evaluation, the two group rules agree. */
  lemma GroupRulesAgree(options: seq<ScoringOption>, evals: seq<Evaluation>, students: seq<Student>, g: string)
    requires forall s :: s in Members(students, g) ==> EvaluationCount(evals, s.id) == 1
    ensures GroupAverage(options, evals, students, g) == Rep2GroupScore(options, evals, students, g)
  {
    var m := Members(students, g);
    ScoredOfMembers(evals, students, g);
    ScoredAll(evals, m);
    AveragesOfSingles(options, evals, m);
  }

  /**
   * An example where they disagree: a member scoring 10 in the only
   * evaluation and a member never evaluated give 10.0 under the app2 rule
   * and 5.0 under the rep2 rule.
   */
  lemma GroupRulesDiffer()
    ensures var a := Student("a", "A", "1", "m", "g", "", "sci", "", "");
            var b := Student("b", "B", "2", "m", "g", "", "sci", "", "");
            var e := Evaluation("e", "t", "g", [ScoreEntry("a", StudentScore(Some(10), None, []))]);
            && GroupAverage(App2Options, [e], [a, b], "g") == 10.0
            && Rep2GroupScore(App2Options, [e], [a, b], "g") == 5.0
  {
    var a := Student("a", "A", "1", "m", "g", "", "sci", "", "");
    var b := Student("b", "B", "2", "m", "g", "", "sci", "", "");
    var e := Evaluation("e", "t", "g", [ScoreEntry("a", StudentScore(Some(10), None, []))]);
    assert [e][..0] == [];
    assert [a, b][..1] == [a];
    assert [a][..0] == [];
    assert EvaluationCount([e], "a") == 1;
    assert EvaluationCount([e], "b") == 0;
    assert StudentTotal(App2Options, [e], "a") == 10;
    assert StudentTotal(App2Options, [e], "b") == 0;
    assert Members([a], "g") == [a];
    assert Members([a, b], "g") == [a, b];
    assert ScoredMembers([e], [a], "g") == [a];
    assert ScoredMembers([e], [a, b], "g") == [a];
    assert MembersTotal(App2Options, [e], [a]) == 10;
    assert MembersTotal(App2Options, [e], [a, b]) == 10;
    assert AveragesSum(App2Options, [e], [a]) == 10.0;
  }

  // ----- rankings -----

  lemma {:induction false} RankedStudentsContents(options: seq<ScoringOption>, evals: seq<Evaluation>, students: seq<Student>)
    ensures forall x :: x in RankedStudents(options, evals, students) <==>
      exists s :: s in students && RankedCount(evals, s.id) > 0 && x == RankOf(options, evals, s)
  {
    if students != [] {
      var init := students[..|students| - 1];
      var last := students[|students| - 1];
      RankedStudentsContents(options, evals, init);
      assert students == init + [last];
      forall x ensures x in RankedStudents(options, evals, students) <==>
        exists s :: s in students && RankedCount(evals, s.id) > 0 && x == RankOf(options, evals, s)
      {
        if x in RankedStudents(options, evals, students) && x !in RankedStudents(options, evals, init) {
          assert last in students;
        }
        if exists s :: s in students && RankedCount(evals, s.id) > 0 && x == RankOf(options, evals, s) {
          var s :| s in students && RankedCount(evals, s.id) > 0 && x == RankOf(options, evals, s);
          if s != last {
            assert s in init;
          }
        }
      }
    }
  }

  /**
   * The ranking holds exactly one record for each known student with at
   * least one entry, computed from that student's entries; entries of ids
   * that are not students reach no record.
   */
  lemma RankingsContents(options: seq<ScoringOption>, evals: seq<Evaluation>, students: seq<Student>)
    ensures forall x :: x in Rankings(options, evals, students) <==>
      exists s :: s in students && RankedCount(evals, s.id) > 0 && x == RankOf(options, evals, s)
    ensures multiset(Rankings(options, evals, students)) == multiset(RankedStudents(options, evals, students))
  {
    Sorting.SortByFacts(RankedStudents(options, evals, students), NegatedAverage);
    RankedStudentsContents(options, evals, students);
    forall x ensures x in Rankings(options, evals, students) <==> x in RankedStudents(options, evals, students) {
      assert x in Rankings(options, evals, students) <==> x in multiset(Rankings(options, evals, students));
    }
  }

  /** The ranking runs from the highest average down. */
  lemma RankingsOrdered(options: seq<ScoringOption>, evals: seq<Evaluation>, students: seq<Student>)
    ensures var r := Rankings(options, evals, students);
      forall i, j :: 0 <= i < j < |r| ==> r[i].averageScore >= r[j].averageScore
  {
    var r := Rankings(options, evals, students);
    Sorting.SortByFacts(RankedStudents(options, evals, students), NegatedAverage);
    forall i, j | 0 <= i < j < |r| ensures r[i].averageScore >= r[j].averageScore {
      assert NegatedAverage(r[i]) <= NegatedAverage(r[j]);
    }
  }

  /** Students with equal averages keep the order of the student list (the sort is stable). */
  lemma RankingsStable(options: seq<ScoringOption>, evals: seq<Evaluation>, students: seq<Student>, v: real)
    ensures Sorting.WithKey(Rankings(options, evals, students), NegatedAverage, v)
         == Sorting.WithKey(RankedStudents(options, evals, students), NegatedAverage, v)
  {
    Sorting.SortByStable(RankedStudents(options, evals, students), NegatedAverage, v);
  }

  lemma {:induction false} LookupSnoc(xs: seq<ScoreEntry>, y: ScoreEntry, id: string)
    ensures Lookup(xs + [y], id)
         == if Lookup(xs, id).Some? then Lookup(xs, id) else if y.studentId == id then Some(y.score) else None
  {
    if xs != [] {
      assert (xs + [y])[1..] == xs[1..] + [y];
      LookupSnoc(xs[1..], y, id);
    }
  }

  lemma {:induction false} LookupAbsent(xs: seq<ScoreEntry>, id: string)
    requires forall k :: 0 <= k < |xs| ==> xs[k].studentId != id
    ensures Lookup(xs, id) == None
  {
    if xs != [] {
      LookupAbsent(xs[1..], id);
    }
  }

  /** Over an object's entries, iterating and looking up agree: one entry per id at most. */
  lemma {:induction false} EntrySumLookup(options: seq<ScoringOption>, entries: seq<ScoreEntry>, id: string)
    requires KeysDistinct(entries)
    ensures EntrySum(options, entries, id) == match Lookup(entries, id) case Some(sc) => RawScore(options, sc) case None => 0
    ensures EntryHits(entries, id) == if Lookup(entries, id).Some? then 1 else 0
  {
    if entries != [] {
      var init := entries[..|entries| - 1];
      var x := entries[|entries| - 1];
      assert entries == init + [x];
      EntrySumLookup(options, init, id);
      LookupSnoc(init, x, id);
      if x.studentId == id {
        LookupAbsent(init, id);
      }
    }
  }

  /**
   * With one entry per student per evaluation, the ranking's totals and
   * counts are the student totals and evaluation counts used elsewhere.
   */
  lemma {:induction false} RankedMatchesStudent(options: seq<ScoringOption>, evals: seq<Evaluation>, id: string)
    requires forall i :: 0 <= i < |evals| ==> KeysDistinct(evals[i].scores)
    ensures RankedTotal(options, evals, id) == StudentTotal(options, evals, id)
    ensures RankedCount(evals, id) == EvaluationCount(evals, id)
  {
    if evals != [] {
      var init := evals[..|evals| - 1];
      assert forall i :: 0 <= i < |init| ==> init[i] == evals[i];
      RankedMatchesStudent(options, init, id);
      EntrySumLookup(options, evals[|evals| - 1].scores, id);
    }
  }

  // ----- option-usage statistics -----

  function SelectedMarks(marks: seq<OptionMark>): nat {
    if marks == [] then 0
    else SelectedMarks(marks[..|marks| - 1]) + (if marks[|marks| - 1].selected then 1 else 0)
  }

  predicate Counted(id: string) {
    id in {"cannot_do", "learned_cannot_write", "learned_can_write", "weekly_homework", "weekly_attendance"}
  }

  /** Ticked marks whose option is none of the five counted ones. */
  function UncountedMarks(marks: seq<OptionMark>): nat {
    if marks == [] then 0
    else
      var m := marks[|marks| - 1];
      UncountedMarks(marks[..|marks| - 1]) + (if m.selected && !Counted(m.optionId) then 1 else 0)
  }

  /** Each ticked mark lands in exactly one counter, or, for an unknown option, in none. */
  lemma {:induction false} CountersPartition(marks: seq<OptionMark>)
    ensures MarkHits(marks, "cannot_do") + MarkHits(marks, "learned_cannot_write") + MarkHits(marks, "learned_can_write")
          + MarkHits(marks, "weekly_homework") + MarkHits(marks, "weekly_attendance") + UncountedMarks(marks)
         == SelectedMarks(marks)
  {
    if marks != [] {
      CountersPartition(marks[..|marks| - 1]);
    }
  }

  lemma StatsSnoc(evals: seq<Evaluation>, e: Evaluation)
    ensures StatsOf(evals + [e]) == AddStats(StatsOf(evals), EntriesStats(e.scores))
  {
    assert (evals + [e])[..|evals|] == evals;
  }

  /** An evaluation adds one problem per entry, and to each counter only the ticked marks of that option. */
  lemma StatsOfOne(e: Evaluation)
    ensures StatsOf([e]) == EntriesStats(e.scores)
  {
    StatsSnoc([], e);
  }

  // ----- the report's per-student statistics -----

  /** That total leaves out exactly the option marks the raw-score total counts. */
  lemma {:induction false} StatisticsOmitMarks(options: seq<ScoringOption>, evals: seq<Evaluation>, id: string)
    ensures StudentTotal(options, evals, id) == BaseTotal(evals, id) + MarksTotal(options, evals, id)
  {
    if evals != [] {
      StatisticsOmitMarks(options, evals[..|evals| - 1], id);
    }
  }
}
