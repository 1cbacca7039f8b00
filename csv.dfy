/**
 * The CSV adapter of google/app2.js: the line scanner `parseCSVLine`, the
 * student import reader `parseCSVData`, the three exporters, which wrap every
 * field in double quotes, and the import loop `processCSVImport`. A file is a
 * string whose lines end in `\n`; the download itself is not modelled.
 */
module Csv {
  import opened Wrappers
  import opened Domain
  import opened Text
  import Seqs
  import Validation
  import Filters

  // ---------------------------------------------------------------------------
  // Reading a line
  // ---------------------------------------------------------------------------

  /** The scanner's variables: the fields closed so far, the open field, and whether a quote is open. */
  datatype Scan = Scan(fields: seq<string>, current: string, inQuotes: bool)

  const Start: Scan := Scan([], "", false)

  /** One character: a quote toggles the quote state and is dropped, a comma outside quotes closes the field. */
  function Step(st: Scan, c: char): Scan {
    if c == '"' then st.(inQuotes := !st.inQuotes)
    else if c == ',' && !st.inQuotes then Scan(st.fields + [st.current], "", st.inQuotes)
    else st.(current := st.current + [c])
  }

  function Run(st: Scan, s: string): Scan
    decreases |s|
  {
    if s == [] then st else Run(Step(st, s[0]), s[1..])
  }

  /** The fields of a line: the closed fields and the last, open one. */
  function Fields(line: string): (r: seq<string>)
    ensures |r| == CommasOutside(line) + 1
  {
    ScanCounts(line);
    var st := Run(Start, line);
    st.fields + [st.current]
  }

  /** `parseCSVLine`. */
  method ParseCSVLine(line: string) returns (fields: seq<string>)
    ensures fields == Fields(line)
  {
    fields := [];
    var currentField := "";
    var inQuotes := false;
    for i := 0 to |line|
      invariant Run(Start, line[..i]) == Scan(fields, currentField, inQuotes)
    {
      RunSnoc(Start, line[..i], line[i]);
      assert line[..i + 1] == line[..i] + [line[i]];
      var c := line[i];
      if c == '"' {
        inQuotes := !inQuotes;
      } else if c == ',' && !inQuotes {
        fields := fields + [currentField];
        currentField := "";
      } else {
        currentField := currentField + [c];
      }
    }
    assert line[..|line|] == line;
    fields := fields + [currentField];
  }

  lemma {:induction false} RunAppend(st: Scan, a: string, b: string)
    ensures Run(st, a + b) == Run(Run(st, a), b)
    decreases |a|
  {
    if a != [] {
      assert (a + b)[0] == a[0] && (a + b)[1..] == a[1..] + b;
      RunAppend(Step(st, a[0]), a[1..], b);
    } else {
      assert a + b == b;
    }
  }

  lemma RunSnoc(st: Scan, a: string, c: char)
    ensures Run(st, a + [c]) == Step(Run(st, a), c)
  {
    RunAppend(st, a, [c]);
  }

  /** The number of `"` characters in `s`. */
  function QuoteCount(s: string): nat {
    if s == [] then 0 else QuoteCount(s[..|s| - 1]) + (if s[|s| - 1] == '"' then 1 else 0)
  }

  /** The commas of `s` preceded by an even number of quotes. */
  function CommasOutside(s: string): nat {
    if s == [] then 0
    else CommasOutside(s[..|s| - 1]) + (if s[|s| - 1] == ',' && QuoteCount(s[..|s| - 1]) % 2 == 0 then 1 else 0)
  }

  /** `s` with its quotes removed. */
  function Unquoted(s: string): string {
    if s == [] then "" else Unquoted(s[..|s| - 1]) + (if s[|s| - 1] == '"' then "" else [s[|s| - 1]])
  }

  /** Scanning a prefix: the quote state is the parity of the quotes read, and one field closes per comma outside quotes. */
  lemma {:induction false} ScanCounts(s: string)
    ensures Run(Start, s).inQuotes <==> QuoteCount(s) % 2 == 1
    ensures |Run(Start, s).fields| == CommasOutside(s)
    decreases |s|
  {
    if s != [] {
      var init := s[..|s| - 1];
      ScanCounts(init);
      RunSnoc(Start, init, s[|s| - 1]);
      assert init + [s[|s| - 1]] == s;
    }
  }

  /** No field the scanner produces holds a quote. */
  lemma {:induction false} ScanDropsQuotes(s: string)
    ensures forall f :: f in Run(Start, s).fields ==> '"' !in f
    ensures '"' !in Run(Start, s).current
    decreases |s|
  {
    if s != [] {
      var init := s[..|s| - 1];
      ScanDropsQuotes(init);
      RunSnoc(Start, init, s[|s| - 1]);
      assert init + [s[|s| - 1]] == s;
    }
  }

  lemma FieldsHaveNoQuotes(line: string)
    ensures forall f :: f in Fields(line) ==> '"' !in f
  {
    ScanDropsQuotes(line);
  }

  /** `Join` grows by the separator and the new last part. */
  lemma {:induction false} JoinSnoc(parts: seq<string>, x: string, sep: string)
    requires parts != []
    ensures Join(parts + [x], sep) == Join(parts, sep) + sep + x
    decreases |parts|
  {
    if |parts| == 1 {
      assert (parts + [x])[1..] == [x];
    } else {
      assert (parts + [x])[1..] == parts[1..] + [x];
      JoinSnoc(parts[1..], x, sep);
    }
  }

  /** Extending the last part extends the join. */
  lemma JoinExtendLast(parts: seq<string>, x: string, c: char, sep: string)
    ensures Join(parts + [x + [c]], sep) == Join(parts + [x], sep) + [c]
  {
    if parts != [] {
      JoinSnoc(parts, x + [c], sep);
      JoinSnoc(parts, x, sep);
    }
  }

  /** The fields joined with commas give back the line without its quotes. */
  lemma {:induction false} ScanJoins(s: string)
    ensures Join(Run(Start, s).fields + [Run(Start, s).current], ",") == Unquoted(s)
    decreases |s|
  {
    if s != [] {
      var init := s[..|s| - 1];
      var c := s[|s| - 1];
      var st := Run(Start, init);
      ScanJoins(init);
      RunSnoc(Start, init, c);
      assert init + [c] == s;
      if c == '"' {
      } else if c == ',' && !st.inQuotes {
        JoinSnoc(st.fields + [st.current], "", ",");
        assert st.fields + [st.current] + [""] == (st.fields + [st.current]) + [""];
      } else {
        JoinExtendLast(st.fields, st.current, c, ",");
      }
    }
  }

  lemma FieldsJoin(line: string)
    ensures Join(Fields(line), ",") == Unquoted(line)
  {
    ScanJoins(line);
  }

  // ---------------------------------------------------------------------------
  // Writing a row
  // ---------------------------------------------------------------------------

  /** A field as the exporters write it: `"${field}"`. */
  function Quote(f: string): string {
    "\"" + f + "\""
  }

  function Quoted(fields: seq<string>): (q: seq<string>)
    ensures |q| == |fields| && forall i :: 0 <= i < |fields| ==> q[i] == Quote(fields[i])
  {
    seq(|fields|, i requires 0 <= i < |fields| => Quote(fields[i]))
  }

  /** A row: every field quoted, joined with commas. */
  function Row(fields: seq<string>): string {
    Join(Quoted(fields), ",")
  }

  ghost predicate QuoteFree(fields: seq<string>) {
    forall i :: 0 <= i < |fields| ==> '"' !in fields[i]
  }

  /** Inside quotes every character but a quote joins the open field. */
  lemma {:induction false} RunInQuotes(st: Scan, f: string)
    requires st.inQuotes && '"' !in f
    ensures Run(st, f) == st.(current := st.current + f)
    decreases |f|
  {
    if f != [] {
      assert f[0] in f;
      assert '"' !in f[1..] by {
        assert forall k :: 0 <= k < |f[1..]| ==> f[1..][k] == f[k + 1];
      }
      RunInQuotes(Step(st, f[0]), f[1..]);
      assert st.current + [f[0]] + f[1..] == st.current + f;
    }
  }

  /** A quoted field read between fields becomes the open field. */
  lemma RunQuote(st: Scan, f: string)
    requires st.current == "" && !st.inQuotes && '"' !in f
    ensures Run(st, Quote(f)) == Scan(st.fields, f, false)
  {
    RunAppend(st, "\"", f + "\"");
    RunAppend(st.(inQuotes := true), f, "\"");
    RunInQuotes(st.(inQuotes := true), f);
    assert "\"" + f + "\"" == "\"" + (f + "\"");
  }

  lemma {:induction false} RunRow(st: Scan, fields: seq<string>)
    requires st.current == "" && !st.inQuotes && fields != [] && QuoteFree(fields)
    ensures Run(st, Row(fields)) == Scan(st.fields + fields[..|fields| - 1], fields[|fields| - 1], false)
    decreases |fields|
  {
    if |fields| == 1 {
      assert Quoted(fields) == [Quote(fields[0])];
      RunQuote(st, fields[0]);
      assert fields[..0] == [];
    } else {
      var rest := fields[1..];
      assert Quoted(fields)[1..] == Quoted(rest);
      assert Row(fields) == Quote(fields[0]) + "," + Row(rest);
      RunQuote(st, fields[0]);
      assert Row(fields) == Quote(fields[0]) + ("," + Row(rest));
      RunAppend(st, Quote(fields[0]), "," + Row(rest));
      var st1 := Scan(st.fields, fields[0], false);
      RunAppend(st1, ",", Row(rest));
      var st2 := Scan(st.fields + [fields[0]], "", false);
      assert Run(st1, ",") == st2 by {
        assert Run(st1, ",") == Run(Step(st1, ','), ","[1..]);
        assert ","[1..] == [];
      }
      assert Run(st, Row(fields)) == Run(st2, Row(rest));
      assert QuoteFree(rest) by {
        assert forall i :: 0 <= i < |rest| ==> rest[i] == fields[i + 1];
      }
      RunRow(st2, rest);
      assert st.fields + [fields[0]] + rest[..|rest| - 1] == st.fields + fields[..|fields| - 1];
    }
  }

  /** Parsing an exported row gives back its fields, commas inside fields included, when no field holds a quote. */
  lemma RowRoundTrip(fields: seq<string>)
    requires fields != [] && QuoteFree(fields)
    ensures Fields(Row(fields)) == fields
  {
    RunRow(Start, fields);
    assert fields[..|fields| - 1] + [fields[|fields| - 1]] == fields;
  }

  /** A row built from a comma inside a field still reads back as two fields. */
  lemma CommaInsideField()
    ensures Fields(Row(["a,b", "c"])) == ["a,b", "c"]
  {
    RowRoundTrip(["a,b", "c"]);
  }

  // ---------------------------------------------------------------------------
  // Writing a file
  // ---------------------------------------------------------------------------

  /** The lines of an exported file: the header joined with commas, then one row per record. */
  function FileLines(headers: seq<string>, rows: seq<seq<string>>): (ls: seq<string>)
    ensures |ls| == |rows| + 1 && ls[0] == Join(headers, ",")
    ensures forall i :: 0 <= i < |rows| ==> ls[i + 1] == Row(rows[i])
  {
    [Join(headers, ",")] + seq(|rows|, i requires 0 <= i < |rows| => Row(rows[i]))
  }

  /** The file: every line followed by `\n`. */
  function CsvText(headers: seq<string>, rows: seq<seq<string>>): string {
    Join(FileLines(headers, rows), "\n") + "\n"
  }

  /** One more row adds its line. */
  lemma CsvTextSnoc(headers: seq<string>, rows: seq<seq<string>>, r: seq<string>)
    ensures CsvText(headers, rows + [r]) == CsvText(headers, rows) + Row(r) + "\n"
  {
    assert FileLines(headers, rows + [r]) == FileLines(headers, rows) + [Row(r)];
    JoinSnoc(FileLines(headers, rows), Row(r), "\n");
  }

  lemma CsvTextEmpty(headers: seq<string>)
    ensures CsvText(headers, []) == Join(headers, ",") + "\n"
  {
    assert FileLines(headers, []) == [Join(headers, ",")];
  }

  /** A string without the separator splits into itself. */
  lemma {:induction false} SplitNone(s: string, sep: char)
    requires sep !in s
    ensures Split(s, sep) == [s]
    decreases |s|
  {
    if s != [] {
      assert s[0] in s;
      assert sep !in s[1..] by {
        assert forall k :: 0 <= k < |s[1..]| ==> s[1..][k] == s[k + 1];
      }
      SplitNone(s[1..], sep);
      assert [s[0]] + s[1..] == s;
    }
  }

  /** Splitting at a separator splits both sides. */
  lemma {:induction false} SplitConcat(a: string, b: string, sep: char)
    ensures Split(a + [sep] + b, sep) == Split(a, sep) + Split(b, sep)
    decreases |a|
  {
    if a == [] {
      assert a + [sep] + b == [sep] + b;
      assert ([sep] + b)[1..] == b;
    } else {
      var s := a + [sep] + b;
      assert s[0] == a[0] && s[1..] == a[1..] + [sep] + b;
      SplitConcat(a[1..], b, sep);
    }
  }

  /** Splitting lines joined by the separator gives them back. */
  lemma {:induction false} SplitJoin(ls: seq<string>, sep: char)
    requires ls != [] && forall i :: 0 <= i < |ls| ==> sep !in ls[i]
    ensures Split(Join(ls, [sep]), sep) == ls
    decreases |ls|
  {
    if |ls| == 1 {
      SplitNone(ls[0], sep);
    } else {
      SplitConcat(ls[0], Join(ls[1..], [sep]), sep);
      SplitNone(ls[0], sep);
      SplitJoin(ls[1..], sep);
      assert ls[0] + [sep] + Join(ls[1..], [sep]) == Join(ls, [sep]);
    }
  }

  /** A character of a join comes from a part or from the separator. */
  lemma {:induction false} JoinChars(parts: seq<string>, sep: string, c: char)
    requires c !in sep && forall i :: 0 <= i < |parts| ==> c !in parts[i]
    ensures c !in Join(parts, sep)
    decreases |parts|
  {
    if |parts| > 1 {
      JoinChars(parts[1..], sep, c);
    }
  }

  ghost predicate CleanFields(fields: seq<string>) {
    QuoteFree(fields) && forall i :: 0 <= i < |fields| ==> '\n' !in fields[i]
  }

  /**
   * An exported file splits into its header line, one line per record and the
   * empty rest after the final `\n`, and every record's line reads back as its
   * fields — when no field holds a quote or a line break.
   */
  lemma ExportRoundTrip(headers: seq<string>, rows: seq<seq<string>>)
    requires forall i :: 0 <= i < |headers| ==> '\n' !in headers[i]
    requires forall i :: 0 <= i < |rows| ==> rows[i] != [] && CleanFields(rows[i])
    ensures Split(CsvText(headers, rows), '\n') == FileLines(headers, rows) + [""]
    ensures forall i :: 0 <= i < |rows| ==> Fields(Split(CsvText(headers, rows), '\n')[i + 1]) == rows[i]
  {
    var ls := FileLines(headers, rows);
    JoinChars(headers, ",", '\n');
    forall i | 0 <= i < |rows|
      ensures '\n' !in Row(rows[i]) && Fields(Row(rows[i])) == rows[i]
    {
      RowLine(rows[i]);
    }
    SplitJoin(ls, '\n');
    SplitConcat(Join(ls, "\n"), "", '\n');
    assert Join(ls, "\n") + "\n" == Join(ls, "\n") + ['\n'] + "";
  }

  /** The line of a row of clean fields has no line break and reads back to the row. */
  lemma RowLine(fields: seq<string>)
    requires fields != [] && CleanFields(fields)
    ensures '\n' !in Row(fields) && Fields(Row(fields)) == fields
  {
    forall k | 0 <= k < |fields| ensures '\n' !in Quote(fields[k]) {
      assert '\n' !in fields[k];
    }
    JoinChars(Quoted(fields), ",", '\n');
    RowRoundTrip(fields);
  }

  // ---------------------------------------------------------------------------
  // The exporters
  // ---------------------------------------------------------------------------

  const StudentHeaders: seq<string> := ["নাম", "রোল", "জেন্ডার", "গ্রুপ", "যোগাযোগ", "একাডেমিক গ্রুপ", "সেশন", "দায়িত্ব"]
  const GroupHeaders: seq<string> := ["গ্রুপ নাম", "সদস্য সংখ্যা"]
  const EvaluationHeaders: seq<string> := ["টাস্ক", "গ্রুপ", "শিক্ষার্থী", "টাস্ক স্কোর", "টিমওয়ার্ক স্কোর", "মোট স্কোর", "তারিখ"]

  /** `group?.name || ''` for the first group with that id. */
  function GroupName(groups: seq<Group>, id: string): string {
    match Seqs.Find(groups, (g: Group) => g.id == id)
    case Some(g) => g.name
    case None => ""
  }

  /** `student.role ? roleNames[student.role] : ''`; a key with no label prints as `undefined`. */
  function RoleLabel(role: string): string {
    if role == "" then "" else if role in RoleNames then RoleNames[role] else "undefined"
  }

  function StudentRow(s: Student, groups: seq<Group>): (r: seq<string>)
    ensures |r| == 8
  {
    [s.name, s.roll, s.gender, GroupName(groups, s.groupId), s.contact, s.academicGroup, s.session, RoleLabel(s.role)]
  }

  function StudentRows(students: seq<Student>, groups: seq<Group>): (rows: seq<seq<string>>)
    ensures |rows| == |students| && forall i :: 0 <= i < |students| ==> rows[i] == StudentRow(students[i], groups)
  {
    seq(|students|, i requires 0 <= i < |students| => StudentRow(students[i], groups))
  }

  /** `exportStudentsCSV`: the header, then one row per student in list order. */
  method ExportStudentsCSV(students: seq<Student>, groups: seq<Group>) returns (csv: string)
    ensures csv == CsvText(StudentHeaders, StudentRows(students, groups))
  {
    csv := Join(StudentHeaders, ",") + "\n";
    CsvTextEmpty(StudentHeaders);
    for i := 0 to |students|
      invariant csv == CsvText(StudentHeaders, StudentRows(students[..i], groups))
    {
      var fields := StudentRow(students[i], groups);
      CsvTextSnoc(StudentHeaders, StudentRows(students[..i], groups), fields);
      StudentRowsSnoc(students, groups, i);
      csv := csv + Row(fields) + "\n";
    }
    assert students[..|students|] == students;
  }

  lemma StudentRowsSnoc(students: seq<Student>, groups: seq<Group>, i: nat)
    requires i < |students|
    ensures StudentRows(students[..i + 1], groups) == StudentRows(students[..i], groups) + [StudentRow(students[i], groups)]
  {
    var a := StudentRows(students[..i + 1], groups);
    var b := StudentRows(students[..i], groups) + [StudentRow(students[i], groups)];
    assert |a| == |b|;
    forall k | 0 <= k < |a| ensures a[k] == b[k] {
      assert students[..i + 1][k] == if k < i then students[..i][k] else students[i];
    }
  }

  /** A group's row: its name and its member count. */
  function GroupRow(g: Group, students: seq<Student>): (r: seq<string>)
    ensures |r| == 2
  {
    [g.name, NatToDecimal(Filters.CountIn(students, g.id))]
  }

  function GroupRows(groups: seq<Group>, students: seq<Student>): (rows: seq<seq<string>>)
    ensures |rows| == |groups| && forall i :: 0 <= i < |groups| ==> rows[i] == GroupRow(groups[i], students)
  {
    seq(|groups|, i requires 0 <= i < |groups| => GroupRow(groups[i], students))
  }

  lemma GroupRowsSnoc(groups: seq<Group>, students: seq<Student>, i: nat)
    requires i < |groups|
    ensures GroupRows(groups[..i + 1], students) == GroupRows(groups[..i], students) + [GroupRow(groups[i], students)]
  {
  }

  /** `exportGroupsCSV`: the header, then each group's name and `memberCountMap[group.id] || 0`. */
  method ExportGroupsCSV(groups: seq<Group>, students: seq<Student>) returns (csv: string)
    ensures csv == CsvText(GroupHeaders, GroupRows(groups, students))
  {
    var memberCountMap := Filters.ComputeMemberCountMap(groups, students);
    csv := Join(GroupHeaders, ",") + "\n";
    CsvTextEmpty(GroupHeaders);
    for i := 0 to |groups|
      invariant csv == CsvText(GroupHeaders, GroupRows(groups[..i], students))
    {
      var g := groups[i];
      assert g.id in Filters.CountKeys(groups, students) by {
        assert groups[i].id in (set k | 0 <= k < |groups| :: groups[k].id);
      }
      var count := if g.id in memberCountMap then memberCountMap[g.id] else 0;
      assert count == Filters.CountIn(students, g.id);
      var row := Row([g.name, NatToDecimal(count)]);
      GroupRowsSnoc(groups, students, i);
      CsvTextSnoc(GroupHeaders, GroupRows(groups[..i], students), GroupRow(g, students));
      csv := csv + row + "\n";
    }
    assert groups[..|groups|] == groups;
  }

  /** What a missing score counts as: `score.taskScore || 0`. */
  function OrZero(x: Option<int>): int {
    x.GetOr(0)
  }

  /** The first student with that id. */
  function StudentById(students: seq<Student>, id: string): (r: Option<Student>)
    ensures r.Some? ==> r.value in students && r.value.id == id
    ensures r.None? ==> forall s :: s in students ==> s.id != id
  {
    Seqs.Find(students, (s: Student) => s.id == id)
  }

  /** `task?.name || ''` for the first task with that id. */
  function TaskName(tasks: seq<Task>, id: string): string {
    match Seqs.Find(tasks, (k: Task) => k.id == id)
    case Some(k) => k.name
    case None => ""
  }

  /** The row of one score entry: task, group and student names, the two scores with a missing one as 0, their sum, the date text. */
  function EntryRow(taskName: string, groupName: string, student: Student, score: StudentScore, date: string): seq<string> {
    var t := OrZero(score.taskScore);
    var w := OrZero(score.teamworkScore);
    [taskName, groupName, student.name, IntToDecimal(t), IntToDecimal(w), IntToDecimal(t + w), date]
  }

  /** Read back as numbers, the score columns of a row give the two scores and the total column their sum. */
  lemma EntryRowTotals(taskName: string, groupName: string, student: Student, score: StudentScore, date: string)
    ensures var r := EntryRow(taskName, groupName, student, score, date);
      |r| == 7 && ParseInt(r[3]) == Some(OrZero(score.taskScore)) && ParseInt(r[4]) == Some(OrZero(score.teamworkScore))
      && ParseInt(r[5]) == Some(OrZero(score.taskScore) + OrZero(score.teamworkScore))
  {
    TaskColumnRead(taskName, groupName, student, score, date);
    TeamworkColumnRead(taskName, groupName, student, score, date);
    TotalColumnRead(taskName, groupName, student, score, date);
  }

  lemma TaskColumnRead(taskName: string, groupName: string, student: Student, score: StudentScore, date: string)
    ensures ParseInt(EntryRow(taskName, groupName, student, score, date)[3]) == Some(OrZero(score.taskScore))
  {
    ParseIntOfDecimal(OrZero(score.taskScore));
  }

  lemma TeamworkColumnRead(taskName: string, groupName: string, student: Student, score: StudentScore, date: string)
    ensures ParseInt(EntryRow(taskName, groupName, student, score, date)[4]) == Some(OrZero(score.teamworkScore))
  {
    ParseIntOfDecimal(OrZero(score.teamworkScore));
  }

  lemma TotalColumnRead(taskName: string, groupName: string, student: Student, score: StudentScore, date: string)
    ensures var r := EntryRow(taskName, groupName, student, score, date);
      ParseInt(r[5]) == Some(OrZero(score.taskScore) + OrZero(score.teamworkScore))
  {
    ParseIntOfDecimal(OrZero(score.taskScore) + OrZero(score.teamworkScore));
  }

  /** What entry `k` of `e` contributes: its row when its student is known, nothing otherwise. */
  function EntryRowOf(e: Evaluation, k: nat, tasks: seq<Task>, groups: seq<Group>, students: seq<Student>, date: string): (rs: seq<seq<string>>)
    requires k < |e.scores|
    ensures |rs| <= 1
  {
    match StudentById(students, e.scores[k].studentId)
    case None => []
    case Some(student) => [EntryRow(TaskName(tasks, e.taskId), GroupName(groups, e.groupId), student, e.scores[k].score, date)]
  }

  /** An evaluation's rows for its first `n` score entries: one per entry whose student is known. */
  function EntryRows(e: Evaluation, n: nat, tasks: seq<Task>, groups: seq<Group>, students: seq<Student>, date: string): seq<seq<string>>
    requires n <= |e.scores|
  {
    if n == 0 then [] else EntryRows(e, n - 1, tasks, groups, students, date) + EntryRowOf(e, n - 1, tasks, groups, students, date)
  }

  /** The row written for entry `k` of `e`, whose student is in the list. */
  ghost predicate RowOfEntry(r: seq<string>, e: Evaluation, k: nat, tasks: seq<Task>, groups: seq<Group>, students: seq<Student>, date: string) {
    k < |e.scores| && StudentById(students, e.scores[k].studentId).Some?
    && r == EntryRow(TaskName(tasks, e.taskId), GroupName(groups, e.groupId), StudentById(students, e.scores[k].studentId).value, e.scores[k].score, date)
  }

  /** There are at most as many rows as entries. */
  lemma EntryRowsCount(e: Evaluation, n: nat, tasks: seq<Task>, groups: seq<Group>, students: seq<Student>, date: string)
    requires n <= |e.scores|
    ensures |EntryRows(e, n, tasks, groups, students, date)| <= n
  {
    EntryRowsFlatten(e, n, tasks, groups, students, date);
    Seqs.FlattenLength(EntryParts(e, n, tasks, groups, students, date));
  }

  /** Row `i` is the row of an entry at position `i` or later, whose student is known. */
  lemma EntryRowSource(e: Evaluation, n: nat, tasks: seq<Task>, groups: seq<Group>, students: seq<Student>, date: string, i: nat)
    requires n <= |e.scores| && i < |EntryRows(e, n, tasks, groups, students, date)|
    ensures exists k: nat :: i <= k < n && RowOfEntry(EntryRows(e, n, tasks, groups, students, date)[i], e, k, tasks, groups, students, date)
  {
    EntryRowOrigin(e, n, tasks, groups, students, date, i);
    var k: nat :| i <= k < n && EntryRowOf(e, k, tasks, groups, students, date) == [EntryRows(e, n, tasks, groups, students, date)[i]];
    EntryRowOfSource(e, k, tasks, groups, students, date);
  }

  /** Row `i` is what an entry at position `i` or later contributes. */
  lemma EntryRowOrigin(e: Evaluation, n: nat, tasks: seq<Task>, groups: seq<Group>, students: seq<Student>, date: string, i: nat)
    requires n <= |e.scores| && i < |EntryRows(e, n, tasks, groups, students, date)|
    ensures exists k: nat :: i <= k < n && EntryRowOf(e, k, tasks, groups, students, date) == [EntryRows(e, n, tasks, groups, students, date)[i]]
  {
    var parts := EntryParts(e, n, tasks, groups, students, date);
    EntryRowsFlatten(e, n, tasks, groups, students, date);
    Seqs.FlattenOrigin(parts, i);
    var k :| i <= k < |parts| && parts[k] == [Seqs.Flatten(parts)[i]];
    assert EntryRowOf(e, k, tasks, groups, students, date) == [EntryRows(e, n, tasks, groups, students, date)[i]];
  }

  /** What each of the first `n` entries contributes. */
  function EntryParts(e: Evaluation, n: nat, tasks: seq<Task>, groups: seq<Group>, students: seq<Student>, date: string): (parts: seq<seq<seq<string>>>)
    requires n <= |e.scores|
    ensures |parts| == n && forall k :: 0 <= k < n ==> |parts[k]| <= 1
  {
    seq(n, k requires 0 <= k < n => EntryRowOf(e, k, tasks, groups, students, date))
  }

  lemma {:induction false} EntryRowsFlatten(e: Evaluation, n: nat, tasks: seq<Task>, groups: seq<Group>, students: seq<Student>, date: string)
    requires n <= |e.scores|
    ensures EntryRows(e, n, tasks, groups, students, date) == Seqs.Flatten(EntryParts(e, n, tasks, groups, students, date))
  {
    if n > 0 {
      var parts := EntryParts(e, n, tasks, groups, students, date);
      EntryRowsFlatten(e, n - 1, tasks, groups, students, date);
      assert parts[..n - 1] == EntryParts(e, n - 1, tasks, groups, students, date);
    }
  }

  /** The row an entry contributes, if any, is its own. */
  lemma EntryRowOfSource(e: Evaluation, k: nat, tasks: seq<Task>, groups: seq<Group>, students: seq<Student>, date: string)
    requires k < |e.scores| && EntryRowOf(e, k, tasks, groups, students, date) != []
    ensures RowOfEntry(EntryRowOf(e, k, tasks, groups, students, date)[0], e, k, tasks, groups, students, date)
  {
  }

  /** The rows of the evaluations in list order; `dateOf` renders an evaluation's date. */
  function EvaluationRows(evals: seq<Evaluation>, tasks: seq<Task>, groups: seq<Group>, students: seq<Student>,
                          dateOf: Evaluation -> string): seq<seq<string>>
  {
    if evals == [] then []
    else
      var e := evals[|evals| - 1];
      EvaluationRows(evals[..|evals| - 1], tasks, groups, students, dateOf) + EntryRows(e, |e.scores|, tasks, groups, students, dateOf(e))
  }

  /** `exportEvaluationsCSV`: for each evaluation, one row per score entry of a known student. */
  method ExportEvaluationsCSV(evals: seq<Evaluation>, tasks: seq<Task>, groups: seq<Group>, students: seq<Student>,
                              dateOf: Evaluation -> string) returns (csv: string)
    ensures csv == CsvText(EvaluationHeaders, EvaluationRows(evals, tasks, groups, students, dateOf))
  {
    csv := Join(EvaluationHeaders, ",") + "\n";
    CsvTextEmpty(EvaluationHeaders);
    for i := 0 to |evals|
      invariant csv == CsvText(EvaluationHeaders, EvaluationRows(evals[..i], tasks, groups, students, dateOf))
    {
      var e := evals[i];
      assert evals[..i + 1][..i] == evals[..i];
      csv := AppendEntries(EvaluationHeaders, csv, EvaluationRows(evals[..i], tasks, groups, students, dateOf), e, tasks, groups, students, dateOf(e));
    }
    assert evals[..|evals|] == evals;
  }

  /** The inner loop over one evaluation's score entries. */
  method AppendEntries(headers: seq<string>, csv0: string, before: seq<seq<string>>, e: Evaluation, tasks: seq<Task>, groups: seq<Group>,
                       students: seq<Student>, dateStr: string) returns (csv: string)
    requires csv0 == CsvText(headers, before)
    ensures csv == CsvText(headers, before + EntryRows(e, |e.scores|, tasks, groups, students, dateStr))
  {
    csv := csv0;
    assert before + EntryRows(e, 0, tasks, groups, students, dateStr) == before;
    var taskName := TaskName(tasks, e.taskId);
    var groupName := GroupName(groups, e.groupId);
    for j := 0 to |e.scores|
      invariant csv == CsvText(headers, before + EntryRows(e, j, tasks, groups, students, dateStr))
    {
      ghost var prior := before + EntryRows(e, j, tasks, groups, students, dateStr);
      ghost var extra := EntryRowOf(e, j, tasks, groups, students, dateStr);
      assert before + EntryRows(e, j + 1, tasks, groups, students, dateStr) == prior + extra;
      CsvTextStep(headers, prior, extra);
      var line := EntryLine(e, j, tasks, groups, students, dateStr, taskName, groupName);
      csv := csv + line;
    }
  }

  /** One pass of that loop: the line of entry `j` when its student is known, nothing otherwise. */
  method EntryLine(e: Evaluation, j: nat, tasks: seq<Task>, groups: seq<Group>, students: seq<Student>, dateStr: string,
                   taskName: string, groupName: string) returns (line: string)
    requires j < |e.scores| && taskName == TaskName(tasks, e.taskId) && groupName == GroupName(groups, e.groupId)
    ensures line == LineOf(EntryRowOf(e, j, tasks, groups, students, dateStr))
  {
    line := "";
    var entry := e.scores[j];
    var student := StudentById(students, entry.studentId);
    if student.Some? {
      var t := OrZero(entry.score.taskScore);
      var w := OrZero(entry.score.teamworkScore);
      var totalScore := t + w;
      var fields := [taskName, groupName, student.value.name, IntToDecimal(t), IntToDecimal(w), IntToDecimal(totalScore), dateStr];
      assert EntryRowOf(e, j, tasks, groups, students, dateStr) == [fields];
      line := Row(fields) + "\n";
    }
  }

  /** The text at most one row adds to a file: its line, or nothing. */
  function LineOf(extra: seq<seq<string>>): string
    requires |extra| <= 1
  {
    if extra == [] then "" else Row(extra[0]) + "\n"
  }

  /** Adding at most one row adds its line. */
  lemma CsvTextStep(headers: seq<string>, rows: seq<seq<string>>, extra: seq<seq<string>>)
    requires |extra| <= 1
    ensures CsvText(headers, rows + extra) == CsvText(headers, rows) + LineOf(extra)
  {
    if extra == [] {
      assert rows + extra == rows;
    } else {
      assert extra == [extra[0]];
      CsvTextSnoc(headers, rows, extra[0]);
    }
  }

  /** Every exported student reads back from its line, when no field holds a quote or a line break. */
  lemma StudentsRoundTrip(students: seq<Student>, groups: seq<Group>)
    requires forall i :: 0 <= i < |students| ==> CleanFields(StudentRow(students[i], groups))
    ensures forall i :: 0 <= i < |students| ==> (i + 1 < |Split(CsvText(StudentHeaders, StudentRows(students, groups)), '\n')| &&
      Fields(Split(CsvText(StudentHeaders, StudentRows(students, groups)), '\n')[i + 1]) == StudentRow(students[i], groups))
  {
    HeadersClean();
    ExportRoundTrip(StudentHeaders, StudentRows(students, groups));
  }

  lemma HeadersClean()
    ensures forall i :: 0 <= i < |StudentHeaders| ==> '\n' !in StudentHeaders[i]
  {
  }

  // ---------------------------------------------------------------------------
  // The import reader
  // ---------------------------------------------------------------------------

  /** The non-blank lines of a file. */
  function CsvLines(csv: string): seq<string> {
    Seqs.Filter(Split(csv, '\n'), (line: string) => Trim(line) != "")
  }

  /** The header test on the first line: it holds the name or the roll column's title. */
  predicate HasHeader(line: string) {
    Includes(line, "নাম") || Includes(line, "রোল")
  }

  /** `fields[i]?.trim()`, a missing field reading as `""`. */
  function FieldAt(fields: seq<string>, i: nat): string {
    if i < |fields| then Trim(fields[i]) else ""
  }

  function RecordOf(fields: seq<string>): Validation.StudentFields {
    Validation.StudentFields(FieldAt(fields, 0), FieldAt(fields, 1), FieldAt(fields, 2), FieldAt(fields, 3),
      FieldAt(fields, 4), FieldAt(fields, 5), FieldAt(fields, 6), FieldAt(fields, 7))
  }

  /** A line yields a record when it has six fields or more and name, roll, gender and group are not blank. */
  predicate Usable(fields: seq<string>) {
    var r := RecordOf(fields);
    |fields| >= 6 && r.name != "" && r.roll != "" && r.gender != "" && r.groupId != ""
  }

  /** What one line contributes: its record when it is usable, nothing otherwise. */
  function LineRecords(line: string): seq<Validation.StudentFields> {
    var f := Fields(line);
    if Usable(f) then [RecordOf(f)] else []
  }

  function RecordsOf(lines: seq<string>): seq<Validation.StudentFields> {
    if lines == [] then [] else RecordsOf(lines[..|lines| - 1]) + LineRecords(lines[|lines| - 1])
  }

  /** What `parseCSVData` returns; a file without a non-blank line fails, as reading `lines[0]` throws. */
  function ParsedRecords(csv: string): (r: Option<seq<Validation.StudentFields>>)
    ensures r.None? <==> CsvLines(csv) == []
    ensures r.Some? ==> |r.value| <= |CsvLines(csv)| - (if HasHeader(CsvLines(csv)[0]) then 1 else 0)
  {
    var lines := CsvLines(csv);
    if lines == [] then None
    else
      var rows := lines[(if HasHeader(lines[0]) then 1 else 0)..];
      RecordsOfFacts(rows);
      Some(RecordsOf(rows))
  }

  lemma RecordsOfStep(rows: seq<string>, i: nat)
    requires i < |rows|
    ensures RecordsOf(rows[..i + 1]) == RecordsOf(rows[..i]) + LineRecords(rows[i])
  {
    assert rows[..i + 1][..i] == rows[..i];
  }

  /** `parseCSVData`. */
  method ParseCSVData(csvData: string) returns (r: Option<seq<Validation.StudentFields>>)
    ensures r == ParsedRecords(csvData)
  {
    var lines := CsvLines(csvData);
    if lines == [] {
      return None;
    }
    var startIndex := if HasHeader(lines[0]) then 1 else 0;
    var students := ReadStudentRows(lines[startIndex..]);
    return Some(students);
  }

  /** The loop of `parseCSVData` over the lines from the first data line on. */
  method ReadStudentRows(rows: seq<string>) returns (students: seq<Validation.StudentFields>)
    ensures students == RecordsOf(rows)
  {
    students := [];
    for i := 0 to |rows|
      invariant students == RecordsOf(rows[..i])
    {
      var found := ReadStudentRow(rows[i]);
      RecordsOfStep(rows, i);
      students := students + found;
    }
    assert rows[..|rows|] == rows;
  }

  /** One pass of that loop: the record of the line when it has six fields and the four required ones are filled. */
  method ReadStudentRow(line: string) returns (found: seq<Validation.StudentFields>)
    ensures found == LineRecords(line)
  {
    found := [];
    var fields := ParseCSVLine(line);
    if |fields| >= 6 {
      var student := RecordOf(fields);
      if student.name != "" && student.roll != "" && student.gender != "" && student.groupId != "" {
        found := [student];
      }
    }
  }

  /** The reader keeps, in order, the record of every usable line and nothing else. */
  lemma {:induction false} RecordsOfFacts(lines: seq<string>)
    ensures forall r :: r in RecordsOf(lines) <==> exists l :: l in lines && Usable(Fields(l)) && r == RecordOf(Fields(l))
    ensures |RecordsOf(lines)| <= |lines|
    decreases |lines|
  {
    if lines != [] {
      var init := lines[..|lines| - 1];
      RecordsOfFacts(init);
      assert forall l :: l in lines <==> l in init || l == lines[|lines| - 1];
    }
  }

  /** Every record read has a non-blank name, roll, gender and group, and no field carries surrounding white space. */
  lemma ParsedRecordsClean(csv: string)
    requires ParsedRecords(csv).Some?
    ensures forall r :: r in ParsedRecords(csv).value ==>
      r.name != "" && r.roll != "" && r.gender != "" && r.groupId != "" && Validation.Clean(r)
      && Trim(r.gender) == r.gender && Trim(r.groupId) == r.groupId && Trim(r.role) == r.role
  {
    var lines := CsvLines(csv);
    var rest := lines[(if HasHeader(lines[0]) then 1 else 0)..];
    RecordsOfFacts(rest);
    forall r | r in RecordsOf(rest)
      ensures Validation.Clean(r) && Trim(r.gender) == r.gender && Trim(r.groupId) == r.groupId && Trim(r.role) == r.role
    {
      var l :| l in rest && Usable(Fields(l)) && r == RecordOf(Fields(l));
      var f := Fields(l);
      forall i: nat ensures Trim(FieldAt(f, i)) == FieldAt(f, i) {
        if i < |f| {
          Validation.TrimTwice(f[i]);
        }
      }
      assert FieldAt(f, 0) == r.name && FieldAt(f, 4) == r.contact;
    }
  }

  // ---------------------------------------------------------------------------
  // The import loop
  // ---------------------------------------------------------------------------

  /** Whether `processCSVImport` adds a row: the rules of `validateStudentUniqueness` against the students loaded before the import. */
  function AcceptedAsWritten(students: seq<Student>, rows: seq<Validation.StudentFields>): seq<Validation.StudentFields> {
    if rows == [] then []
    else
      var f := rows[|rows| - 1];
      AcceptedAsWritten(students, rows[..|rows| - 1]) + (if Admitted(students, f) then [f] else [])
  }

  /** As written, a row is added exactly when it passes against the students loaded before the import, whatever the other rows hold. */
  lemma {:induction false} AcceptedAsWrittenFacts(students: seq<Student>, rows: seq<Validation.StudentFields>)
    ensures forall f :: f in AcceptedAsWritten(students, rows) <==> f in rows && Admitted(students, f)
    ensures |AcceptedAsWritten(students, rows)| <= |rows|
  {
    if rows != [] {
      AcceptedAsWrittenFacts(students, rows[..|rows| - 1]);
      assert forall f :: f in rows <==> f in rows[..|rows| - 1] || f == rows[|rows| - 1];
    }
  }

  /** A new record passes the uniqueness rules. */
  predicate Admitted(students: seq<Student>, f: Validation.StudentFields) {
    Validation.ValidateStudentUniqueness(students, f, None) == []
  }

  /** How `processCSVImport` ends: no file chosen, the file could not be read, or the rows added with the counts it reports. */
  datatype ImportOutcome =
    | NoFile
    | ParseFailed
    | Imported(added: seq<Validation.StudentFields>, successCount: nat, errorCount: nat)

  /**
   * `processCSVImport`: an empty file is refused, a file without a non-blank
   * line fails, and otherwise every row read is added when it passes the
   * uniqueness rules against the students loaded before the import.
   */
  method ProcessCSVImport(students: seq<Student>, csvImportData: string) returns (outcome: ImportOutcome)
    ensures csvImportData == "" <==> outcome.NoFile?
    ensures outcome.ParseFailed? <==> csvImportData != "" && ParsedRecords(csvImportData).None?
    ensures outcome.Imported? ==> (ParsedRecords(csvImportData).Some?
      && outcome.added == AcceptedAsWritten(students, ParsedRecords(csvImportData).value)
      && outcome.successCount == |outcome.added|
      && outcome.successCount + outcome.errorCount == |ParsedRecords(csvImportData).value|)
  {
    if csvImportData == "" {
      return NoFile;
    }
    var parsed := ParseCSVData(csvImportData);
    if parsed.None? {
      return ParseFailed;
    }
    var added, successCount, errorCount := ImportRows(students, parsed.value);
    return Imported(added, successCount, errorCount);
  }

  /** The loop of `processCSVImport` over the rows read. */
  method ImportRows(students: seq<Student>, rows: seq<Validation.StudentFields>)
    returns (added: seq<Validation.StudentFields>, successCount: nat, errorCount: nat)
    ensures added == AcceptedAsWritten(students, rows)
    ensures successCount == |added| && successCount + errorCount == |rows|
  {
    added := [];
    successCount := 0;
    errorCount := 0;
    for k := 0 to |rows|
      invariant added == AcceptedAsWritten(students, rows[..k])
      invariant successCount == |added| && successCount + errorCount == k
    {
      var student := rows[k];
      assert rows[..k + 1][..k] == rows[..k];
      var validationErrors := Validation.ValidateStudentUniqueness(students, student, None);
      if |validationErrors| == 0 {
        added := added + [student];
        successCount := successCount + 1;
      } else {
        errorCount := errorCount + 1;
      }
    }
    assert rows[..|rows|] == rows;
  }

  /** Two identical rows of a file with no matching student are both added, giving two students with one roll in one academic group. */
  lemma ImportAdmitsDuplicates(r: Validation.StudentFields, a: string, b: string)
    ensures AcceptedAsWritten([], [r, r]) == [r, r]
    ensures !Validation.RollsUnique([Validation.WithId(a, r), Validation.WithId(b, r)])
  {
    Validation.Accepted([], r, None);
    assert Admitted([], r);
    assert [r][..0] == [];
    assert AcceptedAsWritten([], [r]) == [r];
    assert [r, r][..1] == [r];
    assert AcceptedAsWritten([], [r, r]) == AcceptedAsWritten([], [r]) + [r];
    var t := [Validation.WithId(a, r), Validation.WithId(b, r)];
    assert t[0].roll == t[1].roll && t[0].academicGroup == t[1].academicGroup;
  }

  /**
   * The import corrected: each row is checked against the students loaded and
   * the rows added before it; `newId(k)` is the id the k-th record receives.
   * The result is the collection after the import.
   */
  function CheckedImport(students: seq<Student>, rows: seq<Validation.StudentFields>, newId: nat -> string): (r: seq<Student>)
    ensures students <= r && |r| <= |students| + |rows|
  {
    if rows == [] then students
    else
      var before := CheckedImport(students, rows[..|rows| - 1], newId);
      var f := rows[|rows| - 1];
      if Validation.ValidateStudentUniqueness(before, f, None) == [] then before + [Validation.WithId(newId(|before|), f)]
      else before
  }

  /** The corrected import keeps both uniqueness rules. */
  lemma {:induction false} CheckedImportKeepsUnique(students: seq<Student>, rows: seq<Validation.StudentFields>, newId: nat -> string)
    requires Validation.RollsUnique(students) && Validation.RolesUnique(students)
    ensures Validation.RollsUnique(CheckedImport(students, rows, newId)) && Validation.RolesUnique(CheckedImport(students, rows, newId))
    decreases |rows|
  {
    if rows != [] {
      var before := CheckedImport(students, rows[..|rows| - 1], newId);
      CheckedImportKeepsUnique(students, rows[..|rows| - 1], newId);
      var f := rows[|rows| - 1];
      if Validation.ValidateStudentUniqueness(before, f, None) == [] {
        Validation.AddKeepsUnique(before, newId(|before|), f);
      }
    }
  }

  /** On the two identical rows the corrected import adds one student. */
  lemma CheckedImportExample(r: Validation.StudentFields, newId: nat -> string)
    ensures CheckedImport([], [r, r], newId) == [Validation.WithId(newId(0), r)]
  {
    assert [r, r][..1] == [r];
    assert [r][..0] == [];
    var one := [Validation.WithId(newId(0), r)];
    assert CheckedImport([], [r], newId) == one;
    assert one[0] in one && Validation.RollClash(one[0], r, None);
  }
}
