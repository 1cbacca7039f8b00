/**
 * The record checks of google/app2.js: the three uniqueness rules applied
 * before a student is saved, the role check of a role change, the readers of
 * the student and task forms, and the e-mail pattern (which rep2/app.js and
 * google/app.js share). The students are the in-memory list the checks
 * consult; a form is the raw text of its inputs, a missing input reading as
 * the empty string.
 */
module Validation {
  import opened Wrappers
  import opened Domain
  import opened Text
  import Seqs

  // ---------------------------------------------------------------------------
  // E-mail addresses
  // ---------------------------------------------------------------------------

  /** A character of the class `[^\s@]`. */
  predicate Plain(c: char) {
    !IsJsWhitespace(c) && c != '@'
  }

  /**
   * `validateEmail`: the pattern `^[^\s@]+@[^\s@]+\.[^\s@]+$`. Its three runs
   * exclude `@`, so the address has one `@` at some `i > 0`, every other
   * character belongs to the class, and some `.` sits at least two places
   * after the `@` and before the last character.
   */
  predicate ValidateEmail(e: string)
    ensures ValidateEmail(e) ==> |e| >= 5 && e[0] != '@' && e[|e| - 1] != '@'
  {
    exists i, k | 0 < i < k < |e| - 1 ::
      e[i] == '@' && e[k] == '.' && i + 1 < k && forall m | 0 <= m < |e| :: m == i || Plain(e[m])
  }

  /** A valid address holds exactly one `@`, no white space, does not start with `@` and is at least five characters long. */
  lemma EmailShape(e: string)
    requires ValidateEmail(e)
    ensures exists i :: 0 < i < |e| && e[i] == '@' && forall m :: 0 <= m < |e| && e[m] == '@' ==> m == i
    ensures forall m :: 0 <= m < |e| ==> !IsJsWhitespace(e[m])
    ensures e[0] != '@' && |e| >= 5
  {
    var i, k :| 0 < i < k < |e| - 1 && e[i] == '@' && e[k] == '.' && i + 1 < k
      && forall m | 0 <= m < |e| :: m == i || Plain(e[m]);
    assert Plain(e[0]);
  }

  /** The pattern on a few addresses. */
  lemma EmailExamples()
    ensures ValidateEmail("a@b.cd")
    ensures !ValidateEmail("a@b") && !ValidateEmail("@b.cd") && !ValidateEmail("a@.cd")
    ensures !ValidateEmail("a b@c.de") && !ValidateEmail("a@b@c.de")
  {
    var e := "a@b.cd";
    assert e[1] == '@' && e[3] == '.' && forall m | 0 <= m < |e| :: m == 1 || Plain(e[m]);
    var f := "a@.cd";
    assert forall i, k | 0 < i < k < |f| - 1 && f[i] == '@' && f[k] == '.' :: i + 1 == k;
    var g := "a b@c.de";
    assert g[1] == ' ' && !Plain(g[1]);
    var h := "a@b@c.de";
    assert !Plain(h[1]) && !Plain(h[3]);
  }

  // ---------------------------------------------------------------------------
  // Uniqueness of a student record
  // ---------------------------------------------------------------------------

  /** A student record without its document id, as the forms produce it. */
  datatype StudentFields = StudentFields(
    name: string, roll: string, gender: string, groupId: string,
    contact: string, academicGroup: string, session: string, role: string)

  function WithId(id: string, f: StudentFields): (s: Student)
    ensures s.id == id && s.roll == f.roll && s.academicGroup == f.academicGroup
    ensures s.groupId == f.groupId && s.role == f.role
  {
    Student(id, f.name, f.roll, f.gender, f.groupId, f.contact, f.academicGroup, f.session, f.role)
  }

  const RollTaken: string := "এই রোল ও একাডেমিক গ্রুপের শিক্ষার্থী ইতিমধ্যে আছে"
  const RoleTaken: string := "এই গ্রুপে এই দায়িত্ব ইতিমধ্যে অন্য শিক্ষার্থীর আছে"
  const GroupChange: string := "একজন শিক্ষার্থী একাধিক গ্রুপে থাকতে পারবে না"

  /** `s.id !== excludeId`; with no id to exclude (`null`) every student passes. */
  predicate NotExcluded(s: Student, excludeId: Option<string>) {
    excludeId.None? || s.id != excludeId.value
  }

  predicate RollClash(s: Student, f: StudentFields, excludeId: Option<string>) {
    NotExcluded(s, excludeId) && s.roll == f.roll && s.academicGroup == f.academicGroup
  }

  predicate RoleClash(s: Student, f: StudentFields, excludeId: Option<string>) {
    NotExcluded(s, excludeId) && s.groupId == f.groupId && s.role == f.role
  }

  /** The edited student's stored record sits in another group. */
  predicate Moved(s: Student, f: StudentFields, excludeId: Option<string>) {
    excludeId.Some? && s.id == excludeId.value && s.groupId != f.groupId
  }

  /** An edit: an id to exclude that is a non-empty string (JavaScript's truthiness test). */
  predicate Editing(excludeId: Option<string>) {
    excludeId.Some? && excludeId.value != ""
  }

  /** The message of the first rule, when some other student has the same roll in the same academic group. */
  function RollErrors(students: seq<Student>, f: StudentFields, excludeId: Option<string>): (e: seq<string>)
    ensures e == [] || e == [RollTaken]
    ensures e != [] <==> exists s :: s in students && RollClash(s, f, excludeId)
  {
    if Seqs.Find(students, (s: Student) => RollClash(s, f, excludeId)).Some? then [RollTaken] else []
  }

  /** The message of the second rule, when another student of the group already holds the role. */
  function RoleErrors(students: seq<Student>, f: StudentFields, excludeId: Option<string>): (e: seq<string>)
    ensures e == [] || e == [RoleTaken]
    ensures e != [] <==> f.role != "" && f.groupId != "" && exists s :: s in students && RoleClash(s, f, excludeId)
  {
    if f.role != "" && f.groupId != "" && Seqs.Find(students, (s: Student) => RoleClash(s, f, excludeId)).Some?
    then [RoleTaken] else []
  }

  /** The message of the third rule, when an edit would move the student to another group. */
  function GroupErrors(students: seq<Student>, f: StudentFields, excludeId: Option<string>): (e: seq<string>)
    ensures e == [] || e == [GroupChange]
    ensures e != [] <==> f.groupId != "" && Editing(excludeId) && exists s :: s in students && Moved(s, f, excludeId)
  {
    if f.groupId != "" && Editing(excludeId) && Seqs.Find(students, (s: Student) => Moved(s, f, excludeId)).Some?
    then [GroupChange] else []
  }

  /** One message of each kind at most, in the order of the rules. */
  lemma ErrorsInOrder(e1: seq<string>, e2: seq<string>, e3: seq<string>)
    requires e1 == [] || e1 == [RollTaken]
    requires e2 == [] || e2 == [RoleTaken]
    requires e3 == [] || e3 == [GroupChange]
    ensures Seqs.IsSubsequence(e1 + e2 + e3, [RollTaken, RoleTaken, GroupChange])
  {
    assert Seqs.IsSubsequence(e3, [GroupChange]);
    assert Seqs.IsSubsequence(e2 + e3, [RoleTaken, GroupChange]) by {
      if e2 == [] {
        assert [RoleTaken, GroupChange][1..] == [GroupChange];
      } else {
        assert (e2 + e3)[1..] == e3;
      }
    }
    assert [RollTaken, RoleTaken, GroupChange][1..] == [RoleTaken, GroupChange];
    if e1 != [] {
      assert (e1 + e2 + e3)[1..] == e2 + e3;
    } else {
      assert e1 + e2 + e3 == e2 + e3;
    }
  }

  /**
   * `validateStudentUniqueness(student, excludeId)`: each rule adds its own
   * message, the three in this order, all of them returned together.
   */
  function ValidateStudentUniqueness(students: seq<Student>, f: StudentFields, excludeId: Option<string>): (errors: seq<string>)
    ensures RollTaken in errors <==> exists s :: s in students && RollClash(s, f, excludeId)
    ensures RoleTaken in errors <==>
      f.role != "" && f.groupId != "" && exists s :: s in students && RoleClash(s, f, excludeId)
    ensures GroupChange in errors <==>
      f.groupId != "" && Editing(excludeId) && exists s :: s in students && Moved(s, f, excludeId)
    ensures Seqs.IsSubsequence(errors, [RollTaken, RoleTaken, GroupChange])
  {
    var e1 := RollErrors(students, f, excludeId);
    var e2 := RoleErrors(students, f, excludeId);
    var e3 := GroupErrors(students, f, excludeId);
    ErrorsInOrder(e1, e2, e3);
    assert RollTaken != RoleTaken && RollTaken != GroupChange && RoleTaken != GroupChange;
    e1 + e2 + e3
  }

  /** A record passes exactly when none of the three rules fires. */
  lemma Accepted(students: seq<Student>, f: StudentFields, excludeId: Option<string>)
    ensures ValidateStudentUniqueness(students, f, excludeId) == [] <==>
      (forall s :: s in students ==> !RollClash(s, f, excludeId))
      && (f.role != "" && f.groupId != "" ==> forall s :: s in students ==> !RoleClash(s, f, excludeId))
      && (f.groupId != "" && Editing(excludeId) ==> forall s :: s in students ==> !Moved(s, f, excludeId))
  {
    var e := ValidateStudentUniqueness(students, f, excludeId);
    Seqs.SubsequenceMembers(e, [RollTaken, RoleTaken, GroupChange]);
    if e != [] {
      assert e[0] in e;
    }
  }

  /** No two students share a roll within one academic group. */
  ghost predicate RollsUnique(students: seq<Student>) {
    forall i, j :: 0 <= i < j < |students| ==>
      !(students[i].roll == students[j].roll && students[i].academicGroup == students[j].academicGroup)
  }

  /** No role is held twice within one group. */
  ghost predicate RolesUnique(students: seq<Student>) {
    forall i, j :: 0 <= i < j < |students| && students[i].groupId != "" && students[i].role != "" ==>
      !(students[i].groupId == students[j].groupId && students[i].role == students[j].role)
  }

  /** Adding a record the checks accept keeps both uniqueness rules. */
  lemma AddKeepsUnique(students: seq<Student>, id: string, f: StudentFields)
    requires RollsUnique(students) && RolesUnique(students)
    requires ValidateStudentUniqueness(students, f, None) == []
    ensures RollsUnique(students + [WithId(id, f)]) && RolesUnique(students + [WithId(id, f)])
  {
    var t := students + [WithId(id, f)];
    forall i | 0 <= i < |students|
      ensures !(t[i].roll == f.roll && t[i].academicGroup == f.academicGroup)
      ensures f.groupId != "" && f.role != "" ==> !(t[i].groupId == f.groupId && t[i].role == f.role)
    {
      assert t[i] == students[i] && students[i] in students;
    }
  }

  /** `students` with the record of `id` replaced by the edited fields. */
  function Replaced(students: seq<Student>, id: string, f: StudentFields): (r: seq<Student>)
    ensures |r| == |students|
    ensures forall i :: 0 <= i < |r| ==> r[i] == (if students[i].id == id then WithId(id, f) else students[i])
  {
    seq(|students|, i requires 0 <= i < |students| => if students[i].id == id then WithId(id, f) else students[i])
  }

  /**
   * An edit the checks accept keeps both uniqueness rules, and when the edit
   * names a group the student stays in the group stored for it.
   */
  lemma EditKeepsUnique(students: seq<Student>, id: string, f: StudentFields)
    requires DistinctIds(students) && RollsUnique(students) && RolesUnique(students)
    requires ValidateStudentUniqueness(students, f, Some(id)) == []
    ensures RollsUnique(Replaced(students, id, f)) && RolesUnique(Replaced(students, id, f))
    ensures id != "" && f.groupId != "" ==> forall s :: s in students && s.id == id ==> s.groupId == f.groupId
  {
    var r := Replaced(students, id, f);
    forall i, j | 0 <= i < j < |r|
      ensures !(r[i].roll == r[j].roll && r[i].academicGroup == r[j].academicGroup)
      ensures r[i].groupId != "" && r[i].role != "" ==> !(r[i].groupId == r[j].groupId && r[i].role == r[j].role)
    {
      assert students[i] in students && students[j] in students;
      assert !(students[i].id == id && students[j].id == id);
    }
  }

  // ---------------------------------------------------------------------------
  // Role changes
  // ---------------------------------------------------------------------------

  /** Another student of `group` already holds `role`. */
  predicate HoldsRole(s: Student, studentId: string, group: string, role: string) {
    s.id != studentId && s.groupId == group && s.role == role
  }

  /**
   * The guard of `updateStudentRole(studentId, newRole)`: a non-empty role is
   * refused when another student of the first record with that id's group
   * already holds it; clearing a role, or an id not in the list, is let through.
   */
  function RoleAssignable(students: seq<Student>, studentId: string, newRole: string): (ok: bool)
    ensures newRole == "" ==> ok
    ensures (forall s :: s in students ==> s.id != studentId) ==> ok
    ensures !ok ==> exists s, t :: s in students && t in students && s.id == studentId && HoldsRole(t, studentId, s.groupId, newRole)
  {
    match Seqs.Find(students, (s: Student) => s.id == studentId)
    case None => true
    case Some(st) =>
      assert st in students && st.id == studentId;
      var holder := Seqs.Find(students, (s: Student) => HoldsRole(s, studentId, st.groupId, newRole));
      assert holder.Some? ==> holder.value in students && HoldsRole(holder.value, studentId, st.groupId, newRole);
      newRole == "" || holder.None?
  }

  /** With distinct ids the guard refuses exactly the role some group-mate already holds. */
  lemma RoleAssignableExactly(students: seq<Student>, studentId: string, newRole: string, k: int)
    requires DistinctIds(students) && 0 <= k < |students| && students[k].id == studentId
    ensures !RoleAssignable(students, studentId, newRole) <==>
      newRole != "" && exists t :: t in students && HoldsRole(t, studentId, students[k].groupId, newRole)
  {
    var found := Seqs.Find(students, (s: Student) => s.id == studentId);
    assert found.Some? && found.value == students[k];
  }

  /** The records after the update: the role of every record with that id replaced. */
  function AssignRole(students: seq<Student>, studentId: string, newRole: string): (r: seq<Student>)
    ensures |r| == |students|
    ensures forall i :: 0 <= i < |r| ==> r[i] == (if students[i].id == studentId then students[i].(role := newRole) else students[i])
  {
    seq(|students|, i requires 0 <= i < |students| =>
      if students[i].id == studentId then students[i].(role := newRole) else students[i])
  }

  /** A role change the guard lets through keeps every role unique within its group. */
  lemma RoleChangeKeepsUnique(students: seq<Student>, studentId: string, newRole: string)
    requires DistinctIds(students) && RolesUnique(students)
    requires RoleAssignable(students, studentId, newRole)
    ensures RolesUnique(AssignRole(students, studentId, newRole))
  {
    var r := AssignRole(students, studentId, newRole);
    forall i, j | 0 <= i < j < |r| && r[i].groupId != "" && r[i].role != ""
      ensures !(r[i].groupId == r[j].groupId && r[i].role == r[j].role)
    {
      if students[i].id == studentId || students[j].id == studentId {
        var k := if students[i].id == studentId then i else j;
        var o := if k == i then j else i;
        assert students[o].id != studentId;
        if newRole != "" {
          RoleAssignableExactly(students, studentId, newRole, k);
          assert students[o] in students;
        }
      }
    }
  }

  // ---------------------------------------------------------------------------
  // Form readers
  // ---------------------------------------------------------------------------

  const MissingFields: string := "সমস্ত প্রয়োজনীয় তথ্য পূরণ করুন"
  const NameTooLong: string := "নাম ১০০ অক্ষরের মধ্যে হতে হবে"
  const RollTooLong: string := "রোল ২০ অক্ষরের মধ্যে হতে হবে"

  /** The six required inputs are non-empty: name, roll, academic group and session after trimming. */
  predicate Complete(form: StudentFields) {
    Trim(form.name) != "" && Trim(form.roll) != "" && form.gender != "" && form.groupId != ""
    && Trim(form.academicGroup) != "" && Trim(form.session) != ""
  }

  /** A record as the reader leaves it: name, roll, contact, academic group and session carry no surrounding white space. */
  predicate Clean(f: StudentFields) {
    Trim(f.name) == f.name && Trim(f.roll) == f.roll && Trim(f.contact) == f.contact
    && Trim(f.academicGroup) == f.academicGroup && Trim(f.session) == f.session
  }

  /**
   * `getStudentFormData`: the form with five text inputs trimmed (gender, group
   * and role are taken as they are), refused when a required input is empty,
   * then when the name exceeds 100 or the roll 20 UTF-16 code units.
   */
  function StudentFormData(form: StudentFields): (r: Result<StudentFields>)
    ensures r.Ok? <==> Complete(form) && Utf16Length(Trim(form.name)) <= 100 && Utf16Length(Trim(form.roll)) <= 20
    ensures !Complete(form) ==> r == Failure(MissingFields)
    ensures Complete(form) && Utf16Length(Trim(form.name)) > 100 ==> r == Failure(NameTooLong)
    ensures Complete(form) && Utf16Length(Trim(form.name)) <= 100 && Utf16Length(Trim(form.roll)) > 20 ==> r == Failure(RollTooLong)
    ensures r.Ok? ==> Clean(r.value) && Complete(r.value)
    ensures r.Ok? ==> r.value.gender == form.gender && r.value.groupId == form.groupId && r.value.role == form.role
    ensures r.Ok? ==> r.value.name == Trim(form.name) && r.value.roll == Trim(form.roll)
    ensures r.Ok? ==> r.value.contact == Trim(form.contact)
    ensures r.Ok? ==> r.value.academicGroup == Trim(form.academicGroup) && r.value.session == Trim(form.session)
  {
    var f := StudentFields(Trim(form.name), Trim(form.roll), form.gender, form.groupId,
      Trim(form.contact), Trim(form.academicGroup), Trim(form.session), form.role);
    TrimTwice(form.name);
    TrimTwice(form.roll);
    TrimTwice(form.contact);
    TrimTwice(form.academicGroup);
    TrimTwice(form.session);
    if !Complete(form) then Failure(MissingFields)
    else if Utf16Length(f.name) > 100 then Failure(NameTooLong)
    else if Utf16Length(f.roll) > 20 then Failure(RollTooLong)
    else Ok(f)
  }

  lemma TrimTwice(s: string)
    ensures Trim(Trim(s)) == Trim(s)
  {
    TrimOfUnpadded(Trim(s));
  }

  /** Reading back an accepted record accepts it unchanged. */
  lemma StudentFormDataIdempotent(form: StudentFields)
    requires StudentFormData(form).Ok?
    ensures StudentFormData(StudentFormData(form).value) == StudentFormData(form)
  {
    var f := StudentFormData(form).value;
    assert Trim(f.name) == f.name && Trim(f.roll) == f.roll;
  }

  /** The raw task form: name, description, maximum score and date as typed. */
  datatype TaskForm = TaskForm(name: string, description: string, maxScore: string, date: string)

  datatype TaskData = TaskData(name: string, description: string, maxScore: int, date: string)

  const MissingTaskFields: string := "সমস্ত তথ্য পূরণ করুন"
  const TaskNameTooLong: string := "টাস্ক নাম ১০০ অক্ষরের মধ্যে হতে হবে"
  const DescriptionTooLong: string := "বিবরণ ৫০০ অক্ষরের মধ্যে হতে হবে"
  const MaxScoreOutOfRange: string := "সর্বোচ্চ স্কোর ১-১০০০ এর মধ্যে হতে হবে"

  predicate TaskAccepted(form: TaskForm) {
    var n := Trim(form.name);
    var d := Trim(form.description);
    n != "" && d != "" && form.date != "" && ParseInt(form.maxScore).Some?
    && Utf16Length(n) <= 100 && Utf16Length(d) <= 500
    && 1 <= ParseInt(form.maxScore).value <= 1000
  }

  /**
   * `getTaskFormData`: name and description trimmed and the maximum score read
   * with `parseInt`; refused, in this order, for an empty or unreadable input,
   * a name over 100 or a description over 500 code units, and a maximum score
   * outside 1..1000.
   */
  function TaskFormData(form: TaskForm): (r: Result<TaskData>)
    ensures r.Ok? <==> TaskAccepted(form)
    ensures r.Ok? ==> 1 <= r.value.maxScore <= 1000 && Some(r.value.maxScore) == ParseInt(form.maxScore)
    ensures r.Ok? ==> r.value.name == Trim(form.name) && r.value.description == Trim(form.description) && r.value.date == form.date
    ensures r.Failure? && r.error == MaxScoreOutOfRange ==> ParseInt(form.maxScore).Some? && !(1 <= ParseInt(form.maxScore).value <= 1000)
    ensures Trim(form.name) == "" || Trim(form.description) == "" || form.date == "" || ParseInt(form.maxScore).None?
      ==> r == Failure(MissingTaskFields)
  {
    var name := Trim(form.name);
    var description := Trim(form.description);
    var maxScore := ParseInt(form.maxScore);
    if name == "" || description == "" || maxScore.None? || form.date == "" then Failure(MissingTaskFields)
    else if Utf16Length(name) > 100 then Failure(TaskNameTooLong)
    else if Utf16Length(description) > 500 then Failure(DescriptionTooLong)
    else if maxScore.value < 1 || maxScore.value > 1000 then Failure(MaxScoreOutOfRange)
    else Ok(TaskData(name, description, maxScore.value, form.date))
  }

  /** A maximum score typed as its decimal digits is read back as that number. */
  lemma TaskMaxScoreRead(name: string, description: string, n: int, date: string)
    requires Trim(name) != "" && Trim(description) != "" && date != ""
    requires Utf16Length(Trim(name)) <= 100 && Utf16Length(Trim(description)) <= 500
    ensures 1 <= n <= 1000 ==> TaskFormData(TaskForm(name, description, IntToDecimal(n), date)).Ok?
    ensures 1 <= n <= 1000 ==> TaskFormData(TaskForm(name, description, IntToDecimal(n), date)).value.maxScore == n
    ensures !(1 <= n <= 1000) ==> TaskFormData(TaskForm(name, description, IntToDecimal(n), date)) == Failure(MaxScoreOutOfRange)
  {
    ParseIntOfDecimal(n);
  }
}
