/**
 * The record checks of rep2/app.js: the student form reader, which derives
 * each record key from the id of its input, the remote duplicate test and the
 * condition under which an edit runs it. A form is the map from the ids of
 * the inputs present on the page to their raw text; the remote collection is
 * the sequence of stored student records.
 */
module Rep2Validation {
  import opened Wrappers
  import opened Domain
  import opened Text
  import Seqs
  import Validation

  /** The middle parts of the input ids. */
  const Stems: seq<string> := ["Name", "Roll", "Gender", "Group", "Contact", "AcademicGroup", "Session", "Role"]

  /** The inputs `getStudentFormData` reads, in its order: `studentNameInput` to `studentRoleInput`. */
  const Rep2Fields: seq<string> := seq(|Stems|, i requires 0 <= i < |Stems| => "student" + Stems[i] + "Input")

  /** The keys the reader derives for them. */
  const DerivedKeys: seq<string> := ["name", "roll", "gender", "group", "contact", "academicgroup", "session", "role"]

  /** The record attributes the callers read for them. */
  const RecordNames: seq<string> := ["name", "roll", "gender", "groupId", "contact", "academicGroup", "session", "role"]

  /** The two inputs that may be left empty. */
  predicate Optional(field: string) {
    field == "studentContactInput" || field == "studentRoleInput"
  }

  /** The key derivation: the first `student` and the first `Input` removed, the rest lower-cased. */
  function FieldName(field: string): (key: string)
    ensures |key| <= |field|
    ensures forall k :: 0 <= k < |key| ==> !('A' <= key[k] <= 'Z')
  {
    AsciiLower(ReplaceFirst(ReplaceFirst(field, "student"), "Input"))
  }

  /**
   * What the reader builds from the inputs `fields`, keyed by `name`: an input
   * missing from the page is skipped, a required input that trims to nothing
   * makes the whole result `None`, any other adds its trimmed text.
   */
  function FormDataOf(form: map<string, string>, fields: seq<string>, name: string -> string): (r: Option<map<string, string>>)
    ensures r == None <==>
      exists i :: 0 <= i < |fields| && fields[i] in form && !Optional(fields[i]) && Trim(form[fields[i]]) == ""
    decreases |fields|
  {
    if fields == [] then Some(map[])
    else
      assert forall i :: 0 <= i < |fields| - 1 ==> fields[..|fields| - 1][i] == fields[i];
      match FormDataOf(form, fields[..|fields| - 1], name)
      case None => None
      case Some(d) => AddField(form, d, fields[|fields| - 1], name)
  }

  /** One step of the reader: input `f` skipped, refused, or added to `d`. */
  function AddField(form: map<string, string>, d: map<string, string>, f: string, name: string -> string): Option<map<string, string>> {
    if f !in form then Some(d)
    else if Trim(form[f]) == "" && !Optional(f) then None
    else Some(d[name(f) := Trim(form[f])])
  }

  /** `getStudentFormData`, which returns `null` at the first required input left empty. */
  method GetStudentFormData(form: map<string, string>) returns (r: Option<map<string, string>>)
    ensures r == FormDataOf(form, Rep2Fields, FieldName)
  {
    var data: map<string, string> := map[];
    var i := 0;
    while i < |Rep2Fields|
      invariant 0 <= i <= |Rep2Fields|
      invariant FormDataOf(form, Rep2Fields[..i], FieldName) == Some(data)
    {
      var field := Rep2Fields[i];
      assert Rep2Fields[..i + 1][..i] == Rep2Fields[..i];
      if field in form {
        var value := Trim(form[field]);
        if value == "" && field != "studentContactInput" && field != "studentRoleInput" {
          RefusalSticks(form, Rep2Fields, i + 1, FieldName);
          return None;
        }
        var fieldName := AsciiLower(ReplaceFirst(ReplaceFirst(field, "student"), "Input"));
        data := data[fieldName := value];
      }
      i := i + 1;
    }
    assert Rep2Fields[..i] == Rep2Fields;
    return Some(data);
  }

  /** Once a prefix of the inputs is refused, the whole form is. */
  lemma {:induction false} RefusalSticks(form: map<string, string>, fields: seq<string>, n: int, name: string -> string)
    requires 0 <= n <= |fields| && FormDataOf(form, fields[..n], name) == None
    ensures FormDataOf(form, fields, name) == None
    decreases |fields|
  {
    if n == |fields| {
      assert fields[..n] == fields;
    } else {
      var init := fields[..|fields| - 1];
      assert init[..n] == fields[..n];
      RefusalSticks(form, init, n, name);
    }
  }

  /** When the keys of the inputs are distinct, an accepted form holds a key exactly for the inputs present. */
  lemma {:induction false} FormDataMembers(form: map<string, string>, fields: seq<string>, name: string -> string)
    requires FormDataOf(form, fields, name).Some?
    requires forall i, j :: 0 <= i < j < |fields| ==> name(fields[i]) != name(fields[j])
    ensures forall i :: 0 <= i < |fields| ==> (name(fields[i]) in FormDataOf(form, fields, name).value <==> fields[i] in form)
    decreases |fields|
  {
    if fields != [] {
      var init := fields[..|fields| - 1];
      var f := fields[|fields| - 1];
      assert forall i :: 0 <= i < |init| ==> init[i] == fields[i];
      FormDataMembers(form, init, name);
      var d0 := FormDataOf(form, init, name).value;
      NamesApart(fields, name);
      if f !in form {
        FormDataKeys(form, init, name);
        assert name(f) !in d0;
      }
    }
  }

  /** When the keys of the inputs are distinct, each input present is stored with its trimmed text, and a missing one reads as `""`. */
  lemma {:induction false} FormDataValues(form: map<string, string>, fields: seq<string>, name: string -> string)
    requires FormDataOf(form, fields, name).Some?
    requires forall i, j :: 0 <= i < j < |fields| ==> name(fields[i]) != name(fields[j])
    ensures forall i :: 0 <= i < |fields| ==> Get(FormDataOf(form, fields, name).value, name(fields[i])) == Read(form, fields[i])
    decreases |fields|
  {
    if fields != [] {
      var init := fields[..|fields| - 1];
      var f := fields[|fields| - 1];
      FormDataValues(form, init, name);
      NamesApart(fields, name);
      var d0 := FormDataOf(form, init, name).value;
      var d := FormDataOf(form, fields, name).value;
      assert AddField(form, d0, f, name) == Some(d);
      if f !in form {
        FormDataKeys(form, init, name);
        assert name(f) !in d0;
      }
      forall i | 0 <= i < |fields|
        ensures Get(d, name(fields[i])) == Read(form, fields[i])
      {
        if i < |init| {
          assert fields[i] == init[i];
          AddFieldOther(form, d0, f, name, name(fields[i]));
        }
      }
    }
  }

  /** A step of the reader leaves every other key as it was. */
  lemma AddFieldOther(form: map<string, string>, d0: map<string, string>, f: string, name: string -> string, k: string)
    requires AddField(form, d0, f, name).Some? && k != name(f)
    ensures Get(AddField(form, d0, f, name).value, k) == Get(d0, k)
  {
  }

  /** The last input's key differs from every earlier one. */
  lemma NamesApart(fields: seq<string>, name: string -> string)
    requires fields != []
    requires forall i, j :: 0 <= i < j < |fields| ==> name(fields[i]) != name(fields[j])
    ensures forall i :: 0 <= i < |fields| - 1 ==> name(fields[i]) != name(fields[|fields| - 1])
  {
  }

  lemma FieldNameOf(x: string)
    requires forall k :: 0 <= k < |x| ==> x[k] != 'I'
    ensures FieldName("student" + x + "Input") == AsciiLower(x)
  {
    assert "student" + x + "Input" == "student" + (x + "Input");
    ReplaceFirstPrefix("student", x + "Input");
    ReplaceFirstAfter(x, "Input");
  }

  /** The eight keys the reader derives, among them `group` and `academicgroup`. */
  lemma FieldNames()
    ensures forall i :: 0 <= i < |Rep2Fields| ==> FieldName(Rep2Fields[i]) == DerivedKeys[i]
  {
    forall i | 0 <= i < |Rep2Fields|
      ensures FieldName(Rep2Fields[i]) == AsciiLower(Stems[i])
    {
      assert forall k :: 0 <= k < |Stems[i]| ==> Stems[i][k] != 'I';
      FieldNameOf(Stems[i]);
    }
    LoweredStems();
  }

  lemma LoweredStems()
    ensures forall i :: 0 <= i < |Stems| ==> AsciiLower(Stems[i]) == DerivedKeys[i]
  {
    assert AsciiLower("Name") == "name" && AsciiLower("Roll") == "roll";
    assert AsciiLower("Gender") == "gender" && AsciiLower("Group") == "group";
    assert AsciiLower("Contact") == "contact" && AsciiLower("AcademicGroup") == "academicgroup";
    assert AsciiLower("Session") == "session" && AsciiLower("Role") == "role";
  }

  /** The text of an input as a record attribute: trimmed, `""` when the input is missing. */
  function Read(form: map<string, string>, field: string): string {
    if field in form then Trim(form[field]) else ""
  }

  /** An attribute of the record the callers read; a key that is absent is `undefined`, here `""`. */
  function Get(d: map<string, string>, key: string): string {
    if key in d then d[key] else ""
  }

  /** The record `addStudent` reads from the form data, attribute by attribute. */
  function ToFields(d: map<string, string>): Validation.StudentFields {
    Validation.StudentFields(Get(d, "name"), Get(d, "roll"), Get(d, "gender"), Get(d, "groupId"),
      Get(d, "contact"), Get(d, "academicGroup"), Get(d, "session"), Get(d, "role"))
  }

  /** Every key of an accepted form is the key of one of its inputs. */
  lemma {:induction false} FormDataKeys(form: map<string, string>, fields: seq<string>, name: string -> string)
    requires FormDataOf(form, fields, name).Some?
    ensures forall k :: k in FormDataOf(form, fields, name).value ==> exists i :: 0 <= i < |fields| && name(fields[i]) == k
    decreases |fields|
  {
    if fields != [] {
      var init := fields[..|fields| - 1];
      assert forall i :: 0 <= i < |init| ==> init[i] == fields[i];
      FormDataKeys(form, init, name);
    }
  }

  /**
   * As written, no accepted form reaches its callers with a group or an
   * academic group: the keys are `group` and `academicgroup`, while the callers
   * read `groupId` and `academicGroup`.
   */
  lemma DerivedKeysMissed(form: map<string, string>)
    requires FormDataOf(form, Rep2Fields, FieldName).Some?
    ensures ToFields(FormDataOf(form, Rep2Fields, FieldName).value).academicGroup == ""
    ensures ToFields(FormDataOf(form, Rep2Fields, FieldName).value).groupId == ""
  {
    FieldNames();
    FormDataKeys(form, Rep2Fields, FieldName);
    assert forall i :: 0 <= i < |DerivedKeys| ==> DerivedKeys[i] != "academicGroup" && DerivedKeys[i] != "groupId";
  }

  /** The academic group typed is stored under `academicgroup`. */
  lemma DerivedAcademicGroup(form: map<string, string>)
    requires FormDataOf(form, Rep2Fields, FieldName).Some?
    ensures Get(FormDataOf(form, Rep2Fields, FieldName).value, "academicgroup") == Read(form, Rep2Fields[5])
  {
    FieldNames();
    DerivedKeysDistinct();
    FormDataMembers(form, Rep2Fields, FieldName);
    FormDataValues(form, Rep2Fields, FieldName);
  }

  lemma DerivedKeysDistinct()
    ensures forall i, j :: 0 <= i < j < |DerivedKeys| ==> DerivedKeys[i] != DerivedKeys[j]
  {
  }

  /** A form with every input filled in, whose academic group and group are lost on the way to the callers. */
  lemma DerivedKeysExample()
    ensures var form := map f | f in Rep2Fields :: "x";
      FormDataOf(form, Rep2Fields, FieldName).Some?
      && Read(form, Rep2Fields[5]) == "x" && ToFields(FormDataOf(form, Rep2Fields, FieldName).value).academicGroup == ""
      && Get(FormDataOf(form, Rep2Fields, FieldName).value, "academicgroup") == "x"
      && Read(form, Rep2Fields[3]) == "x" && ToFields(FormDataOf(form, Rep2Fields, FieldName).value).groupId == ""
  {
    var form := map f | f in Rep2Fields :: "x";
    assert Trim("x") == "x" by { TrimOfUnpadded("x"); }
    DerivedKeysMissed(form);
    DerivedAcademicGroup(form);
  }

  /** The derivation corrected: the two keys that miss their record attribute are renamed to it. */
  function IntendedName(field: string): string {
    var key := FieldName(field);
    if key == "group" then "groupId" else if key == "academicgroup" then "academicGroup" else key
  }

  /** The reader with the corrected keys. */
  function CorrectedFormData(form: map<string, string>): Option<map<string, string>> {
    FormDataOf(form, Rep2Fields, IntendedName)
  }

  lemma IntendedNames()
    ensures forall i :: 0 <= i < |Rep2Fields| ==> IntendedName(Rep2Fields[i]) == RecordNames[i]
  {
    FieldNames();
  }

  /** With the corrected keys every attribute the callers read carries its input's trimmed text. */
  lemma CorrectedFormDataRecord(form: map<string, string>)
    requires CorrectedFormData(form).Some?
    ensures ToFields(CorrectedFormData(form).value) == Validation.StudentFields(
      Read(form, Rep2Fields[0]), Read(form, Rep2Fields[1]), Read(form, Rep2Fields[2]), Read(form, Rep2Fields[3]),
      Read(form, Rep2Fields[4]), Read(form, Rep2Fields[5]), Read(form, Rep2Fields[6]), Read(form, Rep2Fields[7]))
  {
    IntendedNames();
    RecordNamesDistinct();
    FormDataValues(form, Rep2Fields, IntendedName);
    var d := CorrectedFormData(form).value;
    forall i | 0 <= i < |Rep2Fields|
      ensures Get(d, RecordNames[i]) == Read(form, Rep2Fields[i])
    {
    }
  }

  lemma RecordNamesDistinct()
    ensures forall i, j :: 0 <= i < j < |RecordNames| ==> RecordNames[i] != RecordNames[j]
  {
  }

  // ---------------------------------------------------------------------------
  // The remote duplicate test
  // ---------------------------------------------------------------------------

  /** The records the query on `roll` and `academicGroup` returns. */
  function Matching(records: seq<Student>, roll: string, academicGroup: string): seq<Student> {
    Seqs.Filter(records, (s: Student) => s.roll == roll && s.academicGroup == academicGroup)
  }

  /**
   * `checkStudentUniqueness(roll, academicGroup, excludeId)`: the query result
   * is non-empty and some returned record has an id other than `excludeId`.
   */
  function CheckStudentUniqueness(records: seq<Student>, roll: string, academicGroup: string, excludeId: Option<string>): (dup: bool)
    ensures dup <==> exists s :: s in records && s.roll == roll && s.academicGroup == academicGroup && Validation.NotExcluded(s, excludeId)
  {
    var matches := Matching(records, roll, academicGroup);
    Seqs.FilterFacts(records, (s: Student) => s.roll == roll && s.academicGroup == academicGroup);
    |matches| > 0 && exists s | s in matches :: Validation.NotExcluded(s, excludeId)
  }

  /** The remote test and the first rule of `validateStudentUniqueness` in google/app2.js flag the same records. */
  lemma DuplicateRulesAgree(records: seq<Student>, f: Validation.StudentFields, excludeId: Option<string>)
    ensures CheckStudentUniqueness(records, f.roll, f.academicGroup, excludeId)
      <==> Validation.RollTaken in Validation.ValidateStudentUniqueness(records, f, excludeId)
  {
  }

  /** `editStudent` consults the remote test only when the roll or the academic group changed. */
  predicate EditNeedsCheck(stored: Student, edited: Validation.StudentFields) {
    edited.roll != stored.roll || edited.academicGroup != stored.academicGroup
  }

  /** The edit is refused as a duplicate. */
  function EditRefused(records: seq<Student>, id: string, stored: Student, edited: Validation.StudentFields): (refused: bool)
    ensures refused ==> EditNeedsCheck(stored, edited)
    ensures refused <==> (EditNeedsCheck(stored, edited) &&
      exists s :: s in records && s.id != id && s.roll == edited.roll && s.academicGroup == edited.academicGroup)
  {
    EditNeedsCheck(stored, edited) && CheckStudentUniqueness(records, edited.roll, edited.academicGroup, Some(id))
  }

  /**
   * Skipping the test is sound: while rolls are unique per academic group, an
   * edit that keeps the stored roll and academic group would pass it anyway.
   */
  lemma EditSkipSound(records: seq<Student>, k: int, edited: Validation.StudentFields)
    requires Validation.RollsUnique(records) && 0 <= k < |records|
    requires !EditNeedsCheck(records[k], edited)
    ensures !CheckStudentUniqueness(records, edited.roll, edited.academicGroup, Some(records[k].id))
  {
    forall j | 0 <= j < |records| && records[j].id != records[k].id
      ensures !(records[j].roll == edited.roll && records[j].academicGroup == edited.academicGroup)
    {
      assert j != k;
    }
  }

  const DuplicateStudent: string := "এই রোল ও একাডেমিক গ্রুপের শিক্ষার্থী already exists"

  /**
   * `addStudent` with the corrected reader: the records after a new student is
   * added under `newId`, or the reason it is not.
   */
  function AddStudent(records: seq<Student>, form: map<string, string>, newId: string): (r: Result<seq<Student>>)
    ensures r.Ok? ==> CorrectedFormData(form).Some? && r.value == records + [Validation.WithId(newId, ToFields(CorrectedFormData(form).value))]
    ensures r.Failure? <==> CorrectedFormData(form).None? || CheckStudentUniqueness(
      records, ToFields(CorrectedFormData(form).value).roll, ToFields(CorrectedFormData(form).value).academicGroup, None)
  {
    match CorrectedFormData(form)
    case None => Failure(Validation.MissingFields)
    case Some(d) =>
      var f := ToFields(d);
      if CheckStudentUniqueness(records, f.roll, f.academicGroup, None) then Failure(DuplicateStudent)
      else Ok(records + [Validation.WithId(newId, f)])
  }

  /** Every add that succeeds keeps rolls unique within each academic group. */
  lemma AddStudentKeepsRollsUnique(records: seq<Student>, form: map<string, string>, newId: string)
    requires Validation.RollsUnique(records)
    requires AddStudent(records, form, newId).Ok?
    ensures Validation.RollsUnique(AddStudent(records, form, newId).value)
  {
    var f := ToFields(CorrectedFormData(form).value);
    var t := AddStudent(records, form, newId).value;
    forall i | 0 <= i < |records|
      ensures !(t[i].roll == f.roll && t[i].academicGroup == f.academicGroup)
    {
      assert t[i] == records[i] && records[i] in records;
    }
  }
}
