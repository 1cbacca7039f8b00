/**
 * The member counts and the list filters shared by google/app2.js and
 * rep2/app.js. `toLowerCase` on user text is the parameter `lower`; a search
 * term matches when it occurs in the lower-cased attribute.
 */
module Filters {
  import opened Domain
  import opened Text
  import Seqs

  // ---------------------------------------------------------------------------
  // Member counts
  // ---------------------------------------------------------------------------

  /** The students that carry group id `g`; a student without a group is never counted. */
  function CountIn(students: seq<Student>, g: string): (n: nat)
    ensures n <= |students|
  {
    if students == [] then 0
    else CountIn(students[..|students| - 1], g) + (if students[|students| - 1].groupId != "" && students[|students| - 1].groupId == g then 1 else 0)
  }

  /** A group id no student carries counts nothing. */
  lemma {:induction false} CountAbsent(students: seq<Student>, g: string)
    requires forall j :: 0 <= j < |students| && students[j].groupId != "" ==> students[j].groupId != g
    ensures CountIn(students, g) == 0
    decreases |students|
  {
    if students != [] {
      CountAbsent(students[..|students| - 1], g);
    }
  }

  /** The keys of the count map: every group's id and every non-empty group id a student carries. */
  ghost function CountKeys(groups: seq<Group>, students: seq<Student>): set<string> {
    (set i | 0 <= i < |groups| :: groups[i].id) + (set j | 0 <= j < |students| && students[j].groupId != "" :: students[j].groupId)
  }

  /**
   * `computeMemberCountMap`: every group starts at 0, then each student with a
   * group adds one to its group's entry, creating the entry when the id names
   * no group.
   */
  method ComputeMemberCountMap(groups: seq<Group>, students: seq<Student>) returns (m: map<string, int>)
    ensures m.Keys == CountKeys(groups, students)
    ensures forall k :: k in m ==> m[k] == CountIn(students, k)
  {
    m := map[];
    var i := 0;
    while i < |groups|
      invariant 0 <= i <= |groups|
      invariant m.Keys == set x | 0 <= x < i :: groups[x].id
      invariant forall k :: k in m ==> m[k] == 0
    {
      m := m[groups[i].id := 0];
      i := i + 1;
    }
    var j := 0;
    while j < |students|
      invariant 0 <= j <= |students|
      invariant m.Keys == CountKeys(groups, students[..j])
      invariant forall k :: k in m ==> m[k] == CountIn(students[..j], k)
    {
      var s := students[j];
      assert students[..j + 1][..j] == students[..j];
      if s.groupId != "" {
        if s.groupId !in m {
          CountAbsent(students[..j], s.groupId);
        }
        m := m[s.groupId := (if s.groupId in m then m[s.groupId] else 0) + 1];
      }
      CountKeysStep(groups, students, j);
      j := j + 1;
    }
    assert students[..j] == students;
  }

  lemma CountKeysStep(groups: seq<Group>, students: seq<Student>, j: int)
    requires 0 <= j < |students|
    ensures CountKeys(groups, students[..j + 1]) ==
      CountKeys(groups, students[..j]) + (if students[j].groupId != "" then {students[j].groupId} else {})
  {
    var p := students[..j + 1];
    assert forall x :: 0 <= x < j ==> p[x] == students[..j][x];
    if students[j].groupId != "" {
      assert p[j].groupId in CountKeys(groups, p);
    }
  }

  /** `SumOver(keys, students)`: the counts of the groups in `keys` added up. */
  function SumOver(keys: seq<string>, students: seq<Student>): nat {
    if keys == [] then 0 else SumOver(keys[..|keys| - 1], students) + CountIn(students, keys[|keys| - 1])
  }

  /** The number of students that have a group. */
  function Grouped(students: seq<Student>): nat {
    if students == [] then 0
    else Grouped(students[..|students| - 1]) + (if students[|students| - 1].groupId != "" then 1 else 0)
  }

  /**
   * The counts add up to the number of students with a group, over any
   * duplicate-free listing of the keys that holds every group id they carry.
   */
  lemma {:induction false} MemberCountsSum(keys: seq<string>, students: seq<Student>)
    requires Seqs.NoDuplicates(keys)
    requires forall s :: s in students && s.groupId != "" ==> s.groupId in keys
    ensures SumOver(keys, students) == Grouped(students)
    decreases |students|
  {
    if students == [] {
      SumOfNothing(keys, students);
    } else {
      var init := students[..|students| - 1];
      var last := students[|students| - 1];
      forall s | s in init && s.groupId != "" ensures s.groupId in keys {
        assert s in students;
      }
      MemberCountsSum(keys, init);
      SumStep(keys, init, last);
      assert init + [last] == students;
      if last.groupId != "" {
        assert last in students;
      }
    }
  }

  lemma {:induction false} SumOfNothing(keys: seq<string>, students: seq<Student>)
    requires students == []
    ensures SumOver(keys, students) == 0
    decreases |keys|
  {
    if keys != [] {
      SumOfNothing(keys[..|keys| - 1], students);
    }
  }

  /** One more student adds one to the sum exactly when its group is listed. */
  lemma {:induction false} SumStep(keys: seq<string>, students: seq<Student>, x: Student)
    requires Seqs.NoDuplicates(keys)
    ensures SumOver(keys, students + [x]) == SumOver(keys, students) + (if x.groupId != "" && x.groupId in keys then 1 else 0)
    decreases |keys|
  {
    if keys != [] {
      var init := keys[..|keys| - 1];
      var k := keys[|keys| - 1];
      assert (students + [x])[..|students + [x]| - 1] == students;
      SumStep(init, students, x);
      assert forall y :: y in keys <==> y in init || y == k;
      assert k !in init;
    }
  }

  /** A group's count is the length of its member list, as `getStudentsInGroup` returns it. */
  lemma CountOfGroup(students: seq<Student>, g: string)
    requires g != ""
    ensures CountIn(students, g) == |Seqs.Filter(students, (s: Student) => s.groupId == g)|
    decreases |students|
  {
    if students != [] {
      var init := students[..|students| - 1];
      CountOfGroup(init, g);
      FilterSnoc(init, students[|students| - 1], (s: Student) => s.groupId == g);
      assert init + [students[|students| - 1]] == students;
    }
  }

  lemma {:induction false} FilterSnoc<T>(s: seq<T>, x: T, p: T -> bool)
    ensures Seqs.Filter(s + [x], p) == Seqs.Filter(s, p) + (if p(x) then [x] else [])
    decreases |s|
  {
    if s == [] {
      assert [x][1..] == [];
    } else {
      var t := s + [x];
      var head := if p(s[0]) then [s[0]] else [];
      var tail := if p(x) then [x] else [];
      assert t[0] == s[0] && t[1..] == s[1..] + [x];
      FilterSnoc(s[1..], x, p);
      assert Seqs.Filter(t, p) == head + (Seqs.Filter(s[1..], p) + tail);
      assert Seqs.Filter(s, p) == head + Seqs.Filter(s[1..], p);
    }
  }

  // ---------------------------------------------------------------------------
  // List filters
  // ---------------------------------------------------------------------------

  /** The filter settings the pages keep. */
  datatype FilterSettings = FilterSettings(
    membersFilterGroupId: string, membersSearchTerm: string,
    cardsFilterGroupId: string, cardsSearchTerm: string, adminSearchTerm: string)

  /** The search test on the name, the roll and (when present) the academic group. */
  predicate MatchesTerm(s: Student, term: string, lower: string -> string) {
    Includes(lower(s.name), term) || Includes(lower(s.roll), term)
    || (s.academicGroup != "" && Includes(lower(s.academicGroup), term))
  }

  predicate PassesGroup(s: Student, groupId: string) {
    groupId == "" || s.groupId == groupId
  }

  predicate PassesSearch(s: Student, searchTerm: string, lower: string -> string) {
    searchTerm == "" || MatchesTerm(s, lower(searchTerm), lower)
  }

  /** The group filter, when a group is chosen, then the search filter, when a term is typed. */
  function FilterStudents(students: seq<Student>, groupId: string, searchTerm: string, lower: string -> string): (r: seq<Student>)
    ensures forall s :: s in r ==> s in students && PassesGroup(s, groupId) && PassesSearch(s, searchTerm, lower)
    ensures |r| <= |students|
    ensures groupId == "" && searchTerm == "" ==> r == students
  {
    Seqs.FilterFacts(students, (s: Student) => s.groupId == groupId);
    var byGroup := if groupId != "" then Seqs.Filter(students, (s: Student) => s.groupId == groupId) else students;
    if searchTerm != "" then
      var term := lower(searchTerm);
      Seqs.FilterFacts(byGroup, (s: Student) => MatchesTerm(s, term, lower));
      Seqs.Filter(byGroup, (s: Student) => MatchesTerm(s, term, lower))
    else byGroup
  }

  /**
   * The filtered list keeps, in their order, exactly the students that pass
   * both filters, and with neither filter set it is the whole list.
   */
  lemma FilterStudentsFacts(students: seq<Student>, groupId: string, searchTerm: string, lower: string -> string)
    ensures forall s :: s in FilterStudents(students, groupId, searchTerm, lower) <==>
      s in students && PassesGroup(s, groupId) && PassesSearch(s, searchTerm, lower)
    ensures Seqs.IsSubsequence(FilterStudents(students, groupId, searchTerm, lower), students)
    ensures FilterStudents(students, groupId, searchTerm, lower) ==
      Seqs.Filter(students, (s: Student) => PassesGroup(s, groupId) && PassesSearch(s, searchTerm, lower))
    ensures groupId == "" && searchTerm == "" ==> FilterStudents(students, groupId, searchTerm, lower) == students
  {
    var both := (s: Student) => PassesGroup(s, groupId) && PassesSearch(s, searchTerm, lower);
    var byGroup := (s: Student) => s.groupId == groupId;
    var term := lower(searchTerm);
    var bySearch := (s: Student) => MatchesTerm(s, term, lower);
    Seqs.FilterFacts(students, both);
    if groupId != "" && searchTerm != "" {
      Seqs.FilterTwice(students, byGroup, bySearch, both);
    } else if groupId != "" {
      FilterSame(students, byGroup, both);
    } else if searchTerm != "" {
      FilterSame(students, bySearch, both);
    } else {
      assert forall i :: 0 <= i < |students| ==> both(students[i]);
    }
  }

  /** Two tests that agree everywhere filter alike. */
  lemma {:induction false} FilterSame<T>(s: seq<T>, p: T -> bool, q: T -> bool)
    requires forall x :: p(x) == q(x)
    ensures Seqs.Filter(s, p) == Seqs.Filter(s, q)
  {
    if s != [] {
      FilterSame(s[1..], p, q);
    }
  }

  /** `getFilteredStudents(type)` of google/app2.js: the members filters, the cards filters, or no filter for another type. */
  function GetFilteredStudents(students: seq<Student>, filters: FilterSettings, kind: string, lower: string -> string): (r: seq<Student>)
    ensures kind != "members" && kind != "cards" ==> r == students
    ensures kind == "members" ==> r == FilterStudents(students, filters.membersFilterGroupId, filters.membersSearchTerm, lower)
    ensures kind == "cards" ==> r == FilterStudents(students, filters.cardsFilterGroupId, filters.cardsSearchTerm, lower)
  {
    if kind == "members" then FilterStudents(students, filters.membersFilterGroupId, filters.membersSearchTerm, lower)
    else if kind == "cards" then FilterStudents(students, filters.cardsFilterGroupId, filters.cardsSearchTerm, lower)
    else students
  }

  predicate AdminMatches(a: Admin, term: string, lower: string -> string) {
    Includes(lower(a.email), term) || Includes(lower(a.adminType), term)
  }

  /** `getFilteredAdmins`: the admins whose e-mail or type holds the lower-cased term, or all of them with no term. */
  function GetFilteredAdmins(admins: seq<Admin>, searchTerm: string, lower: string -> string): (r: seq<Admin>)
    ensures forall a :: a in r ==> a in admins && (searchTerm == "" || AdminMatches(a, lower(searchTerm), lower))
    ensures |r| <= |admins|
    ensures searchTerm == "" ==> r == admins
  {
    if searchTerm != "" then
      var term := lower(searchTerm);
      Seqs.FilterFacts(admins, (a: Admin) => AdminMatches(a, term, lower));
      Seqs.Filter(admins, (a: Admin) => AdminMatches(a, term, lower))
    else admins
  }

  lemma FilteredAdminsFacts(admins: seq<Admin>, searchTerm: string, lower: string -> string)
    ensures forall a :: a in GetFilteredAdmins(admins, searchTerm, lower) <==>
      a in admins && (searchTerm == "" || AdminMatches(a, lower(searchTerm), lower))
    ensures Seqs.IsSubsequence(GetFilteredAdmins(admins, searchTerm, lower), admins)
    ensures searchTerm == "" ==> GetFilteredAdmins(admins, searchTerm, lower) == admins
  {
    var term := lower(searchTerm);
    Seqs.FilterFacts(admins, (a: Admin) => AdminMatches(a, term, lower));
    if searchTerm == "" {
      Seqs.FilterFacts(admins, (a: Admin) => true);
      assert Seqs.IsSubsequence(admins, admins) by { SubsequenceRefl(admins); }
    }
  }

  lemma {:induction false} SubsequenceRefl<T>(s: seq<T>)
    ensures Seqs.IsSubsequence(s, s)
  {
    if s != [] {
      SubsequenceRefl(s[1..]);
    }
  }
}
