/** The list transforms applied to the registry: add after validation, delete by roll
    number, edit by roll number, and the free-text search. */
module Records {
  import opened Text
  import opened Students
  import opened Validation
  import opened Wrappers

  /** The record an accepted add creates: the form's fields, with the encoded photo when
      one was attached and the placeholder image otherwise. */
  function NewRecord(form: Student, image: Option<string>): (s: Student)
    ensures s.rollNo == form.rollNo && s.name == form.name
    ensures s.email == form.email && s.enrolledCourse == form.enrolledCourse
    ensures image == None ==> s.profileImage == DefaultImage
    ensures image != None ==> s.profileImage == image.value
  {
    form.(profileImage := image.GetOr(DefaultImage))
  }

  /** The add handler's list update. A refused form yields the gate's error and no list;
      an accepted one appends exactly one record after the untouched old records. */
  function AddStudent(students: seq<Student>, form: Student, image: Option<string>)
    : (r: Result<seq<Student>, AddError>)
    ensures Validate(form, students).Some? <==> r.Failure?
    ensures r.Failure? ==> r.error == Validate(form, students).value
    ensures r.Success? ==> r.value == students + [NewRecord(form, image)]
  {
    match Validate(form, students)
    case Some(e) => Failure(e)
    case None => Success(students + [NewRecord(form, image)])
  }

  /** Because of the duplicate check, an accepted add keeps roll numbers pairwise distinct. */
  lemma AddKeepsDistinct(students: seq<Student>, form: Student, image: Option<string>)
    requires DistinctRolls(students)
    ensures AddStudent(students, form, image).Success? ==>
      DistinctRolls(AddStudent(students, form, image).value)
  {
  }

  /** The delete handler's list update: every record whose roll number differs from the
      argument, in order. Nothing matching leaves the list as it was. */
  function DeleteStudent(students: seq<Student>, rollNo: string): (r: seq<Student>)
    ensures SubsequenceOf(r, students)
    ensures forall x :: multiset(r)[x] == if x.rollNo != rollNo then multiset(students)[x] else 0
    ensures rollNo !in Rolls(students) ==> r == students
    ensures DistinctRolls(students) ==> DistinctRolls(r)
  {
    var keep := (s: Student) => s.rollNo != rollNo;
    FilterExact(students, keep);
    FilterKeepsDistinct(students, keep);
    if rollNo !in Rolls(students) then
      FilterKeepsAll(students, keep);
      Filter(students, keep)
    else
      Filter(students, keep)
  }

  /** The edit "Save Changes" list update: each record carrying the edited roll number is
      replaced by the edited copy, with the newly encoded photo when one was attached and
      the copy's own image otherwise; every other record is left alone. */
  function EditStudent(students: seq<Student>, selected: Student, image: Option<string>)
    : (r: seq<Student>)
    ensures |r| == |students|
  {
    if students == [] then []
    else
      var head := if students[0].rollNo == selected.rollNo
                  then selected.(profileImage := image.GetOr(selected.profileImage))
                  else students[0];
      [head] + EditStudent(students[1..], selected, image)
  }

  /** Position by position: a record with another roll number is unchanged, and one with
      the edited roll number takes the copy's name, email and course and the new photo,
      or the copy's own image when none was attached. */
  lemma {:induction false} EditStudentAt(students: seq<Student>, selected: Student, image: Option<string>)
    ensures forall i :: 0 <= i < |students| && students[i].rollNo != selected.rollNo ==>
      EditStudent(students, selected, image)[i] == students[i]
    ensures forall i :: 0 <= i < |students| && students[i].rollNo == selected.rollNo ==>
      var e := EditStudent(students, selected, image)[i];
      e.name == selected.name && e.email == selected.email && e.enrolledCourse == selected.enrolledCourse
      && e.profileImage == (if image == None then selected.profileImage else image.value)
  {
    if students != [] {
      EditStudentAt(students[1..], selected, image);
      var r := EditStudent(students, selected, image);
      forall i | 1 <= i < |students| ensures r[i] == EditStudent(students[1..], selected, image)[i - 1] {
      }
    }
  }

  /** An edit keeps every roll number in place. */
  lemma {:induction false} EditKeepsRolls(students: seq<Student>, selected: Student, image: Option<string>)
    ensures Rolls(EditStudent(students, selected, image)) == Rolls(students)
  {
    if students != [] {
      EditKeepsRolls(students[1..], selected, image);
    }
  }

  /** The dialog opens on a copy of a shown record and never changes its roll number
      or image. Saving such a copy without a new photo keeps the stored image of every
      record it replaces. */
  lemma EditKeepsImageWithoutPhoto(students: seq<Student>, selected: Student, i: int)
    requires 0 <= i < |students| && students[i].rollNo == selected.rollNo
    requires selected.profileImage == students[i].profileImage
    ensures EditStudent(students, selected, None)[i].profileImage == students[i].profileImage
  {
    EditStudentAt(students, selected, None);
  }

  /** Saving, without a new photo, a copy equal to every record that carries its roll
      number changes nothing. */
  lemma {:induction false} EditWithSameCopy(students: seq<Student>, selected: Student)
    requires forall j :: 0 <= j < |students| && students[j].rollNo == selected.rollNo ==>
      students[j] == selected
    ensures EditStudent(students, selected, None) == students
  {
    if students != [] {
      EditWithSameCopy(students[1..], selected);
      assert students == [students[0]] + students[1..];
    }
  }

  /** With distinct roll numbers, saving an unchanged copy of a record without a new
      photo leaves the registry as it was. */
  lemma EditUnchangedCopy(students: seq<Student>, i: int)
    requires DistinctRolls(students) && 0 <= i < |students|
    ensures EditStudent(students, students[i], None) == students
  {
    EditWithSameCopy(students, students[i]);
  }

  /** An edit keeps every roll number in place, so it keeps them distinct. */
  lemma EditKeepsDistinct(students: seq<Student>, selected: Student, image: Option<string>)
    requires DistinctRolls(students)
    ensures DistinctRolls(EditStudent(students, selected, image))
  {
    var r := EditStudent(students, selected, image);
    EditKeepsRolls(students, selected, image);
    forall i, j | 0 <= i < j < |r| ensures r[i].rollNo != r[j].rollNo {
      assert Rolls(r)[i] == Rolls(students)[i] && Rolls(r)[j] == Rolls(students)[j];
    }
  }

  /** An edit whose roll number is in no record changes nothing. */
  lemma EditAbsentRoll(students: seq<Student>, selected: Student, image: Option<string>)
    requires selected.rollNo !in Rolls(students)
    ensures EditStudent(students, selected, image) == students
  {
    EditStudentAt(students, selected, image);
  }

  /** The search predicate: the lower-cased query is included in the lower-cased name,
      email or course. */
  function MatchesQuery(s: Student, query: string): bool {
    var q := Lower(query);
    Includes(Lower(s.name), q) || Includes(Lower(s.email), q) || Includes(Lower(s.enrolledCourse), q)
  }

  /** A record matches exactly when the lower-cased query occurs at some position of one
      of its three lower-cased text fields. */
  lemma {:induction false} MatchesQueryIff(s: Student, query: string)
    ensures MatchesQuery(s, query) <==>
      Occurs(Lower(s.name), Lower(query)) || Occurs(Lower(s.email), Lower(query))
      || Occurs(Lower(s.enrolledCourse), Lower(query))
  {
    IncludesIff(Lower(s.name), Lower(query));
    IncludesIff(Lower(s.email), Lower(query));
    IncludesIff(Lower(s.enrolledCourse), Lower(query));
  }

  /** The empty query matches every record. */
  lemma EmptyQueryMatchesAll(students: seq<Student>)
    ensures forall i :: 0 <= i < |students| ==> MatchesQuery(students[i], [])
  {
  }

  /** The search handler's filter: the records of the registry that match, in registry
      order (SearchCounts says which); the empty query keeps every record. */
  function Search(students: seq<Student>, query: string): (r: seq<Student>)
    ensures SubsequenceOf(r, students)
    ensures query == [] ==> r == students
  {
    var keep := (s: Student) => MatchesQuery(s, query);
    FilterIsSubsequence(students, keep);
    if query == [] then
      EmptyQueryMatchesAll(students);
      FilterKeepsAll(students, keep);
      Filter(students, keep)
    else
      Filter(students, keep)
  }

  /** The search keeps every occurrence of a matching record and no other record, so
      together with its being a subsequence of the registry it is exactly the matching
      records in registry order. */
  lemma SearchCounts(students: seq<Student>, query: string)
    ensures forall x :: multiset(Search(students, query))[x] ==
                        if MatchesQuery(x, query) then multiset(students)[x] else 0
  {
    FilterCounts(students, (s: Student) => MatchesQuery(s, query));
  }
}
