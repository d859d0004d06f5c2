/** The dashboard component's state and the handlers that update it. Each handler's
    contract gives the state after React has applied the handler's updates and re-run the
    effects they trigger: the effect on [allStudents, sortBy] always runs last, so after a
    mutation or a change of criterion the table shows the whole registry, sorted, and the
    last search is not re-applied. */
module App {
  import opened Students
  import opened Validation
  import opened Records
  import opened Sorting
  import opened Wrappers

  class Dashboard {
    /** The registry. */
    var allStudents: seq<Student>
    /** The selected sort criterion; "" until one is chosen. */
    var sortBy: string
    /** The rows the table shows. */
    var filteredStudents: seq<Student>
    /** The text in the search box. */
    var searchQuery: string
    /** The add form. */
    var newStudent: Student
    /** The data URL of the photo attached to the add form, if any. */
    var newProfileFile: Option<string>
    /** The copy of a record being edited, if an edit dialog was opened. */
    var selectedStudent: Option<Student>
    /** The data URL of the photo attached in the edit dialog, if any. */
    var selectedImageFile: Option<string>

    /** The query whose results the table shows: the last search, or the empty query
        once an effect has shown the whole registry again. */
    ghost var shownQuery: string

    /** The table always shows the registry searched for shownQuery and sorted by the
        current criterion; the empty query stands for the whole registry. So it never
        shows a row that is not in the registry (SortedSearchIsSubMultiset). */
    ghost predicate Valid()
      reads this`filteredStudents, this`allStudents, this`sortBy, this`shownQuery
    {
      ShowsSearch(filteredStudents, allStudents, sortBy, shownQuery)
    }

    /** Mounting: the stored list when there is one, the seed list otherwise; the
        effects then show it unsorted. */
    constructor (stored: Option<seq<Student>>)
      ensures Valid()
      ensures allStudents == stored.GetOr(Seed)
      ensures stored == None ==> DistinctRolls(allStudents)
      ensures filteredStudents == allStudents == SortStudents(allStudents, sortBy)
      ensures shownQuery == ""
      ensures sortBy == "" && searchQuery == ""
      ensures newStudent == EmptyForm && newProfileFile == None
      ensures selectedStudent == None && selectedImageFile == None
    {
      allStudents := stored.GetOr(Seed);
      sortBy := "";
      filteredStudents := stored.GetOr(Seed);
      searchQuery := "";
      newStudent := EmptyForm;
      newProfileFile := None;
      selectedStudent := None;
      selectedImageFile := None;
      shownQuery := "";
      new;
      if stored == None {
        SeedRollsDistinct();
      }
    }

    /** The effect on [allStudents, sortBy]: the table shows the whole registry sorted
        by the current criterion. It runs after every change of either. */
    method SortedRegistryEffect()
      modifies this`filteredStudents, this`shownQuery
      ensures Valid()
      ensures filteredStudents == SortStudents(allStudents, sortBy)
      ensures shownQuery == ""
    {
      filteredStudents := SortStudents(allStudents, sortBy);
      shownQuery := "";
    }

    /** Typing in the search box. */
    method SetSearchQuery(query: string)
      modifies this`searchQuery
      ensures searchQuery == query
    {
      searchQuery := query;
    }

    /** Typing in or selecting a field of the add form. */
    method SetNewStudent(form: Student)
      modifies this`newStudent
      ensures newStudent == form
    {
      newStudent := form;
    }

    /** Choosing a photo in the add form; `image` is the data URL the file encodes to. */
    method AttachNewProfileFile(image: string)
      modifies this`newProfileFile
      ensures newProfileFile == Some(image)
    {
      newProfileFile := Some(image);
    }

    /** handleAddStudent. A refused form changes nothing and reports the first failed
        check; an accepted one appends the new record, shows the sorted registry and
        resets the form. */
    method HandleAddStudent() returns (error: Option<AddError>)
      requires Valid()
      modifies this`allStudents, this`filteredStudents, this`shownQuery, this`newStudent, this`newProfileFile
      ensures Valid()
      ensures error == Validate(old(newStudent), old(allStudents))
      ensures error != None ==>
        && allStudents == old(allStudents) && filteredStudents == old(filteredStudents)
        && newStudent == old(newStudent) && newProfileFile == old(newProfileFile)
        && shownQuery == old(shownQuery)
      ensures error == None ==>
        && allStudents == old(allStudents) + [NewRecord(old(newStudent), old(newProfileFile))]
        && filteredStudents == SortStudents(allStudents, sortBy)
        && newStudent == EmptyForm && newProfileFile == None
        && shownQuery == ""
      ensures DistinctRolls(old(allStudents)) ==> DistinctRolls(allStudents)
    {
      var added := AddStudent(allStudents, newStudent, newProfileFile);
      if added.Failure? {
        error := Some(added.error);
      } else {
        error := None;
        if DistinctRolls(allStudents) {
          AddKeepsDistinct(allStudents, newStudent, newProfileFile);
        }
        allStudents := added.value;
        SortedRegistryEffect();
        ResetAddForm();
      }
    }

    /** The add form's reset after an accepted add: empty fields, no photo. */
    method ResetAddForm()
      modifies this`newStudent, this`newProfileFile
      ensures newStudent == EmptyForm && newProfileFile == None
    {
      newStudent := EmptyForm;
      newProfileFile := None;
    }

    /** handleSearch: the matching records of the registry, sorted by the current
        criterion. */
    method HandleSearch()
      requires Valid()
      modifies this`filteredStudents, this`shownQuery
      ensures Valid()
      ensures filteredStudents == SortStudents(Search(allStudents, searchQuery), sortBy)
      ensures shownQuery == searchQuery
    {
      filteredStudents := SortStudents(Search(allStudents, searchQuery), sortBy);
      shownQuery := searchQuery;
    }

    /** handleSortChange. A new criterion re-runs the effect, which sorts the whole
        registry and so drops the last search; choosing the current criterion again
        leaves the state unchanged for React, so only the handler's own re-sort of the
        shown rows takes effect. */
    method HandleSortChange(value: string)
      requires Valid()
      modifies this`sortBy, this`filteredStudents, this`shownQuery
      ensures Valid()
      ensures sortBy == value
      ensures value != old(sortBy) ==> filteredStudents == SortStudents(allStudents, value)
      ensures value == old(sortBy) ==> filteredStudents == SortStudents(old(filteredStudents), value)
      ensures old(filteredStudents) == SortStudents(allStudents, old(sortBy)) ==>
        filteredStudents == SortStudents(allStudents, sortBy)
      ensures shownQuery == if value != old(sortBy) then "" else old(shownQuery)
    {
      if value != sortBy {
        sortBy := value;
        SortedRegistryEffect();
      } else {
        SortStudentsIdempotent(allStudents, value);
        SortStudentsIdempotent(Search(allStudents, shownQuery), value);
        filteredStudents := SortStudents(filteredStudents, value);
      }
    }

    /** handleDeleteStudent: every record with that roll number leaves the registry; the
        table shows the rest, sorted. */
    method HandleDeleteStudent(rollNo: string)
      requires Valid()
      modifies this`allStudents, this`filteredStudents, this`shownQuery
      ensures Valid()
      ensures allStudents == DeleteStudent(old(allStudents), rollNo)
      ensures filteredStudents == SortStudents(allStudents, sortBy)
      ensures shownQuery == ""
      ensures rollNo !in Rolls(old(allStudents)) ==> allStudents == old(allStudents)
      ensures DistinctRolls(old(allStudents)) ==> DistinctRolls(allStudents)
    {
      allStudents := DeleteStudent(allStudents, rollNo);
      SortedRegistryEffect();
    }

    /** Opening the edit dialog on a record, or changing a field of the copy in it. */
    method SetSelectedStudent(s: Student)
      modifies this`selectedStudent
      ensures selectedStudent == Some(s)
    {
      selectedStudent := Some(s);
    }

    /** Choosing a photo in the edit dialog. Nothing ever clears it, so it also applies
        to later edits until another photo is chosen. */
    method AttachSelectedImageFile(image: string)
      modifies this`selectedImageFile
      ensures selectedImageFile == Some(image)
    {
      selectedImageFile := Some(image);
    }

    /** The "Save Changes" button, rendered only while a record is selected: the edited
        copy replaces the record with its roll number, without validation; the table
        shows the registry, sorted. */
    method SaveChanges()
      requires selectedStudent != None
      modifies this`allStudents, this`filteredStudents, this`shownQuery
      ensures Valid()
      ensures allStudents == EditStudent(old(allStudents), selectedStudent.value, selectedImageFile)
      ensures filteredStudents == SortStudents(allStudents, sortBy)
      ensures shownQuery == ""
      ensures DistinctRolls(old(allStudents)) ==> DistinctRolls(allStudents)
    {
      if DistinctRolls(allStudents) {
        EditKeepsDistinct(allStudents, selectedStudent.value, selectedImageFile);
      }
      allStudents := EditStudent(allStudents, selectedStudent.value, selectedImageFile);
      SortedRegistryEffect();
    }
  }

  /** shown is the registry searched for q and sorted by the criterion; the empty query
      stands for the whole registry (searching for it keeps every record). */
  ghost predicate ShowsSearch(shown: seq<Student>, registry: seq<Student>, criteria: string, q: string) {
    if q == "" then shown == SortStudents(registry, criteria)
    else shown == SortStudents(Search(registry, q), criteria)
  }

  /** A sorted search holds no record more often than the registry does. */
  lemma SortedSearchIsSubMultiset(shown: seq<Student>, registry: seq<Student>, criteria: string, q: string)
    requires ShowsSearch(shown, registry, criteria, q)
    ensures multiset(shown) <= multiset(registry)
  {
    SearchIsSubMultiset(registry, q);
  }

  /** The search result holds no record more often than the registry does. */
  lemma SearchIsSubMultiset(students: seq<Student>, query: string)
    ensures multiset(Search(students, query)) <= multiset(students)
  {
    SearchCounts(students, query);
  }
}
