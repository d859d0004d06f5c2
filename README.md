# Student dashboard: the record pipeline

A model of the `App` component of the student dashboard in `src/App.jsx`: a single-page
registry of students. Each record has a roll number, name, email, enrolled course and
profile image. The user can add a record through a validated form, edit one through a
dialog, delete one, run a free-text search, and sort the table by name, by roll number
("Serial no") or by course. The registry starts from browser storage, or from a built-in
list of ten records when nothing is stored.

The model has seven modules:

- `Wrappers`: the `Option` and `Result` types used for optional values and refused adds.

- `Text`: JavaScript's whitespace class as used by `trim()` and `\s`, trimming,
  lower-casing, `includes`, and the string order that stands in for `localeCompare`.
- `Students`: the record, the seed list, the uniqueness invariant on roll numbers, and
  `Array.prototype.filter` with its exact characterisation: an order-preserving
  subsequence with the accepted records' multiplicities.
- `Validation`: the add gate. Its email check is proved to accept exactly the strings
  matched by `^[^\s@]+@[^\s@]+\.[^\s@]+$`, which is stated as a predicate over positions.
- `Records`: the list updates made by add, delete, edit and search.
- `Sorting`: `sortStudents` as a stable insertion sort. It is proved sorted, a
  permutation, stable (records with equal keys keep their input order) and idempotent.
- `App`: the component as a class `Dashboard` whose fields are the component's state.
  The handlers are methods. Each handler's contract gives the state after React has
  applied its updates and re-run the effects they trigger. The effect on
  `[allStudents, sortBy]` runs last, so after any change to the registry or to the
  criterion the table shows the whole registry, sorted, and the last search is dropped.
  Choosing the criterion that is already selected leaves the state unchanged for React;
  only the handler's own re-sort of the shown rows then takes effect.

The class invariant `Dashboard.Valid` says that the table always shows the registry
searched for some query and sorted by the current criterion. The query is recorded in the
ghost field `shownQuery`: it is the last search after `handleSearch`, and the empty query,
which stands for the whole registry, after any effect. Every handler preserves the
invariant, so only a search ever hides a record, and the table never shows a row that is
not in the registry.

## Model

| member | source | states |
|---|---|---|
| Text.IsWhitespace | src/App.jsx:69-74 | the characters `trim()` strips and `\s` matches: the ECMAScript WhiteSpace and LineTerminator code points (used by Text.TrimSpec and Validation.EmailShape) |
| Text.Trim | src/App.jsx:69 | `trim()`; its contract is Text.TrimSpec |
| Text.TrimStartSpec | src/App.jsx:69 | the start of `trim()` removes a prefix of whitespace only and stops at a non-whitespace character |
| Text.TrimEndSpec | src/App.jsx:69 | the end of `trim()` removes a suffix of whitespace only and stops at a non-whitespace character |
| Text.TrimSpec | src/App.jsx:69 | `trim()` returns a slice of the input that neither starts nor ends with whitespace, and it is empty exactly when the input is all whitespace, which is the required-field test |
| Text.Includes | src/App.jsx:134-136 | `includes`; its contract is Text.IncludesIff |
| Text.IncludesIff | src/App.jsx:134-136 | `includes` holds exactly when the needle occurs at some position of the string |
| Text.Lower | src/App.jsx:132-136 | `toLowerCase` keeps the length and folds each character by Text.LowerChar |
| Text.LowerChar | src/App.jsx:132-136 | `toLowerCase` maps each ASCII capital to its small letter (32 code points up) and leaves every other character alone |
| Text.LexLeq | src/App.jsx:151-155 | the comparison standing in for `localeCompare`; its contract is the four lemmas below, which make it a total order |
| Text.LexLeqReflexive | src/App.jsx:151 | the comparison that stands in for `localeCompare` puts every string at or before itself |
| Text.LexLeqTotal | src/App.jsx:151-155 | any two strings are comparable, so the comparator is a total order |
| Text.LexLeqAntisymmetric | src/App.jsx:151-155 | two strings each at or before the other are equal |
| Text.LexLeqTransitive | src/App.jsx:151-155 | the comparison is transitive |
| Students.Rolls | src/App.jsx:80 | the roll numbers of a list, position by position |
| Students.SeedRollsDistinct | src/App.jsx:510-581 | the built-in list `Seed` (a constant, copied field for field) has ten records numbered S101 to S110 in order, so no roll number occurs twice in it |
| Students.Filter | src/App.jsx:161-163 | `filter` returns no more records than it is given, all of them accepted |
| Students.FilterIsSubsequence | src/App.jsx:161-163 | `filter` only deletes: its result is an order-preserving subsequence of its input |
| Students.FilterCounts | src/App.jsx:161-163 | `filter` keeps every occurrence of an accepted record and no occurrence of a rejected one |
| Students.FilterExact | src/App.jsx:161-163 | both facts together, which determine the result |
| Students.FilterKeepsAll | src/App.jsx:161-163 | a predicate that accepts every record leaves the list unchanged |
| Students.FilterKeepsDistinct | src/App.jsx:161-163 | filtering keeps roll numbers pairwise distinct |
| Validation.EmailAccepted | src/App.jsx:74-75 | the email test `emailRegex.test(email)`; its contract is Validation.EmailShape |
| Validation.EmailShape | src/App.jsx:74-75 | the email decision accepts a string exactly when the regular expression matches it: one '@' after a non-empty run, then a non-empty run, a '.', and a non-empty run, none containing whitespace or '@' |
| Validation.RollTaken | src/App.jsx:80 | the duplicate test holds exactly when the form's roll number is among the stored ones |
| Validation.Validate | src/App.jsx:69-84 | the add gate; its contract is Validation.ValidateOrder |
| Validation.ValidateOrder | src/App.jsx:66-84 | the add gate refuses a blank name, email or roll number or an empty course first; then an email the pattern rejects; then a roll number in use; it accepts exactly when all checks pass |
| Records.NewRecord | src/App.jsx:86-94 | the added record carries the form's fields, with the attached photo when there is one and the placeholder image otherwise |
| Records.AddStudent | src/App.jsx:66-97 | a refused form yields the gate's error and no new list; an accepted one appends exactly the new record after the untouched old ones |
| Records.AddKeepsDistinct | src/App.jsx:80-97 | because of the duplicate check, an accepted add keeps roll numbers pairwise distinct |
| Records.DeleteStudent | src/App.jsx:160-163 | delete keeps, in order, exactly the records with another roll number; an unknown roll number leaves the list as it was; distinct roll numbers stay distinct |
| Records.EditStudent | src/App.jsx:449-456 | edit keeps the list's length |
| Records.EditStudentAt | src/App.jsx:444-456 | position by position, a record with another roll number is unchanged; one with the edited roll number takes the copy's fields, with the new photo or the copy's own image |
| Records.EditKeepsImageWithoutPhoto | src/App.jsx:340-456 | the dialog edits a copy of a shown record whose image it never changes; saving it without a new photo keeps the record's stored image |
| Records.EditWithSameCopy | src/App.jsx:449-456 | saving without a new photo a copy equal to every record with its roll number changes nothing |
| Records.EditUnchangedCopy | src/App.jsx:340-456 | with distinct roll numbers, opening the dialog on a record and saving it unchanged without a new photo leaves the registry as it was |
| Records.EditKeepsRolls | src/App.jsx:449-456 | edit keeps every roll number in place |
| Records.EditKeepsDistinct | src/App.jsx:449-456 | edit keeps roll numbers pairwise distinct |
| Records.EditAbsentRoll | src/App.jsx:449-456 | editing a roll number that is in no record changes nothing |
| Records.MatchesQuery | src/App.jsx:133-136 | the callback of the search filter; its contract is Records.MatchesQueryIff |
| Records.MatchesQueryIff | src/App.jsx:132-136 | a record matches the search exactly when the lower-cased query occurs in its lower-cased name, email or course |
| Records.EmptyQueryMatchesAll | src/App.jsx:132-136 | the empty query matches every record |
| Records.Search | src/App.jsx:130-137 | the search is an order-preserving subsequence of the registry; the empty query keeps every record |
| Records.SearchCounts | src/App.jsx:133-137 | the search keeps every occurrence of a matching record and none of any other, so with Records.Search it is exactly the matching records in registry order |
| Sorting.CriterionField | src/App.jsx:147-158 | "name", "date" and "course" select the name, the roll number and the course; anything else selects no field; `Sorting.Key` is the field of a record that the selected comparator reads |
| Sorting.Insert | src/App.jsx:151-155 | inserting adds exactly one record |
| Sorting.SortBy | src/App.jsx:148-155 | sorting by a field is a permutation |
| Sorting.InsertLowerBound | src/App.jsx:151-155 | inserting keeps a lower bound on all keys |
| Sorting.ConsSorted | src/App.jsx:151-155 | a record whose key is at most every key of a sorted list can go in front of it |
| Sorting.InsertSorted | src/App.jsx:151-155 | inserting into a sorted list keeps it sorted |
| Sorting.SortBySorted | src/App.jsx:151-155 | sorting by a field yields a list ascending by that field |
| Sorting.WithKeyCons | src/App.jsx:151-155 | the records with a given key in a list with a record put in front |
| Sorting.WithKeyShift | src/App.jsx:151-155 | putting a record with another key in front of two lists keeps the relation between their records with a given key |
| Sorting.InsertWithKey | src/App.jsx:151-155 | inserting a record places it ahead of every record with the same key |
| Sorting.SortByStable | src/App.jsx:151-155 | the sort is stable: for each key, the records with that key keep their input order |
| Sorting.SortBySortedFixpoint | src/App.jsx:151-155 | a list already in order is its own sort |
| Sorting.SortStudents | src/App.jsx:147-159 | `sortStudents` returns a permutation of its input, and returns the input itself for an unknown criterion |
| Sorting.SortStudentsSortedStable | src/App.jsx:147-159 | for the three known criteria the result ascends by the field and is stable |
| Sorting.AllKeysStable | src/App.jsx:151-155 | stability for every key at once |
| Sorting.SortStudentsIdempotent | src/App.jsx:141-145 | sorting a sorted list again by the same criterion changes nothing |
| App.Dashboard.constructor | src/App.jsx:46-64 | mounting loads the stored list, or the seed list (whose roll numbers are distinct); after the effects the table shows it unsorted, as the result of the empty query, and every other field is empty |
| App.Dashboard.SortedRegistryEffect | src/App.jsx:121-128 | the effects on the registry and the criterion leave the table showing the whole registry sorted by the current criterion, which is the sorted search for the empty query |
| App.Dashboard.SetSearchQuery | src/App.jsx:185 | typing in the search box sets the query |
| App.Dashboard.SetNewStudent | src/App.jsx:226-262 | typing in the add form sets the form |
| App.Dashboard.AttachNewProfileFile | src/App.jsx:282-287 | choosing a photo in the add form attaches it |
| App.Dashboard.HandleAddStudent | src/App.jsx:66-110 | a refused form reports the gate's first error and changes nothing, so a previous search stays on screen; an accepted one appends the new record, shows the whole registry sorted (the shown query becomes empty), resets the form and keeps roll numbers distinct |
| App.Dashboard.ResetAddForm | src/App.jsx:100-107 | the form's fields are emptied and the photo is dropped |
| App.Dashboard.HandleSearch | src/App.jsx:130-139 | the table shows the matching records of the registry, sorted by the current criterion; it is the only handler that produces a filtered view, by setting a non-empty shown query; a refused add and a re-sort by the current criterion keep the view they find, and every other handler shows the whole registry |
| App.Dashboard.HandleSortChange | src/App.jsx:141-145 | a new criterion shows the whole registry sorted by it; the current criterion again re-sorts the shown rows, which stay the sorted result of the same query |
| App.Dashboard.HandleDeleteStudent | src/App.jsx:160-168 | the records with that roll number leave the registry, the whole rest is shown sorted (the shown query becomes empty), an unknown roll number leaves the registry unchanged, and distinct roll numbers stay distinct |
| App.Dashboard.SetSelectedStudent | src/App.jsx:340 | opening the edit dialog selects a copy of the record |
| App.Dashboard.AttachSelectedImageFile | src/App.jsx:425-434 | choosing a photo in the edit dialog attaches it; nothing clears it |
| App.Dashboard.SaveChanges | src/App.jsx:443-462 | the edited copy replaces the records with its roll number, the whole registry is shown sorted (the shown query becomes empty), and distinct roll numbers stay distinct |
| App.SearchIsSubMultiset | src/App.jsx:133-138 | the search never shows a record more often than the registry holds it |
| App.SortedSearchIsSubMultiset | src/App.jsx:121-168 | a table satisfying the invariant never shows a row more often than the registry holds it |

## Left out

- Collation: `localeCompare` is modelled as lexicographic order on code points. Locale-specific collation (accents, case-insensitive tie-breaking) is not modelled. The model proves only that the stand-in is a total order, which is what a stable sort needs.
- Text.Lower: `toLowerCase` is modelled for ASCII letters only. Other Unicode case mappings, including those that change a string's length, are not modelled.
- Photos: `toBase64` (the `FileReader` encoding) is not modelled. An attached photo is the data URL it would produce, passed in as a string. A read failure, which rejects the promise and aborts the handler, is not modelled.
- Browser storage: the JSON write to `localStorage` in the second effect is left out. Mounting takes the stored list as an optional value; parsing it, and a malformed stored value, are not modelled.
- Alerts, console logging and the JSX rendering are not modelled; a refused add returns the error it would alert.
- Concurrency: add and edit `await` the photo encoding before using state captured at the click. Interleaving another handler during that wait is not modelled; each handler runs to completion.
- App.Dashboard.HandleAddStudent: the add button is disabled while a raw field is empty (src/App.jsx:299-300). The model does not include that guard. Its condition implies the handler's own required-field check, so the handler refuses every input the guard would block.
- App.Dashboard.SaveChanges: "Save Changes" is rendered only while a record is selected; the model states this as the precondition `selectedStudent != None`. The edit is saved without validation, as in the source.
- Mounting: the first render shows the seed list (src/App.jsx:52) even when a stored list exists; the effects replace it with the loaded registry after the first render. The constructor states the state after those effects; the first render is not modelled.
- Search after a mutation: after an add, edit or delete, the code shows the whole sorted registry and does not re-apply the last search, and the model does the same. Editing or deleting an unknown roll number leaves the registry unchanged and raises no error; the table still resets to the whole sorted registry, as the handlers' contracts state, while the storage write and the success alert are not modelled.
- Display: the add form shows the roll number upper-cased (src/App.jsx:236). What the form holds after a keystroke is whatever the input event reports, so App.Dashboard.SetNewStudent takes the new form as given. The avatar fallback is rendering only.
- Strings: JavaScript strings are sequences of UTF-16 code units, while the model's strings are sequences of Unicode scalar values. For well-formed strings `trim()`, the regular expression and `includes` agree on both; strings with lone surrogates cannot be represented.
