/** The gate an add request passes before a record is created: required fields, the
    email pattern ^[^\s@]+@[^\s@]+\.[^\s@]+$ and roll-number uniqueness, checked in that
    order with the first failure winning. */
module Validation {
  import opened Text
  import opened Students
  import opened Wrappers

  /** Why an add was refused; each corresponds to one alert of the add handler. */
  datatype AddError = MissingField | InvalidEmail | DuplicateRollNumber

  /** Positions lo..hi-1 of s all belong to the class [^\s@]. */
  ghost predicate Run(s: string, lo: int, hi: int)
    requires 0 <= lo <= hi <= |s|
  {
    forall i :: lo <= i < hi ==> !IsWhitespace(s[i]) && s[i] != '@'
  }

  /** An '@' at `at` and a '.' at `dot` cut s into three non-empty runs of [^\s@]. */
  ghost predicate SplitsAt(s: string, at: int, dot: int) {
    && 0 < at && at + 1 < dot && dot + 1 < |s|
    && s[at] == '@' && s[dot] == '.'
    && Run(s, 0, at) && Run(s, at + 1, dot) && Run(s, dot + 1, |s|)
  }

  /** The regular expression ^[^\s@]+@[^\s@]+\.[^\s@]+$ matches s (it may backtrack
      to any such '.' in the domain part). */
  ghost predicate EmailPattern(s: string) {
    exists at, dot :: SplitsAt(s, at, dot)
  }

  /** The domain part has a '.' that is neither its first nor its last character. */
  function DotInside(d: string): bool {
    |d| >= 2 && '.' in d[1..|d| - 1]
  }

  /** The decision the email test makes: no whitespace, exactly one '@', a non-empty
      part before it, and a '.' strictly inside the part after it. */
  function EmailAccepted(s: string): bool {
    && (forall i :: 0 <= i < |s| ==> !IsWhitespace(s[i]))
    && multiset(s)['@'] == 1
    && var at := IndexOf(s, '@');
       0 < at && DotInside(s[at + 1..])
  }

  /** The email check accepts exactly the strings the regular expression matches. */
  lemma EmailShape(s: string)
    ensures EmailAccepted(s) <==> EmailPattern(s)
  {
    if EmailAccepted(s) {
      AcceptedMatches(s);
    }
    if EmailPattern(s) {
      var at, dot :| SplitsAt(s, at, dot);
      MatchesAccepted(s, at, dot);
    }
  }

  /** A character that occurs once in s occurs at no other position. */
  lemma {:induction false} SoleOccurrence(s: string, c: char, k: int)
    requires 0 <= k < |s| && s[k] == c && multiset(s)[c] == 1
    ensures forall i :: 0 <= i < |s| && i != k ==> s[i] != c
  {
    forall i | 0 <= i < |s| && i != k ensures s[i] != c {
      var m := if i < k then k else i;
      var o := if i < k then i else k;
      assert s == s[..m] + [s[m]] + s[m + 1..];
      assert s[o] == s[..m][o];
    }
  }

  /** A character found at exactly one position occurs once. */
  lemma CountOne(s: string, c: char, k: int)
    requires 0 <= k < |s| && s[k] == c
    requires forall i :: 0 <= i < |s| && i != k ==> s[i] != c
    ensures multiset(s)[c] == 1
  {
    assert s == s[..k] + [s[k]] + s[k + 1..];
    assert c !in s[..k];
    assert c !in s[k + 1..];
  }

  lemma AcceptedMatches(s: string)
    requires EmailAccepted(s)
    ensures EmailPattern(s)
  {
    var at := IndexOf(s, '@');
    SoleOccurrence(s, '@', at);
    var d := s[at + 1..];
    assert '.' in d[1..|d| - 1];
    var k :| 0 <= k < |d| - 2 && d[1..|d| - 1][k] == '.';
    var dot := at + 2 + k;
    assert s[dot] == d[k + 1] == '.';
    assert SplitsAt(s, at, dot);
  }

  lemma MatchesAccepted(s: string, at: int, dot: int)
    requires SplitsAt(s, at, dot)
    ensures EmailAccepted(s)
  {
    assert forall i :: 0 <= i < |s| && i != at ==> s[i] != '@';
    CountOne(s, '@', at);
    assert IndexOf(s, '@') == at;
    var d := s[at + 1..];
    assert d[1..|d| - 1][dot - at - 2] == '.';
  }

  /** The part of the uniqueness check: some stored record already has this roll number
      (exact, case-sensitive comparison of the untrimmed value). */
  function RollTaken(existing: seq<Student>, rollNo: string): (b: bool)
    ensures b <==> rollNo in Rolls(existing)
  {
    exists i :: 0 <= i < |existing| && existing[i].rollNo == rollNo
  }

  /** The add gate. A blank name, email or roll number, or an empty course, is refused
      first; then an email outside the pattern; then a roll number already in use. */
  function Validate(form: Student, existing: seq<Student>): Option<AddError> {
    if Trim(form.name) == [] || Trim(form.email) == [] || Trim(form.rollNo) == [] || form.enrolledCourse == [] then
      Some(MissingField)
    else if !EmailAccepted(form.email) then
      Some(InvalidEmail)
    else if RollTaken(existing, form.rollNo) then
      Some(DuplicateRollNumber)
    else
      None
  }

  /** What the gate decides, in terms of blank fields, the email regular expression and
      the roll numbers in use: each error exactly when every earlier check passed and its
      own check fails, and acceptance exactly when all three pass. */
  lemma ValidateOrder(form: Student, existing: seq<Student>)
    ensures Validate(form, existing) == Some(MissingField) <==>
      Blank(form.name) || Blank(form.email) || Blank(form.rollNo) || form.enrolledCourse == []
    ensures Validate(form, existing) == Some(InvalidEmail) <==>
      !Blank(form.name) && !Blank(form.email) && !Blank(form.rollNo) && form.enrolledCourse != []
      && !EmailPattern(form.email)
    ensures Validate(form, existing) == Some(DuplicateRollNumber) <==>
      !Blank(form.name) && !Blank(form.email) && !Blank(form.rollNo) && form.enrolledCourse != []
      && EmailPattern(form.email) && form.rollNo in Rolls(existing)
    ensures Validate(form, existing) == None <==>
      !Blank(form.name) && !Blank(form.email) && !Blank(form.rollNo) && form.enrolledCourse != []
      && EmailPattern(form.email) && form.rollNo !in Rolls(existing)
  {
    EmailShape(form.email);
    TrimSpec(form.name);
    TrimSpec(form.email);
    TrimSpec(form.rollNo);
  }
}
