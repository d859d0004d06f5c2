/** sortStudents: a sorted copy of a list, ascending by name, roll number or course,
    with equal keys kept in input order (Array.prototype.sort is stable), or the list
    itself for any other criterion. */
module Sorting {
  import opened Text
  import opened Students
  import opened Wrappers

  /** The field a criterion compares. */
  datatype Field = Name | RollNo | Course

  /** The criterion strings the sort understands: "name", "date" (shown as "Serial no",
      it compares roll numbers) and "course". Anything else means no sorting. */
  function CriterionField(criteria: string): (f: Option<Field>)
    ensures f == Some(Name) <==> criteria == "name"
    ensures f == Some(RollNo) <==> criteria == "date"
    ensures f == Some(Course) <==> criteria == "course"
  {
    if criteria == "name" then Some(Name)
    else if criteria == "date" then Some(RollNo)
    else if criteria == "course" then Some(Course)
    else None
  }

  /** The field of a record that the comparator for criterion f reads. */
  function Key(f: Field, s: Student): string {
    match f
    case Name => s.name
    case RollNo => s.rollNo
    case Course => s.enrolledCourse
  }

  /** Ascending by the field, under the comparator standing in for localeCompare. */
  ghost predicate SortedBy(l: seq<Student>, f: Field) {
    forall i, j :: 0 <= i < j < |l| ==> LexLeq(Key(f, l[i]), Key(f, l[j]))
  }

  /** The records of l whose key is k, in their order in l. A sort is stable exactly when
      it leaves this subsequence unchanged for every k. */
  function WithKey(l: seq<Student>, f: Field, k: string): seq<Student> {
    if l == [] then [] else (if Key(f, l[0]) == k then [l[0]] else []) + WithKey(l[1..], f, k)
  }

  /** Places x before the first record whose key is not below x's. */
  function Insert(x: Student, l: seq<Student>, f: Field): (r: seq<Student>)
    ensures |r| == |l| + 1 && multiset(r) == multiset(l) + multiset{x}
  {
    if l == [] then [x]
    else if LexLeq(Key(f, x), Key(f, l[0])) then [x] + l
    else
      assert l == [l[0]] + l[1..];
      [l[0]] + Insert(x, l[1..], f)
  }

  /** Stable insertion sort by one field. */
  function SortBy(l: seq<Student>, f: Field): (r: seq<Student>)
    ensures multiset(r) == multiset(l)
  {
    if l == [] then []
    else
      assert l == [l[0]] + l[1..];
      Insert(l[0], SortBy(l[1..], f), f)
  }

  /** Every key of a list, and x's key, being at least lo, every key after inserting x is. */
  lemma InsertLowerBound(x: Student, l: seq<Student>, f: Field, lo: string)
    requires LexLeq(lo, Key(f, x))
    requires forall j :: 0 <= j < |l| ==> LexLeq(lo, Key(f, l[j]))
    ensures forall j :: 0 <= j < |Insert(x, l, f)| ==> LexLeq(lo, Key(f, Insert(x, l, f)[j]))
  {
    var r := Insert(x, l, f);
    forall j | 0 <= j < |r| ensures LexLeq(lo, Key(f, r[j])) {
      assert r[j] in multiset(l) + multiset{x};
      if r[j] != x {
        assert r[j] in l;
      }
    }
  }

  /** A record whose key is at most every key of a sorted list can go in front of it. */
  lemma ConsSorted(a: Student, l: seq<Student>, f: Field)
    requires SortedBy(l, f)
    requires forall j :: 0 <= j < |l| ==> LexLeq(Key(f, a), Key(f, l[j]))
    ensures SortedBy([a] + l, f)
  {
    var r := [a] + l;
    forall i, j | 0 <= i < j < |r| ensures LexLeq(Key(f, r[i]), Key(f, r[j])) {
      assert r[j] == l[j - 1];
      if i > 0 {
        assert r[i] == l[i - 1];
      }
    }
  }

  lemma {:induction false} InsertSorted(x: Student, l: seq<Student>, f: Field)
    requires SortedBy(l, f)
    ensures SortedBy(Insert(x, l, f), f)
  {
    if l == [] {
    } else if LexLeq(Key(f, x), Key(f, l[0])) {
      forall j | 0 <= j < |l| ensures LexLeq(Key(f, x), Key(f, l[j])) {
        if j > 0 { LexLeqTransitive(Key(f, x), Key(f, l[0]), Key(f, l[j])); }
      }
      ConsSorted(x, l, f);
    } else {
      var tail := l[1..];
      assert SortedBy(tail, f);
      InsertSorted(x, tail, f);
      LexLeqTotal(Key(f, x), Key(f, l[0]));
      forall j | 0 <= j < |tail| ensures LexLeq(Key(f, l[0]), Key(f, tail[j])) {
        assert tail[j] == l[j + 1];
      }
      InsertLowerBound(x, tail, f, Key(f, l[0]));
      ConsSorted(l[0], Insert(x, tail, f), f);
    }
  }

  /** SortBy yields a list ascending by the field. */
  lemma {:induction false} SortBySorted(l: seq<Student>, f: Field)
    ensures SortedBy(SortBy(l, f), f)
  {
    if l != [] {
      SortBySorted(l[1..], f);
      InsertSorted(l[0], SortBy(l[1..], f), f);
    }
  }

  lemma WithKeyCons(a: Student, t: seq<Student>, f: Field, k: string)
    ensures WithKey([a] + t, f, k) == (if Key(f, a) == k then [a] else []) + WithKey(t, f, k)
  {
    assert ([a] + t)[0] == a && ([a] + t)[1..] == t;
  }

  /** Putting a record whose key is not x's in front of two lists keeps the records with
      key k of the first equal to those of the second, with x ahead when its key is k. */
  lemma WithKeyShift(a: Student, x: Student, rest: seq<Student>, t: seq<Student>, f: Field, k: string)
    requires Key(f, x) == k ==> Key(f, a) != k
    requires WithKey(rest, f, k) == (if Key(f, x) == k then [x] else []) + WithKey(t, f, k)
    ensures WithKey([a] + rest, f, k) == (if Key(f, x) == k then [x] else []) + WithKey([a] + t, f, k)
  {
    WithKeyCons(a, rest, f, k);
    WithKeyCons(a, t, f, k);
  }

  /** Inserting x adds it in front of every record with the same key. */
  lemma {:induction false} InsertWithKey(x: Student, l: seq<Student>, f: Field, k: string)
    ensures WithKey(Insert(x, l, f), f, k) == (if Key(f, x) == k then [x] else []) + WithKey(l, f, k)
  {
    if l == [] || LexLeq(Key(f, x), Key(f, l[0])) {
      assert Insert(x, l, f) == [x] + l;
      WithKeyCons(x, l, f, k);
    } else {
      var rest := Insert(x, l[1..], f);
      assert Insert(x, l, f) == [l[0]] + rest;
      assert l == [l[0]] + l[1..];
      InsertWithKey(x, l[1..], f, k);
      if Key(f, x) == k {
        LexLeqReflexive(k);
      }
      WithKeyShift(l[0], x, rest, l[1..], f, k);
    }
  }

  /** SortBy is stable: for every key, the records with that key keep their input order. */
  lemma {:induction false} SortByStable(l: seq<Student>, f: Field, k: string)
    ensures WithKey(SortBy(l, f), f, k) == WithKey(l, f, k)
  {
    if l != [] {
      SortByStable(l[1..], f, k);
      InsertWithKey(l[0], SortBy(l[1..], f), f, k);
      WithKeyCons(l[0], l[1..], f, k);
      assert l == [l[0]] + l[1..];
    }
  }

  /** A list already ascending by the field is its own sort. */
  lemma {:induction false} SortBySortedFixpoint(l: seq<Student>, f: Field)
    requires SortedBy(l, f)
    ensures SortBy(l, f) == l
  {
    if l != [] {
      assert SortedBy(l[1..], f);
      SortBySortedFixpoint(l[1..], f);
      assert l == [l[0]] + l[1..];
    }
  }

  /** sortStudents: a permutation of the input, which is the input itself when the
      criterion is not one of the three known strings. */
  function SortStudents(l: seq<Student>, criteria: string): (r: seq<Student>)
    ensures multiset(r) == multiset(l)
    ensures CriterionField(criteria) == None ==> r == l
  {
    match CriterionField(criteria)
    case None => l
    case Some(f) => SortBy(l, f)
  }

  /** For "name", "date" and "course", sortStudents orders ascending by that field and
      keeps records with equal keys in their input order. */
  lemma SortStudentsSortedStable(l: seq<Student>, criteria: string)
    requires CriterionField(criteria) != None
    ensures SortedBy(SortStudents(l, criteria), CriterionField(criteria).value)
    ensures forall k :: WithKey(SortStudents(l, criteria), CriterionField(criteria).value, k)
                     == WithKey(l, CriterionField(criteria).value, k)
  {
    var f := CriterionField(criteria).value;
    SortBySorted(l, f);
    AllKeysStable(l, f);
  }

  lemma AllKeysStable(l: seq<Student>, f: Field)
    ensures forall k :: WithKey(SortBy(l, f), f, k) == WithKey(l, f, k)
  {
    forall k { SortByStable(l, f, k); }
  }

  /** Sorting a sorted list again by the same criterion changes nothing. */
  lemma SortStudentsIdempotent(l: seq<Student>, criteria: string)
    ensures SortStudents(SortStudents(l, criteria), criteria) == SortStudents(l, criteria)
  {
    match CriterionField(criteria)
    case None =>
    case Some(f) =>
      SortBySorted(l, f);
      SortBySortedFixpoint(SortBy(l, f), f);
  }
}
