/** The student record, the built-in seed list and the order-preserving filter that
    both delete and search are built on. */
module Students {

  /** One row of the registry. The add form holds a value of the same shape. */
  datatype Student = Student(
    rollNo: string,
    name: string,
    email: string,
    enrolledCourse: string,
    profileImage: string)

  /** Placeholder image given to a record added without an attached photo. */
  const DefaultImage: string := "https://github.com/shadcn.png"

  /** The add form after a reset: every field empty. */
  const EmptyForm: Student := Student("", "", "", "", "")

  /** The roll numbers of a list, in order. */
  function Rolls(l: seq<Student>): (r: seq<string>)
    ensures |r| == |l|
    ensures forall i :: 0 <= i < |l| ==> r[i] == l[i].rollNo
  {
    if l == [] then [] else [l[0].rollNo] + Rolls(l[1..])
  }

  /** The uniqueness invariant of the registry: no roll number occurs twice. */
  ghost predicate DistinctRolls(l: seq<Student>) {
    forall i, j :: 0 <= i < j < |l| ==> l[i].rollNo != l[j].rollNo
  }

  /** The ten records used when nothing is stored yet. */
  const Seed: seq<Student> := [
    Student("S101", "Pankaj Pawara", "pankaj.pawara@example.com", "React In Depth",
            "https://randomuser.me/api/portraits/men/1.jpg"),
    Student("S102", "Anita Deshmukh", "anita.deshmukh@example.com", "JavaScript Pro",
            "https://randomuser.me/api/portraits/women/2.jpg"),
    Student("S103", "Rahul Patil", "rahul.patil@example.com", "HTML Basics",
            "https://randomuser.me/api/portraits/men/3.jpg"),
    Student("S104", "Sneha Joshi", "sneha.joshi@example.com", "CSS Mastery",
            "https://randomuser.me/api/portraits/women/4.jpg"),
    Student("S105", "Vikram Thakur", "vikram.thakur@example.com", "React In Depth",
            "https://randomuser.me/api/portraits/men/5.jpg"),
    Student("S106", "Neha Khedekar", "neha.khedekar@example.com", "JavaScript Pro",
            "https://randomuser.me/api/portraits/women/6.jpg"),
    Student("S107", "Amit Shinde", "amit.shinde@example.com", "HTML Basics",
            "https://randomuser.me/api/portraits/men/7.jpg"),
    Student("S108", "Priya More", "priya.more@example.com", "CSS Mastery",
            "https://randomuser.me/api/portraits/women/8.jpg"),
    Student("S109", "Nikhil Wagh", "nikhil.wagh@example.com", "JavaScript Pro",
            "https://randomuser.me/api/portraits/men/9.jpg"),
    Student("S110", "Kavita Bhujbal", "kavita.bhujbal@example.com", "React In Depth",
            "https://randomuser.me/api/portraits/women/10.jpg")
  ]

  /** The two-digit number that ends a four-character roll number such as "S107". */
  function SerialDigits(roll: string): int
    requires |roll| == 4
  {
    (roll[2] as int - '0' as int) * 10 + (roll[3] as int - '0' as int)
  }

  /** The seed list has ten records numbered "S101" to "S110" in order, so the
      uniqueness invariant holds at start. */
  lemma SeedRollsDistinct()
    ensures |Seed| == 10 && DistinctRolls(Seed)
    ensures forall i :: 0 <= i < 10 ==>
      |Seed[i].rollNo| == 4 && Seed[i].rollNo[..2] == "S1" && SerialDigits(Seed[i].rollNo) == i + 1
  {
    forall i | 0 <= i < 10
      ensures |Seed[i].rollNo| == 4 && Seed[i].rollNo[..2] == "S1" && SerialDigits(Seed[i].rollNo) == i + 1
    {
      if i == 0 {} else if i == 1 {} else if i == 2 {} else if i == 3 {} else if i == 4 {}
      else if i == 5 {} else if i == 6 {} else if i == 7 {} else if i == 8 {} else {}
    }
  }

  /** r can be obtained from s by deleting elements, keeping the order of the rest. */
  ghost predicate SubsequenceOf(r: seq<Student>, s: seq<Student>)
    decreases |s|
  {
    r == [] || (s != [] && ((r[0] == s[0] && SubsequenceOf(r[1..], s[1..])) || SubsequenceOf(r, s[1..])))
  }

  /** Array.prototype.filter: the records of l that `keep` accepts, in their order. */
  function Filter(l: seq<Student>, keep: Student -> bool): (r: seq<Student>)
    ensures |r| <= |l|
    ensures forall i :: 0 <= i < |r| ==> keep(r[i])
  {
    if l == [] then [] else (if keep(l[0]) then [l[0]] else []) + Filter(l[1..], keep)
  }

  /** Filter only deletes: its result is an order-preserving subsequence of the input. */
  lemma {:induction false} FilterIsSubsequence(l: seq<Student>, keep: Student -> bool)
    ensures SubsequenceOf(Filter(l, keep), l)
  {
    if l != [] {
      FilterIsSubsequence(l[1..], keep);
      var rest := Filter(l[1..], keep);
      if keep(l[0]) {
        assert Filter(l, keep) == [l[0]] + rest;
        assert ([l[0]] + rest)[1..] == rest;
      } else {
        assert Filter(l, keep) == rest;
      }
    }
  }

  /** Filter keeps every occurrence of an accepted record and no rejected one. */
  lemma {:induction false} FilterCounts(l: seq<Student>, keep: Student -> bool)
    ensures forall x :: multiset(Filter(l, keep))[x] == if keep(x) then multiset(l)[x] else 0
  {
    if l != [] {
      FilterCounts(l[1..], keep);
      assert l == [l[0]] + l[1..];
      assert multiset(l) == multiset{l[0]} + multiset(l[1..]);
      var rest := Filter(l[1..], keep);
      if keep(l[0]) {
        assert multiset(Filter(l, keep)) == multiset{l[0]} + multiset(rest);
      } else {
        assert Filter(l, keep) == rest;
      }
    }
  }

  /** Filter keeps exactly the accepted records: the unique subsequence of the input
      that holds every occurrence of an accepted record and no rejected one. */
  lemma FilterExact(l: seq<Student>, keep: Student -> bool)
    ensures SubsequenceOf(Filter(l, keep), l)
    ensures forall x :: multiset(Filter(l, keep))[x] == if keep(x) then multiset(l)[x] else 0
  {
    FilterIsSubsequence(l, keep);
    FilterCounts(l, keep);
  }

  /** Filtering with a predicate that accepts every record returns the list unchanged. */
  lemma {:induction false} FilterKeepsAll(l: seq<Student>, keep: Student -> bool)
    requires forall i :: 0 <= i < |l| ==> keep(l[i])
    ensures Filter(l, keep) == l
  {
    if l != [] {
      FilterKeepsAll(l[1..], keep);
      assert l == [l[0]] + l[1..];
    }
  }

  /** Filtering preserves the uniqueness invariant. */
  lemma {:induction false} FilterKeepsDistinct(l: seq<Student>, keep: Student -> bool)
    ensures DistinctRolls(l) ==> DistinctRolls(Filter(l, keep))
  {
    if l != [] && DistinctRolls(l) {
      FilterKeepsDistinct(l[1..], keep);
      FilterCounts(l[1..], keep);
      var rest := Filter(l[1..], keep);
      forall j | 0 <= j < |rest| ensures rest[j].rollNo != l[0].rollNo {
        assert multiset(rest)[rest[j]] > 0;
        assert rest[j] in l[1..];
      }
    }
  }
}
