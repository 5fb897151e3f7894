/** The inputs every stage shares: the course table (course name to number of
    places) and the preference table (student name to ranked course names).
    Both are dictionaries in the program; here each is a sequence of entries in
    the dictionary's iteration order, with distinct keys. */
module Input {

  /** One entry of the course table. */
  datatype Course = Course(name: string, capacity: nat)

  /** One entry of the preference table: the courses a student asked for, best first. */
  datatype Student = Student(name: string, prefs: seq<string>)

  /** Edge cost for the course a student ranked first, second and third.
      The solver minimises cost, so the most negative weight is the most wanted placement. */
  const WEIGHTS: seq<int> := [-100, -70, -30]

  /** The cost scale is strictly ordered: first choice cheapest, every ranked
      choice cheaper than an unranked placement, which costs 0. */
  lemma {:induction false} WeightsOrdered()
    ensures |WEIGHTS| == 3
    ensures forall i, j :: 0 <= i < j < |WEIGHTS| ==> WEIGHTS[i] < WEIGHTS[j] < 0
  {
  }

  predicate Distinct<T(==)>(s: seq<T>) {
    forall i, j :: 0 <= i < j < |s| ==> s[i] != s[j]
  }

  function Names(courses: seq<Course>): seq<string> {
    seq(|courses|, i requires 0 <= i < |courses| => courses[i].name)
  }

  function StudentNames(students: seq<Student>): seq<string> {
    seq(|students|, i requires 0 <= i < |students| => students[i].name)
  }

  /** sum(courses.values()) */
  function TotalCapacity(courses: seq<Course>): nat {
    if courses == [] then 0
    else TotalCapacity(courses[..|courses| - 1]) + courses[|courses| - 1].capacity
  }

  /** The capacity the table gives course `c` (0 for a course it does not list). */
  function CapacityOf(courses: seq<Course>, c: string): nat {
    if courses == [] then 0
    else if courses[|courses| - 1].name == c then courses[|courses| - 1].capacity
    else CapacityOf(courses[..|courses| - 1], c)
  }

  /** The preference list the table gives student `s` (empty for a student it does not list). */
  function PrefsOf(students: seq<Student>, s: string): (p: seq<string>)
    ensures PrefsBounded(students) ==> |p| <= |WEIGHTS|
  {
    if students == [] then []
    else if students[|students| - 1].name == s then students[|students| - 1].prefs
    else PrefsOf(students[..|students| - 1], s)
  }

  /** Every preference list fits the cost scale: WEIGHTS has no entry past rank 2. */
  predicate PrefsBounded(students: seq<Student>) {
    forall i :: 0 <= i < |students| ==> |students[i].prefs| <= |WEIGHTS|
  }

  /** What a dictionary guarantees: distinct keys. */
  predicate UniqueKeys(courses: seq<Course>, students: seq<Student>) {
    Distinct(Names(courses)) && Distinct(StudentNames(students))
  }

  /** Distinct keys and preference lists of at most three courses. */
  predicate WellFormed(courses: seq<Course>, students: seq<Student>) {
    UniqueKeys(courses, students) && PrefsBounded(students)
  }

  /** Student `i` is the first with more preferences than WEIGHTS has ranks:
      the builder's lookup WEIGHTS[3] raises KeyError there. */
  predicate FirstOverlong(students: seq<Student>, i: int) {
    && 0 <= i < |students|
    && |students[i].prefs| > |WEIGHTS|
    && forall j :: 0 <= j < i ==> |students[j].prefs| <= |WEIGHTS|
  }

  /** Looking a course up by name finds its own entry. */
  lemma {:induction false} CapacityOfAt(courses: seq<Course>, i: nat)
    requires Distinct(Names(courses))
    requires i < |courses|
    ensures CapacityOf(courses, courses[i].name) == courses[i].capacity
  {
    var n := |courses|;
    if i < n - 1 {
      var init := courses[..n - 1];
      assert courses[n - 1].name == Names(courses)[n - 1] != Names(courses)[i] == courses[i].name;
      assert Names(init) == Names(courses)[..n - 1];
      CapacityOfAt(init, i);
    }
  }

  /** Looking a student up by name finds their own entry. */
  lemma {:induction false} PrefsOfAt(students: seq<Student>, i: nat)
    requires Distinct(StudentNames(students))
    requires i < |students|
    ensures PrefsOf(students, students[i].name) == students[i].prefs
  {
    var n := |students|;
    if i < n - 1 {
      var init := students[..n - 1];
      assert students[n - 1].name == StudentNames(students)[n - 1] != StudentNames(students)[i] == students[i].name;
      assert StudentNames(init) == StudentNames(students)[..n - 1];
      PrefsOfAt(init, i);
    }
  }

  /** The loop behind sum(courses.values()), shared by the validator and the network builder. */
  method SumCapacities(courses: seq<Course>) returns (total: nat)
    ensures total == TotalCapacity(courses)
  {
    total := 0;
    var k := 0;
    while k < |courses|
      invariant 0 <= k <= |courses|
      invariant total == TotalCapacity(courses[..k])
    {
      assert courses[..k + 1][..k] == courses[..k];
      total := total + courses[k].capacity;
      k := k + 1;
    }
    assert courses[..k] == courses;
  }
}
