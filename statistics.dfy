/** calculate_statistic: how many students got their first, second and third
    choice, and how many got none of their choices. */
module Statistics {
  import opened Input
  import opened Network
  import opened Decoding

  /** assignments_reversed[s]: the first course, in assignment order, whose list holds `s`. */
  function GrantedCourse(a: Assignment, s: string): string
    requires s in Flatten(a)
  {
    if s in a[0].members then a[0].course else GrantedCourse(a[1..], s)
  }

  /** List `i` is the first list, in assignment order, holding `s`. */
  predicate FirstHolder(a: Assignment, s: string, i: int) {
    0 <= i < |a| && s in a[i].members && forall j :: 0 <= j < i ==> s !in a[j].members
  }

  /** The course granted is that of the first list holding the student. */
  lemma {:induction false} GrantedIsFirstList(a: Assignment, s: string)
    requires s in Flatten(a)
    ensures exists i :: FirstHolder(a, s, i) && a[i].course == GrantedCourse(a, s)
  {
    assert Flatten(a) == a[0].members + Flatten(a[1..]);
    if s in a[0].members {
      assert FirstHolder(a, s, 0);
    } else {
      GrantedIsFirstList(a[1..], s);
      var i :| FirstHolder(a[1..], s, i) && a[1..][i].course == GrantedCourse(a[1..], s);
      assert a[i + 1] == a[1..][i];
      forall j | 0 <= j < i + 1 ensures s !in a[j].members {
        if j > 0 {
          assert a[j] == a[1..][j - 1];
        }
      }
      assert FirstHolder(a, s, i + 1);
    }
  }

  /** The position of the first occurrence of `x` in `s` (list.index). */
  function FirstIndex<T(==)>(s: seq<T>, x: T): (i: nat)
    requires x in s
    ensures i < |s| && s[i] == x
    ensures x !in s[..i]
  {
    if s[0] == x then 0
    else
      var i := FirstIndex(s[1..], x);
      assert s[..i + 1] == [s[0]] + s[1..][..i];
      i + 1
  }

  /** preferences.index(granted) if granted in preferences else 3 */
  function Bucket(prefs: seq<string>, c: string): nat {
    if c in prefs then FirstIndex(prefs, c) else 3
  }

  /** What calculate_statistic needs to run without an IndexError: every
      student is in some list and the bucket of its course is one of the four. */
  predicate Countable(a: Assignment, students: seq<Student>) {
    forall i :: 0 <= i < |students| ==>
      students[i].name in Flatten(a) && Bucket(students[i].prefs, GrantedCourse(a, students[i].name)) < 4
  }

  /** The number of students whose granted course falls in bucket `k`. */
  function CountBucket(a: Assignment, students: seq<Student>, k: nat): (n: nat)
    requires Countable(a, students)
    ensures n <= |students|
  {
    if students == [] then 0
    else
      var last := students[|students| - 1];
      assert Countable(a, students[..|students| - 1]);
      CountBucket(a, students[..|students| - 1], k)
        + (if Bucket(last.prefs, GrantedCourse(a, last.name)) == k then 1 else 0)
  }

  /** The two IndexErrors: a student in no list (`[...][0]` on an empty list,
      raised while the reverse map is built, so before any counting), and a
      granted course at index 4 or later of the student's list. */
  datatype StatResult =
    | Counted(stats: seq<nat>)
    | NotAssigned(student: string)
    | RankTooLow(student: string)

  /** Student `i` is the first student of the table in no list. */
  predicate FirstUnassigned(a: Assignment, students: seq<Student>, i: int) {
    && 0 <= i < |students|
    && students[i].name !in Flatten(a)
    && forall j :: 0 <= j < i ==> students[j].name in Flatten(a)
  }

  /** Every student is in some list, and student `i` is the first whose
      granted course has no bucket. */
  predicate FirstTooLow(a: Assignment, students: seq<Student>, i: int) {
    && (forall j :: 0 <= j < |students| ==> students[j].name in Flatten(a))
    && 0 <= i < |students|
    && Bucket(students[i].prefs, GrantedCourse(a, students[i].name)) >= 4
    && forall j :: 0 <= j < i ==> Bucket(students[j].prefs, GrantedCourse(a, students[j].name)) < 4
  }

  /** calculate_statistic: first the reverse map (student to granted course),
      then one increment per student of the bucket its course falls in. */
  method CalculateStatistic(a: Assignment, students: seq<Student>) returns (r: StatResult)
    ensures r.Counted? <==> Countable(a, students)
    ensures r.Counted? ==> |r.stats| == 4
    ensures r.Counted? ==> forall k :: 0 <= k < 4 ==> r.stats[k] == CountBucket(a, students, k)
    ensures r.Counted? ==> r.stats[0] + r.stats[1] + r.stats[2] + r.stats[3] == |students|
    ensures r.NotAssigned? ==> exists i :: FirstUnassigned(a, students, i) && r.student == students[i].name
    ensures r.RankTooLow? ==> exists i :: FirstTooLow(a, students, i) && r.student == students[i].name
  {
    var missing, granted := ReverseAssignments(a, students);
    if missing < |students| {
      return NotAssigned(students[missing].name);
    }
    var stats, bad := Tally(a, students, granted);
    if bad < |students| {
      return RankTooLow(students[bad].name);
    }
    return Counted(stats);
  }

  /** The reverse map, in table order; `missing` is the first student in no
      list, or |students| when there is none. */
  method ReverseAssignments(a: Assignment, students: seq<Student>) returns (missing: nat, granted: seq<string>)
    ensures missing <= |students|
    ensures missing < |students| ==> FirstUnassigned(a, students, missing)
    ensures missing == |students| ==> |granted| == |students|
    ensures missing == |students| ==> forall j :: 0 <= j < |students| ==>
      students[j].name in Flatten(a) && granted[j] == GrantedCourse(a, students[j].name)
  {
    granted := [];
    var i := 0;
    while i < |students|
      invariant 0 <= i <= |students| && |granted| == i
      invariant forall j :: 0 <= j < i ==>
        students[j].name in Flatten(a) && granted[j] == GrantedCourse(a, students[j].name)
    {
      if students[i].name !in Flatten(a) {
        return i, granted;
      }
      granted := granted + [GrantedCourse(a, students[i].name)];
      i := i + 1;
    }
    return |students|, granted;
  }

  /** The counting loop; `bad` is the first student whose course has no bucket,
      or |students| when there is none. */
  method Tally(a: Assignment, students: seq<Student>, granted: seq<string>) returns (stats: seq<nat>, bad: nat)
    requires |granted| == |students|
    requires forall j :: 0 <= j < |students| ==>
      students[j].name in Flatten(a) && granted[j] == GrantedCourse(a, students[j].name)
    ensures bad <= |students|
    ensures bad < |students| ==> FirstTooLow(a, students, bad)
    ensures bad == |students| ==> Countable(a, students) && |stats| == 4
    ensures bad == |students| ==> forall k :: 0 <= k < 4 ==> stats[k] == CountBucket(a, students, k)
    ensures bad == |students| ==> stats[0] + stats[1] + stats[2] + stats[3] == |students|
  {
    stats := [0, 0, 0, 0];
    var i := 0;
    while i < |students|
      invariant 0 <= i <= |students|
      invariant Countable(a, students[..i])
      invariant |stats| == 4
      invariant forall k :: 0 <= k < 4 ==> stats[k] == CountBucket(a, students[..i], k)
      invariant stats[0] + stats[1] + stats[2] + stats[3] == i
    {
      var b := Bucket(students[i].prefs, granted[i]);
      if b >= 4 {
        forall j | 0 <= j < i ensures Bucket(students[j].prefs, GrantedCourse(a, students[j].name)) < 4 {
          assert students[..i][j] == students[j];
        }
        return stats, i;
      }
      TallyStep(a, students, i);
      stats := stats[b := stats[b] + 1];
      i := i + 1;
    }
    assert students[..i] == students;
    return stats, |students|;
  }

  /** Counting one more student adds one to the bucket of its course. */
  lemma {:induction false} TallyStep(a: Assignment, students: seq<Student>, i: nat)
    requires i < |students| && Countable(a, students[..i])
    requires students[i].name in Flatten(a) && Bucket(students[i].prefs, GrantedCourse(a, students[i].name)) < 4
    ensures Countable(a, students[..i + 1])
    ensures var b := Bucket(students[i].prefs, GrantedCourse(a, students[i].name));
      forall k :: CountBucket(a, students[..i + 1], k) == CountBucket(a, students[..i], k) + (if b == k then 1 else 0)
  {
    assert students[..i + 1][..i] == students[..i];
    assert Countable(a, students[..i + 1]);
  }

  /** The four buckets: bucket k < 3 holds the students granted the course at
      index k of a list without repeats, bucket 3 those granted a course they
      did not list. */
  lemma {:induction false} BucketMeaning(prefs: seq<string>, c: string, k: nat)
    requires Distinct(prefs) && |prefs| <= 3
    ensures k < 3 ==> (Bucket(prefs, c) == k <==> k < |prefs| && prefs[k] == c)
    ensures Bucket(prefs, c) == 3 <==> c !in prefs
  {
    if c in prefs {
      var i := FirstIndex(prefs, c);
      assert forall j :: 0 <= j < |prefs| && prefs[j] == c ==> j == i;
    }
  }

  /** The buckets together count every student once. */
  lemma {:induction false} BucketsCoverStudents(a: Assignment, students: seq<Student>)
    requires Countable(a, students)
    ensures CountBucket(a, students, 0) + CountBucket(a, students, 1)
          + CountBucket(a, students, 2) + CountBucket(a, students, 3) == |students|
  {
    if students != [] {
      var init := students[..|students| - 1];
      assert Countable(a, init);
      BucketsCoverStudents(a, init);
    }
  }

  /** A bucket counts every student exactly when it holds each of them. */
  lemma {:induction false} AllInBucket(a: Assignment, students: seq<Student>, k: nat)
    requires Countable(a, students)
    ensures CountBucket(a, students, k) == |students| <==>
      forall i :: 0 <= i < |students| ==> Bucket(students[i].prefs, GrantedCourse(a, students[i].name)) == k
  {
    if students != [] {
      var n := |students|;
      var init := students[..n - 1];
      assert Countable(a, init);
      AllInBucket(a, init, k);
      assert forall i :: 0 <= i < n - 1 ==> init[i] == students[i];
    }
  }

  /** When everyone is granted their first choice the statistic is [|students|, 0, 0, 0]. */
  lemma {:induction false} FirstChoicesBuckets(a: Assignment, students: seq<Student>)
    requires Countable(a, students)
    requires forall i :: 0 <= i < |students| ==>
      students[i].prefs != [] && GrantedCourse(a, students[i].name) == students[i].prefs[0]
    ensures CountBucket(a, students, 0) == |students|
    ensures forall k :: 1 <= k <= 3 ==> CountBucket(a, students, k) == 0
  {
    forall i | 0 <= i < |students|
      ensures Bucket(students[i].prefs, GrantedCourse(a, students[i].name)) == 0
    {
      assert students[i].prefs[0] in students[i].prefs;
    }
    AllInBucket(a, students, 0);
    BucketsCoverStudents(a, students);
  }

  /** A student in exactly one list is granted that list's course. */
  lemma {:induction false} GrantedIsTheList(a: Assignment, s: string, i: nat)
    requires ListsHolding(a, s) == 1
    requires i < |a| && s in a[i].members
    ensures s in Flatten(a) && GrantedCourse(a, s) == a[i].course
  {
    ListsHoldingBounds(a, s);
    assert Flatten(a) == a[0].members + Flatten(a[1..]);
    if i == 0 {
    } else if s in a[0].members {
      // s would then be held twice
      MembersInFlatten(a[1..], i - 1);
      ListsHoldingBounds(a[1..], s);
      assert false;
    } else {
      GrantedIsTheList(a[1..], s, i - 1);
    }
  }

  lemma {:induction false} MembersInFlatten(a: Assignment, i: nat)
    requires i < |a|
    ensures forall s :: s in a[i].members ==> s in Flatten(a)
  {
    if i > 0 {
      MembersInFlatten(a[1..], i - 1);
    }
  }

  /** The assignment decoded from any feasible flow can be counted. */
  lemma {:induction false} DecodedIsCountable(courses: seq<Course>, students: seq<Student>, flow: seq<FlowRow>)
    requires WellFormed(courses, students)
    requires Feasible(courses, students, flow)
    ensures Decoded(courses, flow).Assigned?
    ensures Countable(Decoded(courses, flow).assignment, students)
  {
    DecodeFeasibleFlow(courses, students, flow);
    var a := Decoded(courses, flow).assignment;
    forall i | 0 <= i < |students|
      ensures students[i].name in Flatten(a)
      ensures Bucket(students[i].prefs, GrantedCourse(a, students[i].name)) < 4
    {
      assert StudentNames(students)[i] == students[i].name;
      ListsHoldingBounds(a, students[i].name);
      assert multiset(Flatten(a))[students[i].name] > 0;
    }
  }
}
