/** The input check that runs before any network is built. */
module Validation {
  import opened Input

  datatype ValidationError =
    | CapacityError(missing: nat)                      // "... N more places needed!"
    | UnknownCourse(student: string, course: string)   // "Invalid course ... [Occurred in student ...]"

  datatype Outcome = Pass | Fail(error: ValidationError)

  /** Every course a student names is in the course table. */
  predicate AllPrefsKnown(courses: seq<Course>, students: seq<Student>) {
    forall i, j :: 0 <= i < |students| && 0 <= j < |students[i].prefs| ==>
      students[i].prefs[j] in Names(courses)
  }

  /** Preference `j` of student `i` is the first unknown course in table order:
      every preference of an earlier student, and every earlier preference of
      the same student, is known. */
  predicate FirstUnknown(courses: seq<Course>, students: seq<Student>, i: int, j: int) {
    && 0 <= i < |students| && 0 <= j < |students[i].prefs|
    && students[i].prefs[j] !in Names(courses)
    && (forall i', j' :: 0 <= i' < i && 0 <= j' < |students[i'].prefs| ==> students[i'].prefs[j'] in Names(courses))
    && (forall j' :: 0 <= j' < j ==> students[i].prefs[j'] in Names(courses))
  }

  /** validate: the capacity check first, then the preference scan. */
  method Validate(courses: seq<Course>, students: seq<Student>) returns (r: Outcome)
    ensures r.Fail? && r.error.CapacityError? <==> TotalCapacity(courses) < |students|
    ensures r.Fail? && r.error.CapacityError? ==> r.error.missing == |students| - TotalCapacity(courses)
    ensures r.Fail? && r.error.UnknownCourse? ==>
      exists i, j :: FirstUnknown(courses, students, i, j)
        && r.error == UnknownCourse(students[i].name, students[i].prefs[j])
    ensures r.Pass? <==> TotalCapacity(courses) >= |students| && AllPrefsKnown(courses, students)
  {
    var total := SumCapacities(courses);
    if total < |students| {
      return Fail(CapacityError(|students| - total));
    }
    var known := Names(courses);
    var i := 0;
    while i < |students|
      invariant 0 <= i <= |students|
      invariant forall i', j' :: 0 <= i' < i && 0 <= j' < |students[i'].prefs| ==> students[i'].prefs[j'] in known
    {
      var prefs := students[i].prefs;
      var j := 0;
      while j < |prefs|
        invariant 0 <= j <= |prefs|
        invariant forall j' :: 0 <= j' < j ==> prefs[j'] in known
      {
        if prefs[j] !in known {
          assert FirstUnknown(courses, students, i, j);
          return Fail(UnknownCourse(students[i].name, prefs[j]));
        }
        j := j + 1;
      }
      i := i + 1;
    }
    return Pass;
  }
}
