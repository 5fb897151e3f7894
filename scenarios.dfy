/** Four small inputs and what the program does with them: the assignment
    every minimum-cost flow decodes to, and its statistic. */
module Scenarios {
  import opened Input
  import opened Validation
  import opened Network
  import opened Decoding
  import opened Statistics
  import opened Optimality

  /** One row of a flow, checked on its own. */
  predicate RowOk(courses: seq<Course>, students: seq<Student>, flow: seq<FlowRow>, i: nat)
    requires PrefsBounded(students) && i < |flow|
  {
    && DistinctKeys(flow[i].out)
    && (forall j :: 0 <= j < |flow[i].out| ==>
          HasEdge(courses, students, flow[i].node, CourseNode(flow[i].out[j].0))
          && Fits(flow[i].out[j].1, EdgeAt(courses, students, flow[i].node, flow[i].out[j].0).capacity))
    && Inflow(flow, flow[i].node) - OutFlow(flow[i].out) == NodeDemand(courses, flow[i].node)
  }

  lemma {:induction false} FeasibleByRows(courses: seq<Course>, students: seq<Student>, flow: seq<FlowRow>)
    requires PrefsBounded(students)
    requires RowNodes(flow) == NodeOrder(courses, students)
    requires forall i :: 0 <= i < |flow| ==> RowOk(courses, students, flow, i)
    ensures Feasible(courses, students, flow)
  {
    forall i | 0 <= i < |flow| ensures DistinctKeys(flow[i].out) {
      assert RowOk(courses, students, flow, i);
    }
    forall i | 0 <= i < |flow|
      ensures Inflow(flow, flow[i].node) - OutFlow(flow[i].out) == NodeDemand(courses, flow[i].node)
    {
      assert RowOk(courses, students, flow, i);
    }
    forall i, j | 0 <= i < |flow| && 0 <= j < |flow[i].out|
      ensures HasEdge(courses, students, flow[i].node, CourseNode(flow[i].out[j].0))
      ensures Fits(flow[i].out[j].1, EdgeAt(courses, students, flow[i].node, flow[i].out[j].0).capacity)
    {
      assert RowOk(courses, students, flow, i);
    }
  }

  /** A student or dummy row sending its one unit to an existing course. */
  lemma {:induction false} UnitRowOk(courses: seq<Course>, students: seq<Student>, flow: seq<FlowRow>, i: nat, c: string)
    requires PrefsBounded(students) && i < |flow|
    requires flow[i].out == [(c, 1)] && c in Names(courses)
    requires || (flow[i].node.StudentNode? && flow[i].node.name in StudentNames(students))
             || (flow[i].node.DummyNode? && flow[i].node.index < DummyCount(courses, students))
    ensures RowOk(courses, students, flow, i)
  {
    assert OutFlow(flow[i].out) == 1;
    assert HasEdge(courses, students, flow[i].node, CourseNode(c));
  }

  /** A course row receiving exactly its capacity. */
  lemma {:induction false} CourseRowOk(courses: seq<Course>, students: seq<Student>, flow: seq<FlowRow>, i: nat, c: string)
    requires PrefsBounded(students) && i < |flow|
    requires flow[i] == FlowRow(CourseNode(c), []) && FlowInto(flow, c) == CapacityOf(courses, c)
    ensures RowOk(courses, students, flow, i)
  {
  }

  /** The flow into `c` counted from row `k` on. */
  lemma {:induction false} FlowIntoFrom(flow: seq<FlowRow>, k: nat, c: string)
    requires k < |flow|
    ensures FlowInto(flow[k..], c) == FlowTo(flow[k].out, c) + FlowInto(flow[k + 1..], c)
  {
    var n := |flow|;
    if k == n - 1 {
      assert flow[k..][..0] == [] && flow[k + 1..] == [];
    } else {
      FlowIntoFrom(flow[..n - 1], k, c);
      assert flow[..n - 1][k..] == flow[k..][..|flow[k..]| - 1];
      assert flow[..n - 1][k + 1..] == flow[k + 1..][..|flow[k + 1..]| - 1];
    }
  }

  /** Decoding one row further. */
  lemma {:induction false} DecodedNext(courses: seq<Course>, flow: seq<FlowRow>, k: nat)
    requires k < |flow| && Decoded(courses, flow[..k]).Assigned?
    ensures Decoded(courses, flow[..k + 1]) == Step(courses, Decoded(courses, flow[..k]).assignment, flow[k])
  {
    assert flow[..k + 1][..k] == flow[..k];
  }

  // ---------------------------------------------------------------------------
  // Scenario A: courses {"Math": 2, "Art": 1}, students
  // {"Al": ["Math"], "Bo": ["Math", "Art"], "Cy": ["Art"]}

  function CoursesA(): seq<Course> { [Course("Math", 2), Course("Art", 1)] }
  function StudentsA(): seq<Student> { [Student("Al", ["Math"]), Student("Bo", ["Math", "Art"]), Student("Cy", ["Art"])] }

  /** Everyone sent to their first choice. */
  function FlowA(): seq<FlowRow> {
    [ FlowRow(CourseNode("Math"), []), FlowRow(CourseNode("Art"), []),
      FlowRow(StudentNode("Al"), [("Math", 1)]), FlowRow(StudentNode("Bo"), [("Math", 1)]),
      FlowRow(StudentNode("Cy"), [("Art", 1)]) ]
  }

  lemma {:induction false} InputsA()
    ensures WellFormed(CoursesA(), StudentsA()) && DistinctPrefs(StudentsA())
    ensures Names(CoursesA()) == ["Math", "Art"] && StudentNames(StudentsA()) == ["Al", "Bo", "Cy"]
    ensures CapacityOf(CoursesA(), "Math") == 2 && CapacityOf(CoursesA(), "Art") == 1
    ensures DummyCount(CoursesA(), StudentsA()) == 0
  {
    assert TotalCapacity(CoursesA()) == 3;
  }

  lemma {:induction false} FlowAInto()
    ensures FlowInto(FlowA(), "Math") == 2 && FlowInto(FlowA(), "Art") == 1
  {
    FlowAIntoCourse("Math");
    FlowAIntoCourse("Art");
  }

  lemma {:induction false} FlowAIntoCourse(c: string)
    ensures FlowInto(FlowA(), c) == (if c == "Math" then 2 else 0) + (if c == "Art" then 1 else 0)
  {
    var flow := FlowA();
    assert flow[0..] == flow && flow[5..] == [];
    FlowIntoFrom(flow, 0, c); FlowIntoFrom(flow, 1, c); FlowIntoFrom(flow, 2, c);
    FlowIntoFrom(flow, 3, c); FlowIntoFrom(flow, 4, c);
  }

  lemma {:induction false} FlowACourseRows()
    ensures PrefsBounded(StudentsA())
    ensures RowOk(CoursesA(), StudentsA(), FlowA(), 0) && RowOk(CoursesA(), StudentsA(), FlowA(), 1)
  {
    InputsA();
    FlowAInto();
  }

  lemma {:induction false} FlowAStudentRows()
    ensures PrefsBounded(StudentsA())
    ensures forall i :: 2 <= i < 5 ==> RowOk(CoursesA(), StudentsA(), FlowA(), i)
  {
    var courses, students, flow := CoursesA(), StudentsA(), FlowA();
    InputsA();
    UnitRowOk(courses, students, flow, 2, "Math");
    UnitRowOk(courses, students, flow, 3, "Math");
    UnitRowOk(courses, students, flow, 4, "Art");
  }

  lemma {:induction false} FlowARows()
    ensures PrefsBounded(StudentsA())
    ensures RowNodes(FlowA()) == NodeOrder(CoursesA(), StudentsA())
    ensures forall i :: 0 <= i < |FlowA()| ==> RowOk(CoursesA(), StudentsA(), FlowA(), i)
  {
    InputsA();
    assert NodeOrder(CoursesA(), StudentsA()) == RowNodes(FlowA());
    FlowACourseRows();
    FlowAStudentRows();
  }

  /** Scenario A's flow is one the solver may return. */
  lemma {:induction false} FlowAFeasible()
    ensures WellFormed(CoursesA(), StudentsA()) && DistinctPrefs(StudentsA())
    ensures Feasible(CoursesA(), StudentsA(), FlowA())
  {
    InputsA();
    FlowARows();
    FeasibleByRows(CoursesA(), StudentsA(), FlowA());
  }

  /** A student row sending its one unit to `c` places the student in `c`. */
  lemma {:induction false} StudentStep(courses: seq<Course>, a: Assignment, s: string, c: string)
    ensures Step(courses, a, FlowRow(StudentNode(s), [(c, 1)])) == Assigned(Place(a, c, s))
  {
    assert OutFlow([(c, 1)]) == 1;
    assert ArgMax([(c, 1)]) == 0;
  }

  /** The three placements of scenario A's decoding. */
  lemma {:induction false} PlacesA()
    ensures Place([], "Math", "Al") == [CourseList("Math", ["Al"])]
    ensures Place([CourseList("Math", ["Al"])], "Math", "Bo") == [CourseList("Math", ["Al", "Bo"])]
    ensures Place([CourseList("Math", ["Al", "Bo"])], "Art", "Cy") == [CourseList("Math", ["Al", "Bo"]), CourseList("Art", ["Cy"])]
  {
    var a4 := [CourseList("Math", ["Al", "Bo"])];
    assert ["Al"] + ["Bo"] == ["Al", "Bo"];
    assert a4[1..] == [];
    assert Place(a4, "Art", "Cy") == [a4[0]] + Place(a4[1..], "Art", "Cy");
  }

  lemma {:induction false} FlowADecoded()
    ensures Decoded(CoursesA(), FlowA()) == Assigned([CourseList("Math", ["Al", "Bo"]), CourseList("Art", ["Cy"])])
  {
    var courses, flow := CoursesA(), FlowA();
    assert Names(courses) == ["Math", "Art"];
    assert flow[..0] == [];
    DecodedNext(courses, flow, 0);
    DecodedNext(courses, flow, 1);
    PlacesA();
    DecodedNext(courses, flow, 2);
    StudentStep(courses, [], "Al", "Math");
    DecodedNext(courses, flow, 3);
    StudentStep(courses, [CourseList("Math", ["Al"])], "Bo", "Math");
    DecodedNext(courses, flow, 4);
    StudentStep(courses, [CourseList("Math", ["Al", "Bo"])], "Cy", "Art");
    assert flow[..5] == flow;
  }

  /** Scenario A's flow grants everyone their first choice. */
  lemma {:induction false} FlowAFirstChoices()
    ensures Decoded(CoursesA(), FlowA()).Assigned?
    ensures Countable(Decoded(CoursesA(), FlowA()).assignment, StudentsA())
    ensures CountBucket(Decoded(CoursesA(), FlowA()).assignment, StudentsA(), 0) == |StudentsA()|
  {
    FlowADecoded();
    var students := StudentsA();
    var w := [CourseList("Math", ["Al", "Bo"]), CourseList("Art", ["Cy"])];
    assert Flatten(w) == ["Al", "Bo", "Cy"];
    assert GrantedCourse(w, "Al") == "Math" && GrantedCourse(w, "Bo") == "Math" && GrantedCourse(w, "Cy") == "Art";
    assert Countable(w, students);
    AllInBucket(w, students, 0);
  }

  /** Every minimum-cost flow of scenario A puts Al and Bo in Math and Cy in Art,
      and the statistic is [3, 0, 0, 0]. */
  lemma {:induction false} ScenarioA(flow: seq<FlowRow>)
    requires MinCost(CoursesA(), StudentsA(), flow)
    ensures Decoded(CoursesA(), flow).Assigned?
    ensures forall s :: s in Members(Decoded(CoursesA(), flow).assignment, "Math") <==> s == "Al" || s == "Bo"
    ensures forall s :: s in Members(Decoded(CoursesA(), flow).assignment, "Art") <==> s == "Cy"
    ensures Countable(Decoded(CoursesA(), flow).assignment, StudentsA())
    ensures CountBucket(Decoded(CoursesA(), flow).assignment, StudentsA(), 0) == 3
    ensures forall k :: 1 <= k <= 3 ==> CountBucket(Decoded(CoursesA(), flow).assignment, StudentsA(), k) == 0
  {
    var courses, students := CoursesA(), StudentsA();
    FlowAFeasible();
    FlowAFirstChoices();
    MinCostGrantsFirstChoices(courses, students, flow, FlowA());
    DecodeFeasibleFlow(courses, students, flow);
    var a := Decoded(courses, flow).assignment;
    PlacementA(a);
    FirstChoicesBuckets(a, students);
  }

  /** An assignment holding each of Al, Bo and Cy once, each in their first choice. */
  lemma {:induction false} PlacementA(a: Assignment)
    requires DistinctCourses(a)
    requires forall t :: ListsHolding(a, t) == if t in StudentNames(StudentsA()) then 1 else 0
    requires Countable(a, StudentsA())
    requires forall i :: 0 <= i < |StudentsA()| ==>
      StudentsA()[i].prefs != [] && GrantedCourse(a, StudentsA()[i].name) == StudentsA()[i].prefs[0]
    ensures forall s :: s in Members(a, "Math") <==> s == "Al" || s == "Bo"
    ensures forall s :: s in Members(a, "Art") <==> s == "Cy"
  {
    var students := StudentsA();
    assert StudentNames(students) == ["Al", "Bo", "Cy"];
    assert students[0].name == "Al" && students[1].name == "Bo" && students[2].name == "Cy";
    assert GrantedCourse(a, "Al") == "Math" && GrantedCourse(a, "Bo") == "Math" && GrantedCourse(a, "Cy") == "Art";
    forall s ensures s in Members(a, "Math") <==> s == "Al" || s == "Bo" {
      HeldIffGranted(a, students, s, "Math");
    }
    forall s ensures s in Members(a, "Art") <==> s == "Cy" {
      HeldIffGranted(a, students, s, "Art");
    }
  }

  // ---------------------------------------------------------------------------
  // Scenario B: courses {"Math": 1}, students {"Al": ["Math"], "Bo": ["Math"]}

  /** Two students, one place: validation reports one place missing. */
  method ScenarioB() returns (r: Outcome)
    ensures r == Fail(CapacityError(1))
  {
    var courses := [Course("Math", 1)];
    var students := [Student("Al", ["Math"]), Student("Bo", ["Math"])];
    assert TotalCapacity(courses) == 1;
    r := Validate(courses, students);
  }

  // ---------------------------------------------------------------------------
  // Scenario C: courses {"Math": 1, "Art": 1}, students {"Al": ["Math"], "Bo": []}

  function CoursesC(): seq<Course> { [Course("Math", 1), Course("Art", 1)] }
  function StudentsC(): seq<Student> { [Student("Al", ["Math"]), Student("Bo", [])] }

  /** Al sent to Math, Bo to the course left over. */
  function FlowC(): seq<FlowRow> {
    [ FlowRow(CourseNode("Math"), []), FlowRow(CourseNode("Art"), []),
      FlowRow(StudentNode("Al"), [("Math", 1)]), FlowRow(StudentNode("Bo"), [("Art", 1)]) ]
  }

  lemma {:induction false} InputsC()
    ensures WellFormed(CoursesC(), StudentsC()) && DistinctPrefs(StudentsC())
    ensures Names(CoursesC()) == ["Math", "Art"] && StudentNames(StudentsC()) == ["Al", "Bo"]
    ensures CapacityOf(CoursesC(), "Math") == 1 && CapacityOf(CoursesC(), "Art") == 1
    ensures DummyCount(CoursesC(), StudentsC()) == 0
  {
    assert TotalCapacity(CoursesC()) == 2;
  }

  lemma {:induction false} FlowCInto()
    ensures FlowInto(FlowC(), "Math") == 1 && FlowInto(FlowC(), "Art") == 1
  {
    var flow := FlowC();
    assert flow[0..] == flow && flow[4..] == [];
    FlowIntoFrom(flow, 0, "Math"); FlowIntoFrom(flow, 1, "Math");
    FlowIntoFrom(flow, 2, "Math"); FlowIntoFrom(flow, 3, "Math");
    FlowIntoFrom(flow, 0, "Art"); FlowIntoFrom(flow, 1, "Art");
    FlowIntoFrom(flow, 2, "Art"); FlowIntoFrom(flow, 3, "Art");
  }

  lemma {:induction false} FlowCRows()
    ensures PrefsBounded(StudentsC())
    ensures RowNodes(FlowC()) == NodeOrder(CoursesC(), StudentsC())
    ensures forall i :: 0 <= i < |FlowC()| ==> RowOk(CoursesC(), StudentsC(), FlowC(), i)
  {
    var courses, students, flow := CoursesC(), StudentsC(), FlowC();
    InputsC();
    FlowCInto();
    assert NodeOrder(courses, students) == RowNodes(flow);
    CourseRowOk(courses, students, flow, 0, "Math");
    CourseRowOk(courses, students, flow, 1, "Art");
    UnitRowOk(courses, students, flow, 2, "Math");
    UnitRowOk(courses, students, flow, 3, "Art");
  }

  /** Scenario C's flow is one the solver may return. */
  lemma {:induction false} FlowCFeasible()
    ensures WellFormed(CoursesC(), StudentsC()) && DistinctPrefs(StudentsC())
    ensures Feasible(CoursesC(), StudentsC(), FlowC())
  {
    InputsC();
    FlowCRows();
    FeasibleByRows(CoursesC(), StudentsC(), FlowC());
  }

  /** The two placements of scenario C's decoding. */
  lemma {:induction false} PlacesC()
    ensures Place([], "Math", "Al") == [CourseList("Math", ["Al"])]
    ensures Place([CourseList("Math", ["Al"])], "Art", "Bo") == [CourseList("Math", ["Al"]), CourseList("Art", ["Bo"])]
  {
    var a3 := [CourseList("Math", ["Al"])];
    assert a3[1..] == [];
    assert Place(a3, "Art", "Bo") == [a3[0]] + Place(a3[1..], "Art", "Bo");
  }

  lemma {:induction false} FlowCDecoded()
    ensures Decoded(CoursesC(), FlowC()) == Assigned([CourseList("Math", ["Al"]), CourseList("Art", ["Bo"])])
  {
    var courses, flow := CoursesC(), FlowC();
    assert Names(courses) == ["Math", "Art"];
    assert flow[..0] == [];
    DecodedNext(courses, flow, 0);
    DecodedNext(courses, flow, 1);
    PlacesC();
    DecodedNext(courses, flow, 2);
    StudentStep(courses, [], "Al", "Math");
    DecodedNext(courses, flow, 3);
    StudentStep(courses, [CourseList("Math", ["Al"])], "Bo", "Art");
    assert flow[..4] == flow;
  }

  /** The statistic of scenario C, whatever the assignment: Bo, who ranks
      nothing, always falls in the last bucket. */
  lemma {:induction false} BucketsC(a: Assignment)
    requires Countable(a, StudentsC())
    ensures "Al" in Flatten(a)
    ensures Bucket(["Math"], GrantedCourse(a, "Al")) == if GrantedCourse(a, "Al") == "Math" then 0 else 3
    ensures forall k :: CountBucket(a, StudentsC(), k) == (if Bucket(["Math"], GrantedCourse(a, "Al")) == k then 1 else 0) + (if k == 3 then 1 else 0)
  {
    var students := StudentsC();
    assert students[0].name == "Al" && students[1].name == "Bo";
    assert students[..1] == [students[0]] && students[..1][..0] == [];
    assert Countable(a, students[..1]);
    assert Countable(a, students[..1][..0]);
    forall k ensures CountBucket(a, students, k) ==
      (if Bucket(["Math"], GrantedCourse(a, "Al")) == k then 1 else 0) + (if k == 3 then 1 else 0)
    {
      assert GrantedCourse(a, "Bo") !in students[1].prefs;
    }
  }

  /** Every minimum-cost flow of scenario C puts Al in Math and Bo in Art, and
      the statistic is [1, 0, 0, 1]. */
  lemma {:induction false} ScenarioC(flow: seq<FlowRow>)
    requires MinCost(CoursesC(), StudentsC(), flow)
    ensures Decoded(CoursesC(), flow).Assigned?
    ensures forall s :: s in Members(Decoded(CoursesC(), flow).assignment, "Math") <==> s == "Al"
    ensures forall s :: s in Members(Decoded(CoursesC(), flow).assignment, "Art") <==> s == "Bo"
    ensures Countable(Decoded(CoursesC(), flow).assignment, StudentsC())
    ensures CountBucket(Decoded(CoursesC(), flow).assignment, StudentsC(), 0) == 1
    ensures CountBucket(Decoded(CoursesC(), flow).assignment, StudentsC(), 1) == 0
    ensures CountBucket(Decoded(CoursesC(), flow).assignment, StudentsC(), 2) == 0
    ensures CountBucket(Decoded(CoursesC(), flow).assignment, StudentsC(), 3) == 1
  {
    var courses, students := CoursesC(), StudentsC();
    FlowCFeasible();
    FlowCDecoded();
    MinCostMaximisesSatisfaction(courses, students, flow, FlowC());
    var w := Decoded(courses, FlowC()).assignment;
    BucketsC(w);
    assert GrantedCourse(w, "Al") == "Math";
    var a := Decoded(courses, flow).assignment;
    BucketsC(a);
    assert Satisfaction(a, students) >= 100;
    assert GrantedCourse(a, "Al") == "Math";
    DecodeFeasibleFlow(courses, students, flow);
    PlacementC(a);
  }

  /** An assignment of scenario C holding Al and Bo once each, within the
      capacities, with Al in Math: Bo is in Art. */
  lemma {:induction false} PlacementC(a: Assignment)
    requires DistinctCourses(a)
    requires forall t :: ListsHolding(a, t) == if t in StudentNames(StudentsC()) then 1 else 0
    requires forall e :: e in a ==> e.course in Names(CoursesC()) && |e.members| <= CapacityOf(CoursesC(), e.course)
    requires Countable(a, StudentsC())
    requires "Al" in Flatten(a) && GrantedCourse(a, "Al") == "Math"
    ensures forall s :: s in Members(a, "Math") <==> s == "Al"
    ensures forall s :: s in Members(a, "Art") <==> s == "Bo"
  {
    var students := StudentsC();
    InputsC();
    LeftoverC(a);
    forall s ensures s in Members(a, "Math") <==> s == "Al" {
      HeldIffGranted(a, students, s, "Math");
    }
    forall s ensures s in Members(a, "Art") <==> s == "Bo" {
      HeldIffGranted(a, students, s, "Art");
    }
  }

  /** Math's one place goes to Al, so Bo is granted Art. */
  lemma {:induction false} LeftoverC(a: Assignment)
    requires DistinctCourses(a)
    requires forall t :: ListsHolding(a, t) == if t in StudentNames(StudentsC()) then 1 else 0
    requires forall e :: e in a ==> e.course in Names(CoursesC()) && |e.members| <= CapacityOf(CoursesC(), e.course)
    requires Countable(a, StudentsC())
    requires "Al" in Flatten(a) && GrantedCourse(a, "Al") == "Math"
    ensures "Bo" in Flatten(a) && GrantedCourse(a, "Bo") == "Art"
  {
    var students := StudentsC();
    InputsC();
    assert students[1].name == "Bo";
    GrantedIsFirstList(a, "Bo");
    var i :| FirstHolder(a, "Bo", i) && a[i].course == GrantedCourse(a, "Bo");
    assert a[i] in a;
    if a[i].course == "Math" {
      MembersOfEntry(a, i);
      HeldIffGranted(a, students, "Al", "Math");
      assert false;
    }
  }

  // ---------------------------------------------------------------------------
  // Scenario D: courses {"Math": 3}, students {"Al": ["Math"]}

  function CoursesD(): seq<Course> { [Course("Math", 3)] }
  function StudentsD(): seq<Student> { [Student("Al", ["Math"])] }

  /** Al and the two dummy students all sent to Math. */
  function FlowD(): seq<FlowRow> {
    [ FlowRow(CourseNode("Math"), []), FlowRow(StudentNode("Al"), [("Math", 1)]),
      FlowRow(DummyNode(0), [("Math", 1)]), FlowRow(DummyNode(1), [("Math", 1)]) ]
  }

  lemma {:induction false} InputsD()
    ensures WellFormed(CoursesD(), StudentsD()) && DistinctPrefs(StudentsD())
    ensures Names(CoursesD()) == ["Math"] && StudentNames(StudentsD()) == ["Al"]
    ensures CapacityOf(CoursesD(), "Math") == 3
    ensures DummyCount(CoursesD(), StudentsD()) == 2
    ensures NodeOrder(CoursesD(), StudentsD()) == [CourseNode("Math"), StudentNode("Al"), DummyNode(0), DummyNode(1)]
  {
    assert TotalCapacity(CoursesD()) == 3;
    assert DummyNodes(2) == [DummyNode(0), DummyNode(1)];
  }

  lemma {:induction false} FlowDInto()
    ensures FlowInto(FlowD(), "Math") == 3
  {
    var flow := FlowD();
    assert flow[0..] == flow && flow[4..] == [];
    FlowIntoFrom(flow, 0, "Math"); FlowIntoFrom(flow, 1, "Math");
    FlowIntoFrom(flow, 2, "Math"); FlowIntoFrom(flow, 3, "Math");
  }

  /** Scenario D has a feasible flow, and it carries two units from dummies. */
  lemma {:induction false} FlowDFeasible()
    ensures WellFormed(CoursesD(), StudentsD())
    ensures Feasible(CoursesD(), StudentsD(), FlowD())
  {
    var courses, students, flow := CoursesD(), StudentsD(), FlowD();
    InputsD();
    FlowDInto();
    assert RowNodes(flow) == NodeOrder(courses, students);
    CourseRowOk(courses, students, flow, 0, "Math");
    UnitRowOk(courses, students, flow, 1, "Math");
    UnitRowOk(courses, students, flow, 2, "Math");
    UnitRowOk(courses, students, flow, 3, "Math");
    FeasibleByRows(courses, students, flow);
  }

  /** Every feasible flow of scenario D sends one unit from each of two dummy
      students, and decodes to {"Math": ["Al"]}: no dummy is listed. The
      statistic is [1, 0, 0, 0]. */
  lemma {:induction false} ScenarioD(flow: seq<FlowRow>)
    requires Feasible(CoursesD(), StudentsD(), flow)
    ensures |flow| == 4 && flow[2].node == DummyNode(0) && flow[3].node == DummyNode(1)
    ensures OutFlow(flow[2].out) == 1 && OutFlow(flow[3].out) == 1
    ensures Decoded(CoursesD(), flow) == Assigned([CourseList("Math", ["Al"])])
    ensures Countable([CourseList("Math", ["Al"])], StudentsD())
    ensures CountBucket([CourseList("Math", ["Al"])], StudentsD(), 0) == 1
    ensures forall k :: 1 <= k <= 3 ==> CountBucket([CourseList("Math", ["Al"])], StudentsD(), k) == 0
  {
    var courses, students := CoursesD(), StudentsD();
    InputsD();
    assert RowNodes(flow)[2] == DummyNode(0) && RowNodes(flow)[3] == DummyNode(1);
    FeasibleRows(courses, students, flow);
    assert UnitRow(courses, flow[2]) && UnitRow(courses, flow[3]);
    DecodeFeasibleFlow(courses, students, flow);
    PlacementD(Decoded(courses, flow).assignment);
    var w := [CourseList("Math", ["Al"])];
    assert Flatten(w) == ["Al"] && GrantedCourse(w, "Al") == "Math";
    assert students[0].name == "Al";
    assert Countable(w, students);
    FirstChoicesBuckets(w, students);
  }

  /** Two lists for the same course break DistinctCourses. */
  lemma {:induction false} SharedCourse(a: Assignment, c: string)
    requires |a| >= 2 && a[0].course == c && a[1].course == c
    ensures !DistinctCourses(a)
  {
    assert Courses(a)[0] == Courses(a)[1];
  }

  /** An assignment of scenario D holding Al once, each list non-empty and for
      the one course: it is {"Math": ["Al"]}. */
  lemma {:induction false} PlacementD(a: Assignment)
    requires DistinctCourses(a)
    requires forall t :: ListsHolding(a, t) == if t in StudentNames(StudentsD()) then 1 else 0
    requires forall e :: e in a ==> e.course in Names(CoursesD())
    requires |Flatten(a)| == 1
    ensures a == [CourseList("Math", ["Al"])]
  {
    InputsD();
    assert a != [];
    if |a| >= 2 {
      SharedCourse(a, "Math");
      assert false;
    }
    assert a[1..] == [];
    assert Flatten(a) == a[0].members;
    var x := a[0].members[0];
    assert ListsHolding(a, x) >= 1;
    assert x == "Al";
    assert a[0].members == ["Al"];
    assert a[0] in a;
  }
}
