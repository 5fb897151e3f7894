/** Decoding by node name, as the program does it. The program keeps courses,
    students and dummies in one name space and tells them apart by name: a
    row is skipped when its name is a course's name, and dropped when the name
    starts with "dummy_". On ordinary names that is the tag-based decoding of
    the rest of the model; a student whose name starts with "dummy_" is sent
    one unit of flow by the solver and then left out of every list. */
module ByName {
  import opened Input
  import opened Network
  import opened Decoding

  const DummyPrefix: string := "dummy_"

  function DigitChar(d: nat): char
    requires d < 10
  {
    "0123456789"[d]
  }

  /** str(n) for a natural number. */
  function Decimal(n: nat): (r: string)
    ensures r != [] && forall k :: 0 <= k < |r| ==> r[k] in "0123456789"
    ensures n >= 10 ==> r[0] != '0'
  {
    if n < 10 then [DigitChar(n)] else Decimal(n / 10) + [DigitChar(n % 10)]
  }

  /** The name the program gives a node: f"dummy_{i}" for the i-th dummy. */
  function NodeName(n: Node): string {
    match n
    case CourseNode(c) => c
    case StudentNode(s) => s
    case DummyNode(i) => DummyPrefix + Decimal(i)
  }

  predicate IsDummyName(name: string) {
    |name| >= |DummyPrefix| && name[..|DummyPrefix|] == DummyPrefix
  }

  /** One pass of the decoding loop, as written: every test is on the node's name. */
  function StepByName(courses: seq<Course>, a: Assignment, row: FlowRow): DecodeResult {
    var name := NodeName(row.node);
    if name in Names(courses) then Assigned(a)
    else if OutFlow(row.out) != 1 then NotOneUnit(row.node)
    else if IsDummyName(name) then Assigned(a)
    else Assigned(Place(a, row.out[ArgMax(row.out)].0, name))
  }

  function DecodedByName(courses: seq<Course>, flow: seq<FlowRow>): DecodeResult {
    if flow == [] then Assigned([])
    else
      match DecodedByName(courses, flow[..|flow| - 1])
      case NotOneUnit(n) => NotOneUnit(n)
      case Assigned(a) => StepByName(courses, a, flow[|flow| - 1])
  }

  /** One course A with one place, and one student "dummy_ann" who wants it. */
  function AnnCourses(): seq<Course> { [Course("A", 1)] }
  function AnnStudents(): seq<Student> { [Student("dummy_ann", ["A"])] }
  /** The only feasible flow: the student's unit goes to A. */
  function AnnFlow(): seq<FlowRow> { [FlowRow(CourseNode("A"), []), FlowRow(StudentNode("dummy_ann"), [("A", 1)])] }

  lemma {:induction false} AnnFlowFeasible()
    ensures WellFormed(AnnCourses(), AnnStudents())
    ensures Feasible(AnnCourses(), AnnStudents(), AnnFlow())
  {
    var courses, students, flow := AnnCourses(), AnnStudents(), AnnFlow();
    assert Names(courses) == ["A"];
    assert StudentNames(students) == ["dummy_ann"];
    assert TotalCapacity(courses) == 1;
    assert NodeOrder(courses, students) == [CourseNode("A"), StudentNode("dummy_ann")];
    assert RowNodes(flow) == NodeOrder(courses, students);
    assert DistinctKeys(flow[0].out) && DistinctKeys(flow[1].out);
    assert HasEdge(courses, students, StudentNode("dummy_ann"), CourseNode("A"));
    assert EdgeAt(courses, students, StudentNode("dummy_ann"), "A").capacity == Limit(1);
    assert OutFlow(flow[0].out) == 0 && OutFlow(flow[1].out) == 1;
    assert FlowInto(flow, "A") == 1;
    assert CapacityOf(courses, "A") == 1;
    assert Inflow(flow, flow[1].node) == 0;
  }

  /** On that feasible flow, decoding by name leaves the assignment empty,
      while the tag-based decoding places the student in A. */
  lemma {:induction false} DummyPrefixStudentDropped()
    ensures WellFormed(AnnCourses(), AnnStudents())
    ensures Feasible(AnnCourses(), AnnStudents(), AnnFlow())
    ensures DecodedByName(AnnCourses(), AnnFlow()) == Assigned([])
    ensures Decoded(AnnCourses(), AnnFlow()) == Assigned([CourseList("A", ["dummy_ann"])])
  {
    AnnFlowFeasible();
    var courses, flow := AnnCourses(), AnnFlow();
    assert Names(courses) == ["A"];
    assert OutFlow(flow[1].out) == 1;
    assert "dummy_ann"[..|DummyPrefix|] == DummyPrefix;
    assert flow[..1] == [flow[0]];
    assert flow[..1][..0] == [];
  }

  /** The names of the built network are ordinary: no student shares a name
      with a course, and no course or student name starts with "dummy_". */
  predicate OrdinaryNames(courses: seq<Course>, students: seq<Student>) {
    && (forall i :: 0 <= i < |students| ==> students[i].name !in Names(courses) && !IsDummyName(students[i].name))
    && (forall i :: 0 <= i < |courses| ==> !IsDummyName(courses[i].name))
  }

  /** A node whose name tells its kind the way the decoding loop reads it. */
  predicate NameAgrees(courses: seq<Course>, n: Node) {
    if n.CourseNode? && n.name in Names(courses) then NodeName(n) in Names(courses)
    else NodeName(n) !in Names(courses) && (IsDummyName(NodeName(n)) <==> n.DummyNode?)
  }

  lemma {:induction false} NameAgreesStep(courses: seq<Course>, a: Assignment, row: FlowRow)
    requires NameAgrees(courses, row.node)
    ensures StepByName(courses, a, row) == Step(courses, a, row)
  {
  }

  /** Where every row's name tells its kind, both decodings agree. */
  lemma {:induction false} DecodingsAgree(courses: seq<Course>, flow: seq<FlowRow>)
    requires forall i :: 0 <= i < |flow| ==> NameAgrees(courses, flow[i].node)
    ensures DecodedByName(courses, flow) == Decoded(courses, flow)
  {
    if flow != [] {
      var n := |flow|;
      assert forall i :: 0 <= i < n - 1 ==> flow[..n - 1][i] == flow[i];
      DecodingsAgree(courses, flow[..n - 1]);
      match Decoded(courses, flow[..n - 1])
      case NotOneUnit(_) =>
      case Assigned(a) => NameAgreesStep(courses, a, flow[n - 1]);
    }
  }

  lemma {:induction false} DummyNameMarked(i: nat)
    ensures IsDummyName(NodeName(DummyNode(i)))
  {
    assert NodeName(DummyNode(i))[..|DummyPrefix|] == DummyPrefix;
  }

  /** With ordinary names, every node of the built network's order tells its kind by name. */
  lemma {:induction false} OrdinaryNodesAgree(courses: seq<Course>, students: seq<Student>)
    requires OrdinaryNames(courses, students)
    ensures forall k :: 0 <= k < |NodeOrder(courses, students)| ==> NameAgrees(courses, NodeOrder(courses, students)[k])
  {
    var nodes := NodeOrder(courses, students);
    var c, m := |courses|, |courses| + |students|;
    forall k | 0 <= k < |nodes| ensures NameAgrees(courses, nodes[k]) {
      if k < c {
        assert nodes[k] == CourseNode(courses[k].name);
        assert Names(courses)[k] == courses[k].name;
      } else if k < m {
        assert nodes[k] == StudentNode(students[k - c].name);
      } else {
        var d := k - m;
        assert nodes[k] == DummyNode(d);
        DummyNameMarked(d);
        forall j | 0 <= j < c ensures Names(courses)[j] != NodeName(DummyNode(d)) {
          assert Names(courses)[j] == courses[j].name;
        }
      }
    }
  }

  /** The program's decoding of a feasible flow, when names are ordinary, is the
      tag-based one, so every student is listed exactly once. */
  lemma {:induction false} OrdinaryNamesDecodeAlike(courses: seq<Course>, students: seq<Student>, flow: seq<FlowRow>)
    requires WellFormed(courses, students) && OrdinaryNames(courses, students)
    requires Feasible(courses, students, flow)
    ensures DecodedByName(courses, flow) == Decoded(courses, flow)
    ensures DecodedByName(courses, flow).Assigned?
    ensures forall s :: ListsHolding(DecodedByName(courses, flow).assignment, s) == if s in StudentNames(students) then 1 else 0
  {
    OrdinaryNodesAgree(courses, students);
    forall i | 0 <= i < |flow| ensures NameAgrees(courses, flow[i].node) {
      assert flow[i].node == RowNodes(flow)[i];
    }
    DecodingsAgree(courses, flow);
    DecodeFeasibleFlow(courses, students, flow);
  }
}
