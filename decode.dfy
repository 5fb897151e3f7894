/** The second half of assign_to_courses: reading the solver's flow back as an
    assignment of students to courses. The solver itself is not modelled; its
    answer is an input, and `Feasible` says what a correct answer satisfies. */
module Decoding {
  import opened Input
  import opened Validation
  import opened Network

  /** The solver's answer for one node: the flow on each edge leaving it, keyed
      by the name of the course the edge enters, in edge order. */
  datatype FlowRow = FlowRow(node: Node, out: seq<(string, nat)>)

  /** The students placed in one course, in the order they were placed. */
  datatype CourseList = CourseList(course: string, members: seq<string>)

  /** courses in the order they first received a student (the defaultdict's key order). */
  type Assignment = seq<CourseList>

  /** NotOneUnit is the failed `assert sum(...) == 1`: some node does not send exactly one unit. */
  datatype DecodeResult = Assigned(assignment: Assignment) | NotOneUnit(node: Node)

  // ---------------------------------------------------------------------------
  // One row of the flow

  /** sum(preference_courses.values()) */
  function OutFlow(out: seq<(string, nat)>): nat {
    if out == [] then 0 else OutFlow(out[..|out| - 1]) + out[|out| - 1].1
  }

  /** The flow a row sends into course `c` (0 without such an edge). */
  function FlowTo(out: seq<(string, nat)>, c: string): nat {
    if out == [] then 0 else if out[0].0 == c then out[0].1 else FlowTo(out[1..], c)
  }

  predicate DistinctKeys(out: seq<(string, nat)>) {
    forall i, j :: 0 <= i < j < |out| ==> out[i].0 != out[j].0
  }

  /** max(preference_courses, key=preference_courses.get): the first entry of largest flow. */
  function ArgMax(out: seq<(string, nat)>): (k: nat)
    requires out != []
    ensures k < |out|
    ensures forall i :: 0 <= i < |out| ==> out[i].1 <= out[k].1
    ensures forall i :: 0 <= i < k ==> out[i].1 < out[k].1
  {
    if |out| == 1 then 0
    else
      var j := ArgMax(out[..|out| - 1]);
      if out[|out| - 1].1 > out[j].1 then |out| - 1 else j
  }

  lemma {:induction false} EntryBelowOutFlow(out: seq<(string, nat)>, j: nat)
    requires j < |out|
    ensures out[j].1 <= OutFlow(out)
  {
    if j < |out| - 1 {
      EntryBelowOutFlow(out[..|out| - 1], j);
    }
  }

  lemma {:induction false} PositiveOutFlowHasEntry(out: seq<(string, nat)>)
    requires OutFlow(out) > 0
    ensures exists j :: 0 <= j < |out| && out[j].1 > 0
  {
    var n := |out|;
    if out[n - 1].1 == 0 {
      PositiveOutFlowHasEntry(out[..n - 1]);
      var j :| 0 <= j < n - 1 && out[..n - 1][j].1 > 0;
      assert out[j].1 > 0;
    }
  }

  /** A row that sends one unit in all sends it along the edge `max` picks. */
  lemma {:induction false} UnitOutFlowArgMax(out: seq<(string, nat)>)
    requires OutFlow(out) == 1
    ensures out != [] && out[ArgMax(out)].1 == 1
  {
    PositiveOutFlowHasEntry(out);
    var k := ArgMax(out);
    EntryBelowOutFlow(out, k);
  }

  lemma {:induction false} FlowToAt(out: seq<(string, nat)>, j: nat)
    requires DistinctKeys(out)
    requires j < |out|
    ensures FlowTo(out, out[j].0) == out[j].1
  {
    if j > 0 {
      assert out[0].0 != out[j].0;
      FlowToAt(out[1..], j - 1);
    }
  }

  lemma {:induction false} PositiveFlowToHasEdge(out: seq<(string, nat)>, c: string)
    requires FlowTo(out, c) > 0
    ensures exists j :: 0 <= j < |out| && out[j].0 == c
  {
    if out[0].0 != c {
      PositiveFlowToHasEdge(out[1..], c);
      var j :| 0 <= j < |out| - 1 && out[1..][j].0 == c;
      assert out[j + 1].0 == c;
    }
  }

  // ---------------------------------------------------------------------------
  // Assignments (the defaultdict of lists)

  function Courses(a: Assignment): seq<string> {
    seq(|a|, i requires 0 <= i < |a| => a[i].course)
  }

  predicate DistinctCourses(a: Assignment) {
    Distinct(Courses(a))
  }

  /** assignments[c]: the students placed in `c` ([] for a course with none). */
  function Members(a: Assignment, c: string): seq<string> {
    if a == [] then [] else if a[0].course == c then a[0].members else Members(a[1..], c)
  }

  /** Every student listed, course by course. */
  function Flatten(a: Assignment): seq<string> {
    if a == [] then [] else a[0].members + Flatten(a[1..])
  }

  /** assignments[c].append(s) on a defaultdict: a new course starts a new list at the end. */
  function Place(a: Assignment, c: string, s: string): Assignment {
    if a == [] then [CourseList(c, [s])]
    else if a[0].course == c then [CourseList(c, a[0].members + [s])] + a[1..]
    else [a[0]] + Place(a[1..], c, s)
  }

  /** Placing `s` in `c` appends it to the list of `c` and to no other list. */
  lemma {:induction false} PlaceMembers(a: Assignment, c: string, s: string, d: string)
    ensures Members(Place(a, c, s), d) == if d == c then Members(a, c) + [s] else Members(a, d)
  {
    if a != [] && a[0].course != c {
      PlaceMembers(a[1..], c, s, d);
    }
  }

  /** Placing adds exactly one listing of `s`. */
  lemma {:induction false} PlaceFlatten(a: Assignment, c: string, s: string)
    ensures multiset(Flatten(Place(a, c, s))) == multiset(Flatten(a)) + multiset{s}
  {
    if a != [] {
      if a[0].course == c {
        assert Flatten(Place(a, c, s)) == a[0].members + [s] + Flatten(a[1..]);
      } else {
        PlaceFlatten(a[1..], c, s);
      }
    }
  }

  /** Placing keeps the course order and adds `c` at the end when it is new. */
  lemma {:induction false} PlaceCourses(a: Assignment, c: string, s: string)
    ensures Courses(Place(a, c, s)) == if c in Courses(a) then Courses(a) else Courses(a) + [c]
  {
    if a != [] {
      assert a == [a[0]] + a[1..];
      CoursesCons(a[0], a[1..]);
      if a[0].course == c {
        CoursesCons(CourseList(c, a[0].members + [s]), a[1..]);
      } else {
        PlaceCourses(a[1..], c, s);
        CoursesCons(a[0], Place(a[1..], c, s));
      }
    }
  }

  lemma {:induction false} CoursesCons(e: CourseList, rest: Assignment)
    ensures Courses([e] + rest) == [e.course] + Courses(rest)
  {
  }

  /** Placing never leaves an empty list behind. */
  lemma {:induction false} PlaceNonEmpty(a: Assignment, c: string, s: string)
    requires forall e :: e in a ==> e.members != []
    ensures forall e :: e in Place(a, c, s) ==> e.members != []
  {
    if a != [] && a[0].course != c {
      PlaceNonEmpty(a[1..], c, s);
    }
  }

  lemma {:induction false} PlaceKeepsDistinct(a: Assignment, c: string, s: string)
    requires DistinctCourses(a)
    ensures DistinctCourses(Place(a, c, s))
  {
    PlaceCourses(a, c, s);
    var r := Place(a, c, s);
    if c !in Courses(a) {
      forall i, j | 0 <= i < j < |Courses(r)| ensures Courses(r)[i] != Courses(r)[j] {
        if j == |Courses(a)| {
          assert Courses(r)[i] == Courses(a)[i];
        }
      }
    }
  }

  /** With one list per course, an entry's list is the course's list. */
  lemma {:induction false} MembersOfEntry(a: Assignment, i: nat)
    requires DistinctCourses(a)
    requires i < |a|
    ensures Members(a, a[i].course) == a[i].members
  {
    if i > 0 {
      assert Courses(a)[0] != Courses(a)[i];
      assert Courses(a[1..]) == Courses(a)[1..];
      MembersOfEntry(a[1..], i - 1);
    }
  }

  // ---------------------------------------------------------------------------
  // Decoding

  /** A row that is neither a listed course nor a dummy: its node's name is appended. */
  predicate Placed(courses: seq<Course>, n: Node) {
    n.StudentNode? || (n.CourseNode? && n.name !in Names(courses))
  }

  /** One pass of the decoding loop. */
  function Step(courses: seq<Course>, a: Assignment, row: FlowRow): DecodeResult {
    if row.node.CourseNode? && row.node.name in Names(courses) then Assigned(a)
    else if OutFlow(row.out) != 1 then NotOneUnit(row.node)
    else if row.node.DummyNode? then Assigned(a)
    else Assigned(Place(a, row.out[ArgMax(row.out)].0, row.node.name))
  }

  /** The whole decoding loop over the flow's rows, in node order; the first
      failing row ends it. */
  function Decoded(courses: seq<Course>, flow: seq<FlowRow>): DecodeResult {
    if flow == [] then Assigned([])
    else
      match Decoded(courses, flow[..|flow| - 1])
      case NotOneUnit(n) => NotOneUnit(n)
      case Assigned(a) => Step(courses, a, flow[|flow| - 1])
  }

  /** Once a row fails, the decoding of every longer prefix fails the same way. */
  lemma {:induction false} FailureSticks(courses: seq<Course>, flow: seq<FlowRow>, k: nat)
    requires k <= |flow|
    requires Decoded(courses, flow[..k]).NotOneUnit?
    ensures Decoded(courses, flow) == Decoded(courses, flow[..k])
  {
    if k < |flow| {
      var n := |flow|;
      assert flow[..n - 1][..k] == flow[..k];
      FailureSticks(courses, flow[..n - 1], k);
      assert flow[..n] == flow;
    } else {
      assert flow[..k] == flow;
    }
  }

  method Decode(courses: seq<Course>, flow: seq<FlowRow>) returns (r: DecodeResult)
    ensures r == Decoded(courses, flow)
  {
    var known := Names(courses);
    var a: Assignment := [];
    var i := 0;
    while i < |flow|
      invariant 0 <= i <= |flow|
      invariant Decoded(courses, flow[..i]) == Assigned(a)
    {
      var row := flow[i];
      assert flow[..i + 1][..i] == flow[..i];
      if row.node.CourseNode? && row.node.name in known {
        // a course node: nothing to read
      } else if OutFlow(row.out) != 1 {
        FailureSticks(courses, flow, i + 1);
        return NotOneUnit(row.node);
      } else if !row.node.DummyNode? {
        a := Place(a, row.out[ArgMax(row.out)].0, row.node.name);
      }
      i := i + 1;
    }
    assert flow[..i] == flow;
    return Assigned(a);
  }

  // ---------------------------------------------------------------------------
  // What decoding delivers on a flow in which every non-course node sends one unit

  /** A course row, or a row that sends exactly one unit along distinct edges. */
  predicate UnitRow(courses: seq<Course>, row: FlowRow) {
    (row.node.CourseNode? && row.node.name in Names(courses)) || (OutFlow(row.out) == 1 && DistinctKeys(row.out))
  }

  function RowNodes(flow: seq<FlowRow>): seq<Node> {
    seq(|flow|, i requires 0 <= i < |flow| => flow[i].node)
  }

  /** The names decoding appends, in node order. */
  function PlacedNames(courses: seq<Course>, nodes: seq<Node>): seq<string> {
    if nodes == [] then []
    else PlacedNames(courses, nodes[..|nodes| - 1]) + (if Placed(courses, nodes[|nodes| - 1]) then [nodes[|nodes| - 1].name] else [])
  }

  /** The flow into course `c` from all rows. */
  function FlowInto(flow: seq<FlowRow>, c: string): nat {
    if flow == [] then 0 else FlowInto(flow[..|flow| - 1], c) + FlowTo(flow[|flow| - 1].out, c)
  }

  /** One decoding step on a unit row: it succeeds, keeps one non-empty list
      per course, lists the row's node once if it is placed, and adds at most
      the row's flow into `c` to the list of `c`. */
  lemma {:induction false} UnitStep(courses: seq<Course>, a: Assignment, row: FlowRow)
    requires UnitRow(courses, row)
    requires DistinctCourses(a) && forall e :: e in a ==> e.members != []
    ensures Step(courses, a, row).Assigned?
    ensures DistinctCourses(Step(courses, a, row).assignment)
    ensures forall e :: e in Step(courses, a, row).assignment ==> e.members != []
    ensures multiset(Flatten(Step(courses, a, row).assignment))
         == multiset(Flatten(a)) + (if Placed(courses, row.node) then multiset{row.node.name} else multiset{})
    ensures forall c :: |Members(Step(courses, a, row).assignment, c)| <= |Members(a, c)| + FlowTo(row.out, c)
  {
    if Placed(courses, row.node) {
      var k := ArgMax(row.out);
      var t := row.out[k].0;
      UnitOutFlowArgMax(row.out);
      FlowToAt(row.out, k);
      PlaceKeepsDistinct(a, t, row.node.name);
      PlaceFlatten(a, t, row.node.name);
      PlaceNonEmpty(a, t, row.node.name);
      forall c ensures |Members(Place(a, t, row.node.name), c)| <= |Members(a, c)| + FlowTo(row.out, c) {
        PlaceMembers(a, t, row.node.name, c);
      }
    }
  }

  /** Decoding a flow of unit rows succeeds; it lists each placed node once,
      keeps one non-empty list per course, and never puts more students in a
      course than units of flow enter it. */
  lemma {:induction false} DecodeUnitRows(courses: seq<Course>, flow: seq<FlowRow>)
    requires forall i :: 0 <= i < |flow| ==> UnitRow(courses, flow[i])
    ensures Decoded(courses, flow).Assigned?
    ensures multiset(Flatten(Decoded(courses, flow).assignment)) == multiset(PlacedNames(courses, RowNodes(flow)))
    ensures DistinctCourses(Decoded(courses, flow).assignment)
    ensures forall e :: e in Decoded(courses, flow).assignment ==> e.members != []
    ensures forall c :: |Members(Decoded(courses, flow).assignment, c)| <= FlowInto(flow, c)
  {
    UnitRowsShape(courses, flow);
    UnitRowsListed(courses, flow);
    UnitRowsWithinFlow(courses, flow);
  }

  /** Decoding a flow of unit rows succeeds with one non-empty list per course. */
  lemma {:induction false} UnitRowsShape(courses: seq<Course>, flow: seq<FlowRow>)
    requires forall i :: 0 <= i < |flow| ==> UnitRow(courses, flow[i])
    ensures Decoded(courses, flow).Assigned?
    ensures DistinctCourses(Decoded(courses, flow).assignment)
    ensures forall e :: e in Decoded(courses, flow).assignment ==> e.members != []
  {
    if flow != [] {
      var n := |flow|;
      var init := flow[..n - 1];
      assert forall i :: 0 <= i < n - 1 ==> init[i] == flow[i];
      UnitRowsShape(courses, init);
      UnitStep(courses, Decoded(courses, init).assignment, flow[n - 1]);
    }
  }

  lemma {:induction false} UnitRowsListed(courses: seq<Course>, flow: seq<FlowRow>)
    requires forall i :: 0 <= i < |flow| ==> UnitRow(courses, flow[i])
    ensures Decoded(courses, flow).Assigned?
    ensures multiset(Flatten(Decoded(courses, flow).assignment)) == multiset(PlacedNames(courses, RowNodes(flow)))
  {
    UnitRowsShape(courses, flow);
    if flow != [] {
      var n := |flow|;
      var init := flow[..n - 1];
      var row := flow[n - 1];
      assert forall i :: 0 <= i < n - 1 ==> init[i] == flow[i];
      UnitRowsListed(courses, init);
      UnitRowsShape(courses, init);
      var a0 := Decoded(courses, init).assignment;
      UnitStep(courses, a0, row);
      assert Decoded(courses, flow) == Step(courses, a0, row);
      PlacedNamesSnoc(courses, flow);
    }
  }

  /** The last row adds its name to the placed names when it is placed. */
  lemma {:induction false} PlacedNamesSnoc(courses: seq<Course>, flow: seq<FlowRow>)
    requires flow != []
    ensures multiset(PlacedNames(courses, RowNodes(flow)))
         == multiset(PlacedNames(courses, RowNodes(flow[..|flow| - 1])))
          + (if Placed(courses, flow[|flow| - 1].node) then multiset{flow[|flow| - 1].node.name} else multiset{})
  {
    var n := |flow|;
    var row := flow[n - 1];
    var nodes := RowNodes(flow);
    assert RowNodes(flow[..n - 1]) == nodes[..n - 1];
    var tail := if Placed(courses, row.node) then [row.node.name] else [];
    assert PlacedNames(courses, nodes) == PlacedNames(courses, nodes[..n - 1]) + tail;
  }

  lemma {:induction false} UnitRowsWithinFlow(courses: seq<Course>, flow: seq<FlowRow>)
    requires forall i :: 0 <= i < |flow| ==> UnitRow(courses, flow[i])
    ensures Decoded(courses, flow).Assigned?
    ensures forall c :: |Members(Decoded(courses, flow).assignment, c)| <= FlowInto(flow, c)
  {
    UnitRowsShape(courses, flow);
    if flow != [] {
      var n := |flow|;
      var init := flow[..n - 1];
      var row := flow[n - 1];
      assert forall i :: 0 <= i < n - 1 ==> init[i] == flow[i];
      UnitRowsWithinFlow(courses, init);
      UnitRowsShape(courses, init);
      UnitStep(courses, Decoded(courses, init).assignment, row);
      assert forall c :: FlowInto(flow, c) == FlowInto(init, c) + FlowTo(row.out, c);
    }
  }

  // ---------------------------------------------------------------------------
  // Feasible flows of the built network

  /** An edge without a capacity limit takes any flow. */
  predicate Fits(f: nat, cap: Capacity) {
    cap.Unbounded? || f <= cap.units
  }

  /** The flow entering node `n`: edges only ever enter course nodes. */
  function Inflow(flow: seq<FlowRow>, n: Node): nat {
    if n.CourseNode? then FlowInto(flow, n.name) else 0
  }

  /** What nx.min_cost_flow returns for the network built from the inputs: one
      row per node in node order, flow only on edges of the network and within
      their capacities, and at every node inflow minus outflow equal to its demand. */
  predicate Feasible(courses: seq<Course>, students: seq<Student>, flow: seq<FlowRow>)
    requires PrefsBounded(students)
  {
    var nodes := NodeOrder(courses, students);
    && RowNodes(flow) == nodes
    && (forall i :: 0 <= i < |flow| ==> DistinctKeys(flow[i].out))
    && (forall i, j :: 0 <= i < |flow| && 0 <= j < |flow[i].out| ==>
          HasEdge(courses, students, flow[i].node, CourseNode(flow[i].out[j].0))
          && Fits(flow[i].out[j].1, EdgeAt(courses, students, flow[i].node, flow[i].out[j].0).capacity))
    && (forall i :: 0 <= i < |flow| ==>
          Inflow(flow, flow[i].node) - OutFlow(flow[i].out) == NodeDemand(courses, flow[i].node))
  }

  /** In a feasible flow every student and dummy sends one unit, and each listed
      course receives exactly its capacity. */
  lemma {:induction false} FeasibleRows(courses: seq<Course>, students: seq<Student>, flow: seq<FlowRow>)
    requires WellFormed(courses, students)
    requires Feasible(courses, students, flow)
    ensures forall i :: 0 <= i < |flow| ==> UnitRow(courses, flow[i])
    ensures forall c :: c in Names(courses) ==> FlowInto(flow, c) == CapacityOf(courses, c)
  {
    var nodes := NodeOrder(courses, students);
    forall i | 0 <= i < |flow| ensures UnitRow(courses, flow[i]) {
      assert flow[i].node == nodes[i];
      if i < |courses| {
        assert nodes[i] == CourseNode(courses[i].name);
        assert Names(courses)[i] == courses[i].name;
      } else {
        assert !nodes[i].CourseNode?;
      }
    }
    forall c | c in Names(courses) ensures FlowInto(flow, c) == CapacityOf(courses, c) {
      var i :| 0 <= i < |courses| && Names(courses)[i] == c;
      assert flow[i].node == nodes[i] == CourseNode(c);
    }
  }

  /** Flow enters only listed courses. */
  lemma {:induction false} FlowOnlyIntoCourses(courses: seq<Course>, students: seq<Student>, flow: seq<FlowRow>, c: string)
    requires PrefsBounded(students)
    requires forall i, j :: 0 <= i < |flow| && 0 <= j < |flow[i].out| ==>
      HasEdge(courses, students, flow[i].node, CourseNode(flow[i].out[j].0))
    requires FlowInto(flow, c) > 0
    ensures c in Names(courses)
  {
    var n := |flow|;
    if FlowTo(flow[n - 1].out, c) > 0 {
      PositiveFlowToHasEdge(flow[n - 1].out, c);
      var j :| 0 <= j < |flow[n - 1].out| && flow[n - 1].out[j].0 == c;
      assert HasEdge(courses, students, flow[n - 1].node, CourseNode(c));
    } else {
      FlowOnlyIntoCourses(courses, students, flow[..n - 1], c);
    }
  }

  lemma {:induction false} PlacedNamesAppend(courses: seq<Course>, xs: seq<Node>, ys: seq<Node>)
    ensures PlacedNames(courses, xs + ys) == PlacedNames(courses, xs) + PlacedNames(courses, ys)
  {
    if ys != [] {
      var m := |ys|;
      assert (xs + ys)[..|xs + ys| - 1] == xs + ys[..m - 1];
      PlacedNamesAppend(courses, xs, ys[..m - 1]);
    } else {
      assert xs + ys == xs;
    }
  }

  lemma {:induction false} NothingPlaced(courses: seq<Course>, nodes: seq<Node>)
    requires forall i :: 0 <= i < |nodes| ==> !Placed(courses, nodes[i])
    ensures PlacedNames(courses, nodes) == []
  {
    if nodes != [] {
      NothingPlaced(courses, nodes[..|nodes| - 1]);
    }
  }

  lemma {:induction false} StudentsPlaced(courses: seq<Course>, students: seq<Student>)
    ensures PlacedNames(courses, StudentNodes(students)) == StudentNames(students)
  {
    if students != [] {
      var n := |students|;
      assert StudentNodes(students)[..n - 1] == StudentNodes(students[..n - 1]);
      StudentsPlaced(courses, students[..n - 1]);
      assert StudentNames(students) == StudentNames(students[..n - 1]) + [students[n - 1].name];
    }
  }

  /** Decoding the built network's node order appends exactly the students, in order. */
  lemma {:induction false} PlacedAreStudents(courses: seq<Course>, students: seq<Student>)
    ensures PlacedNames(courses, NodeOrder(courses, students)) == StudentNames(students)
  {
    var cn := CourseNodes(courses);
    var sn := StudentNodes(students);
    var dn := DummyNodes(DummyCount(courses, students));
    PlacedNamesAppend(courses, cn + sn, dn);
    PlacedNamesAppend(courses, cn, sn);
    forall i | 0 <= i < |cn| ensures !Placed(courses, cn[i]) {
      assert Names(courses)[i] == courses[i].name;
    }
    NothingPlaced(courses, cn);
    NothingPlaced(courses, dn);
    StudentsPlaced(courses, students);
  }

  // ---------------------------------------------------------------------------
  // The decoded assignment of a feasible flow

  /** The number of course lists that hold `s`. */
  function ListsHolding(a: Assignment, s: string): nat {
    if a == [] then 0 else (if s in a[0].members then 1 else 0) + ListsHolding(a[1..], s)
  }

  /** A student listed once overall is in exactly one course's list. */
  lemma {:induction false} ListsHoldingBounds(a: Assignment, s: string)
    ensures ListsHolding(a, s) <= multiset(Flatten(a))[s]
    ensures s in Flatten(a) ==> ListsHolding(a, s) >= 1
  {
    if a != [] {
      ListsHoldingBounds(a[1..], s);
      assert multiset(Flatten(a)) == multiset(a[0].members) + multiset(Flatten(a[1..]));
    }
  }

  lemma {:induction false} DistinctCountsOnce<T>(xs: seq<T>, x: T)
    requires Distinct(xs)
    ensures multiset(xs)[x] == if x in xs then 1 else 0
  {
    if xs != [] {
      var n := |xs|;
      var init := xs[..n - 1];
      assert xs == init + [xs[n - 1]];
      DistinctCountsOnce(init, x);
      if x == xs[n - 1] {
        assert x !in init;
      }
    }
  }

  /** For every flow the solver may return on the built network, decoding
      succeeds, every student is in exactly one course's list and nobody else
      is in any, as many names are listed as there are students, and no course
      holds more students than its capacity. */
  lemma {:induction false} DecodeFeasibleFlow(courses: seq<Course>, students: seq<Student>, flow: seq<FlowRow>)
    requires WellFormed(courses, students)
    requires Feasible(courses, students, flow)
    ensures Decoded(courses, flow).Assigned?
    ensures multiset(Flatten(Decoded(courses, flow).assignment)) == multiset(StudentNames(students))
    ensures forall s :: ListsHolding(Decoded(courses, flow).assignment, s) == if s in StudentNames(students) then 1 else 0
    ensures |Flatten(Decoded(courses, flow).assignment)| == |students|
    ensures forall e :: e in Decoded(courses, flow).assignment ==>
      e.course in Names(courses) && |e.members| <= CapacityOf(courses, e.course)
    ensures DistinctCourses(Decoded(courses, flow).assignment)
    ensures forall e :: e in Decoded(courses, flow).assignment ==> e.members != []
  {
    FeasibleRows(courses, students, flow);
    DecodeUnitRows(courses, flow);
    PlacedAreStudents(courses, students);
    var a := Decoded(courses, flow).assignment;
    assert multiset(Flatten(a)) == multiset(StudentNames(students));
    assert |Flatten(a)| == |multiset(Flatten(a))| == |multiset(StudentNames(students))| == |students|;
    forall s ensures ListsHolding(a, s) == if s in StudentNames(students) then 1 else 0 {
      ListsHoldingBounds(a, s);
      DistinctCountsOnce(StudentNames(students), s);
    }
    forall e | e in a ensures e.course in Names(courses) && |e.members| <= CapacityOf(courses, e.course) {
      var i :| 0 <= i < |a| && a[i] == e;
      MembersOfEntry(a, i);
      FlowOnlyIntoCourses(courses, students, flow, e.course);
    }
  }

  // ---------------------------------------------------------------------------
  // A feasible flow needs enough places

  /** The number of names the lists of `names` hold together. */
  function ListedIn(a: Assignment, names: seq<string>): nat {
    if names == [] then 0 else ListedIn(a, names[..|names| - 1]) + |Members(a, names[|names| - 1])|
  }

  lemma {:induction false} MembersOfAbsent(a: Assignment, c: string)
    requires c !in Courses(a)
    ensures Members(a, c) == []
  {
    if a != [] {
      assert Courses(a) == [a[0].course] + Courses(a[1..]);
      MembersOfAbsent(a[1..], c);
    }
  }

  /** Taking off the first list removes its names, when `names` mentions its course. */
  lemma {:induction false} ListedInSplit(a: Assignment, names: seq<string>)
    requires a != [] && a[0].course !in Courses(a[1..])
    requires Distinct(names)
    ensures ListedIn(a, names) == ListedIn(a[1..], names) + if a[0].course in names then |a[0].members| else 0
  {
    if names != [] {
      var n := |names|;
      var init := names[..n - 1];
      assert names == init + [names[n - 1]];
      assert Distinct(init);
      ListedInSplit(a, init);
      if names[n - 1] == a[0].course {
        MembersOfAbsent(a[1..], a[0].course);
        assert a[0].course !in init;
      }
    }
  }

  lemma {:induction false} NothingListed(names: seq<string>)
    ensures ListedIn([], names) == 0
  {
    if names != [] {
      NothingListed(names[..|names| - 1]);
    }
  }

  /** With one list per course, all courses among `names`, every listed name is counted once. */
  lemma {:induction false} FlattenListed(a: Assignment, names: seq<string>)
    requires DistinctCourses(a) && Distinct(names)
    requires forall e :: e in a ==> e.course in names
    ensures |Flatten(a)| == ListedIn(a, names)
  {
    if a == [] {
      NothingListed(names);
    } else {
      var rest := a[1..];
      assert Courses(rest) == Courses(a)[1..];
      assert a[0].course !in Courses(rest) by {
        forall k | 0 <= k < |rest| ensures Courses(rest)[k] != a[0].course {
          assert Courses(a)[k + 1] != Courses(a)[0];
        }
      }
      assert forall e :: e in rest ==> e in a;
      FlattenListed(rest, names);
      ListedInSplit(a, names);
    }
  }

  /** Lists within their courses' capacities hold no more than the total capacity. */
  lemma {:induction false} ListedWithinCapacity(a: Assignment, courses: seq<Course>)
    requires Distinct(Names(courses))
    requires forall c :: c in Names(courses) ==> |Members(a, c)| <= CapacityOf(courses, c)
    ensures ListedIn(a, Names(courses)) <= TotalCapacity(courses)
  {
    if courses != [] {
      var n := |courses|;
      var init := courses[..n - 1];
      assert Names(init) == Names(courses)[..n - 1];
      assert Names(courses)[n - 1] == courses[n - 1].name;
      forall c | c in Names(init) ensures |Members(a, c)| <= CapacityOf(init, c) {
        var k :| 0 <= k < n - 1 && Names(init)[k] == c;
        assert Names(courses)[k] == c != Names(courses)[n - 1];
      }
      ListedWithinCapacity(a, init);
    }
  }

  /** The solver finds no flow when the places are too few for the students
      (networkx raises NetworkXUnfeasible there). */
  lemma {:induction false} FeasibleNeedsPlaces(courses: seq<Course>, students: seq<Student>, flow: seq<FlowRow>)
    requires WellFormed(courses, students)
    requires Feasible(courses, students, flow)
    ensures TotalCapacity(courses) >= |students|
  {
    DecodeFeasibleFlow(courses, students, flow);
    FeasibleRows(courses, students, flow);
    DecodeUnitRows(courses, flow);
    var a := Decoded(courses, flow).assignment;
    forall e | e in a ensures e.course in Names(courses) {
    }
    FlattenListed(a, Names(courses));
    ListedWithinCapacity(a, courses);
  }

  /** What assign_to_courses ends with: the decoded flow, or the KeyError the
      builder raises at the first student ranking more than three courses. */
  datatype AssignOutcome = Finished(decoded: DecodeResult) | NoRankWeight(student: string)

  /** assign_to_courses: build the network, let the solver route the flow
      (`flow` is its answer on that network), decode the flow. */
  method AssignToCourses(courses: seq<Course>, students: seq<Student>, flow: seq<FlowRow>) returns (r: AssignOutcome)
    requires UniqueKeys(courses, students)
    requires AllPrefsKnown(courses, students)
    requires PrefsBounded(students) ==> Feasible(courses, students, flow)
    ensures r.NoRankWeight? <==> !PrefsBounded(students)
    ensures r.NoRankWeight? ==> exists i :: FirstOverlong(students, i) && r.student == students[i].name
    ensures r.Finished? ==> r.decoded == Decoded(courses, flow) && r.decoded.Assigned?
    ensures r.Finished? ==> forall s :: ListsHolding(r.decoded.assignment, s) == if s in StudentNames(students) then 1 else 0
    ensures r.Finished? ==> |Flatten(r.decoded.assignment)| == |students|
    ensures r.Finished? ==> forall e :: e in r.decoded.assignment ==>
      e.course in Names(courses) && |e.members| <= CapacityOf(courses, e.course)
  {
    var g, overlong := BuildNetwork(courses, students);
    if overlong < |students| {
      return NoRankWeight(students[overlong].name);
    }
    assert RowNodes(flow) == g.nodes;
    var d := Decode(courses, flow);
    DecodeFeasibleFlow(courses, students, flow);
    return Finished(d);
  }
}
