/** What the solver optimises, in terms of the statistic: the cost of a
    feasible flow of the built network is the weighted count of students
    granted their first, second and third choice, so a minimum-cost flow
    decodes to an assignment no other feasible flow improves on. */
module Optimality {
  import opened Input
  import opened Network
  import opened Decoding
  import opened Statistics

  // ---------------------------------------------------------------------------
  // The cost of a flow: the sum over edges of weight times flow

  function OutCost(courses: seq<Course>, students: seq<Student>, u: Node, out: seq<(string, nat)>): int
    requires PrefsBounded(students)
  {
    if out == [] then 0
    else
      var last := out[|out| - 1];
      OutCost(courses, students, u, out[..|out| - 1]) + last.1 * EdgeAt(courses, students, u, last.0).weight
  }

  function FlowCost(courses: seq<Course>, students: seq<Student>, flow: seq<FlowRow>): int
    requires PrefsBounded(students)
  {
    if flow == [] then 0
    else
      var last := flow[|flow| - 1];
      FlowCost(courses, students, flow[..|flow| - 1]) + OutCost(courses, students, last.node, last.out)
  }

  /** nx.min_cost_flow: a feasible flow whose cost no feasible flow undercuts. */
  ghost predicate MinCost(courses: seq<Course>, students: seq<Student>, flow: seq<FlowRow>)
    requires PrefsBounded(students)
  {
    && Feasible(courses, students, flow)
    && forall other :: Feasible(courses, students, other) ==>
         FlowCost(courses, students, flow) <= FlowCost(courses, students, other)
  }

  /** No student lists a course twice. */
  predicate DistinctPrefs(students: seq<Student>) {
    forall i :: 0 <= i < |students| ==> Distinct(students[i].prefs)
  }

  /** The cost a granted course at bucket `b` contributes. */
  function BucketWeight(b: nat): int {
    if b < |WEIGHTS| then WEIGHTS[b] else 0
  }

  /** The cost of every student's granted course, student by student. */
  function ChoiceCost(a: Assignment, students: seq<Student>): int
    requires Countable(a, students)
  {
    if students == [] then 0
    else
      var last := students[|students| - 1];
      assert Countable(a, students[..|students| - 1]);
      ChoiceCost(a, students[..|students| - 1]) + BucketWeight(Bucket(last.prefs, GrantedCourse(a, last.name)))
  }

  /** 100 points per first choice, 70 per second, 30 per third: the negated cost. */
  function Satisfaction(a: Assignment, students: seq<Student>): int
    requires Countable(a, students)
  {
    -(WEIGHTS[0] * CountBucket(a, students, 0) + WEIGHTS[1] * CountBucket(a, students, 1)
      + WEIGHTS[2] * CountBucket(a, students, 2))
  }

  // ---------------------------------------------------------------------------
  // The cost of one row

  /** Edges leaving a course or a dummy cost nothing. */
  lemma {:induction false} FreeRowCost(courses: seq<Course>, students: seq<Student>, u: Node, out: seq<(string, nat)>)
    requires PrefsBounded(students)
    requires !u.StudentNode?
    ensures OutCost(courses, students, u, out) == 0
  {
    if out != [] {
      FreeRowCost(courses, students, u, out[..|out| - 1]);
    }
  }

  lemma {:induction false} IdleRowCost(courses: seq<Course>, students: seq<Student>, u: Node, out: seq<(string, nat)>)
    requires PrefsBounded(students)
    requires OutFlow(out) == 0
    ensures OutCost(courses, students, u, out) == 0
  {
    if out != [] {
      IdleRowCost(courses, students, u, out[..|out| - 1]);
    }
  }

  /** A row sending one unit costs the weight of the edge `max` picks. */
  lemma {:induction false} UnitRowCost(courses: seq<Course>, students: seq<Student>, u: Node, out: seq<(string, nat)>)
    requires PrefsBounded(students)
    requires OutFlow(out) == 1
    ensures out != []
    ensures OutCost(courses, students, u, out) == EdgeAt(courses, students, u, out[ArgMax(out)].0).weight
  {
    var n := |out|;
    var init := out[..n - 1];
    assert OutFlow(out) == OutFlow(init) + out[n - 1].1;
    if out[n - 1].1 == 0 {
      UnitRowCost(courses, students, u, init);
      assert ArgMax(out) == ArgMax(init);
    } else {
      IdleRowCost(courses, students, u, init);
      if n > 1 {
        var j := ArgMax(init);
        EntryBelowOutFlow(init, j);
        assert out[j].1 == 0;
      }
      assert ArgMax(out) == n - 1;
    }
  }

  // ---------------------------------------------------------------------------
  // The cost of many rows

  lemma {:induction false} FlowCostAppend(courses: seq<Course>, students: seq<Student>, xs: seq<FlowRow>, ys: seq<FlowRow>)
    requires PrefsBounded(students)
    ensures FlowCost(courses, students, xs + ys) == FlowCost(courses, students, xs) + FlowCost(courses, students, ys)
  {
    if ys == [] {
      assert xs + ys == xs;
    } else {
      var m := |ys|;
      assert (xs + ys)[..|xs + ys| - 1] == xs + ys[..m - 1];
      FlowCostAppend(courses, students, xs, ys[..m - 1]);
    }
  }

  lemma {:induction false} FreeFlowCost(courses: seq<Course>, students: seq<Student>, rows: seq<FlowRow>)
    requires PrefsBounded(students)
    requires forall i :: 0 <= i < |rows| ==> !rows[i].node.StudentNode?
    ensures FlowCost(courses, students, rows) == 0
  {
    if rows != [] {
      var n := |rows|;
      FreeRowCost(courses, students, rows[n - 1].node, rows[n - 1].out);
      FreeFlowCost(courses, students, rows[..n - 1]);
    }
  }

  // ---------------------------------------------------------------------------
  // Where each row's student ends up

  function Target(row: FlowRow): string
    requires row.out != []
  {
    row.out[ArgMax(row.out)].0
  }

  /** A later unit row takes no student out of a list. */
  lemma {:induction false} StepKeepsMembers(courses: seq<Course>, a: Assignment, row: FlowRow, s: string, c: string)
    requires UnitRow(courses, row)
    requires s in Members(a, c)
    ensures Step(courses, a, row).Assigned?
    ensures s in Members(Step(courses, a, row).assignment, c)
  {
    if Placed(courses, row.node) {
      UnitOutFlowArgMax(row.out);
      PlaceMembers(a, Target(row), row.node.name, c);
    }
  }

  /** Decoding puts the node of every placed row in the list of the course its
      unit goes to. */
  lemma {:induction false} PlacedInTarget(courses: seq<Course>, flow: seq<FlowRow>, i: nat)
    requires forall k :: 0 <= k < |flow| ==> UnitRow(courses, flow[k])
    requires i < |flow| && Placed(courses, flow[i].node)
    ensures Decoded(courses, flow).Assigned?
    ensures flow[i].out != []
    ensures flow[i].node.name in Members(Decoded(courses, flow).assignment, Target(flow[i]))
  {
    var n := |flow|;
    var init := flow[..n - 1];
    var row := flow[n - 1];
    assert forall k :: 0 <= k < |init| ==> UnitRow(courses, init[k]) by {
      forall k | 0 <= k < |init| ensures UnitRow(courses, init[k]) {
        assert init[k] == flow[k];
      }
    }
    UnitRowsShape(courses, init);
    var a0 := Decoded(courses, init).assignment;
    assert UnitRow(courses, row);
    if i < n - 1 {
      assert init[i] == flow[i];
      PlacedInTarget(courses, init, i);
      StepKeepsMembers(courses, a0, row, flow[i].node.name, Target(flow[i]));
    } else {
      UnitOutFlowArgMax(row.out);
      PlaceMembers(a0, Target(row), row.node.name, Target(row));
    }
  }

  lemma {:induction false} MembersHeld(a: Assignment, c: string, s: string)
    requires s in Members(a, c)
    ensures exists e :: 0 <= e < |a| && a[e].course == c && s in a[e].members
  {
    if a[0].course != c {
      MembersHeld(a[1..], c, s);
      var e :| 0 <= e < |a| - 1 && a[1..][e].course == c && s in a[1..][e].members;
      assert a[e + 1] == a[1..][e];
    }
  }

  /** A repeat-free preference list gives the same weight through the edge
      (rank of the course) and through the statistic (bucket of the course). */
  lemma {:induction false} RankWeightIsBucketWeight(prefs: seq<string>, c: string)
    requires Distinct(prefs) && |prefs| <= |WEIGHTS|
    ensures RankWeight(prefs, c) == BucketWeight(Bucket(prefs, c))
  {
    if c in prefs {
      assert LastIndex(prefs, c) == FirstIndex(prefs, c);
    }
  }

  // ---------------------------------------------------------------------------
  // The cost of a feasible flow

  /** Student `k`'s row: it sends one unit, and into the student's granted course. */
  predicate RowGranted(courses: seq<Course>, students: seq<Student>, flow: seq<FlowRow>, a: Assignment, k: nat)
    requires k < |students|
  {
    var i := |courses| + k;
    && i < |flow|
    && flow[i].node == StudentNode(students[k].name)
    && OutFlow(flow[i].out) == 1
    && students[k].name in Flatten(a)
    && GrantedCourse(a, students[k].name) == Target(flow[i])
  }

  /** A student in exactly one list is granted the course of any list holding them. */
  lemma {:induction false} GrantedIsTarget(a: Assignment, s: string, c: string)
    requires ListsHolding(a, s) == 1 && s in Members(a, c)
    ensures s in Flatten(a) && GrantedCourse(a, s) == c
  {
    MembersHeld(a, c, s);
    var e :| 0 <= e < |a| && a[e].course == c && s in a[e].members;
    GrantedIsTheList(a, s, e);
  }

  /** In a feasible flow, each student's row leads to the course decoding grants. */
  lemma {:induction false} FeasibleRowGranted(courses: seq<Course>, students: seq<Student>, flow: seq<FlowRow>, a: Assignment, k: nat)
    requires WellFormed(courses, students)
    requires Feasible(courses, students, flow)
    requires Decoded(courses, flow) == Assigned(a)
    requires k < |students| && ListsHolding(a, students[k].name) == 1
    ensures RowGranted(courses, students, flow, a, k)
  {
    var i := |courses| + k;
    assert RowNodes(flow)[i] == NodeOrder(courses, students)[i] == StudentNode(students[k].name);
    FeasibleRows(courses, students, flow);
    assert UnitRow(courses, flow[i]);
    PlacedInTarget(courses, flow, i);
    GrantedIsTarget(a, students[k].name, Target(flow[i]));
  }

  /** The k-th student's row costs the weight of the bucket its course falls in. */
  lemma {:induction false} StudentRowCost(courses: seq<Course>, students: seq<Student>, flow: seq<FlowRow>, a: Assignment, k: nat)
    requires WellFormed(courses, students) && DistinctPrefs(students)
    requires k < |students| && RowGranted(courses, students, flow, a, k)
    ensures OutCost(courses, students, flow[|courses| + k].node, flow[|courses| + k].out)
      == BucketWeight(Bucket(students[k].prefs, GrantedCourse(a, students[k].name)))
  {
    var row := flow[|courses| + k];
    UnitRowCost(courses, students, row.node, row.out);
    PrefsOfAt(students, k);
    RankWeightIsBucketWeight(students[k].prefs, Target(row));
  }

  /** Rows whose costs are the students' bucket weights, one for one, cost the choice cost together. */
  lemma {:induction false} SumRowCosts(courses: seq<Course>, table: seq<Student>, rows: seq<FlowRow>, a: Assignment, students: seq<Student>)
    requires PrefsBounded(table)
    requires Countable(a, students) && |rows| == |students|
    requires forall j :: 0 <= j < |rows| ==>
      OutCost(courses, table, rows[j].node, rows[j].out) == BucketWeight(Bucket(students[j].prefs, GrantedCourse(a, students[j].name)))
    ensures FlowCost(courses, table, rows) == ChoiceCost(a, students)
  {
    if rows != [] {
      var n := |rows|;
      CountablePrefix(a, students, n - 1);
      forall j | 0 <= j < n - 1 ensures rows[..n - 1][j] == rows[j] && students[..n - 1][j] == students[j] {
      }
      SumRowCosts(courses, table, rows[..n - 1], a, students[..n - 1]);
    }
  }

  /** The student rows together cost the choice cost of the decoded assignment. */
  lemma {:induction false} StudentRowsCost(courses: seq<Course>, students: seq<Student>, flow: seq<FlowRow>, a: Assignment)
    requires WellFormed(courses, students) && DistinctPrefs(students)
    requires forall j :: 0 <= j < |students| ==> RowGranted(courses, students, flow, a, j)
    requires Countable(a, students)
    requires |courses| + |students| <= |flow|
    ensures FlowCost(courses, students, flow[|courses|..|courses| + |students|]) == ChoiceCost(a, students)
  {
    var c := |courses|;
    var rows := flow[c..c + |students|];
    forall j | 0 <= j < |rows| ensures
      OutCost(courses, students, rows[j].node, rows[j].out) == BucketWeight(Bucket(students[j].prefs, GrantedCourse(a, students[j].name)))
    {
      StudentRowCost(courses, students, flow, a, j);
    }
    SumRowCosts(courses, students, rows, a, students);
  }

  lemma {:induction false} CountablePrefix(a: Assignment, students: seq<Student>, k: nat)
    requires Countable(a, students)
    requires k <= |students|
    ensures Countable(a, students[..k])
  {
    forall i | 0 <= i < k ensures students[..k][i] == students[i] {
    }
  }

  /** Only the student rows of a flow in node order cost anything. */
  lemma {:induction false} StudentRowsCarryCost(courses: seq<Course>, students: seq<Student>, flow: seq<FlowRow>)
    requires PrefsBounded(students)
    requires RowNodes(flow) == NodeOrder(courses, students)
    ensures |courses| + |students| <= |flow|
    ensures FlowCost(courses, students, flow)
         == FlowCost(courses, students, flow[|courses|..|courses| + |students|])
  {
    var c := |courses|;
    var m := c + |students|;
    NodeKinds(courses, students);
    var front, middle, back := flow[..c], flow[c..m], flow[m..];
    forall i | 0 <= i < |front| ensures !front[i].node.StudentNode? {
      assert front[i].node == RowNodes(flow)[i];
    }
    forall i | 0 <= i < |back| ensures !back[i].node.StudentNode? {
      assert back[i].node == RowNodes(flow)[m + i];
    }
    FreeFlowCost(courses, students, front);
    FreeFlowCost(courses, students, back);
    assert flow == front + middle + back;
    FlowCostAppend(courses, students, front, middle);
    FlowCostAppend(courses, students, front + middle, back);
  }

  /** Where each kind of node sits in the node order. */
  lemma {:induction false} NodeKinds(courses: seq<Course>, students: seq<Student>)
    ensures |NodeOrder(courses, students)| == |courses| + |students| + DummyCount(courses, students)
    ensures forall i :: 0 <= i < |courses| ==> NodeOrder(courses, students)[i] == CourseNode(courses[i].name)
    ensures forall k :: 0 <= k < |students| ==> NodeOrder(courses, students)[|courses| + k] == StudentNode(students[k].name)
    ensures forall i :: |courses| + |students| <= i < |NodeOrder(courses, students)| ==> NodeOrder(courses, students)[i].DummyNode?
  {
  }

  lemma {:induction false} AllRowsGranted(courses: seq<Course>, students: seq<Student>, flow: seq<FlowRow>, a: Assignment)
    requires WellFormed(courses, students)
    requires Feasible(courses, students, flow)
    requires Decoded(courses, flow) == Assigned(a)
    requires forall s :: ListsHolding(a, s) == if s in StudentNames(students) then 1 else 0
    ensures forall k :: 0 <= k < |students| ==> RowGranted(courses, students, flow, a, k)
  {
    forall k | 0 <= k < |students| ensures RowGranted(courses, students, flow, a, k) {
      assert StudentNames(students)[k] == students[k].name;
      FeasibleRowGranted(courses, students, flow, a, k);
    }
  }

  /** The cost of a feasible flow: -100, -70 and -30 per student granted their
      first, second and third choice in the decoded assignment. */
  lemma {:induction false} FeasibleFlowCost(courses: seq<Course>, students: seq<Student>, flow: seq<FlowRow>)
    requires WellFormed(courses, students) && DistinctPrefs(students)
    requires Feasible(courses, students, flow)
    ensures Decoded(courses, flow).Assigned?
    ensures Countable(Decoded(courses, flow).assignment, students)
    ensures FlowCost(courses, students, flow) == -Satisfaction(Decoded(courses, flow).assignment, students)
  {
    DecodedIsCountable(courses, students, flow);
    DecodeFeasibleFlow(courses, students, flow);
    var a := Decoded(courses, flow).assignment;
    AllRowsGranted(courses, students, flow, a);
    StudentRowsCarryCost(courses, students, flow);
    StudentRowsCost(courses, students, flow, a);
    ChoiceCostByBuckets(a, students);
  }

  /** Bucket by bucket: the choice cost is the weighted bucket count. */
  lemma {:induction false} ChoiceCostByBuckets(a: Assignment, students: seq<Student>)
    requires Countable(a, students)
    ensures ChoiceCost(a, students) == -Satisfaction(a, students)
  {
    if students != [] {
      var init := students[..|students| - 1];
      assert Countable(a, init);
      ChoiceCostByBuckets(a, init);
    }
  }

  /** The assignment decoded from a minimum-cost flow scores at least as well as
      the one decoded from any other feasible flow. */
  lemma {:induction false} MinCostMaximisesSatisfaction(courses: seq<Course>, students: seq<Student>, flow: seq<FlowRow>, other: seq<FlowRow>)
    requires WellFormed(courses, students) && DistinctPrefs(students)
    requires MinCost(courses, students, flow)
    requires Feasible(courses, students, other)
    ensures Decoded(courses, flow).Assigned? && Decoded(courses, other).Assigned?
    ensures Countable(Decoded(courses, flow).assignment, students)
    ensures Countable(Decoded(courses, other).assignment, students)
    ensures Satisfaction(Decoded(courses, flow).assignment, students)
         >= Satisfaction(Decoded(courses, other).assignment, students)
  {
    FeasibleFlowCost(courses, students, flow);
    FeasibleFlowCost(courses, students, other);
  }

  // ---------------------------------------------------------------------------
  // When every student can have their first choice

  /** No assignment scores more than 100 per student, and one that does grants
      every student their first choice. */
  lemma {:induction false} SatisfactionBound(a: Assignment, students: seq<Student>)
    requires Countable(a, students)
    ensures Satisfaction(a, students) <= 100 * |students|
    ensures Satisfaction(a, students) == 100 * |students| ==> CountBucket(a, students, 0) == |students|
  {
    BucketsCoverStudents(a, students);
  }

  /** A feasible flow granting every student their first choice is a minimum-cost flow. */
  lemma {:induction false} FirstChoicesAreMinCost(courses: seq<Course>, students: seq<Student>, best: seq<FlowRow>)
    requires WellFormed(courses, students) && DistinctPrefs(students)
    requires Feasible(courses, students, best)
    requires Decoded(courses, best).Assigned? && Countable(Decoded(courses, best).assignment, students)
    requires CountBucket(Decoded(courses, best).assignment, students, 0) == |students|
    ensures MinCost(courses, students, best)
  {
    var a := Decoded(courses, best).assignment;
    FeasibleFlowCost(courses, students, best);
    BucketsCoverStudents(a, students);
    forall other | Feasible(courses, students, other)
      ensures FlowCost(courses, students, best) <= FlowCost(courses, students, other)
    {
      FeasibleFlowCost(courses, students, other);
      SatisfactionBound(Decoded(courses, other).assignment, students);
    }
  }

  /** When some feasible flow grants every student their first choice, every
      minimum-cost flow does too: the decoding grants each student the course
      they ranked first. */
  lemma {:induction false} MinCostGrantsFirstChoices(courses: seq<Course>, students: seq<Student>, flow: seq<FlowRow>, best: seq<FlowRow>)
    requires WellFormed(courses, students) && DistinctPrefs(students)
    requires MinCost(courses, students, flow)
    requires Feasible(courses, students, best)
    requires Decoded(courses, best).Assigned? && Countable(Decoded(courses, best).assignment, students)
    requires CountBucket(Decoded(courses, best).assignment, students, 0) == |students|
    ensures Decoded(courses, flow).Assigned? && Countable(Decoded(courses, flow).assignment, students)
    ensures forall i :: 0 <= i < |students| ==>
      students[i].prefs != [] && GrantedCourse(Decoded(courses, flow).assignment, students[i].name) == students[i].prefs[0]
  {
    var w := Decoded(courses, best).assignment;
    FeasibleFlowCost(courses, students, best);
    FeasibleFlowCost(courses, students, flow);
    BucketsCoverStudents(w, students);
    var a := Decoded(courses, flow).assignment;
    SatisfactionBound(a, students);
    AllInBucket(a, students, 0);
    forall i | 0 <= i < |students|
      ensures students[i].prefs != [] && GrantedCourse(a, students[i].name) == students[i].prefs[0]
    {
      var g := GrantedCourse(a, students[i].name);
      assert Bucket(students[i].prefs, g) == 0;
      assert g in students[i].prefs;
    }
  }

  /** When every student is in exactly one list and there is one list per
      course, the list of `c` holds exactly the students granted `c`. */
  lemma {:induction false} HeldIffGranted(a: Assignment, students: seq<Student>, s: string, c: string)
    requires DistinctCourses(a)
    requires forall t :: ListsHolding(a, t) == if t in StudentNames(students) then 1 else 0
    ensures s in Members(a, c) <==> s in StudentNames(students) && s in Flatten(a) && GrantedCourse(a, s) == c
  {
    if s in Members(a, c) {
      MembersHeld(a, c, s);
      var e :| 0 <= e < |a| && a[e].course == c && s in a[e].members;
      MembersInFlatten(a, e);
      ListsHoldingBounds(a, s);
      GrantedIsTarget(a, s, c);
    }
    if s in StudentNames(students) && s in Flatten(a) && GrantedCourse(a, s) == c {
      GrantedIsFirstList(a, s);
      var i :| FirstHolder(a, s, i) && a[i].course == GrantedCourse(a, s);
      MembersOfEntry(a, i);
    }
  }
}
