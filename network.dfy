/** The min-cost-flow instance: its nodes, their demands and the weighted,
    capacity-limited edges from students and dummy students to courses. */
module Network {
  import opened Input
  import opened Validation

  /** A node of the graph. Courses, students and dummies share one name space
      in the program; the tags keep the three kinds apart. */
  datatype Node = CourseNode(name: string) | StudentNode(name: string) | DummyNode(index: nat)

  /** An edge without a capacity attribute carries any amount of flow. */
  datatype Capacity = Unbounded | Limit(units: nat)

  datatype Edge = Edge(weight: int, capacity: Capacity)

  /** The graph object: nodes in insertion order, the `demand` attribute of each
      node that has one, and the attributes of each edge. */
  class FlowNetwork {
    var nodes: seq<Node>
    var demand: map<Node, int>
    var edges: map<(Node, Node), Edge>

    constructor ()
      ensures nodes == [] && demand == map[] && edges == map[]
    {
      nodes, demand, edges := [], map[], map[];
    }

    /** add_node: a new node goes to the end of the node order; a node already
        present keeps its place and takes the new demand. */
    method AddNode(n: Node, d: int)
      modifies this
      ensures nodes == Extended(old(nodes), n)
      ensures demand == old(demand)[n := d]
      ensures edges == old(edges)
    {
      if n !in nodes {
        nodes := nodes + [n];
      }
      demand := demand[n := d];
    }

    /** add_edge: adds missing end points to the node order and sets (or
        overwrites) the edge's attributes. */
    method AddEdge(u: Node, v: Node, e: Edge)
      modifies this
      ensures nodes == Extended(Extended(old(nodes), u), v)
      ensures demand == old(demand)
      ensures edges == old(edges)[(u, v) := e]
    {
      if u !in nodes {
        nodes := nodes + [u];
      }
      if v !in nodes {
        nodes := nodes + [v];
      }
      edges := edges[(u, v) := e];
    }
  }

  function Extended(ns: seq<Node>, n: Node): seq<Node> {
    if n in ns then ns else ns + [n]
  }

  // ---------------------------------------------------------------------------
  // The network that the builder produces, stated declaratively.

  /** The number of dummy students: range(general_capacity - len(students)) is
      empty when the difference is not positive. */
  function DummyCount(courses: seq<Course>, students: seq<Student>): nat {
    if TotalCapacity(courses) >= |students| then TotalCapacity(courses) - |students| else 0
  }

  function CourseNodes(courses: seq<Course>): seq<Node> {
    seq(|courses|, i requires 0 <= i < |courses| => CourseNode(courses[i].name))
  }

  function StudentNodes(students: seq<Student>): seq<Node> {
    seq(|students|, i requires 0 <= i < |students| => StudentNode(students[i].name))
  }

  function DummyNodes(n: nat): seq<Node> {
    seq(n, i requires 0 <= i < n => DummyNode(i))
  }

  /** The node order: courses, then students, then dummies. */
  function NodeOrder(courses: seq<Course>, students: seq<Student>): seq<Node> {
    CourseNodes(courses) + StudentNodes(students) + DummyNodes(DummyCount(courses, students))
  }

  /** A course demands its capacity; a student or a dummy supplies one unit. */
  function NodeDemand(courses: seq<Course>, n: Node): int {
    match n
    case CourseNode(c) => CapacityOf(courses, c)
    case _ => -1
  }

  /** The position of the last occurrence of `x` in `s`. */
  function LastIndex<T(==)>(s: seq<T>, x: T): (i: nat)
    requires x in s
    ensures i < |s| && s[i] == x
    ensures forall k :: i < k < |s| ==> s[k] != x
  {
    if s[|s| - 1] == x then |s| - 1 else LastIndex(s[..|s| - 1], x)
  }

  /** Weight of a student's edge to course `c`: WEIGHTS at the rank of `c` in the
      preference list (the later add_edge wins for a repeated course), else 0. */
  function RankWeight(prefs: seq<string>, c: string): (w: int)
    requires |prefs| <= |WEIGHTS|
    ensures c in prefs <==> w < 0
    ensures c in prefs ==> w in WEIGHTS
  {
    if c in prefs then WEIGHTS[LastIndex(prefs, c)] else 0
  }

  predicate IsStudentEdge(courses: seq<Course>, students: seq<Student>, u: Node, v: Node) {
    u.StudentNode? && u.name in StudentNames(students) && v.CourseNode? && v.name in Names(courses)
  }

  predicate IsDummyEdge(courses: seq<Course>, dummies: nat, u: Node, v: Node) {
    u.DummyNode? && u.index < dummies && v.CourseNode? && v.name in Names(courses)
  }

  /** The edges of the built network: every student and every dummy to every course. */
  predicate HasEdge(courses: seq<Course>, students: seq<Student>, u: Node, v: Node) {
    IsStudentEdge(courses, students, u, v) || IsDummyEdge(courses, DummyCount(courses, students), u, v)
  }

  /** The attributes of the built network's edge from `u` to course `c`. */
  function EdgeAt(courses: seq<Course>, students: seq<Student>, u: Node, c: string): Edge
    requires PrefsBounded(students)
  {
    match u
    case StudentNode(s) => Edge(RankWeight(PrefsOf(students, s), c), Limit(1))
    case _ => Edge(0, Unbounded)
  }

  /** A student's edge to the course it ranks j-th weighs WEIGHTS[j], its edge to
      a course it does not rank weighs 0, and both carry one unit at most. */
  lemma {:induction false} StudentEdgeWeights(courses: seq<Course>, students: seq<Student>, i: nat, c: string)
    requires WellFormed(courses, students)
    requires i < |students| && Distinct(students[i].prefs)
    ensures forall j :: 0 <= j < |students[i].prefs| ==>
      EdgeAt(courses, students, StudentNode(students[i].name), students[i].prefs[j]) == Edge(WEIGHTS[j], Limit(1))
    ensures c !in students[i].prefs ==>
      EdgeAt(courses, students, StudentNode(students[i].name), c) == Edge(0, Limit(1))
  {
    PrefsOfAt(students, i);
    var prefs := students[i].prefs;
    forall j | 0 <= j < |prefs| ensures LastIndex(prefs, prefs[j]) == j {
      var k := LastIndex(prefs, prefs[j]);
      assert !(j < k) && !(k < j);
    }
  }

  // ---------------------------------------------------------------------------
  // The balance min_cost_flow needs: demands summing to zero

  function DemandSum(courses: seq<Course>, nodes: seq<Node>): int {
    if nodes == [] then 0 else DemandSum(courses, nodes[..|nodes| - 1]) + NodeDemand(courses, nodes[|nodes| - 1])
  }

  lemma {:induction false} DemandSumAppend(courses: seq<Course>, xs: seq<Node>, ys: seq<Node>)
    ensures DemandSum(courses, xs + ys) == DemandSum(courses, xs) + DemandSum(courses, ys)
  {
    if ys == [] {
      assert xs + ys == xs;
    } else {
      var m := |ys|;
      assert (xs + ys)[..|xs + ys| - 1] == xs + ys[..m - 1];
      DemandSumAppend(courses, xs, ys[..m - 1]);
    }
  }

  /** The courses together demand the total capacity. */
  lemma {:induction false} CourseDemandSum(courses: seq<Course>, k: nat)
    requires Distinct(Names(courses))
    requires k <= |courses|
    ensures DemandSum(courses, CourseNodes(courses)[..k]) == TotalCapacity(courses[..k])
  {
    if k > 0 {
      CourseDemandSum(courses, k - 1);
      CapacityOfAt(courses, k - 1);
      assert CourseNodes(courses)[..k][..k - 1] == CourseNodes(courses)[..k - 1];
      assert courses[..k][..k - 1] == courses[..k - 1];
    }
  }

  /** Students and dummies each supply one unit. */
  lemma {:induction false} SupplySum(courses: seq<Course>, nodes: seq<Node>)
    requires forall i :: 0 <= i < |nodes| ==> !nodes[i].CourseNode?
    ensures DemandSum(courses, nodes) == -|nodes|
  {
    if nodes != [] {
      SupplySum(courses, nodes[..|nodes| - 1]);
    }
  }

  /** The dummies balance the network exactly when the places suffice for the
      students: otherwise the students supply more than the courses demand. */
  lemma {:induction false} Balanced(courses: seq<Course>, students: seq<Student>)
    requires Distinct(Names(courses))
    ensures DemandSum(courses, NodeOrder(courses, students)) == 0 <==> TotalCapacity(courses) >= |students|
    ensures DemandSum(courses, NodeOrder(courses, students)) == TotalCapacity(courses) - |students| - DummyCount(courses, students)
  {
    var cn, sn, dn := CourseNodes(courses), StudentNodes(students), DummyNodes(DummyCount(courses, students));
    DemandSumAppend(courses, cn + sn, dn);
    DemandSumAppend(courses, cn, sn);
    CourseDemandSum(courses, |courses|);
    assert cn[..|courses|] == cn && courses[..|courses|] == courses;
    SupplySum(courses, sn);
    SupplySum(courses, dn);
  }

  /** Every node of the order has a demand, and it is the demand `NodeDemand` gives its kind. */
  ghost predicate DemandsSet(g: FlowNetwork, courses: seq<Course>)
    reads g
  {
    && (forall n :: n in g.demand <==> n in g.nodes)
    && (forall n :: n in g.demand ==> g.demand[n] == NodeDemand(courses, n))
  }

  lemma {:induction false} CourseNodeIn(courses: seq<Course>, c: string)
    requires c in Names(courses)
    ensures CourseNode(c) in CourseNodes(courses)
  {
    var i :| 0 <= i < |courses| && Names(courses)[i] == c;
    assert CourseNodes(courses)[i] == CourseNode(c);
  }

  /** The first half of assign_to_courses: grows the graph node by node and
      edge by edge. `overlong` is where the student loop raises KeyError (the
      first student ranking more than three courses), or |students| when it
      completes; the graph is then the network described above. */
  method BuildNetwork(courses: seq<Course>, students: seq<Student>) returns (g: FlowNetwork, overlong: nat)
    requires UniqueKeys(courses, students)
    requires AllPrefsKnown(courses, students)
    ensures fresh(g)
    ensures overlong <= |students|
    ensures overlong < |students| <==> !PrefsBounded(students)
    ensures overlong < |students| ==> FirstOverlong(students, overlong)
    ensures overlong == |students| ==> g.nodes == NodeOrder(courses, students)
    ensures overlong == |students| ==> DemandsSet(g, courses)
    ensures overlong == |students| ==> forall u, v :: (u, v) in g.edges <==> HasEdge(courses, students, u, v)
    ensures overlong == |students| ==> forall u, v :: (u, v) in g.edges ==>
      v.CourseNode? && g.edges[(u, v)] == EdgeAt(courses, students, u, v.name)
  {
    var total := SumCapacities(courses);
    g := new FlowNetwork();
    AddCourses(g, courses);
    overlong := AddStudents(g, courses, students);
    if overlong == |students| {
      AddDummies(g, courses, students, total);
    }
  }

  /** The course loop: one node per course, demanding its capacity. */
  method AddCourses(g: FlowNetwork, courses: seq<Course>)
    requires Distinct(Names(courses))
    requires g.nodes == [] && g.demand == map[] && g.edges == map[]
    modifies g
    ensures g.nodes == CourseNodes(courses)
    ensures DemandsSet(g, courses)
    ensures g.edges == map[]
  {
    var k := 0;
    while k < |courses|
      invariant 0 <= k <= |courses|
      invariant g.nodes == CourseNodes(courses[..k])
      invariant DemandsSet(g, courses)
      invariant g.edges == map[]
    {
      CapacityOfAt(courses, k);
      var c := courses[k].name;
      assert CourseNode(c) !in g.nodes by {
        forall k' | 0 <= k' < k ensures g.nodes[k'] != CourseNode(c) {
          assert Names(courses)[k'] != Names(courses)[k];
        }
      }
      g.AddNode(CourseNode(c), courses[k].capacity);
      assert CourseNodes(courses[..k + 1]) == CourseNodes(courses[..k]) + [CourseNode(c)];
      k := k + 1;
    }
    assert courses[..k] == courses;
  }

  /** The student loop: one node per student, supplying one unit, with an edge
      to every course; it stops at the KeyError of the first student ranking
      more than three courses. */
  method AddStudents(g: FlowNetwork, courses: seq<Course>, students: seq<Student>) returns (overlong: nat)
    requires Distinct(StudentNames(students))
    requires AllPrefsKnown(courses, students)
    requires g.nodes == CourseNodes(courses) && DemandsSet(g, courses) && g.edges == map[]
    modifies g
    ensures overlong <= |students|
    ensures overlong < |students| <==> !PrefsBounded(students)
    ensures overlong < |students| ==> FirstOverlong(students, overlong)
    ensures overlong == |students| ==> g.nodes == CourseNodes(courses) + StudentNodes(students)
    ensures DemandsSet(g, courses)
    ensures overlong == |students| ==> forall u, v :: (u, v) in g.edges <==> IsStudentEdge(courses, students, u, v)
    ensures overlong == |students| ==> forall u, v :: (u, v) in g.edges ==>
      v.CourseNode? && g.edges[(u, v)] == EdgeAt(courses, students, u, v.name)
  {
    var i := 0;
    assert StudentNodes(students[..0]) == [];
    while i < |students|
      invariant 0 <= i <= |students|
      invariant PrefsBounded(students[..i])
      invariant g.nodes == CourseNodes(courses) + StudentNodes(students[..i])
      invariant DemandsSet(g, courses)
      invariant forall u, v :: (u, v) in g.edges <==> IsStudentEdge(courses, students[..i], u, v)
      invariant forall u, v :: (u, v) in g.edges ==> v.CourseNode? && g.edges[(u, v)] == EdgeAt(courses, students[..i], u, v.name)
    {
      if |students[i].prefs| > |WEIGHTS| {
        // WEIGHTS[3] raises before the student's fourth edge
        forall j | 0 <= j < i ensures |students[j].prefs| <= |WEIGHTS| {
          assert students[..i][j] == students[j];
        }
        return i;
      }
      assert students[..i + 1][..i] == students[..i];
      AddStudent(g, courses, students, i);
      i := i + 1;
    }
    assert students[..i] == students;
    return |students|;
  }

  /** The dummy loop: range(general_capacity - len(students)) dummies until supply meets demand. */
  method AddDummies(g: FlowNetwork, courses: seq<Course>, students: seq<Student>, total: nat)
    requires PrefsBounded(students)
    requires total == TotalCapacity(courses)
    requires g.nodes == CourseNodes(courses) + StudentNodes(students)
    requires DemandsSet(g, courses)
    requires forall u, v :: (u, v) in g.edges <==> IsStudentEdge(courses, students, u, v)
    requires forall u, v :: (u, v) in g.edges ==> v.CourseNode? && g.edges[(u, v)] == EdgeAt(courses, students, u, v.name)
    modifies g
    ensures g.nodes == NodeOrder(courses, students)
    ensures DemandsSet(g, courses)
    ensures forall u, v :: (u, v) in g.edges <==> HasEdge(courses, students, u, v)
    ensures forall u, v :: (u, v) in g.edges ==> v.CourseNode? && g.edges[(u, v)] == EdgeAt(courses, students, u, v.name)
  {
    var d := 0;
    assert DummyNodes(0) == [];
    while d < total - |students|
      invariant 0 <= d <= DummyCount(courses, students)
      invariant g.nodes == CourseNodes(courses) + StudentNodes(students) + DummyNodes(d)
      invariant DemandsSet(g, courses)
      invariant forall u, v :: (u, v) in g.edges <==> IsStudentEdge(courses, students, u, v) || IsDummyEdge(courses, d, u, v)
      invariant forall u, v :: (u, v) in g.edges ==> v.CourseNode? && g.edges[(u, v)] == EdgeAt(courses, students, u, v.name)
    {
      AddDummy(g, courses, students, d);
      d := d + 1;
    }
  }

  /** One pass of the student loop: the node for students[i] and its edges. */
  method AddStudent(g: FlowNetwork, courses: seq<Course>, students: seq<Student>, i: nat)
    requires Distinct(StudentNames(students))
    requires AllPrefsKnown(courses, students)
    requires i < |students| && PrefsBounded(students[..i + 1])
    requires g.nodes == CourseNodes(courses) + StudentNodes(students[..i])
    requires DemandsSet(g, courses)
    requires forall u, v :: (u, v) in g.edges <==> IsStudentEdge(courses, students[..i], u, v)
    requires forall u, v :: (u, v) in g.edges ==> v.CourseNode? && g.edges[(u, v)] == EdgeAt(courses, students[..i], u, v.name)
    modifies g
    ensures g.nodes == CourseNodes(courses) + StudentNodes(students[..i + 1])
    ensures DemandsSet(g, courses)
    ensures forall u, v :: (u, v) in g.edges <==> IsStudentEdge(courses, students[..i + 1], u, v)
    ensures forall u, v :: (u, v) in g.edges ==> v.CourseNode? && g.edges[(u, v)] == EdgeAt(courses, students[..i + 1], u, v.name)
  {
    var s := students[i].name;
    var prefs := students[i].prefs;
    NewStudent(courses, students, i);
    StudentTableGrows(courses, students, i);
    g.AddNode(StudentNode(s), -1);
    forall c | c in Names(courses) ensures CourseNode(c) in g.nodes {
      CourseNodeIn(courses, c);
    }
    assert forall j :: 0 <= j < |prefs| ==> prefs[j] in Names(courses);
    ghost var before := g.edges;
    AddStudentEdges(g, courses, s, prefs);
    StudentEdgesAdded(courses, students, i, before, g.edges);
  }

  /** The edges after the pass for students[i] are those of the table grown by
      students[i]: its own edges are new, every other edge is kept. */
  lemma {:induction false} StudentEdgesAdded(courses: seq<Course>, students: seq<Student>, i: nat,
                                             before: map<(Node, Node), Edge>, after: map<(Node, Node), Edge>)
    requires Distinct(StudentNames(students))
    requires i < |students| && PrefsBounded(students[..i + 1])
    requires forall u, v :: (u, v) in before <==> IsStudentEdge(courses, students[..i], u, v)
    requires forall u, v :: (u, v) in before ==> v.CourseNode? && before[(u, v)] == EdgeAt(courses, students[..i], u, v.name)
    requires forall u, v :: u != StudentNode(students[i].name) ==> ((u, v) in after <==> (u, v) in before)
    requires forall u, v :: u != StudentNode(students[i].name) && (u, v) in after ==> after[(u, v)] == before[(u, v)]
    requires forall v :: (StudentNode(students[i].name), v) in after <==> v.CourseNode? && v.name in Names(courses)
    requires forall v :: (StudentNode(students[i].name), v) in after ==>
      after[(StudentNode(students[i].name), v)] == Edge(RankWeight(students[i].prefs, v.name), Limit(1))
    ensures forall u, v :: (u, v) in after <==> IsStudentEdge(courses, students[..i + 1], u, v)
    ensures forall u, v :: (u, v) in after ==> v.CourseNode? && after[(u, v)] == EdgeAt(courses, students[..i + 1], u, v.name)
  {
    StudentTableGrows(courses, students, i);
  }

  /** students[i] is not yet a node when its pass starts, and its pass appends it. */
  lemma {:induction false} NewStudent(courses: seq<Course>, students: seq<Student>, i: nat)
    requires Distinct(StudentNames(students))
    requires i < |students|
    ensures StudentNode(students[i].name) !in CourseNodes(courses) + StudentNodes(students[..i])
    ensures StudentNodes(students[..i + 1]) == StudentNodes(students[..i]) + [StudentNode(students[i].name)]
  {
    var ns := CourseNodes(courses) + StudentNodes(students[..i]);
    forall k | 0 <= k < |ns| ensures ns[k] != StudentNode(students[i].name) {
      if k >= |courses| {
        assert ns[k] == StudentNode(students[k - |courses|].name);
        assert StudentNames(students)[k - |courses|] != StudentNames(students)[i];
      }
    }
  }

  /** What adding students[i] to the table changes: its own edges appear, with
      its own preferences; every other edge stays as it was. */
  lemma {:induction false} StudentTableGrows(courses: seq<Course>, students: seq<Student>, i: nat)
    requires Distinct(StudentNames(students))
    requires i < |students| && PrefsBounded(students[..i + 1])
    ensures PrefsBounded(students[..i])
    ensures forall v :: !IsStudentEdge(courses, students[..i], StudentNode(students[i].name), v)
    ensures forall u, v :: IsStudentEdge(courses, students[..i + 1], u, v) <==>
      IsStudentEdge(courses, students[..i], u, v) || (u == StudentNode(students[i].name) && v.CourseNode? && v.name in Names(courses))
    ensures forall u, c :: u != StudentNode(students[i].name) ==>
      EdgeAt(courses, students[..i + 1], u, c) == EdgeAt(courses, students[..i], u, c)
    ensures forall c ::
      EdgeAt(courses, students[..i + 1], StudentNode(students[i].name), c) == Edge(RankWeight(students[i].prefs, c), Limit(1))
  {
    var s := students[i].name;
    var done := students[..i];
    var now := students[..i + 1];
    assert now[..i] == done;
    assert StudentNames(now) == StudentNames(done) + [s];
    assert forall t :: t in StudentNames(now) <==> t in StudentNames(done) || t == s;
    forall k | 0 <= k < i ensures |done[k].prefs| <= |WEIGHTS| {
      assert done[k] == now[k];
    }
    assert s !in StudentNames(done) by {
      forall k | 0 <= k < i ensures StudentNames(done)[k] != s {
        assert StudentNames(students)[k] != StudentNames(students)[i];
      }
    }
    forall u, v ensures IsStudentEdge(courses, now, u, v) <==>
      IsStudentEdge(courses, done, u, v) || (u == StudentNode(s) && v.CourseNode? && v.name in Names(courses))
    {
      if u.StudentNode? && u.name == s {
        assert u == StudentNode(s);
      }
    }
    forall t: string | t != s
      ensures PrefsOf(now, t) == PrefsOf(done, t)
    {
    }
  }

  /** `a` and `b` hold the same edges, with the same attributes, except for edges leaving `x`. */
  ghost predicate AgreeExcept(a: map<(Node, Node), Edge>, b: map<(Node, Node), Edge>, x: Node) {
    forall u, v :: u != x ==> ((u, v) in a <==> (u, v) in b) && ((u, v) in a ==> a[(u, v)] == b[(u, v)])
  }

  /** The two inner loops of the student pass: one edge per ranked course,
      weighted by its rank, then a zero-cost edge to every other course. */
  method AddStudentEdges(g: FlowNetwork, courses: seq<Course>, s: string, prefs: seq<string>)
    requires |prefs| <= |WEIGHTS|
    requires forall j :: 0 <= j < |prefs| ==> prefs[j] in Names(courses)
    requires StudentNode(s) in g.nodes
    requires forall c :: c in Names(courses) ==> CourseNode(c) in g.nodes
    requires forall v :: (StudentNode(s), v) !in g.edges
    modifies g
    ensures g.nodes == old(g.nodes) && g.demand == old(g.demand)
    ensures forall u, v :: u != StudentNode(s) ==> ((u, v) in g.edges <==> (u, v) in old(g.edges))
    ensures forall u, v :: u != StudentNode(s) && (u, v) in g.edges ==> g.edges[(u, v)] == old(g.edges)[(u, v)]
    ensures forall v :: (StudentNode(s), v) in g.edges <==> v.CourseNode? && v.name in Names(courses)
    ensures forall v :: (StudentNode(s), v) in g.edges ==> g.edges[(StudentNode(s), v)] == Edge(RankWeight(prefs, v.name), Limit(1))
  {
    var x := StudentNode(s);
    AddRankedEdges(g, courses, x, prefs);
    AddZeroEdges(g, courses, x, prefs, Edge(0, Limit(1)));
    assert AgreeExcept(g.edges, old(g.edges), x);
  }

  /** for i, pref in enumerate(prefs): add_edge(x, pref, weight=WEIGHTS[i], capacity=1) */
  method AddRankedEdges(g: FlowNetwork, courses: seq<Course>, x: Node, prefs: seq<string>)
    requires |prefs| <= |WEIGHTS|
    requires forall j :: 0 <= j < |prefs| ==> prefs[j] in Names(courses)
    requires x in g.nodes
    requires forall c :: c in Names(courses) ==> CourseNode(c) in g.nodes
    requires forall v :: (x, v) !in g.edges
    modifies g
    ensures g.nodes == old(g.nodes) && g.demand == old(g.demand)
    ensures AgreeExcept(g.edges, old(g.edges), x)
    ensures forall v :: (x, v) in g.edges <==> v.CourseNode? && v.name in prefs
    ensures forall v :: (x, v) in g.edges ==> g.edges[(x, v)] == Edge(WEIGHTS[LastIndex(prefs, v.name)], Limit(1))
  {
    var j := 0;
    while j < |prefs|
      invariant 0 <= j <= |prefs|
      invariant g.nodes == old(g.nodes) && g.demand == old(g.demand)
      invariant AgreeExcept(g.edges, old(g.edges), x)
      invariant forall v :: (x, v) in g.edges <==> v.CourseNode? && v.name in prefs[..j]
      invariant forall v :: (x, v) in g.edges ==> v.CourseNode? && g.edges[(x, v)] == Edge(WEIGHTS[LastIndex(prefs[..j], v.name)], Limit(1))
    {
      g.AddEdge(x, CourseNode(prefs[j]), Edge(WEIGHTS[j], Limit(1)));
      assert prefs[..j + 1] == prefs[..j] + [prefs[j]];
      forall v | (x, v) in g.edges && v != CourseNode(prefs[j])
        ensures LastIndex(prefs[..j + 1], v.name) == LastIndex(prefs[..j], v.name)
      {
        assert prefs[..j + 1][..j] == prefs[..j];
      }
      j := j + 1;
    }
    assert prefs[..j] == prefs;
  }

  /** for course in courses: if course not in skip: add_edge(x, course, e) */
  method AddZeroEdges(g: FlowNetwork, courses: seq<Course>, x: Node, skip: seq<string>, e: Edge)
    requires x in g.nodes
    requires forall c :: c in Names(courses) ==> CourseNode(c) in g.nodes
    modifies g
    ensures g.nodes == old(g.nodes) && g.demand == old(g.demand)
    ensures AgreeExcept(g.edges, old(g.edges), x)
    ensures forall v :: (x, v) in g.edges <==>
      (x, v) in old(g.edges) || (v.CourseNode? && v.name in Names(courses) && v.name !in skip)
    ensures forall v :: (x, v) in g.edges ==>
      g.edges[(x, v)] == if v.CourseNode? && v.name in Names(courses) && v.name !in skip then e else old(g.edges)[(x, v)]
  {
    var m := 0;
    while m < |courses|
      invariant 0 <= m <= |courses|
      invariant g.nodes == old(g.nodes) && g.demand == old(g.demand)
      invariant AgreeExcept(g.edges, old(g.edges), x)
      invariant forall v :: (x, v) in g.edges <==>
        (x, v) in old(g.edges) || (v.CourseNode? && v.name in Names(courses[..m]) && v.name !in skip)
      invariant forall v :: (x, v) in g.edges ==>
        g.edges[(x, v)] == if v.CourseNode? && v.name in Names(courses[..m]) && v.name !in skip then e else old(g.edges)[(x, v)]
    {
      var c := courses[m].name;
      assert Names(courses[..m + 1]) == Names(courses[..m]) + [c];
      if c !in skip {
        assert Names(courses)[m] == c;
        g.AddEdge(x, CourseNode(c), e);
      }
      m := m + 1;
    }
    assert courses[..m] == courses;
  }

  /** One pass of the dummy loop: the node for dummy `d`, with an uncapacitated zero-cost edge to every course. */
  method AddDummy(g: FlowNetwork, courses: seq<Course>, students: seq<Student>, d: nat)
    requires PrefsBounded(students)
    requires d < DummyCount(courses, students)
    requires g.nodes == CourseNodes(courses) + StudentNodes(students) + DummyNodes(d)
    requires DemandsSet(g, courses)
    requires forall u, v :: (u, v) in g.edges <==> IsStudentEdge(courses, students, u, v) || IsDummyEdge(courses, d, u, v)
    requires forall u, v :: (u, v) in g.edges ==> v.CourseNode? && g.edges[(u, v)] == EdgeAt(courses, students, u, v.name)
    modifies g
    ensures g.nodes == CourseNodes(courses) + StudentNodes(students) + DummyNodes(d + 1)
    ensures DemandsSet(g, courses)
    ensures forall u, v :: (u, v) in g.edges <==> IsStudentEdge(courses, students, u, v) || IsDummyEdge(courses, d + 1, u, v)
    ensures forall u, v :: (u, v) in g.edges ==> v.CourseNode? && g.edges[(u, v)] == EdgeAt(courses, students, u, v.name)
  {
    var x := DummyNode(d);
    NewDummy(courses, students, d);
    g.AddNode(x, -1);
    forall c | c in Names(courses) ensures CourseNode(c) in g.nodes {
      CourseNodeIn(courses, c);
    }
    AddZeroEdges(g, courses, x, [], Edge(0, Unbounded));
  }

  /** Dummy `d` is not yet a node when its pass starts, has no edges yet, and its pass appends it. */
  lemma {:induction false} NewDummy(courses: seq<Course>, students: seq<Student>, d: nat)
    ensures DummyNode(d) !in CourseNodes(courses) + StudentNodes(students) + DummyNodes(d)
    ensures DummyNodes(d + 1) == DummyNodes(d) + [DummyNode(d)]
    ensures forall v :: !IsStudentEdge(courses, students, DummyNode(d), v) && !IsDummyEdge(courses, d, DummyNode(d), v)
    ensures forall u, v :: IsDummyEdge(courses, d + 1, u, v) <==>
      IsDummyEdge(courses, d, u, v) || (u == DummyNode(d) && v.CourseNode? && v.name in Names(courses))
  {
    var ns := CourseNodes(courses) + StudentNodes(students) + DummyNodes(d);
    forall k | 0 <= k < |ns| ensures ns[k] != DummyNode(d) {
      if k >= |courses| + |students| {
        assert ns[k] == DummyNodes(d)[k - |courses| - |students|];
      }
    }
    forall u, v ensures IsDummyEdge(courses, d + 1, u, v) <==>
      IsDummyEdge(courses, d, u, v) || (u == DummyNode(d) && v.CourseNode? && v.name in Names(courses))
    {
      if u.DummyNode? && u.index == d {
        assert u == DummyNode(d);
      }
    }
  }
}
