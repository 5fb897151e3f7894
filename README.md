# Course assigner: a verified model

The course assigner places students in courses that have a limited number of
places. Each student ranks up to three courses. The program works in four stages:

1. **Validation** (`validate`) rejects an input whose courses have fewer
   places than there are students, or in which a student ranks a course that
   does not exist.
2. **Network building** (first half of `assign_to_courses`) builds a
   min-cost-flow instance:
   - every course is a node whose demand is its capacity;
   - every student is a node supplying one unit, with an edge of capacity 1
     to every course. The edge costs `WEIGHTS[rank]` (-100, -70, -30) when
     the student ranked the course and 0 otherwise;
   - dummy students, each supplying one unit over uncapacitated zero-cost
     edges, are added until supply meets demand.
3. **Decoding** (second half of `assign_to_courses`) reads the solver's flow
   back: every non-course node must send exactly one unit. Dummies are
   skipped, and each student is appended to the list of the course its unit
   enters.
4. **Statistics** (`calculate_statistic`) counts the students granted their
   first, second and third choice, and those granted a course they did not list.

The model has eight modules:

| module | file | contents |
|---|---|---|
| `Input` | `input.dfy` | the two tables, `WEIGHTS`, capacity sums |
| `Validation` | `validate.dfy` | `validate` |
| `Network` | `network.dfy` | the graph object as a class, the builder's loops as methods proved against a declarative description of the network (`NodeOrder`, `NodeDemand`, `HasEdge`, `EdgeAt`) |
| `Decoding` | `decode.dfy` | the decoding loop, `Feasible` (what a correct solver answer satisfies), `assign_to_courses` end to end |
| `Statistics` | `statistics.dfy` | `calculate_statistic` and the meaning of its buckets |
| `Optimality` | `optimality.dfy` | the cost of a flow and its relation to the statistic |
| `ByName` | `names.dfy` | decoding by node name, as the program does it, and the case where it goes wrong |
| `Scenarios` | `scenarios.dfy` | four small inputs and what the program does with each: the assignment every minimum-cost (or feasible) flow decodes to, its statistic, and a validation failure |

Modelling choices:

- **Tables.** Python dicts become sequences of entries in iteration order.
  Their keys are distinct (`UniqueKeys`).
- **Graph object.** The networkx `DiGraph` becomes the class
  `Network.FlowNetwork`, with these fields:
  - the nodes in insertion order;
  - a demand map;
  - an edge map. For an existing edge, networkx's `add_edge` updates the
    attribute dict: it keeps the attributes the call does not pass. The model
    replaces the whole `Edge`. Both give the same result here, because every
    repeated `add_edge` (a repeated course at line 82) passes both `weight`
    and `capacity`.
- **Nodes.** Nodes are tagged `CourseNode`, `StudentNode` or `DummyNode`.
  The program keeps all three in one name space; `ByName` models what the
  name-based tests do.
- **Solver.** The call to `nx.min_cost_flow` is not modelled. Its answer
  is the parameter `flow` (one row per node, in node order). `Feasible` states
  what any correct answer satisfies:
  - flow only on edges of the network;
  - flow within each edge's capacity;
  - at every node, inflow minus outflow equals the node's demand.

  `Optimality.MinCost` adds minimality of the total cost.
- **Exceptions.** Each one the program raises becomes a result value:
  - `ValidationError` becomes `Validation.Outcome.Fail`;
  - the `KeyError` of `WEIGHTS[3]` for a student ranking four or more
    courses becomes `Decoding.AssignOutcome.NoRankWeight`;
  - the failing `assert sum(...) == 1` becomes `Decoding.DecodeResult.NotOneUnit`;
  - the two `IndexError`s of `calculate_statistic` become
    `Statistics.StatResult.NotAssigned` and `Statistics.StatResult.RankTooLow`.

  Each error result names the first offending entry in table order.

Four behaviours of the code that the model keeps as written:

- **More than three preferences.** Nothing checks the length of a
  preference list. A fourth preference makes `WEIGHTS[3]` raise `KeyError`
  in the builder, and the model returns that error.
- **Statistics failures.** `calculate_statistic` raises `IndexError` for a
  student in no list, and for a granted course at index 4 or later of the
  student's list. The model returns both.
- **Weight ordering.** The weights fall in magnitude as rank worsens (-100,
  -70, -30). What holds, and is proved, is that they strictly increase as
  values and are all below the zero cost of an unranked course.
- **Capacities.** With the dummies, each course receives exactly its
  capacity in flow units. Real students in a course can be fewer than its
  capacity, and the model proves `<=`.

## Model

| member | source | states |
|---|---|---|
| Input.WeightsOrdered | course_assigner/__init__.py:10-14 | three ranks, with `WEIGHTS[0] < WEIGHTS[1] < WEIGHTS[2] < 0`, so a better rank is always cheaper and every rank is cheaper than an unranked course |
| Input.SumCapacities | course_assigner/__init__.py:56 | the loop behind `sum(courses.values())` computes `TotalCapacity` |
| Input.CapacityOfAt | course_assigner/__init__.py:74-75 | with distinct course names, looking up a course by name finds its own capacity |
| Input.PrefsOfAt | course_assigner/__init__.py:78-82 | with distinct student names, looking up a student by name finds their own preference list |
| Validation.Validate | course_assigner/__init__.py:55-64 | fails with a capacity error exactly when places < students, the shortfall being students - places; otherwise fails naming the first student and first course in table order whose course is unknown; passes exactly when places suffice and every preference is a known course |
| Network.FlowNetwork.constructor | course_assigner/__init__.py:71 | a new graph has no nodes, demands or edges |
| Network.FlowNetwork.AddNode | course_assigner/__init__.py:75 | a new node is appended to the node order, an existing node keeps its place; the node's demand is set; edges are unchanged |
| Network.FlowNetwork.AddEdge | course_assigner/__init__.py:82 | missing end points are appended to the node order; the edge's attributes are set or overwritten; demands are unchanged |
| Network.BuildNetwork | course_assigner/__init__.py:67-92 | stops at the first student ranking more than three courses (the `KeyError`), exactly when some student does; otherwise the graph's node order is courses, then students, then dummies; every node has the demand of its kind; the edges are exactly student-to-course and dummy-to-course; each edge has the weight and capacity of `EdgeAt` |
| Network.AddCourses | course_assigner/__init__.py:74-75 | the course loop leaves one node per course, in table order, each demanding its capacity, and no edges |
| Network.AddStudents | course_assigner/__init__.py:78-86 | the student loop stops at the first student with more than three preferences, exactly when one exists; otherwise it appends one node per student, with demand -1 and an edge to every course |
| Network.AddStudent | course_assigner/__init__.py:79-86 | one pass appends the student's node and its edges to every course, and leaves every other edge unchanged |
| Network.AddStudentEdges | course_assigner/__init__.py:81-86 | after both inner loops the student has an edge to every listed course and to no other node; each edge weighs `RankWeight` (the weight of the course's last rank, 0 when unranked) with capacity 1; no other node's edges change |
| Network.AddRankedEdges | course_assigner/__init__.py:81-82 | the student has an edge exactly to each ranked course; each weighs `WEIGHTS` at that course's last rank, since a repeat overwrites; no other node's edges change |
| Network.AddZeroEdges | course_assigner/__init__.py:84-86 | a zero-cost edge is added to each listed course not skipped; every other edge is unchanged |
| Network.AddDummies | course_assigner/__init__.py:89-92 | the dummy loop appends `DummyCount` dummies (total capacity minus students, or none) after the students, and gives each an edge to every course |
| Network.AddDummy | course_assigner/__init__.py:90-92 | one pass appends dummy `d` with demand -1 and an uncapacitated zero-cost edge to every course |
| Network.NodeOrder | course_assigner/__init__.py:74-92 | the graph's node order: the courses in table order, then the students, then `DummyCount` dummies |
| Network.NodeDemand | course_assigner/__init__.py:74-92 | a course demands its capacity (line 75); a student (line 79) and a dummy (line 90) each supply one unit |
| Network.HasEdge | course_assigner/__init__.py:78-92 | the graph's edges: every student and every dummy to every listed course, and no others |
| Network.EdgeAt | course_assigner/__init__.py:78-92 | a student's edge weighs `RankWeight` and has capacity 1; a dummy's edge weighs 0 and has no capacity |
| Network.RankWeight | course_assigner/__init__.py:81-86 | the weight of a student's edge to a course is negative exactly when the student ranks that course, and is then one of the `WEIGHTS` |
| Network.StudentEdgeWeights | course_assigner/__init__.py:81-86 | for a student whose preferences are distinct, the edge to the course at rank j is `Edge(WEIGHTS[j], Limit(1))` and the edge to an unranked course is `Edge(0, Limit(1))` |
| Network.CourseDemandSum | course_assigner/__init__.py:74-75 | the course nodes together demand the total capacity |
| Network.SupplySum | course_assigner/__init__.py:79-90 | student and dummy nodes each supply one unit |
| Network.Balanced | course_assigner/__init__.py:68-90 | the demands sum to places - students - dummies, and to zero exactly when places suffice for the students |
| Decoding.ArgMax | course_assigner/__init__.py:103 | `max(..., key=...)` picks an entry of largest flow, and the first such entry |
| Decoding.OutFlow | course_assigner/__init__.py:101 | `sum(preference_courses.values())`: the total flow a row sends |
| Decoding.Place | course_assigner/__init__.py:103 | `assignments[c].append(s)` on a defaultdict: appends to the list of `c`, or starts a new list at the end |
| Decoding.Step | course_assigner/__init__.py:97-103 | one pass of the decoding loop: course rows are skipped, a row not sending one unit fails the `assert`, a dummy row is skipped, any other row appends its name to the course `max` picks |
| Decoding.Decoded | course_assigner/__init__.py:97-103 | the decoding loop over the rows in node order; the first failing row ends it |
| Decoding.Feasible | course_assigner/__init__.py:97 | what `nx.min_cost_flow` returns for the built network: one row per node in node order, flow only on the network's edges and within their capacities, and inflow minus outflow equal to each node's demand |
| Decoding.UnitOutFlowArgMax | course_assigner/__init__.py:101-103 | a row sending one unit sends it along the edge `max` picks |
| Decoding.PlaceMembers | course_assigner/__init__.py:103 | `append` adds the student to the end of that course's list and changes no other list |
| Decoding.PlaceFlatten | course_assigner/__init__.py:103 | `append` adds exactly one listing of the student |
| Decoding.PlaceCourses | course_assigner/__init__.py:94-103 | the defaultdict keeps its key order and adds a new course at the end |
| Decoding.PlaceKeepsDistinct | course_assigner/__init__.py:94-103 | the defaultdict holds one list per course |
| Decoding.PlaceNonEmpty | course_assigner/__init__.py:94-103 | no course appears with an empty list |
| Decoding.MembersOfEntry | course_assigner/__init__.py:94-103 | with one list per course, an entry's list is `assignments[course]` |
| Decoding.Decode | course_assigner/__init__.py:94-105 | the decoding loop computes `Decoded`, the row-by-row specification, including the failed `assert` |
| Decoding.FailureSticks | course_assigner/__init__.py:101 | once a row fails the `assert`, the decoding's result is that failure |
| Decoding.UnitStep | course_assigner/__init__.py:97-103 | a pass over a course row or a one-unit row succeeds, keeps one non-empty list per course, lists the row's student once, and adds to a course's list no more than the row's flow into it |
| Decoding.DecodeUnitRows | course_assigner/__init__.py:97-103 | when every row is a course row or sends one unit: decoding succeeds; the listed names are exactly the placed (non-course, non-dummy) nodes, counted with multiplicity; no list is longer than the flow into its course |
| Decoding.PlacedNamesSnoc | course_assigner/__init__.py:102-103 | the last row adds its node's name to the placed names exactly when it is placed |
| Decoding.FeasibleRows | course_assigner/__init__.py:74-101 | in a feasible flow every student and dummy sends exactly one unit, and every course receives exactly its capacity |
| Decoding.FlowOnlyIntoCourses | course_assigner/__init__.py:82-92 | flow enters only listed courses |
| Decoding.PlacedAreStudents | course_assigner/__init__.py:98-103 | over the built node order the placed names are exactly the students, in table order |
| Decoding.ListsHoldingBounds | course_assigner/__init__.py:103 | the number of lists holding a student is at most the student's count of listings, and at least one when the student is listed |
| Decoding.DecodeFeasibleFlow | course_assigner/__init__.py:96-105 | for every feasible flow: decoding succeeds; every student is in exactly one course's list and nobody else is in any; as many names are listed as there are students; every list belongs to a listed course and holds at most its capacity |
| Decoding.FlattenListed | course_assigner/__init__.py:94-103 | with one list per course, every list's course in the table: the names listed are as many as the members summed over the table's courses |
| Decoding.ListedWithinCapacity | course_assigner/__init__.py:94-103 | when no course's list is longer than its capacity, the members summed over the table's courses are at most the total capacity |
| Decoding.FeasibleNeedsPlaces | course_assigner/__init__.py:56-97 | a feasible flow exists only when the places suffice for the students; otherwise `nx.min_cost_flow` has no answer to give |
| Decoding.AssignToCourses | course_assigner/__init__.py:67-105 | given the solver's answer on the built network: the `KeyError` outcome happens exactly when some student ranks more than three courses, and names the first such student; otherwise the result is `Decoded(courses, flow)`, the decoding of that very flow, which succeeds, lists every student exactly once, lists |students| names in all, and keeps every course within capacity |
| Statistics.FirstIndex | course_assigner/__init__.py:43 | `list.index` returns a position holding the value with no earlier occurrence |
| Statistics.GrantedCourse | course_assigner/__init__.py:38 | `assignments_reversed[s]`: the course of the first list, in assignment order, holding `s` |
| Statistics.GrantedIsFirstList | course_assigner/__init__.py:38 | the granted course is that of a list holding the student, with no earlier list holding them |
| Statistics.Bucket | course_assigner/__init__.py:43 | the index of the granted course in the student's preferences, or 3 when it is not among them |
| Statistics.CountBucket | course_assigner/__init__.py:41-45 | the number of students whose granted course falls in bucket k; never more than the number of students |
| Statistics.CalculateStatistic | course_assigner/__init__.py:36-45 | counts exactly when every student is in a list and every granted course has a bucket; then four counts, count k being the number of students in bucket k, summing to |students|; otherwise the first unassigned student, or the first student whose course has no bucket, is reported |
| Statistics.ReverseAssignments | course_assigner/__init__.py:37-39 | the reverse map gives each student the first list holding them, or stops at the first student in no list |
| Statistics.Tally | course_assigner/__init__.py:41-45 | the counting loop stops at the first bucket out of range; otherwise it leaves `CountBucket` in every bucket, the buckets summing to |students| |
| Statistics.BucketMeaning | course_assigner/__init__.py:43 | for a list of at most three distinct preferences: bucket k < 3 holds exactly the students granted the course at index k; bucket 3 holds exactly those granted a course they did not list |
| Statistics.BucketsCoverStudents | course_assigner/__init__.py:41-45 | the four buckets together count every student once |
| Statistics.AllInBucket | course_assigner/__init__.py:41-45 | a bucket counts every student exactly when every student's granted course falls in it |
| Statistics.FirstChoicesBuckets | course_assigner/__init__.py:41-45 | when every student is granted their first choice, the statistic is [|students|, 0, 0, 0] |
| Statistics.TallyStep | course_assigner/__init__.py:42-43 | counting one more student adds one to the bucket of their granted course and leaves the other buckets unchanged |
| Statistics.GrantedIsTheList | course_assigner/__init__.py:37-39 | a student in exactly one list is granted that list's course |
| Statistics.MembersInFlatten | course_assigner/__init__.py:38 | every member of a list is among the listed names |
| Statistics.DecodedIsCountable | course_assigner/__init__.py:36-45 | the assignment decoded from any feasible flow can be counted without an `IndexError` |
| Optimality.FreeRowCost | course_assigner/__init__.py:92 | edges leaving a dummy (or a course) cost nothing |
| Optimality.FlowCost | course_assigner/__init__.py:97 | the total cost `nx.min_cost_flow` minimises: each edge's flow times its weight |
| Optimality.MinCost | course_assigner/__init__.py:97 | the solver's answer is feasible and costs no more than any other feasible flow |
| Optimality.IdleRowCost | course_assigner/__init__.py:97 | a row sending no flow costs nothing |
| Optimality.UnitRowCost | course_assigner/__init__.py:82-103 | a row sending one unit costs the weight of the edge `max` picks |
| Optimality.FlowCostAppend | course_assigner/__init__.py:97 | the cost of a flow is the sum of the costs of its parts |
| Optimality.FreeFlowCost | course_assigner/__init__.py:89-92 | rows of courses and dummies cost nothing |
| Optimality.StepKeepsMembers | course_assigner/__init__.py:103 | a later pass takes no student out of a list |
| Optimality.PlacedInTarget | course_assigner/__init__.py:97-103 | a student row's name ends up in the list of the course its unit enters |
| Optimality.RankWeightIsBucketWeight | course_assigner/__init__.py:81-86 | for distinct preferences, the edge weight of a course equals the weight of the bucket the statistic puts it in |
| Optimality.FeasibleRowGranted | course_assigner/__init__.py:97-103 | in a feasible flow, each student is granted the course their unit enters |
| Optimality.StudentRowsCost | course_assigner/__init__.py:81-86 | the student rows together cost the sum of their granted courses' bucket weights |
| Optimality.FeasibleFlowCost | course_assigner/__init__.py:81-103 | the cost of any feasible flow is -(100, 70, 30 per student granted first, second, third choice) in its decoded assignment |
| Optimality.ChoiceCostByBuckets | course_assigner/__init__.py:41-45 | student by student or bucket by bucket, the weighted count is the same |
| Optimality.MinCostMaximisesSatisfaction | course_assigner/__init__.py:97 | the assignment decoded from a minimum-cost flow scores at least as well, in weighted first/second/third-choice counts, as the assignment decoded from any other feasible flow |
| Optimality.SatisfactionBound | course_assigner/__init__.py:10-14 | the weighted count is at most 100 per student, and reaches it only when every student is granted their first choice |
| Optimality.FirstChoicesAreMinCost | course_assigner/__init__.py:81-97 | a feasible flow granting every student their first choice is a minimum-cost flow |
| Optimality.MinCostGrantsFirstChoices | course_assigner/__init__.py:81-97 | when some feasible flow grants every student their first choice, every minimum-cost flow does too |
| Optimality.HeldIffGranted | course_assigner/__init__.py:38 | when each student is in exactly one list and nobody else is in any, `s` is in the list of `c` exactly when `s` is a student granted `c` |
| ByName.AnnFlowFeasible | course_assigner/__init__.py:67-92 | the one-course, one-student example is well formed and its flow is feasible |
| ByName.Decimal | course_assigner/__init__.py:90 | the decimal numeral of `i` in `f"dummy_{i}"`: non-empty, digits only, no leading zero |
| ByName.NodeName | course_assigner/__init__.py:90 | the name the program gives a node: the course or student name, or `dummy_` followed by the dummy's index |
| ByName.StepByName | course_assigner/__init__.py:97-103 | one pass of the decoding loop as the program writes it, telling courses by `student in courses` and dummies by the `dummy_` prefix |
| ByName.DecodedByName | course_assigner/__init__.py:97-103 | the decoding loop as the program writes it, over the names of the rows' nodes |
| ByName.DummyPrefixStudentDropped | course_assigner/__init__.py:102 | on that feasible flow, decoding by name returns an empty assignment, while the student should be placed in course A |
| ByName.NameAgreesStep | course_assigner/__init__.py:98-103 | a pass over a row whose name tells its kind decodes as the tag-based pass |
| ByName.DecodingsAgree | course_assigner/__init__.py:97-103 | when every row's name tells its kind, decoding by name equals the tag-based decoding |
| ByName.DummyNameMarked | course_assigner/__init__.py:90 | every `f"dummy_{i}"` starts with `dummy_` |
| ByName.OrdinaryNodesAgree | course_assigner/__init__.py:74-102 | when no student shares a course's name and no course or student name starts with `dummy_`, every node of the built network tells its kind by name |
| ByName.OrdinaryNamesDecodeAlike | course_assigner/__init__.py:97-105 | under that naming condition, the program's name-based decoding of every feasible flow is the tag-based one, so it lists every student exactly once |
| Scenarios.FlowAFeasible | course_assigner/__init__.py:67-97 | scenario A (Math 2, Art 1; Al ranks Math, Bo ranks Math then Art, Cy ranks Art): sending everyone to their first choice is a feasible flow |
| Scenarios.FlowADecoded | course_assigner/__init__.py:94-105 | that flow decodes to {Math: [Al, Bo], Art: [Cy]} |
| Scenarios.ScenarioA | course_assigner/__init__.py:36-105 | every minimum-cost flow of scenario A puts exactly Al and Bo in Math and exactly Cy in Art, and the statistic is [3, 0, 0, 0] |
| Scenarios.ScenarioB | course_assigner/__init__.py:55-59 | scenario B (Math 1; Al and Bo both rank Math) fails validation with one place missing |
| Scenarios.FlowCFeasible | course_assigner/__init__.py:67-97 | scenario C (Math 1, Art 1; Al ranks Math, Bo ranks nothing): Al to Math and Bo to Art is a feasible flow |
| Scenarios.FlowCDecoded | course_assigner/__init__.py:94-105 | that flow decodes to {Math: [Al], Art: [Bo]} |
| Scenarios.BucketsC | course_assigner/__init__.py:36-45 | in any countable assignment of scenario C, Bo falls in the last bucket, and Al in the first exactly when granted Math |
| Scenarios.LeftoverC | course_assigner/__init__.py:94-105 | when Al holds Math's one place, Bo is granted Art |
| Scenarios.ScenarioC | course_assigner/__init__.py:36-105 | every minimum-cost flow of scenario C puts exactly Al in Math and exactly Bo in Art, and the statistic is [1, 0, 0, 1] |
| Scenarios.FlowDFeasible | course_assigner/__init__.py:67-97 | scenario D (Math 3; Al ranks Math) has a feasible flow, in which two dummies send a unit each |
| Scenarios.PlacementD | course_assigner/__init__.py:94-105 | an assignment of scenario D with one list per course, every list non-empty and Al listed once is {Math: [Al]} |
| Scenarios.ScenarioD | course_assigner/__init__.py:36-105 | every feasible flow of scenario D has two dummy rows sending one unit each, and decodes to {Math: [Al]}, with no dummy listed; the statistic is [1, 0, 0, 0] |

## Left out

- `nx.min_cost_flow` is a library routine and is not modelled. Its answer is an input. `Feasible` and `Optimality.MinCost` state what the routine promises; nothing proves that the library keeps that promise.
- The solver's answer is taken to be integral (`nat` flows), as networkx's network simplex gives for integer data.
- `NetworkXUnfeasible` is not modelled as an outcome. When places are too few, the students supply more than the courses demand (`Network.Balanced`), and `Decoding.FeasibleNeedsPlaces` shows that no feasible flow exists; validation rejects that input first.
- Network.BuildNetwork: requires every preference to be a known course, which validation guarantees. On unvalidated input, `add_edge` would create a course node without a demand; the model does not follow that path.
- Network identities are tags, not names. A student named like a course merges two nodes in the program, and the model does not capture that merge. `ByName` covers the `dummy_` prefix test and gives, in `ByName.OrdinaryNames`, the condition under which the name tests agree with the tags.
- Optimality.FeasibleFlowCost and Optimality.MinCostMaximisesSatisfaction: require distinct preferences. With a repeated course, the edge takes the weight of the course's last rank, while the statistic counts its first rank, so the two scales differ. The builder and the decoder themselves need no such condition.
- Which of several minimum-cost flows the solver returns is not modelled. The four scenarios in `Scenarios` do not depend on it: in A and C every minimum-cost flow decodes to the same assignment, in D every feasible flow does, and B stops at validation. The general "first choice whenever capacity allows" property is proved only in the form `Optimality.MinCostGrantsFirstChoices`: when some feasible flow gives every student their first choice, every minimum-cost flow does. A per-student version, for inputs where only some students can have their first choice, is not stated.
- Integer widths do not matter here: Python integers are unbounded, as Dafny's `int` and `nat` are. Capacities are `nat`.
- The order of the dict returned by `assign_to_courses` is modelled: courses appear in the order they first received a student. Python's `defaultdict` factory is not modelled.
- `draw_graph`, `print_assignments`, `print_statistic`, `read_courses_and_preferences` and `main` do plotting, printing, file and CSV/JSON reading, and argument parsing. They are I/O only and are left out.
- `scripts/generate_random_presets.py` does random generation and file writing, and is left out.

## Findings

| source | as written | input that shows it | evidently intended | confidence | as-written member | corrected member |
|---|---|---|---|---|---|---|
| course_assigner/__init__.py:102 | the decoder drops every row whose node name starts with `dummy_`, which includes a real student so named | courses `{"A": 1}`, students `{"dummy_ann": ["A"]}`: the only feasible flow sends the student's unit to A, and the result is an empty assignment | only the dummy nodes the builder created are dropped, so every student is listed once | not executed | ByName.DummyPrefixStudentDropped | Decoding.DecodeFeasibleFlow |
