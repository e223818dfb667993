/** The 3D prerequisite graph of the courses a student has scheduled: a root
    node, one node per faculty that has courses, the courses under their
    faculty, and links from each course's prerequisites (or, for a course with
    no prerequisites at all, from its faculty). Courses completed before the
    current term are drawn in their faculty's colour, the others in grey. */
module CourseGraph {
  import opened Terms
  import Lists

  /** A graph node: a course as the graph endpoint returns it, or one of the
      root and faculty nodes the component makes. */
  datatype GraphNode = GraphNode(id: string, title: string, faculty: string, prerequisites: seq<string>)

  datatype GraphLink = GraphLink(source: string, target: string)

  datatype Graph = Graph(nodes: seq<GraphNode>, links: seq<GraphLink>)

  /** A schedule entry as the schedule endpoint returns it. */
  datatype ScheduleEntry = ScheduleEntry(courseCode: string, term: string)

  /** A node colour: white, a faculty colour lightened towards white (drawn
      by a blend that is not part of this model), or a solid colour. */
  datatype Colour = Tinted(base: string) | Solid(hex: string)

  const ROOT_ID := "__root__"
  const GREY := "#666666"
  const DEFAULT_COLOUR := "#888888"

  /** `FACULTY_COLORS[f] || "#888888"`. */
  function FacultyColour(f: string): (c: string)
    ensures |c| == 7 && c[0] == '#'
    ensures f !in ["MAT", "SCI", "HEA", "ENV", "ENG", "ART"] ==> c == DEFAULT_COLOUR
  {
    if f == "MAT" then "#df1aa0"
    else if f == "SCI" then "#0072da"
    else if f == "HEA" then "#2596be"
    else if f == "ENV" then "#b6bf00"
    else if f == "ENG" then "#5d0096"
    else if f == "ART" then "#ed8c00"
    else DEFAULT_COLOUR
  }

  /** `FACULTY_NAMES[f] || f`. */
  function FacultyTitle(f: string): (t: string)
    ensures f !in ["MAT", "SCI", "HEA", "ENV", "ENG", "ART", "N/A"] ==> t == f
    ensures f != "" ==> t != ""
  {
    if f == "MAT" then "Mathematics"
    else if f == "SCI" then "Science"
    else if f == "HEA" then "Health Sciences"
    else if f == "ENV" then "Environment"
    else if f == "ENG" then "Engineering"
    else if f == "ART" then "Arts"
    else if f == "N/A" then "Other"
    else f
  }

  /** `node.faculty || "N/A"`. */
  function FacultyOf(node: GraphNode): (f: string)
    ensures f != ""
  {
    if node.faculty == "" then "N/A" else node.faculty
  }

  /** `makeNode(id, title, faculty)`: no prerequisites. */
  function MakeNode(id: string, title: string, faculty: string): GraphNode {
    GraphNode(id, title, faculty, [])
  }

  function RootNode(): GraphNode {
    MakeNode(ROOT_ID, "Courses Taken", ROOT_ID)
  }

  function FacultyNode(f: string): GraphNode {
    MakeNode(f, FacultyTitle(f), f)
  }

  // ---------------------------------------------------------------------------
  // The completed set
  // ---------------------------------------------------------------------------

  /** The codes of the entries placed strictly before the current term, as
      `TERMS.indexOf` orders them. */
  function CompletedCourses(entries: seq<ScheduleEntry>, currentTerm: string): (done: set<string>)
    ensures forall c :: c in done <==>
              exists e :: e in entries && e.courseCode == c && IndexOf(TERMS, e.term) < IndexOf(TERMS, currentTerm)
  {
    TermIndexIsIndexOf(currentTerm);
    forall e | e in entries ensures Before(e.term, currentTerm) <==> IndexOf(TERMS, e.term) < IndexOf(TERMS, currentTerm) {
      TermIndexIsIndexOf(e.term);
    }
    set e | e in entries && Before(e.term, currentTerm) :: e.courseCode
  }

  /** The loop filling `completedCourses`. */
  method CollectCompleted(entries: seq<ScheduleEntry>, currentTerm: string) returns (completed: set<string>)
    ensures completed == CompletedCourses(entries, currentTerm)
  {
    completed := {};
    var currentTermIndex := TermIndex(currentTerm);
    for i := 0 to |entries|
      invariant completed == set e | e in entries[..i] && Before(e.term, currentTerm) :: e.courseCode
    {
      var entry := entries[i];
      assert forall e :: e in entries[..i + 1] <==> e in entries[..i] || e == entry;
      if TermIndex(entry.term) < currentTermIndex {
        completed := completed + {entry.courseCode};
      }
    }
    Lists.TakeAll(entries);
  }

  // ---------------------------------------------------------------------------
  // Grouping the courses by faculty
  // ---------------------------------------------------------------------------

  /** The faculties of `courses`, each once, in order of first appearance
      (the insertion order of the `facultyGroups` map). */
  function FacultyOrder(courses: seq<GraphNode>): (order: seq<string>)
    ensures |order| <= |courses|
  {
    if courses == [] then []
    else
      var before := FacultyOrder(courses[..|courses| - 1]);
      var f := FacultyOf(courses[|courses| - 1]);
      if f in before then before else before + [f]
  }

  /** A faculty is in the order exactly when one of the courses has it. */
  lemma {:induction false} FacultyOrderMembers(courses: seq<GraphNode>)
    ensures forall f :: f in FacultyOrder(courses) <==> exists n :: n in courses && FacultyOf(n) == f
  {
    if courses != [] {
      var init := courses[..|courses| - 1];
      FacultyOrderMembers(init);
      assert forall n :: n in courses <==> n in init || n == courses[|courses| - 1];
    }
  }

  /** No faculty appears twice in the order. */
  lemma {:induction false} FacultyOrderDistinct(courses: seq<GraphNode>)
    ensures forall i, j :: 0 <= i < j < |FacultyOrder(courses)| ==> FacultyOrder(courses)[i] != FacultyOrder(courses)[j]
  {
    if courses != [] {
      var before := FacultyOrder(courses[..|courses| - 1]);
      FacultyOrderDistinct(courses[..|courses| - 1]);
      var f := FacultyOf(courses[|courses| - 1]);
      if f !in before {
        var order := before + [f];
        assert FacultyOrder(courses) == order;
        forall i, j | 0 <= i < j < |order| ensures order[i] != order[j] {
          assert order[i] == before[i] && before[i] in before;
          if j < |before| {
            assert order[j] == before[j];
          } else {
            assert order[j] == f;
          }
        }
      }
    }
  }

  /** The courses of faculty `f`, in order. */
  function CoursesOf(courses: seq<GraphNode>, f: string): (r: seq<GraphNode>)
    ensures |r| <= |courses|
  {
    if courses == [] then []
    else
      var last := courses[|courses| - 1];
      CoursesOf(courses[..|courses| - 1], f) + (if FacultyOf(last) == f then [last] else [])
  }

  /** A faculty's list holds exactly the courses of that faculty. */
  lemma {:induction false} CoursesOfMembers(courses: seq<GraphNode>, f: string)
    ensures forall n :: n in CoursesOf(courses, f) <==> n in courses && FacultyOf(n) == f
  {
    if courses != [] {
      var init := courses[..|courses| - 1];
      CoursesOfMembers(init, f);
      assert forall n :: n in courses <==> n in init || n == courses[|courses| - 1];
    }
  }

  /** A faculty none of the courses has has no courses. */
  lemma {:induction false} CoursesOfAbsent(courses: seq<GraphNode>, f: string)
    requires forall n :: n in courses ==> FacultyOf(n) != f
    ensures CoursesOf(courses, f) == []
  {
    if courses != [] {
      var init := courses[..|courses| - 1];
      assert forall n :: n in init ==> n in courses;
      CoursesOfAbsent(init, f);
      assert courses[|courses| - 1] in courses;
    }
  }

  /** The `forEach` that fills `facultyGroups`. */
  method GroupByFaculty(courses: seq<GraphNode>) returns (order: seq<string>, groups: map<string, seq<GraphNode>>)
    ensures order == FacultyOrder(courses)
    ensures forall f :: f in groups <==> f in order
    ensures forall f :: f in groups ==> groups[f] == CoursesOf(courses, f)
  {
    order := [];
    groups := map[];
    for i := 0 to |courses|
      invariant GroupedUpTo(courses, i, order, groups)
    {
      var node := courses[i];
      var fac := FacultyOf(node);
      ghost var order0, groups0 := order, groups;
      if fac !in groups {
        groups := groups[fac := []];
        order := order + [fac];
      }
      groups := groups[fac := groups[fac] + [node]];
      GroupedNext(courses, i, order0, groups0, order, groups);
    }
    Lists.TakeAll(courses);
  }

  /** What the grouping loop has built after its first `i` rounds. */
  ghost predicate GroupedUpTo(courses: seq<GraphNode>, i: nat, order: seq<string>, groups: map<string, seq<GraphNode>>) {
    i <= |courses|
    && order == FacultyOrder(courses[..i])
    && (forall f :: f in groups <==> f in order)
    && forall f :: f in groups ==> groups[f] == CoursesOf(courses[..i], f)
  }

  /** One round of the grouping loop: a new faculty gets an empty list and a
      place at the end of the order, then the course joins its faculty's list. */
  lemma GroupedNext(courses: seq<GraphNode>, i: nat, order: seq<string>, groups: map<string, seq<GraphNode>>,
                    order1: seq<string>, groups1: map<string, seq<GraphNode>>)
    requires i < |courses| && GroupedUpTo(courses, i, order, groups)
    requires var fac := FacultyOf(courses[i]);
             var started := if fac in groups then groups else groups[fac := []];
             && order1 == (if fac in groups then order else order + [fac])
             && groups1 == started[fac := started[fac] + [courses[i]]]
    ensures GroupedUpTo(courses, i + 1, order1, groups1)
  {
    var before, after := courses[..i], courses[..i + 1];
    var node := courses[i];
    var fac := FacultyOf(node);
    Lists.TakeTake(courses, i);
    assert FacultyOrder(after) == order1;
    var list := if fac in groups then groups[fac] else [];
    assert list == CoursesOf(before, fac) by {
      if fac !in groups {
        FacultyOrderMembers(before);
        CoursesOfAbsent(before, fac);
      }
    }
    assert groups1[fac] == CoursesOf(after, fac);
    forall f | f in groups1 && f != fac
      ensures groups1[f] == CoursesOf(after, f)
    {
      assert CoursesOf(after, f) == CoursesOf(before, f) + [];
    }
  }

  // ---------------------------------------------------------------------------
  // Nodes and links
  // ---------------------------------------------------------------------------

  /** The root, then for each of the first `n` faculties of `order`: its
      node, then its courses. */
  function NodesUpTo(order: seq<string>, n: nat, courses: seq<GraphNode>): seq<GraphNode>
    requires n <= |order|
  {
    if n == 0 then [RootNode()]
    else NodesUpTo(order, n - 1, courses) + [FacultyNode(order[n - 1])] + CoursesOf(courses, order[n - 1])
  }

  /** The root, then for each faculty in `order`: its node, then its
      courses. */
  function GraphNodes(order: seq<string>, courses: seq<GraphNode>): seq<GraphNode> {
    NodesUpTo(order, |order|, courses)
  }

  /** A link from the root to each of the first `n` faculties, in order. */
  function RootLinksUpTo(order: seq<string>, n: nat): (r: seq<GraphLink>)
    requires n <= |order|
    ensures |r| == n
  {
    if n == 0 then [] else RootLinksUpTo(order, n - 1) + [GraphLink(ROOT_ID, order[n - 1])]
  }

  /** A link from the root to each faculty, in order. */
  function RootLinks(order: seq<string>): (r: seq<GraphLink>)
    ensures |r| == |order|
  {
    RootLinksUpTo(order, |order|)
  }

  /** The `k`-th root link goes to the `k`-th faculty. */
  lemma {:induction false} RootLinksAt(order: seq<string>, n: nat, k: int)
    requires 0 <= k < n <= |order|
    ensures RootLinksUpTo(order, n)[k] == GraphLink(ROOT_ID, order[k])
  {
    if k < n - 1 {
      RootLinksAt(order, n - 1, k);
    }
  }

  /** `course.prerequisites.filter(p => courseNodeIds.has(p))`. */
  function ValidPrereqs(prereqs: seq<string>, ids: set<string>): (r: seq<string>)
    ensures |r| <= |prereqs|
  {
    if prereqs == [] then []
    else (if prereqs[0] in ids then [prereqs[0]] else []) + ValidPrereqs(prereqs[1..], ids)
  }

  /** The filter keeps exactly the prerequisites that are in the graph. */
  lemma {:induction false} ValidPrereqsMembers(prereqs: seq<string>, ids: set<string>)
    ensures forall p :: p in ValidPrereqs(prereqs, ids) <==> p in prereqs && p in ids
  {
    if prereqs != [] {
      ValidPrereqsMembers(prereqs[1..], ids);
      assert forall p :: p in prereqs <==> p == prereqs[0] || p in prereqs[1..];
    }
  }

  /** A link from each of `sources` to `target`, in order. */
  function LinksTo(sources: seq<string>, target: string): (r: seq<GraphLink>)
    ensures |r| == |sources|
  {
    if sources == [] then [] else [GraphLink(sources[0], target)] + LinksTo(sources[1..], target)
  }

  /** The links are exactly those from a source to the target. */
  lemma {:induction false} LinksToMembers(sources: seq<string>, target: string)
    ensures forall l :: l in LinksTo(sources, target) <==> l.target == target && l.source in sources
  {
    if sources != [] {
      LinksToMembers(sources[1..], target);
      assert forall p :: p in sources <==> p == sources[0] || p in sources[1..];
    }
  }

  /** The links into one course (the `forEach` body over `rawData.nodes`). */
  function CourseLinks(course: GraphNode, ids: set<string>): seq<GraphLink> {
    var valid := ValidPrereqs(course.prerequisites, ids);
    if |valid| > 0 then LinksTo(valid, course.id)
    else if |course.prerequisites| == 0 then [GraphLink(FacultyOf(course), course.id)]
    else []
  }

  /** Every link ends at the course; when a prerequisite is in the graph there
      is one link from each such prerequisite and no other; a course without
      prerequisites is linked from its faculty alone; a course whose
      prerequisites are all missing gets no link. */
  lemma CourseLinksRules(course: GraphNode, ids: set<string>)
    ensures forall l :: l in CourseLinks(course, ids) ==> l.target == course.id
    ensures (exists p :: p in course.prerequisites && p in ids) ==>
              forall s :: GraphLink(s, course.id) in CourseLinks(course, ids) <==> s in course.prerequisites && s in ids
    ensures course.prerequisites == [] ==> CourseLinks(course, ids) == [GraphLink(FacultyOf(course), course.id)]
    ensures course.prerequisites != [] && (forall p :: p in course.prerequisites ==> p !in ids) ==>
              CourseLinks(course, ids) == []
  {
    var valid := ValidPrereqs(course.prerequisites, ids);
    ValidPrereqsMembers(course.prerequisites, ids);
    if |valid| > 0 {
      LinksToMembers(valid, course.id);
      assert valid[0] in valid;
    } else {
      assert forall p :: p in course.prerequisites && p in ids ==> p in valid;
    }
  }

  /** The links of the first `n` courses, course by course. */
  function CourseLinksUpTo(courses: seq<GraphNode>, n: nat, ids: set<string>): seq<GraphLink>
    requires n <= |courses|
  {
    Lists.FlatMapUpTo(courses, c => CourseLinks(c, ids), n)
  }

  /** The course links, course by course. */
  function AllCourseLinks(courses: seq<GraphNode>, ids: set<string>): seq<GraphLink> {
    CourseLinksUpTo(courses, |courses|, ids)
  }

  /** The ids of the fetched courses (`courseNodeIds`). */
  function NodeIds(courses: seq<GraphNode>): set<string> {
    set n | n in courses :: n.id
  }

  /** The graph `loadData` builds from the fetched courses. */
  function BuiltGraph(courses: seq<GraphNode>): Graph {
    var order := FacultyOrder(courses);
    Graph(GraphNodes(order, courses),
          RootLinks(order) + AllCourseLinks(courses, NodeIds(courses)))
  }

  /** The two `forEach` loops that push the nodes and links. */
  method BuildGraph(courses: seq<GraphNode>) returns (graph: Graph, facultyIds: set<string>)
    ensures graph == BuiltGraph(courses)
    ensures forall f :: f in facultyIds <==> exists n :: n in courses && FacultyOf(n) == f
  {
    var courseNodeIds := set n | n in courses :: n.id;
    var order, groups := GroupByFaculty(courses);
    var nodes, links;
    nodes, links, facultyIds := PushFaculties(order, groups, courses);
    links := PushCourseLinks(courses, courseNodeIds, links);
    graph := Graph(nodes, links);
    FacultyOrderMembers(courses);
  }

  /** `facultyGroups.forEach(...)`: each faculty's node, its link from the
      root, then its courses. */
  method PushFaculties(order: seq<string>, groups: map<string, seq<GraphNode>>, courses: seq<GraphNode>)
    returns (nodes: seq<GraphNode>, links: seq<GraphLink>, facultyIds: set<string>)
    requires forall f :: f in order ==> f in groups && groups[f] == CoursesOf(courses, f)
    ensures nodes == GraphNodes(order, courses)
    ensures links == RootLinks(order)
    ensures forall f :: f in facultyIds <==> f in order
  {
    nodes := [RootNode()];
    links := [];
    facultyIds := {};
    for k := 0 to |order|
      invariant PushedUpTo(order, courses, k, nodes, links, facultyIds)
    {
      var facCode := order[k];
      assert facCode in order;
      PushedNext(order, courses, k, nodes, links, facultyIds);
      nodes := nodes + [FacultyNode(facCode)];
      facultyIds := facultyIds + {facCode};
      links := links + [GraphLink(ROOT_ID, facCode)];
      nodes := nodes + groups[facCode];
    }
    Lists.TakeAll(order);
  }

  /** What the faculty loop has built after its first `k` rounds. */
  ghost predicate PushedUpTo(order: seq<string>, courses: seq<GraphNode>, k: nat,
                             nodes: seq<GraphNode>, links: seq<GraphLink>, facultyIds: set<string>)
  {
    k <= |order|
    && nodes == NodesUpTo(order, k, courses)
    && links == RootLinksUpTo(order, k)
    && forall f :: f in facultyIds <==> f in order[..k]
  }

  /** One round of the faculty loop. */
  lemma PushedNext(order: seq<string>, courses: seq<GraphNode>, k: nat,
                   nodes: seq<GraphNode>, links: seq<GraphLink>, facultyIds: set<string>)
    requires k < |order| && PushedUpTo(order, courses, k, nodes, links, facultyIds)
    ensures PushedUpTo(order, courses, k + 1,
                       nodes + [FacultyNode(order[k])] + CoursesOf(courses, order[k]),
                       links + [GraphLink(ROOT_ID, order[k])],
                       facultyIds + {order[k]})
  {
    Lists.TakeNext(order, k);
  }

  /** `rawData.nodes.forEach(...)`: each course's incoming links, appended. */
  method PushCourseLinks(courses: seq<GraphNode>, courseNodeIds: set<string>, links0: seq<GraphLink>)
    returns (links: seq<GraphLink>)
    ensures links == links0 + AllCourseLinks(courses, courseNodeIds)
  {
    links := links0;
    for i := 0 to |courses|
      invariant links == links0 + CourseLinksUpTo(courses, i, courseNodeIds)
    {
      CourseLinksNext(courses, i, courseNodeIds, links0);
      links := links + CourseLinks(courses[i], courseNodeIds);
    }
  }

  /** One round of the link loop. */
  lemma CourseLinksNext(courses: seq<GraphNode>, i: nat, ids: set<string>, links0: seq<GraphLink>)
    requires i < |courses|
    ensures links0 + CourseLinksUpTo(courses, i + 1, ids) == links0 + CourseLinksUpTo(courses, i, ids) + CourseLinks(courses[i], ids)
  {
  }

  // ---------------------------------------------------------------------------
  // Properties of the built graph
  // ---------------------------------------------------------------------------

  /** The number of courses over the first `n` faculties of `order`. */
  function GroupedCountUpTo(order: seq<string>, n: nat, courses: seq<GraphNode>): nat
    requires n <= |order|
  {
    if n == 0 then 0 else GroupedCountUpTo(order, n - 1, courses) + |CoursesOf(courses, order[n - 1])|
  }

  /** The number of courses over the faculties of `order`. */
  function GroupedCount(order: seq<string>, courses: seq<GraphNode>): nat {
    GroupedCountUpTo(order, |order|, courses)
  }

  lemma GraphNodesLength(order: seq<string>, courses: seq<GraphNode>)
    ensures |GraphNodes(order, courses)| == 1 + |order| + GroupedCount(order, courses)
  {
    NodesUpToLength(order, |order|, courses);
  }

  lemma {:induction false} NodesUpToLength(order: seq<string>, n: nat, courses: seq<GraphNode>)
    requires n <= |order|
    ensures |NodesUpTo(order, n, courses)| == 1 + n + GroupedCountUpTo(order, n, courses)
  {
    if n > 0 {
      NodesUpToLength(order, n - 1, courses);
    }
  }

  /** The count over the first `n` faculties depends on those faculties only. */
  lemma {:induction false} GroupedCountPrefix(a: seq<string>, b: seq<string>, n: nat, courses: seq<GraphNode>)
    requires n <= |a| && n <= |b|
    requires forall i :: 0 <= i < n ==> a[i] == b[i]
    ensures GroupedCountUpTo(a, n, courses) == GroupedCountUpTo(b, n, courses)
  {
    if n > 0 {
      GroupedCountPrefix(a, b, n - 1, courses);
    }
  }

  /** `x` is one of the first `k` entries of `order`. */
  predicate AmongFirst(order: seq<string>, k: nat, x: string)
    requires k <= |order|
  {
    exists i :: 0 <= i < k && order[i] == x
  }

  /** One more course adds one to the count over the first `k` faculties when
      its own faculty is among them. */
  lemma {:induction false} GroupedCountSnoc(order: seq<string>, k: nat, courses: seq<GraphNode>, n: GraphNode)
    requires k <= |order|
    requires forall i, j :: 0 <= i < j < |order| ==> order[i] != order[j]
    ensures GroupedCountUpTo(order, k, courses + [n])
            == GroupedCountUpTo(order, k, courses) + (if AmongFirst(order, k, FacultyOf(n)) then 1 else 0)
  {
    if k > 0 {
      GroupedCountSnoc(order, k - 1, courses, n);
      var f := order[k - 1];
      var g := FacultyOf(n);
      assert |CoursesOf(courses + [n], f)| == |CoursesOf(courses, f)| + (if g == f then 1 else 0) by {
        CoursesOfSnoc(courses, n, f);
      }
      assert AmongFirst(order, k, g) <==> AmongFirst(order, k - 1, g) || g == f;
      assert !AmongFirst(order, k - 1, f);
    }
  }

  /** One more course joins the end of its own faculty's list only. */
  lemma CoursesOfSnoc(courses: seq<GraphNode>, n: GraphNode, f: string)
    ensures CoursesOf(courses + [n], f) == CoursesOf(courses, f) + (if FacultyOf(n) == f then [n] else [])
  {
    Lists.SnocInit(courses, n);
  }

  /** Every course sits under exactly one faculty node. */
  lemma {:induction false} GroupedCountAll(courses: seq<GraphNode>)
    ensures GroupedCount(FacultyOrder(courses), courses) == |courses|
  {
    if courses != [] {
      GroupedCountAll(courses[..|courses| - 1]);
      GroupedCountLast(courses);
    }
  }

  /** The last course adds one to the count, whether its faculty is already
      in the order or joins it at the end. */
  lemma GroupedCountLast(courses: seq<GraphNode>)
    requires courses != []
    ensures var init := courses[..|courses| - 1];
            GroupedCount(FacultyOrder(courses), courses) == GroupedCount(FacultyOrder(init), init) + 1
  {
    var init := courses[..|courses| - 1];
    var last := courses[|courses| - 1];
    var f := FacultyOf(last);
    var before := FacultyOrder(init);
    assert GroupedCount(before, courses) == GroupedCount(before, init) + (if f in before then 1 else 0) by {
      Lists.InitLast(courses);
      FacultyOrderDistinct(init);
      GroupedCountSnoc(before, |before|, init, last);
      assert AmongFirst(before, |before|, f) <==> f in before;
    }
    if f !in before {
      GroupedCountNewFaculty(courses);
    }
  }

  /** A course whose faculty is new adds that faculty, holding just this
      course, at the end of the order. */
  lemma GroupedCountNewFaculty(courses: seq<GraphNode>)
    requires courses != []
    requires FacultyOf(courses[|courses| - 1]) !in FacultyOrder(courses[..|courses| - 1])
    ensures var before := FacultyOrder(courses[..|courses| - 1]);
            GroupedCount(FacultyOrder(courses), courses) == GroupedCount(before, courses) + 1
  {
    var init := courses[..|courses| - 1];
    var last := courses[|courses| - 1];
    var f := FacultyOf(last);
    var before := FacultyOrder(init);
    var after := before + [f];
    assert FacultyOrder(courses) == after;
    assert CoursesOf(courses, f) == [last] by {
      FacultyOrderMembers(init);
      CoursesOfAbsent(init, f);
    }
    GroupedCountPrefix(after, before, |before|, courses);
  }

  /** The graph has the root, one node per distinct faculty (a missing
      faculty counting as "N/A") and one node per course. */
  lemma NodeCount(courses: seq<GraphNode>)
    ensures |BuiltGraph(courses).nodes| == 1 + |FacultyOrder(courses)| + |courses|
  {
    GraphNodesLength(FacultyOrder(courses), courses);
    GroupedCountAll(courses);
  }

  /** Every link of a course is among the course links. */
  lemma CourseLinkIn(courses: seq<GraphNode>, ids: set<string>, i: int, l: GraphLink)
    requires 0 <= i < |courses| && l in CourseLinks(courses[i], ids)
    ensures l in AllCourseLinks(courses, ids)
  {
    var links := CourseLinks(courses[i], ids);
    var m :| 0 <= m < |links| && links[m] == l;
    var j := CourseLinkAt(courses, ids, |courses|, i, m);
  }

  /** Where the `m`-th link of the `i`-th course sits among the links of the
      first `n` courses. */
  lemma {:induction false} CourseLinkAt(courses: seq<GraphNode>, ids: set<string>, n: nat, i: int, m: nat) returns (j: nat)
    requires 0 <= i < n <= |courses| && m < |CourseLinks(courses[i], ids)|
    ensures j < |CourseLinksUpTo(courses, n, ids)|
    ensures CourseLinksUpTo(courses, n, ids)[j] == CourseLinks(courses[i], ids)[m]
  {
    j := Lists.FlatMapAt(courses, c => CourseLinks(c, ids), n, i, m);
  }

  /** Each faculty is linked from the root, and a course without prerequisites
      is linked from its own faculty's node, which exists. */
  lemma FacultyLinks(courses: seq<GraphNode>, i: int)
    requires 0 <= i < |courses| && courses[i].prerequisites == []
    ensures var g := BuiltGraph(courses);
            && GraphLink(FacultyOf(courses[i]), courses[i].id) in g.links
            && GraphLink(ROOT_ID, FacultyOf(courses[i])) in g.links
            && FacultyNode(FacultyOf(courses[i])) in g.nodes
  {
    var f := FacultyOf(courses[i]);
    FacultyOrderMembers(courses);
    assert courses[i] in courses;
    FacultyInGraph(courses, f);
    assert GraphLink(f, courses[i].id) in BuiltGraph(courses).links by {
      CourseLinksRules(courses[i], NodeIds(courses));
      CourseLinkIn(courses, NodeIds(courses), i, GraphLink(f, courses[i].id));
    }
  }

  /** Every faculty of the fetched courses has its node in the graph and
      hangs from the root. */
  lemma FacultyInGraph(courses: seq<GraphNode>, f: string)
    requires f in FacultyOrder(courses)
    ensures FacultyNode(f) in BuiltGraph(courses).nodes
    ensures GraphLink(ROOT_ID, f) in BuiltGraph(courses).links
  {
    var g := BuiltGraph(courses);
    var order := FacultyOrder(courses);
    var k :| 0 <= k < |order| && order[k] == f;
    assert GraphLink(ROOT_ID, f) in g.links by {
      RootLinksAt(order, |order|, k);
      assert g.links[k] == RootLinks(order)[k];
    }
    FacultyNodeIn(order, courses, k);
  }

  /** A prerequisite that is itself a fetched course is linked to the course
      that needs it. */
  lemma PrerequisiteLinked(courses: seq<GraphNode>, i: int, p: string)
    requires 0 <= i < |courses| && p in courses[i].prerequisites
    requires exists j :: 0 <= j < |courses| && courses[j].id == p
    ensures GraphLink(p, courses[i].id) in BuiltGraph(courses).links
  {
    var ids := NodeIds(courses);
    var j :| 0 <= j < |courses| && courses[j].id == p;
    assert courses[j] in courses;
    assert p in ids;
    CourseLinksRules(courses[i], ids);
    CourseLinkIn(courses, ids, i, GraphLink(p, courses[i].id));
  }

  lemma FacultyNodeIn(order: seq<string>, courses: seq<GraphNode>, k: int)
    requires 0 <= k < |order|
    ensures FacultyNode(order[k]) in GraphNodes(order, courses)
  {
    var i := FacultyNodeAt(order, |order|, courses, k);
  }

  /** Where the node of the `k`-th faculty sits among the nodes built so far. */
  lemma {:induction false} FacultyNodeAt(order: seq<string>, n: nat, courses: seq<GraphNode>, k: int) returns (i: nat)
    requires 0 <= k < n <= |order|
    ensures i < |NodesUpTo(order, n, courses)| && NodesUpTo(order, n, courses)[i] == FacultyNode(order[k])
  {
    var prev := NodesUpTo(order, n - 1, courses);
    var front := prev + [FacultyNode(order[n - 1])];
    if k < n - 1 {
      i := FacultyNodeAt(order, n - 1, courses, k);
      Lists.IndexAppend(prev, [FacultyNode(order[n - 1])], i);
    } else {
      i := |prev|;
    }
    Lists.IndexAppend(front, CoursesOf(courses, order[n - 1]), i);
  }

  // ---------------------------------------------------------------------------
  // The component
  // ---------------------------------------------------------------------------

  /** The component's refs: the graph shown, the completed set and the
      faculty node ids the colour and size callbacks read. */
  class View {
    var data: Graph
    var completed: set<string>
    var facultyIds: set<string>

    constructor ()
      ensures data == Graph([], []) && completed == {} && facultyIds == {}
    {
      data := Graph([], []);
      completed := {};
      facultyIds := {};
    }

    /** `loadData` once the endpoints have answered: a failed schedule
        request changes nothing, an empty schedule clears the graph, and
        otherwise the completed set is replaced before the graph request; a
        graph response without a node list (a failed request) then throws, so
        the graph and the faculty ids stay, while a good one rebuilds both
        from the fetched courses. */
    method LoadData(scheduleOk: bool, currentTerm: string, entries: seq<ScheduleEntry>,
                    graphOk: bool, courses: seq<GraphNode>)
      modifies this
      ensures !scheduleOk ==> data == old(data) && completed == old(completed) && facultyIds == old(facultyIds)
      ensures scheduleOk && entries == [] ==>
                data == Graph([], []) && completed == old(completed) && facultyIds == old(facultyIds)
      ensures scheduleOk && entries != [] ==> completed == CompletedCourses(entries, currentTerm)
      ensures scheduleOk && entries != [] && !graphOk ==> data == old(data) && facultyIds == old(facultyIds)
      ensures scheduleOk && entries != [] && graphOk ==>
                && data == BuiltGraph(courses)
                && (forall f :: f in facultyIds <==> f in FacultyOrder(courses))
    {
      if !scheduleOk {
        return;
      }
      if |entries| == 0 {
        data := Graph([], []);
        return;
      }
      completed := CollectCompleted(entries, currentTerm);
      if !graphOk {
        return;
      }
      var graph, ids := BuildGraph(courses);
      facultyIds := ids;
      data := graph;
      FacultyOrderMembers(courses);
    }

    /** `nodeVal`: 20 for the root, 12 for a faculty node, 4 otherwise. */
    function NodeVal(node: GraphNode): (v: int)
      reads this
      ensures v == 20 <==> node.id == ROOT_ID
      ensures v == 12 <==> node.id != ROOT_ID && node.id in facultyIds
      ensures v == 4 <==> node.id != ROOT_ID && node.id !in facultyIds
    {
      if node.id == ROOT_ID then 20 else if node.id in facultyIds then 12 else 4
    }

    /** `nodeColor`: white for the root, a tint of the faculty's colour for a
        faculty node, grey for a course not completed, and the faculty's
        colour for a completed course. */
    function NodeColour(node: GraphNode): (c: Colour)
      reads this
      ensures node.id == ROOT_ID <==> c == Solid("#ffffff")
      ensures node.id != ROOT_ID && node.id in facultyIds <==> c.Tinted?
      ensures node.id != ROOT_ID && node.id in facultyIds ==> c == Tinted(FacultyColour(node.faculty))
      ensures node.id != ROOT_ID && node.id !in facultyIds && node.id !in completed ==> c == Solid(GREY)
      ensures node.id != ROOT_ID && node.id !in facultyIds && node.id in completed ==>
                c == Solid(FacultyColour(node.faculty))
    {
      if node.id == ROOT_ID then Solid("#ffffff")
      else if node.id in facultyIds then Tinted(FacultyColour(node.faculty))
      else if node.id !in completed then Solid(GREY)
      else Solid(FacultyColour(node.faculty))
    }
  }
}
