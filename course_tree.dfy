/** The element list of the course-chain tree: a root node "center", one
    category node per key of the chain table linked from the root, and for
    every chain the codes found among the courses taken, the first linked
    from its category and each later one from the code before it in the
    chain. A code missing from the courses taken gets neither a node nor an
    incoming edge, but the edge into the code after it is still drawn from
    it. */
module CourseTree {

  datatype Course = Course(code: string, title: string, prerequisites: seq<string>)

  /** One entry of `Object.entries(courseChains)`: a category and its chains. */
  datatype Category = Category(key: string, chains: seq<seq<string>>)

  /** The `type` field of a node's data. */
  datatype Kind = RootKind | CategoryKind | CourseKind

  /** A Cytoscape element: a node (`caption` is its `label`; `prerequisites`
      is empty for the root and category nodes, which carry none) or an edge. */
  datatype Element =
    | Node(id: string, caption: string, kind: Kind, title: string, prerequisites: seq<string>)
    | Edge(id: string, source: string, target: string)

  /** The courses taken so far. */
  const COURSES_TAKEN: seq<Course> := [
    Course("MATH145", "Algebra (Advanced Level)", []),
    Course("MATH146", "Linear Algebra 1 (Advanced Level)", ["MATH145"]),
    Course("MATH137", "Calculus 2 For Honours Mathematics", []),
    Course("MATH148", "Calculus 2 (Advanced Level)", ["MATH138"]),
    Course("CS145", "Designing Functional Programs (Advanced Level)", []),
    Course("CS146", "Elementary Algorithm Design and Data Abstraction (Advanced Level)", ["CS145"]),
    Course("COMMST100", "Introduction to Communication Studies", []),
    Course("COMMST225", "Communication, Media, and Popular Culture", ["COMMST100"]),
    Course("AFM101", "Introduction to Financial Accounting", []),
    Course("STAT230", "Probability", ["MATH138"])
  ]

  /** The chains of each category, in the key order `Object.entries` gives. */
  const COURSE_CHAINS: seq<Category> := [
    Category("MATH", [["MATH145", "MATH146"], ["MATH137", "MATH148", "STAT230"]]),
    Category("CS", [["CS145", "CS146"]]),
    Category("COMMST", [["COMMST100", "COMMST225"]]),
    Category("AFM", [["AFM101"]])
  ]

  const ROOT_ID := "center"

  function RootNode(): Element {
    Node(ROOT_ID, "\U{2B21}", RootKind, "Courses Taken", [])
  }

  /** `` `type-${type}` ``. */
  function TypeId(key: string): string {
    "type-" + key
  }

  predicate IsTypeId(id: string) {
    |id| >= 5 && id[..5] == "type-"
  }

  // ---------------------------------------------------------------------------
  // The course map
  // ---------------------------------------------------------------------------

  /** `courseMap` after `coursesTaken.forEach(c => courseMap.set(c.code, c))`:
      a later course with the same code replaces an earlier one. */
  function CourseMap(courses: seq<Course>): map<string, Course> {
    if courses == [] then map[]
    else
      var last := courses[|courses| - 1];
      CourseMap(courses[..|courses| - 1])[last.code := last]
  }

  /** The loop filling `courseMap`. */
  method BuildCourseMap(courses: seq<Course>) returns (courseMap: map<string, Course>)
    ensures courseMap == CourseMap(courses)
  {
    courseMap := map[];
    for i := 0 to |courses|
      invariant courseMap == CourseMap(courses[..i])
    {
      assert courses[..i + 1][..i] == courses[..i] && courses[..i + 1][i] == courses[i];
      courseMap := courseMap[courses[i].code := courses[i]];
    }
    assert courses[..|courses|] == courses;
  }

  /** The map holds a course under each code of the list and nothing else,
      and every course sits under its own code. */
  lemma {:induction false} CourseMapKeys(courses: seq<Course>)
    ensures forall code :: code in CourseMap(courses) <==> exists c :: c in courses && c.code == code
    ensures forall code :: code in CourseMap(courses) ==> CourseMap(courses)[code].code == code
    ensures forall code :: code in CourseMap(courses) ==> CourseMap(courses)[code] in courses
  {
    if courses != [] {
      var init := courses[..|courses| - 1];
      CourseMapKeys(init);
      assert forall c :: c in courses <==> c in init || c == courses[|courses| - 1];
    }
  }

  // ---------------------------------------------------------------------------
  // The elements, as specification functions
  // ---------------------------------------------------------------------------

  function CourseNode(course: Course): Element {
    Node(course.code, course.code, CourseKind, course.title, course.prerequisites)
  }

  /** What `chain.forEach` pushes for the code at `index`: nothing for a code
      that is not a course taken, else its node and the edge into it, from the
      category for the first code and from the previous code otherwise. */
  function CodeElements(typeId: string, chain: seq<string>, index: nat, courseMap: map<string, Course>): seq<Element>
    requires index < |chain|
  {
    if chain[index] !in courseMap then []
    else
      var course := courseMap[chain[index]];
      if index == 0 then
        [CourseNode(course), Edge("edge-" + typeId + "-" + course.code, typeId, course.code)]
      else
        var prev := chain[index - 1];
        [CourseNode(course), Edge("edge-" + prev + "-" + course.code, prev, course.code)]
  }

  /** The elements of the first `n` codes of a chain. */
  function PrefixElements(typeId: string, chain: seq<string>, n: nat, courseMap: map<string, Course>): seq<Element>
    requires n <= |chain|
  {
    if n == 0 then []
    else PrefixElements(typeId, chain, n - 1, courseMap) + CodeElements(typeId, chain, n - 1, courseMap)
  }

  /** The elements of a list of chains, chain after chain. */
  function ChainsElements(typeId: string, chains: seq<seq<string>>, courseMap: map<string, Course>): seq<Element> {
    if chains == [] then []
    else
      var last := chains[|chains| - 1];
      ChainsElements(typeId, chains[..|chains| - 1], courseMap) + PrefixElements(typeId, last, |last|, courseMap)
  }

  /** A category's node, its edge from the root, then its chains. */
  function CategoryElements(category: Category, courseMap: map<string, Course>): seq<Element> {
    var typeId := TypeId(category.key);
    [Node(typeId, category.key, CategoryKind, category.key + " Courses", []),
     Edge("edge-center-" + typeId, ROOT_ID, typeId)]
    + ChainsElements(typeId, category.chains, courseMap)
  }

  /** The elements of the categories, category after category. */
  function CategoriesElements(categories: seq<Category>, courseMap: map<string, Course>): seq<Element> {
    if categories == [] then []
    else
      var k := |categories| - 1;
      CategoriesElements(categories[..k], courseMap) + CategoryElements(categories[k], courseMap)
  }

  /** The whole `elements` array. */
  function Elements(categories: seq<Category>, courses: seq<Course>): seq<Element> {
    [RootNode()] + CategoriesElements(categories, CourseMap(courses))
  }

  // ---------------------------------------------------------------------------
  // The loops of the effect
  // ---------------------------------------------------------------------------

  /** The element-building part of the effect: the root, the course map,
      then one category after another. */
  method BuildElements(categories: seq<Category>, courses: seq<Course>) returns (elements: seq<Element>)
    ensures elements == Elements(categories, courses)
  {
    elements := [RootNode()];
    var courseMap := BuildCourseMap(courses);
    for k := 0 to |categories|
      invariant elements == [RootNode()] + CategoriesElements(categories[..k], courseMap)
    {
      assert categories[..k + 1][..k] == categories[..k] && categories[..k + 1][k] == categories[k];
      elements := PushCategory(elements, categories[k], courseMap);
    }
    assert categories[..|categories|] == categories;
  }

  /** The body of `Object.entries(courseChains).forEach`. */
  method PushCategory(elements0: seq<Element>, category: Category, courseMap: map<string, Course>)
    returns (elements: seq<Element>)
    ensures elements == elements0 + CategoryElements(category, courseMap)
  {
    var typeId := "type-" + category.key;
    var head := [Node(typeId, category.key, CategoryKind, category.key + " Courses", []),
                 Edge("edge-center-" + typeId, ROOT_ID, typeId)];
    elements := elements0 + head;
    var chains := category.chains;
    for j := 0 to |chains|
      invariant elements == elements0 + head + ChainsElements(typeId, chains[..j], courseMap)
    {
      ChainsNext(typeId, chains, j, courseMap, elements0 + head);
      elements := PushChain(elements, typeId, chains[j], courseMap);
    }
    assert chains[..|chains|] == chains;
  }

  /** One round of the chain loop. */
  lemma ChainsNext(typeId: string, chains: seq<seq<string>>, j: nat, courseMap: map<string, Course>, prefix: seq<Element>)
    requires j < |chains|
    ensures prefix + ChainsElements(typeId, chains[..j + 1], courseMap)
            == prefix + ChainsElements(typeId, chains[..j], courseMap) + PrefixElements(typeId, chains[j], |chains[j]|, courseMap)
  {
    assert chains[..j + 1][..j] == chains[..j] && chains[..j + 1][j] == chains[j];
  }

  /** The body of `chains.forEach`: the codes of one chain. */
  method PushChain(elements0: seq<Element>, typeId: string, chain: seq<string>, courseMap: map<string, Course>)
    returns (elements: seq<Element>)
    ensures elements == elements0 + PrefixElements(typeId, chain, |chain|, courseMap)
  {
    elements := elements0;
    for index := 0 to |chain|
      invariant elements == elements0 + PrefixElements(typeId, chain, index, courseMap)
    {
      var courseCode := chain[index];
      if courseCode in courseMap {
        var course := courseMap[courseCode];
        elements := elements + [CourseNode(course)];
        if index == 0 {
          elements := elements + [Edge("edge-" + typeId + "-" + course.code, typeId, course.code)];
        } else {
          var prevCourse := chain[index - 1];
          elements := elements + [Edge("edge-" + prevCourse + "-" + course.code, prevCourse, course.code)];
        }
      }
    }
  }

  // ---------------------------------------------------------------------------
  // Where each element lands
  // ---------------------------------------------------------------------------

  lemma {:induction false} CodeInPrefix(typeId: string, chain: seq<string>, i: nat, n: nat,
                                        courseMap: map<string, Course>, e: Element)
    requires i < n <= |chain| && e in CodeElements(typeId, chain, i, courseMap)
    ensures e in PrefixElements(typeId, chain, n, courseMap)
  {
    if i < n - 1 {
      CodeInPrefix(typeId, chain, i, n - 1, courseMap, e);
    }
  }

  lemma {:induction false} ChainInChains(typeId: string, chains: seq<seq<string>>, j: int,
                                         courseMap: map<string, Course>, e: Element)
    requires 0 <= j < |chains| && e in PrefixElements(typeId, chains[j], |chains[j]|, courseMap)
    ensures e in ChainsElements(typeId, chains, courseMap)
  {
    var last := |chains| - 1;
    if j < last {
      assert chains[..last][j] == chains[j];
      ChainInChains(typeId, chains[..last], j, courseMap, e);
    }
  }

  lemma {:induction false} CategoryInCategories(categories: seq<Category>, k: int,
                                                courseMap: map<string, Course>, e: Element)
    requires 0 <= k < |categories| && e in CategoryElements(categories[k], courseMap)
    ensures e in CategoriesElements(categories, courseMap)
  {
    var last := |categories| - 1;
    if k < last {
      assert categories[..last][k] == categories[k];
      CategoryInCategories(categories[..last], k, courseMap, e);
    }
  }

  /** The elements the code at `index` of chain `j` of category `k` adds are
      in the element list. */
  lemma CodeInElements(categories: seq<Category>, courses: seq<Course>, k: int, j: int, index: int, e: Element)
    requires 0 <= k < |categories| && 0 <= j < |categories[k].chains|
    requires 0 <= index < |categories[k].chains[j]|
    requires e in CodeElements(TypeId(categories[k].key), categories[k].chains[j], index, CourseMap(courses))
    ensures e in Elements(categories, courses)
  {
    var courseMap := CourseMap(courses);
    var typeId := TypeId(categories[k].key);
    var chains := categories[k].chains;
    CodeInPrefix(typeId, chains[j], index, |chains[j]|, courseMap, e);
    ChainInChains(typeId, chains, j, courseMap, e);
    CategoryInCategories(categories, k, courseMap, e);
  }

  // ---------------------------------------------------------------------------
  // What the tree shows
  // ---------------------------------------------------------------------------

  /** Each category has its node and an edge `edge-center-type-K` from the
      root. */
  lemma CategoryLinked(categories: seq<Category>, courses: seq<Course>, k: int)
    requires 0 <= k < |categories|
    ensures var typeId := "type-" + categories[k].key;
            && Node(typeId, categories[k].key, CategoryKind, categories[k].key + " Courses", []) in Elements(categories, courses)
            && Edge("edge-center-" + typeId, "center", typeId) in Elements(categories, courses)
  {
    var courseMap := CourseMap(courses);
    var block := CategoryElements(categories[k], courseMap);
    CategoryInCategories(categories, k, courseMap, block[0]);
    CategoryInCategories(categories, k, courseMap, block[1]);
  }

  /** The first code of a chain, when it is a course taken, has its node and
      an edge from its category. */
  lemma FirstCodeLinked(categories: seq<Category>, courses: seq<Course>, k: int, j: int)
    requires 0 <= k < |categories| && 0 <= j < |categories[k].chains|
    requires var chain := categories[k].chains[j];
             chain != [] && exists c :: c in courses && c.code == chain[0]
    ensures var chain := categories[k].chains[j];
            var typeId := "type-" + categories[k].key;
            && (exists n :: n in Elements(categories, courses) && n.Node? && n.id == chain[0] && n.kind == CourseKind)
            && Edge("edge-" + typeId + "-" + chain[0], typeId, chain[0]) in Elements(categories, courses)
  {
    var chain := categories[k].chains[j];
    var courseMap := CourseMap(courses);
    CourseMapKeys(courses);
    var block := CodeElements(TypeId(categories[k].key), chain, 0, courseMap);
    CodeInElements(categories, courses, k, j, 0, block[0]);
    CodeInElements(categories, courses, k, j, 0, block[1]);
  }

  /** A later code of a chain, when it is a course taken, has its node and an
      edge from the code before it in the chain, whether or not that code is
      a course taken. */
  lemma LaterCodeLinked(categories: seq<Category>, courses: seq<Course>, k: int, j: int, index: int)
    requires 0 <= k < |categories| && 0 <= j < |categories[k].chains|
    requires var chain := categories[k].chains[j];
             0 < index < |chain| && exists c :: c in courses && c.code == chain[index]
    ensures var chain := categories[k].chains[j];
            && (exists n :: n in Elements(categories, courses) && n.Node? && n.id == chain[index] && n.kind == CourseKind)
            && Edge("edge-" + chain[index - 1] + "-" + chain[index], chain[index - 1], chain[index]) in Elements(categories, courses)
  {
    var chain := categories[k].chains[j];
    var courseMap := CourseMap(courses);
    CourseMapKeys(courses);
    var block := CodeElements(TypeId(categories[k].key), chain, index, courseMap);
    CodeInElements(categories, courses, k, j, index, block[0]);
    CodeInElements(categories, courses, k, j, index, block[1]);
  }

  // ---------------------------------------------------------------------------
  // What every element satisfies
  // ---------------------------------------------------------------------------

  /** Every element after the root: it is not a root node, a course node is
      a course taken, an edge is named `edge-<source>-<target>` and ends at a
      category or at a course taken. */
  predicate Sound(e: Element, courseMap: map<string, Course>) {
    match e
    case Node(id, _, kind, _, _) => kind != RootKind && (kind == CourseKind ==> id in courseMap)
    case Edge(id, source, target) =>
      id == "edge-" + source + "-" + target && (target in courseMap || IsTypeId(target))
  }

  lemma {:induction false} PrefixSound(typeId: string, chain: seq<string>, n: nat, courseMap: map<string, Course>)
    requires n <= |chain| && IsTypeId(typeId)
    requires forall code :: code in courseMap ==> courseMap[code].code == code
    ensures forall e :: e in PrefixElements(typeId, chain, n, courseMap) ==> Sound(e, courseMap)
  {
    if n > 0 {
      PrefixSound(typeId, chain, n - 1, courseMap);
    }
  }

  lemma {:induction false} ChainsSound(typeId: string, chains: seq<seq<string>>, courseMap: map<string, Course>)
    requires IsTypeId(typeId)
    requires forall code :: code in courseMap ==> courseMap[code].code == code
    ensures forall e :: e in ChainsElements(typeId, chains, courseMap) ==> Sound(e, courseMap)
  {
    if chains != [] {
      var last := chains[|chains| - 1];
      ChainsSound(typeId, chains[..|chains| - 1], courseMap);
      PrefixSound(typeId, last, |last|, courseMap);
    }
  }

  lemma {:induction false} CategoriesSound(categories: seq<Category>, courseMap: map<string, Course>)
    requires forall code :: code in courseMap ==> courseMap[code].code == code
    ensures forall e :: e in CategoriesElements(categories, courseMap) ==> Sound(e, courseMap)
  {
    if categories != [] {
      var k := |categories| - 1;
      CategoriesSound(categories[..k], courseMap);
      var typeId := TypeId(categories[k].key);
      assert typeId[..5] == "type-";
      ChainsSound(typeId, categories[k].chains, courseMap);
      assert "edge-center-" + typeId == "edge-" + ROOT_ID + "-" + typeId;
    }
  }

  /** The root comes first and is the only root node; every edge is named
      `edge-<source>-<target>`. */
  lemma OneRoot(categories: seq<Category>, courses: seq<Course>)
    ensures var els := Elements(categories, courses);
            && els[0] == Node("center", "\U{2B21}", RootKind, "Courses Taken", [])
            && (forall i :: 1 <= i < |els| ==> !(els[i].Node? && els[i].kind == RootKind))
            && (forall e :: e in els && e.Edge? ==> e.id == "edge-" + e.source + "-" + e.target)
  {
    CourseMapKeys(courses);
    var courseMap := CourseMap(courses);
    CategoriesSound(categories, courseMap);
    var els := Elements(categories, courses);
    forall i | 1 <= i < |els| ensures !(els[i].Node? && els[i].kind == RootKind) {
      assert els[i] in CategoriesElements(categories, courseMap);
    }
  }

  /** A code that is not a course taken (and not itself of the form
      `type-K`) has no node and no edge into it. */
  lemma MissingCodeAbsent(categories: seq<Category>, courses: seq<Course>, code: string)
    requires forall c :: c in courses ==> c.code != code
    requires !IsTypeId(code)
    ensures forall e :: e in Elements(categories, courses) ==>
              !(e.Node? && e.kind == CourseKind && e.id == code) && !(e.Edge? && e.target == code)
  {
    CourseMapKeys(courses);
    CategoriesSound(categories, CourseMap(courses));
  }

  /** For the chain table and courses of the page, every code of every chain
      is a course taken, so each one is drawn and linked. */
  lemma EveryChainCodeTaken()
    ensures forall k, j :: 0 <= k < |COURSE_CHAINS| && 0 <= j < |COURSE_CHAINS[k].chains| ==>
              forall code :: code in COURSE_CHAINS[k].chains[j] ==> code in CourseMap(COURSES_TAKEN)
  {
    var m := CourseMap(COURSES_TAKEN);
    CourseMapKeys(COURSES_TAKEN);
    var codes := ["MATH145", "MATH146", "MATH137", "MATH148", "CS145", "CS146",
                  "COMMST100", "COMMST225", "AFM101", "STAT230"];
    forall i | 0 <= i < |COURSES_TAKEN| ensures codes[i] in m {
      assert COURSES_TAKEN[i] in COURSES_TAKEN && COURSES_TAKEN[i].code == codes[i];
    }
    assert forall code :: code in codes ==> code in m;
  }
}
