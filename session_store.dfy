/** The anonymous-session helpers: a stored counter that hands out fresh
    negative ids, and the client-side copy of a requirement tree that gives
    every copied node and course group a fresh id and clears every override. */
module SessionStore {
  import opened Wrappers

  // ---------------------------------------------------------------------------
  // Shapes read by the copy (any of their fields may be missing in the source)
  // ---------------------------------------------------------------------------

  /** The nested `course` object of a link. */
  datatype SourceCourse = SourceCourse(code: Option<string>, title: Option<string>, name: Option<string>)

  /** A course-group link: `courseCode` and `course`, each possibly missing. */
  datatype SourceLink = SourceLink(courseCode: Option<string>, course: Option<SourceCourse>)

  /** A course group to be copied; `links` may be missing. */
  datatype SourceGroup = SourceGroup(name: string, links: Option<seq<SourceLink>>)

  /** A requirement node to be copied. A missing `children` list behaves as an
      empty one, so it is modelled as one. */
  datatype SourceNode = SourceNode(
    name: string,
    amount: int,
    isText: Option<bool>,
    courseGroupId: Option<int>,
    courseGroup: Option<SourceGroup>,
    children: seq<SourceNode>)

  // ---------------------------------------------------------------------------
  // The copied tree (`RequirementNode` of the session store)
  // ---------------------------------------------------------------------------

  datatype Link = Link(courseCode: Option<string>, title: string)

  datatype CourseGroup = CourseGroup(id: int, name: string, links: seq<Link>)

  datatype RequirementNode = RequirementNode(
    id: int,
    name: string,
    amount: int,
    isText: bool,
    forceCompleted: bool,
    courseGroupId: Option<int>,
    courseGroup: Option<CourseGroup>,
    children: seq<RequirementNode>)

  // ---------------------------------------------------------------------------
  // The copy as a function of the counter it starts from
  // ---------------------------------------------------------------------------

  /** A group is copied only when both `courseGroup` and a truthy (non-null,
      non-zero) `courseGroupId` are present. */
  predicate CopiesGroup(req: SourceNode) {
    req.courseGroup.Some? && req.courseGroupId.Some? && req.courseGroupId.value != 0
  }

  /** `l.courseCode || l.course?.code`: an empty code falls through as well. */
  function LinkCode(l: SourceLink): Option<string> {
    if l.courseCode.Some? && l.courseCode.value != "" then l.courseCode
    else if l.course.Some? then l.course.value.code
    else None
  }

  /** `l.course?.title || l.course?.name || ""`. */
  function LinkTitle(l: SourceLink): string {
    if l.course.None? then ""
    else if l.course.value.title.Some? && l.course.value.title.value != "" then l.course.value.title.value
    else if l.course.value.name.Some? && l.course.value.name.value != "" then l.course.value.name.value
    else ""
  }

  function CopyLinks(links: seq<SourceLink>): (r: seq<Link>)
    ensures |r| == |links|
    ensures forall i :: 0 <= i < |links| ==> r[i] == Link(LinkCode(links[i]), LinkTitle(links[i]))
  {
    if links == [] then [] else [Link(LinkCode(links[0]), LinkTitle(links[0]))] + CopyLinks(links[1..])
  }

  /** The group copy with id `groupId`: same name, links (`|| []`) copied in order. */
  function CopyGroup(g: SourceGroup, groupId: int): CourseGroup {
    CourseGroup(groupId, g.name, CopyLinks(g.links.GetOr([])))
  }

  /** Copy one node when the counter stands at `counter`: the node takes the
      next id, its group (if copied) the one after, then the children follow.
      Returns the copy and the counter afterwards. */
  function CopyNode(req: SourceNode, counter: int): (RequirementNode, int)
    decreases req, 1
  {
    var nodeId := counter - 1;
    var afterGroup := if CopiesGroup(req) then nodeId - 1 else nodeId;
    var group := if CopiesGroup(req) then Some(CopyGroup(req.courseGroup.value, afterGroup)) else None;
    var (children, next) := CopyNodes(req.children, afterGroup);
    (RequirementNode(nodeId, req.name, req.amount, req.isText.GetOr(false), false,
                     if CopiesGroup(req) then Some(afterGroup) else None, group, children),
     next)
  }

  /** `copyReqTreeClient(reqs)` from counter value `counter`: the nodes are
      copied left to right. */
  function CopyNodes(reqs: seq<SourceNode>, counter: int): (seq<RequirementNode>, int)
    decreases reqs, 0
  {
    if reqs == [] then ([], counter)
    else
      var (first, mid) := CopyNode(reqs[0], counter);
      var (rest, next) := CopyNodes(reqs[1..], mid);
      ([first] + rest, next)
  }

  /** Copying one more node at the end continues from where the prefix stopped. */
  lemma {:induction false} CopyNodesSnoc(reqs: seq<SourceNode>, req: SourceNode, counter: int)
    ensures CopyNodes(reqs + [req], counter)
            == (CopyNodes(reqs, counter).0 + [CopyNode(req, CopyNodes(reqs, counter).1).0],
                CopyNode(req, CopyNodes(reqs, counter).1).1)
  {
    if reqs == [] {
      assert reqs + [req] == [req] && [req][1..] == [] && [req][0] == req;
      var (only, next) := CopyNode(req, counter);
      assert CopyNodes([], next) == ([], next);
      assert CopyNodes([req], counter) == ([only] + [], next);
      assert CopyNodes(reqs, counter) == ([], counter);
      assert [only] + [] == [] + [only];
    } else {
      var (first, mid) := CopyNode(reqs[0], counter);
      assert (reqs + [req])[0] == reqs[0];
      assert (reqs + [req])[1..] == reqs[1..] + [req];
      CopyNodesSnoc(reqs[1..], req, mid);
      var (rest, next) := CopyNodes(reqs[1..], mid);
      assert CopyNodes(reqs, counter) == ([first] + rest, next);
      var (last, final) := CopyNode(req, next);
      assert CopyNodes(reqs[1..] + [req], mid) == (rest + [last], final);
      assert CopyNodes(reqs + [req], counter) == ([first] + (rest + [last]), final);
      assert [first] + (rest + [last]) == ([first] + rest) + [last];
    }
  }

  // ---------------------------------------------------------------------------
  // The counter and the copy as the source runs them
  // ---------------------------------------------------------------------------

  /** The id counter kept in session storage. */
  class AnonIdCounter {
    var counter: int

    /** A fresh session: the stored counter is absent and reads as 0. */
    constructor ()
      ensures counter == 0
    {
      counter := 0;
    }

    /** `nextAnonId`: read, decrement by one, store, return the new value. */
    method NextAnonId() returns (id: int)
      modifies this
      ensures id == old(counter) - 1
      ensures counter == id
    {
      counter := counter - 1;
      id := counter;
    }

    /** One step of `reqs.map(...)` in `copyReqTreeClient`. */
    method CopyReqNode(req: SourceNode) returns (node: RequirementNode)
      modifies this
      ensures (node, counter) == CopyNode(req, old(counter))
      decreases req, 1
    {
      var nodeId := NextAnonId();
      var courseGroup: Option<CourseGroup> := None;
      if req.courseGroup.Some? && req.courseGroupId.Some? && req.courseGroupId.value != 0 {
        var groupId := NextAnonId();
        var g := req.courseGroup.value;
        courseGroup := Some(CourseGroup(groupId, g.name, CopyLinks(g.links.GetOr([]))));
      }
      var children: seq<RequirementNode> := [];
      if |req.children| > 0 {
        children := CopyReqTreeClient(req.children);
      }
      node := RequirementNode(nodeId, req.name, req.amount, req.isText.GetOr(false), false,
                              if courseGroup.Some? then Some(courseGroup.value.id) else None,
                              courseGroup, children);
    }

    /** `copyReqTreeClient`: copy the list in order, drawing ids from the counter. */
    method CopyReqTreeClient(reqs: seq<SourceNode>) returns (copy: seq<RequirementNode>)
      modifies this
      ensures (copy, counter) == CopyNodes(reqs, old(counter))
      decreases reqs, 0
    {
      copy := [];
      ghost var start := counter;
      for i := 0 to |reqs|
        invariant (copy, counter) == CopyNodes(reqs[..i], start)
      {
        CopyNodesSnoc(reqs[..i], reqs[i], start);
        assert reqs[..i + 1] == reqs[..i] + [reqs[i]];
        var node := CopyReqNode(reqs[i]);
        copy := copy + [node];
      }
      assert reqs[..|reqs|] == reqs;
    }
  }

  // ---------------------------------------------------------------------------
  // Structural properties of the copy
  // ---------------------------------------------------------------------------

  /** `node` is a faithful copy of `req` except for ids: same name and amount,
      `isText ?? false`, override cleared, group copied exactly when the source
      has one with a truthy id (name and link codes kept), `courseGroupId`
      pointing at the new group, and the children copied likewise in order. */
  predicate Mirrors(req: SourceNode, node: RequirementNode)
    decreases req, 1
  {
    && node.name == req.name
    && node.amount == req.amount
    && node.isText == req.isText.GetOr(false)
    && !node.forceCompleted
    && (node.courseGroup.Some? <==> CopiesGroup(req))
    && (node.courseGroup.Some? ==>
          && node.courseGroupId == Some(node.courseGroup.value.id)
          && node.courseGroup.value.name == req.courseGroup.value.name
          && |node.courseGroup.value.links| == |req.courseGroup.value.links.GetOr([])|
          && forall i :: 0 <= i < |node.courseGroup.value.links| ==>
               node.courseGroup.value.links[i].courseCode == LinkCode(req.courseGroup.value.links.GetOr([])[i]))
    && (node.courseGroup.None? ==> node.courseGroupId == None)
    && MirrorsAll(req.children, node.children)
  }

  /** The two lists have the same length and mirror each other position by position. */
  predicate MirrorsAll(reqs: seq<SourceNode>, nodes: seq<RequirementNode>)
    decreases reqs, 0
  {
    |reqs| == |nodes| && forall i :: 0 <= i < |reqs| ==> Mirrors(reqs[i], nodes[i])
  }

  /** Every copied node mirrors its source, at every level. */
  lemma {:induction false} CopyNodeMirrors(req: SourceNode, counter: int)
    ensures Mirrors(req, CopyNode(req, counter).0)
    decreases req, 1
  {
    var afterGroup := if CopiesGroup(req) then counter - 2 else counter - 1;
    CopyNodesMirror(req.children, afterGroup);
  }

  lemma {:induction false} CopyNodesMirror(reqs: seq<SourceNode>, counter: int)
    ensures MirrorsAll(reqs, CopyNodes(reqs, counter).0)
    decreases reqs, 0
  {
    if reqs != [] {
      var (first, mid) := CopyNode(reqs[0], counter);
      CopyNodeMirrors(reqs[0], counter);
      CopyNodesMirror(reqs[1..], mid);
      var copy := CopyNodes(reqs, counter).0;
      assert copy == [first] + CopyNodes(reqs[1..], mid).0;
      forall i | 0 <= i < |reqs| ensures Mirrors(reqs[i], copy[i]) {
        if i > 0 {
          assert reqs[i] == reqs[1..][i - 1];
        }
      }
    }
  }

  /** Every id in the copy, in pre-order: a node's id, then its group's id,
      then the ids of its children's subtrees. */
  function NodeIds(n: RequirementNode): seq<int>
    decreases n, 1
  {
    [n.id] + (if n.courseGroup.Some? then [n.courseGroup.value.id] else []) + ListIds(n.children)
  }

  function ListIds(ns: seq<RequirementNode>): seq<int>
    decreases ns, 0
  {
    if ns == [] then [] else NodeIds(ns[0]) + ListIds(ns[1..])
  }

  /** The ids a counter at `c` hands out in `n` calls: c-1, c-2, ..., c-n. */
  function Countdown(c: int, n: nat): (r: seq<int>)
    ensures |r| == n
    ensures forall i :: 0 <= i < n ==> r[i] == c - 1 - i
    decreases n
  {
    if n == 0 then [] else [c - 1] + Countdown(c - 1, n - 1)
  }

  lemma {:induction false} CountdownAppend(c: int, a: nat, b: nat)
    ensures Countdown(c, a) + Countdown(c - a, b) == Countdown(c, a + b)
  {
    var l, r := Countdown(c, a) + Countdown(c - a, b), Countdown(c, a + b);
    assert |l| == |r|;
    forall i | 0 <= i < |l| ensures l[i] == r[i] {
      if i >= a {
        assert l[i] == Countdown(c - a, b)[i - a];
      }
    }
  }

  /** A node id is above every id in its subtree, at every level. */
  predicate Ranked(ns: seq<RequirementNode>)
    decreases ns
  {
    forall i :: 0 <= i < |ns| ==>
      (forall k :: 1 <= k < |NodeIds(ns[i])| ==> NodeIds(ns[i])[k] < ns[i].id)
      && Ranked(ns[i].children)
  }

  /** The copy of one node unfolded: the node takes `counter - 1`, a copied
      group the id after it, and the children continue from there. */
  lemma CopyNodeShape(req: SourceNode, counter: int)
    ensures var afterGroup := if CopiesGroup(req) then counter - 2 else counter - 1;
            var node := CopyNode(req, counter).0;
            && node.id == counter - 1
            && node.children == CopyNodes(req.children, afterGroup).0
            && CopyNode(req, counter).1 == CopyNodes(req.children, afterGroup).1
            && (node.courseGroup.Some? <==> CopiesGroup(req))
            && (node.courseGroup.Some? ==> node.courseGroup.value.id == afterGroup)
  {
  }

  /** The copy of one node uses exactly the ids counter-1 down to the counter
      it leaves behind, in pre-order; the node takes the first of them. */
  lemma {:induction false} CopyNodeIds(req: SourceNode, counter: int)
    ensures CopyNode(req, counter).1 < counter
    ensures NodeIds(CopyNode(req, counter).0) == Countdown(counter, counter - CopyNode(req, counter).1)
    ensures CopyNode(req, counter).0.id == counter - 1
    ensures Ranked(CopyNode(req, counter).0.children)
    decreases req, 1
  {
    var node, next := CopyNode(req, counter).0, CopyNode(req, counter).1;
    var g := if CopiesGroup(req) then 1 else 0;
    var afterGroup := counter - 1 - g;
    CopyNodeShape(req, counter);
    CopyNodesIds(req.children, afterGroup);
    NodeIdsCountdown(node, counter, g, next);
  }

  /** A node numbered `counter - 1`, with its group (if any) numbered next and
      its subtree numbered from there down to `next`, holds the ids
      counter-1 down to `next`. */
  lemma NodeIdsCountdown(node: RequirementNode, counter: int, g: nat, next: int)
    requires g <= 1 && node.id == counter - 1 && next <= counter - 1 - g
    requires node.courseGroup.Some? <==> g == 1
    requires node.courseGroup.Some? ==> node.courseGroup.value.id == counter - 2
    requires ListIds(node.children) == Countdown(counter - 1 - g, counter - 1 - g - next)
    ensures NodeIds(node) == Countdown(counter, counter - next)
  {
    var groupIds := if node.courseGroup.Some? then [node.courseGroup.value.id] else [];
    assert [node.id] + groupIds == Countdown(counter, 1 + g);
    CountdownAppend(counter, 1 + g, counter - 1 - g - next);
  }

  /** The copy of a list uses exactly the ids counter-1 down to the counter it
      leaves behind, in pre-order, and every node sits above its subtree. */
  lemma {:induction false} CopyNodesIds(reqs: seq<SourceNode>, counter: int)
    ensures CopyNodes(reqs, counter).1 <= counter
    ensures ListIds(CopyNodes(reqs, counter).0) == Countdown(counter, counter - CopyNodes(reqs, counter).1)
    ensures Ranked(CopyNodes(reqs, counter).0)
    decreases reqs, 0
  {
    if reqs != [] {
      var (first, mid) := CopyNode(reqs[0], counter);
      var (rest, next) := CopyNodes(reqs[1..], mid);
      CopyNodeIds(reqs[0], counter);
      CopyNodesIds(reqs[1..], mid);
      CountdownAppend(counter, counter - mid, mid - next);
      ListIdsCons(first, rest);
      RankedCons(first, rest);
    }
  }

  lemma ListIdsCons(first: RequirementNode, rest: seq<RequirementNode>)
    ensures ListIds([first] + rest) == NodeIds(first) + ListIds(rest)
  {
    assert ([first] + rest)[0] == first && ([first] + rest)[1..] == rest;
  }

  /** A node above its own subtree, put in front of a ranked list, keeps it ranked. */
  lemma RankedCons(first: RequirementNode, rest: seq<RequirementNode>)
    requires forall k :: 1 <= k < |NodeIds(first)| ==> NodeIds(first)[k] < first.id
    requires Ranked(first.children) && Ranked(rest)
    ensures Ranked([first] + rest)
  {
    var copy := [first] + rest;
    forall i | 0 <= i < |copy|
      ensures forall k :: 1 <= k < |NodeIds(copy[i])| ==> NodeIds(copy[i])[k] < copy[i].id
      ensures Ranked(copy[i].children)
    {
      if i > 0 {
        assert copy[i] == rest[i - 1];
      }
    }
  }

  /** All ids in one copy are pairwise distinct, all lie between the counter
      it leaves behind and the one it started from, and from a fresh session
      (counter 0 or below) they are all negative. */
  lemma CopyIdsDistinct(reqs: seq<SourceNode>, counter: int)
    ensures var ids := ListIds(CopyNodes(reqs, counter).0);
            && (forall i, j :: 0 <= i < j < |ids| ==> ids[i] > ids[j])
            && (forall i :: 0 <= i < |ids| ==> CopyNodes(reqs, counter).1 <= ids[i] < counter)
            && (counter <= 0 ==> forall i :: 0 <= i < |ids| ==> ids[i] < 0)
  {
    CopyNodesIds(reqs, counter);
  }

  /** Two copies taken one after the other never share an id. */
  lemma SuccessiveCopiesDisjoint(first: seq<SourceNode>, second: seq<SourceNode>, counter: int)
    ensures var (a, mid) := CopyNodes(first, counter);
            var b := CopyNodes(second, mid).0;
            forall x :: x in ListIds(a) ==> x !in ListIds(b)
  {
    CopyIdsDistinct(first, counter);
    CopyIdsDistinct(second, CopyNodes(first, counter).1);
  }
}
