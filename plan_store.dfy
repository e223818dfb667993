/** Deleting a user's plans together with the course groups that were created
    only for them. A course group still referenced by a degree template's
    requirement or by a faculty is shared and survives; every other group
    that one of the deleted plans pointed at is removed with its links. */
module PlanStore {
  import opened Wrappers

  /** A saved plan: its owner and, per plan requirement, the course group it
      points at (`null` for a requirement without one). Deleting a plan
      deletes its requirements with it. */
  datatype Plan = Plan(id: int, userId: int, groupRefs: seq<Option<int>>)

  /** The rows `deleteUserPlansWithCustomGroups` reads and writes. */
  class Database {
    var plans: seq<Plan>
    /** `courseGroupId` of every template requirement. */
    var requirementGroupRefs: seq<Option<int>>
    /** `courseGroupId` of every faculty. */
    var facultyGroupRefs: seq<Option<int>>
    /** Course groups by id, each with the course codes of its links. */
    var groups: map<int, seq<string>>

    constructor (plans: seq<Plan>, requirementGroupRefs: seq<Option<int>>,
                 facultyGroupRefs: seq<Option<int>>, groups: map<int, seq<string>>)
      ensures this.plans == plans && this.requirementGroupRefs == requirementGroupRefs
      ensures this.facultyGroupRefs == facultyGroupRefs && this.groups == groups
    {
      this.plans := plans;
      this.requirementGroupRefs := requirementGroupRefs;
      this.facultyGroupRefs := facultyGroupRefs;
      this.groups := groups;
    }

    /** `deleteUserPlansWithCustomGroups(userId)`: delete the user's plans,
        then the course groups only those plans used. */
    method DeleteUserPlansWithCustomGroups(userId: int)
      modifies this
      ensures plans == OtherUsersPlans(old(plans), userId)
      ensures groups == WithoutGroups(old(groups), DeletedGroups(old(plans), requirementGroupRefs, facultyGroupRefs, userId))
      ensures requirementGroupRefs == old(requirementGroupRefs)
      ensures facultyGroupRefs == old(facultyGroupRefs)
    {
      ghost var plans0 := plans;
      ghost var deleted := DeletedGroups(plans, requirementGroupRefs, facultyGroupRefs, userId);
      var groupIds := NonNullIds(UserPlanRefs(plans, userId));
      plans := OtherUsersPlans(plans, userId);
      if |groupIds| == 0 {
        assert deleted == {};
        WithoutNoGroups(groups);
        return;
      }
      var templateRefs := RefsIn(requirementGroupRefs, groupIds);
      var facultyRefs := RefsIn(facultyGroupRefs, groupIds);
      var protectedIds := CollectProtectedIds(templateRefs, facultyRefs);
      var customGroupIds := FilterOut(groupIds, protectedIds);
      CustomGroupsDeleted(plans0, requirementGroupRefs, facultyGroupRefs, userId, protectedIds);
      if |customGroupIds| > 0 {
        groups := WithoutGroups(groups, set g | g in customGroupIds);
      } else {
        assert deleted == {};
        WithoutNoGroups(groups);
      }
    }
  }

  /** `courseGroup.deleteMany({ where: { id: { in: ids } } })`: the groups
      whose id is listed are gone, the others keep their links. */
  function WithoutGroups(groups: map<int, seq<string>>, ids: set<int>): map<int, seq<string>> {
    map g | g in groups && g !in ids :: groups[g]
  }

  /** Deleting no group changes nothing. */
  lemma WithoutNoGroups(groups: map<int, seq<string>>)
    ensures WithoutGroups(groups, {}) == groups
  {
  }

  /** The groups the method deletes, filtered with the protected ids it
      collects, are exactly `DeletedGroups`. */
  lemma CustomGroupsDeleted(plans: seq<Plan>, requirementGroupRefs: seq<Option<int>>,
                            facultyGroupRefs: seq<Option<int>>, userId: int, protectedIds: set<int>)
    requires forall g :: g in protectedIds <==>
               || Some(g) in RefsIn(requirementGroupRefs, NonNullIds(UserPlanRefs(plans, userId)))
               || Some(g) in RefsIn(facultyGroupRefs, NonNullIds(UserPlanRefs(plans, userId)))
    ensures (set g | g in FilterOut(NonNullIds(UserPlanRefs(plans, userId)), protectedIds))
            == DeletedGroups(plans, requirementGroupRefs, facultyGroupRefs, userId)
  {
    var groupIds := NonNullIds(UserPlanRefs(plans, userId));
    var templateRefs := RefsIn(requirementGroupRefs, groupIds);
    var facultyRefs := RefsIn(facultyGroupRefs, groupIds);
    var shared := set g | g in groupIds && (Some(g) in templateRefs || Some(g) in facultyRefs);
    var custom := FilterOut(groupIds, protectedIds);
    var deleted := FilterOut(groupIds, shared);
    assert DeletedGroups(plans, requirementGroupRefs, facultyGroupRefs, userId) == set g | g in deleted;
    forall g | g in groupIds ensures g in protectedIds <==> g in shared {
    }
    assert (set g | g in custom) == set g | g in deleted;
  }

  /** The plan requirements of the user's plans, as the query returns them
      (only their `courseGroupId` is selected). */
  function UserPlanRefs(plans: seq<Plan>, userId: int): (refs: seq<Option<int>>)
    ensures forall r :: r in refs <==> exists p :: p in plans && p.userId == userId && r in p.groupRefs
  {
    if plans == [] then []
    else
      var rest := UserPlanRefs(plans[1..], userId);
      assert forall p :: p in plans <==> p == plans[0] || p in plans[1..];
      (if plans[0].userId == userId then plans[0].groupRefs else []) + rest
  }

  /** `.map(r => r.courseGroupId).filter(id => id !== null)`. */
  function NonNullIds(refs: seq<Option<int>>): (ids: seq<int>)
    ensures |ids| <= |refs|
    ensures forall g :: g in ids <==> Some(g) in refs
  {
    if refs == [] then []
    else
      var rest := NonNullIds(refs[1..]);
      assert forall r :: r in refs <==> r == refs[0] || r in refs[1..];
      (if refs[0].Some? then [refs[0].value] else []) + rest
  }

  /** A `findMany` restricted by `courseGroupId: { in: ids }`: the references
      into `ids`, in order. */
  function RefsIn(refs: seq<Option<int>>, ids: seq<int>): (r: seq<Option<int>>)
    ensures forall x :: x in r <==> x in refs && x.Some? && x.value in ids
  {
    if refs == [] then []
    else
      var rest := RefsIn(refs[1..], ids);
      assert forall x :: x in refs <==> x == refs[0] || x in refs[1..];
      (if refs[0].Some? && refs[0].value in ids then [refs[0]] else []) + rest
  }

  /** The loop filling `protectedIds` from the template and faculty references. */
  method CollectProtectedIds(templateRefs: seq<Option<int>>, facultyRefs: seq<Option<int>>)
    returns (protectedIds: set<int>)
    ensures forall g :: g in protectedIds <==> Some(g) in templateRefs || Some(g) in facultyRefs
  {
    protectedIds := {};
    for i := 0 to |templateRefs|
      invariant forall g :: g in protectedIds <==> Some(g) in templateRefs[..i]
    {
      assert templateRefs[..i + 1] == templateRefs[..i] + [templateRefs[i]];
      if templateRefs[i].Some? {
        protectedIds := protectedIds + {templateRefs[i].value};
      }
    }
    assert templateRefs[..|templateRefs|] == templateRefs;
    for i := 0 to |facultyRefs|
      invariant forall g :: g in protectedIds <==> Some(g) in templateRefs || Some(g) in facultyRefs[..i]
    {
      assert facultyRefs[..i + 1] == facultyRefs[..i] + [facultyRefs[i]];
      if facultyRefs[i].Some? {
        protectedIds := protectedIds + {facultyRefs[i].value};
      }
    }
    assert facultyRefs[..|facultyRefs|] == facultyRefs;
  }

  /** `groupIds.filter(id => !protectedIds.has(id))`. */
  function FilterOut(ids: seq<int>, excluded: set<int>): (r: seq<int>)
    ensures |r| <= |ids|
    ensures forall g :: g in r <==> g in ids && g !in excluded
  {
    if ids == [] then []
    else
      var rest := FilterOut(ids[1..], excluded);
      assert forall g :: g in ids <==> g == ids[0] || g in ids[1..];
      (if ids[0] in excluded then [] else [ids[0]]) + rest
  }

  /** The plans that survive: every plan of another user, in order. */
  function OtherUsersPlans(plans: seq<Plan>, userId: int): (r: seq<Plan>)
    ensures forall p :: p in r <==> p in plans && p.userId != userId
  {
    if plans == [] then []
    else
      var rest := OtherUsersPlans(plans[1..], userId);
      assert forall p :: p in plans <==> p == plans[0] || p in plans[1..];
      (if plans[0].userId == userId then [] else [plans[0]]) + rest
  }

  /** The ids of the groups the deletion removes: a group goes exactly when a
      requirement of one of the user's plans points at it and neither a
      template requirement nor a faculty does. */
  function DeletedGroups(plans: seq<Plan>, requirementGroupRefs: seq<Option<int>>,
                         facultyGroupRefs: seq<Option<int>>, userId: int): (deleted: set<int>)
    ensures forall g :: g in deleted <==>
              && (exists p :: p in plans && p.userId == userId && Some(g) in p.groupRefs)
              && Some(g) !in requirementGroupRefs
              && Some(g) !in facultyGroupRefs
  {
    var groupIds := NonNullIds(UserPlanRefs(plans, userId));
    var templateRefs := RefsIn(requirementGroupRefs, groupIds);
    var facultyRefs := RefsIn(facultyGroupRefs, groupIds);
    var protectedIds := set g | g in groupIds && (Some(g) in templateRefs || Some(g) in facultyRefs);
    set g | g in FilterOut(groupIds, protectedIds)
  }

  // ---------------------------------------------------------------------------
  // What the deletion guarantees
  // ---------------------------------------------------------------------------

  /** Afterwards the user owns no plan, and every other user's plan is kept. */
  lemma NoPlansRemain(plans: seq<Plan>, userId: int)
    ensures forall p :: p in OtherUsersPlans(plans, userId) ==> p.userId != userId
    ensures forall p :: p in plans && p.userId != userId ==> p in OtherUsersPlans(plans, userId)
  {
  }

  /** A group that a template requirement or a faculty references is never
      deleted, whoever else points at it. */
  lemma SharedGroupSurvives(plans: seq<Plan>, requirementGroupRefs: seq<Option<int>>,
                            facultyGroupRefs: seq<Option<int>>, userId: int, g: int)
    requires Some(g) in requirementGroupRefs || Some(g) in facultyGroupRefs
    ensures g !in DeletedGroups(plans, requirementGroupRefs, facultyGroupRefs, userId)
  {
  }

  /** A group no template requirement or faculty references is deleted as soon
      as one of the user's plans points at it. */
  lemma CustomGroupDeleted(plans: seq<Plan>, requirementGroupRefs: seq<Option<int>>,
                           facultyGroupRefs: seq<Option<int>>, userId: int, p: Plan, g: int)
    requires p in plans && p.userId == userId && Some(g) in p.groupRefs
    requires Some(g) !in requirementGroupRefs && Some(g) !in facultyGroupRefs
    ensures g in DeletedGroups(plans, requirementGroupRefs, facultyGroupRefs, userId)
  {
  }

  /** A group none of the user's plans points at is untouched. */
  lemma UnreferencedGroupUntouched(plans: seq<Plan>, requirementGroupRefs: seq<Option<int>>,
                                   facultyGroupRefs: seq<Option<int>>, userId: int, g: int)
    requires forall p :: p in plans && p.userId == userId ==> Some(g) !in p.groupRefs
    ensures g !in DeletedGroups(plans, requirementGroupRefs, facultyGroupRefs, userId)
  {
  }

  /** When the user's plan requirements point at no group (`groupIds` is
      empty), only the plans go. */
  lemma NoCandidatesOnlyPlans(plans: seq<Plan>, requirementGroupRefs: seq<Option<int>>,
                              facultyGroupRefs: seq<Option<int>>, userId: int)
    requires |NonNullIds(UserPlanRefs(plans, userId))| == 0
    ensures DeletedGroups(plans, requirementGroupRefs, facultyGroupRefs, userId) == {}
  {
  }
}
