# GooseNest core, modelled in Dafny

GooseNest is a degree planner for university students. A student places
courses in the eight academic terms (1A to 4B), marks the current term,
picks a degree template (optionally switching requirements off or adding
custom ones), and sees which requirements are fulfilled and which courses
lack their prerequisites. Two views draw the courses as graphs.

This project models the client- and store-side logic behind those screens,
one Dafny module per source file:

- `RequirementsChecklist` (requirements_checklist.dfy):
  - the completed/planned split of the schedule;
  - the `coursesByTerm` map and the missing-prerequisite flags;
  - fulfilment counts and totals;
  - the routing of a picked search result;
  - the term picker.
- `SessionStore` (session_store.dfy): the anonymous-session id counter and
  the client-side requirement-tree copy that draws its ids from it.
- `PlanStore` (plan_store.dfy): deleting a user's plans together with the
  custom course groups only those plans used.
- `SchedulePlanner` (schedule_planner.dfy): the schedule page's record from
  term to courses, its grouping on load, and the add, move, remove and
  current-term handlers.
- `DegreeModal` (degree_modal.dfy): the degree dialog, covering
  - requirement toggles and the custom-requirement form;
  - the Escape priority;
  - the request built on confirmation.
- `CourseGraph` (course_graph.dfy): the 3D graph's completed set, its node
  and link construction, and node size and colour.
- `CourseTree` (course_tree.dfy): the element list of the course-chain tree.
- `CourseSearch` (course_search.dfy): the course-list tokenizer.
- `FacultySelector` (faculty_selector.dfy): the faculty filter.

Shared helpers:

- `Terms`: the eight terms and JavaScript's `indexOf`, with -1 for a
  missing element.
- `Lists`: `filter` and the include/remove toggle.
- `Text`: JavaScript's `\s`, `trim`, `toUpperCase` and the rendering of a
  natural number.
- `Wrappers`: an `Option` type for nullable fields.

How the source's features are represented:

- A network request whose status the source checks is an `ok` parameter
  of the handler, and the data it returns is a parameter.
- Two requests are awaited without a status check, and each has its own
  parameter:
  - The 3D graph's `/api/graph` fetch: a failure makes `loadData` throw
    after the completed set was replaced (`graphOk`).
  - The degree dialog's confirmation POST: the dialog hands the choice to
    the page and closes unless the fetch itself throws (`delivered`).
- `Date.now()` is a `now` parameter.
- The session-storage counter is a field of a class.
- React state that a handler replaces is a class field that the method
  reassigns.
- Loops that fill a `Set`, a `Map` or an array are methods with loop
  invariants. Each is proved equal to a specification function, and the
  lemmas are stated about those functions.

## Model

| member | source | states |
|---|---|---|
| Terms.IndexOf | app/schedule-planner/page.tsx:42-43 | `indexOf` is -1 exactly when the element is absent; otherwise it is the first position holding it |
| Terms.TermIndexIsIndexOf | app/schedule-planner/page.tsx:18 | the term index used throughout is `TERMS.indexOf`: -1 exactly for non-terms, and a term's index points back at it |
| Terms.TermIndexOfTerm | app/schedule-planner/page.tsx:18 | each of the eight terms has its position as index |
| Terms.KnownTerm | app/schedule-planner/page.tsx:18 | only the eight terms have a non-negative index |
| Terms.UnknownTerm | app/components/RequirementsChecklist.tsx:209-214 | nothing lies before an unknown term, and it lies before every term |
| Lists.RemoveAll | graph/FacultySelector.tsx:23 | `filter(v => v !== x)` drops every occurrence of `x`, keeps every other value, and never lengthens the list |
| Lists.RemoveAllNoDup | app/components/DegreeModal.tsx:311 | filtering keeps a duplicate-free list duplicate-free |
| Lists.ToggleCases | app/components/DegreeModal.tsx:308-314 | toggling a present value removes it and keeps the other values; toggling an absent one appends it at the end |
| Lists.ToggleNoDup | app/components/DegreeModal.tsx:308-322 | toggling keeps a duplicate-free list duplicate-free |
| Lists.ToggleTwice | app/components/DegreeModal.tsx:308-322 | toggling the same value twice restores the set of values |
| Lists.ToggleTwiceAbsent | app/components/DegreeModal.tsx:308-322 | toggling an absent value twice restores the very list |
| Text.TrimStart | graph/CourseSearch.tsx:17 | the result is a suffix of the input; only white space is dropped; it does not start with white space |
| Text.TrimEnd | graph/CourseSearch.tsx:17 | the result is a prefix of the input; only white space is dropped; it does not end with white space |
| Text.TrimEmpty | app/components/DegreeModal.tsx:279 | `!s.trim()` holds exactly when every character is white space |
| Text.TrimNoWhitespace | graph/CourseSearch.tsx:17 | a string without white space is its own trim |
| Text.Upper | graph/CourseSearch.tsx:15 | `toUpperCase` keeps the length and maps each ASCII lower-case letter to upper case, leaving other characters alone |
| Text.NatToString | app/components/DegreeModal.tsx:360 | `${n}` for a natural number is a non-empty run of decimal digits with no leading zero, whose decimal value is n |
| Text.NatToStringInjective | app/components/DegreeModal.tsx:290 | different numbers render differently, so distinct `Date.now()` values give distinct ids |
| RequirementsChecklist.Partition | app/components/RequirementsChecklist.tsx:208-219 | the loop's `completed` set is the codes of entries before the current term and `planned` the codes of the others |
| RequirementsChecklist.PartitionStep | app/components/RequirementsChecklist.tsx:213-219 | each entry adds its code to exactly the set its term selects |
| RequirementsChecklist.PartitionExact | app/components/RequirementsChecklist.tsx:213-219 | every scheduled code lands in completed or planned, and (codes being unique) never in both |
| RequirementsChecklist.CompletedIff | app/components/RequirementsChecklist.tsx:214-218 | a code is completed exactly when `indexOf(term) < indexOf(currentTerm)` |
| RequirementsChecklist.UnknownCurrentTermAllPlanned | app/components/RequirementsChecklist.tsx:209-218 | with an unknown current term (index -1) nothing is completed and every code is planned |
| RequirementsChecklist.GroupCodesByTerm | app/components/RequirementsChecklist.tsx:222-226 | `coursesByTerm` has a key for each term that occurs and maps it to the codes scheduled there |
| RequirementsChecklist.CollectPriorCourses | app/components/RequirementsChecklist.tsx:231-237 | `priorCourses` is the union of the codes of the terms whose index is below the entry's |
| RequirementsChecklist.ThisTermCodes | app/components/RequirementsChecklist.tsx:233-236 | the codes with term index k are the codes `coursesByTerm` holds for `TERMS[k]` |
| RequirementsChecklist.ComputeMissing | app/components/RequirementsChecklist.tsx:227-241 | the `missing` set is the codes of entries that have prerequisites none of which is scheduled in an earlier term |
| RequirementsChecklist.NoPrereqsNeverMissing | app/components/RequirementsChecklist.tsx:229-230 | a course without prerequisites is never flagged |
| RequirementsChecklist.OnePrereqClears | app/components/RequirementsChecklist.tsx:231-240 | one prerequisite in a strictly earlier term clears the flag |
| RequirementsChecklist.NoEarlierPrereqFlags | app/components/RequirementsChecklist.tsx:231-240 | a course with prerequisites, none of them in an earlier term, is flagged |
| RequirementsChecklist.CountIn | app/components/RequirementsChecklist.tsx:305-307 | the filtered link count never exceeds the number of links |
| RequirementsChecklist.TotalFulfilled | app/components/RequirementsChecklist.tsx:304-309 | `totalFulfilled` is at most the number of requirements |
| RequirementsChecklist.TotalWithPlanned | app/components/RequirementsChecklist.tsx:310-317 | the with-planned count is at most the number of requirements |
| RequirementsChecklist.FulfilledImpliesWithPlanned | app/components/RequirementsChecklist.tsx:339-347 | a fulfilled requirement is fulfilled with planned courses too |
| RequirementsChecklist.PlannedBonusBounds | app/components/RequirementsChecklist.tsx:303-318 | the "+planned" figure is never negative, and with `totalFulfilled` it never exceeds the number of requirements |
| RequirementsChecklist.CountInMonotone | app/components/RequirementsChecklist.tsx:305-307 | counting against a larger set never gives fewer matches |
| RequirementsChecklist.CompletingKeepsFulfilled | app/components/RequirementsChecklist.tsx:340-346 | completing one more course never unfulfils a requirement |
| RequirementsChecklist.TotalFulfilledMonotone | app/components/RequirementsChecklist.tsx:304-309 | `totalFulfilled` only grows as the completed set grows |
| RequirementsChecklist.TermOptionsSuffix | app/components/RequirementsChecklist.tsx:478 | the picker offers exactly the current term and the later ones, in order; all eight for an unknown current term |
| RequirementsChecklist.TermsFromConsecutive | app/components/RequirementsChecklist.tsx:478 | filtering a run of consecutive terms by "index at least k" keeps a suffix of the run |
| RequirementsChecklist.PickedTermIsPlanned | app/components/RequirementsChecklist.tsx:478 | every offered term is one the partition counts as planned |
| RequirementsChecklist.SelectScheduledCourse | app/components/RequirementsChecklist.tsx:115-122 | a picked course is added to the group alone exactly when it is on the schedule; otherwise it awaits a term |
| SessionStore.AnonIdCounter.constructor | lib/session-store.ts:71 | a fresh session's counter reads as 0 |
| SessionStore.AnonIdCounter.NextAnonId | lib/session-store.ts:70-75 | the counter goes down by exactly one and the new value is returned |
| SessionStore.CopyLinks | lib/session-store.ts:126-132 | links are copied one for one, in order, with code `courseCode \|\| course.code` and title `course.title \|\| course.name \|\| ""` |
| SessionStore.AnonIdCounter.CopyReqNode | lib/session-store.ts:117-150 | copying one node leaves the copy and the counter that the reference copy gives |
| SessionStore.AnonIdCounter.CopyReqTreeClient | lib/session-store.ts:116-152 | the copy and the counter it leaves are those of the reference copy from the old counter |
| SessionStore.CopyNodesSnoc | lib/session-store.ts:116-117 | copying a list and one more node continues from the counter the list left |
| SessionStore.CopyNodeMirrors | lib/session-store.ts:117-150 | a copied node has the source's name and amount, `isText ?? false`, the override cleared, a group exactly when the source has one with a truthy id (name and link codes kept, `courseGroupId` pointing at it), and children copied likewise |
| SessionStore.CopyNodesMirror | lib/session-store.ts:116-152 | the copy has the input's length and order at every level |
| SessionStore.Countdown | lib/session-store.ts:70-75 | n calls from counter c hand out c-1, c-2, ..., c-n |
| SessionStore.CopyNodeIds | lib/session-store.ts:118-139 | a node takes id counter-1, then its group's id, then its children's; every subtree id is below the node's |
| SessionStore.NodeIdsCountdown | lib/session-store.ts:118-139 | a node numbered before its group, with its subtree numbered after both, holds one unbroken run of descending ids |
| SessionStore.CopyNodesIds | lib/session-store.ts:116-152 | a list copy uses exactly the ids from counter-1 down, in pre-order |
| SessionStore.CopyIdsDistinct | lib/session-store.ts:116-152 | all ids of one copy are pairwise distinct and strictly decreasing, lie between the final and the initial counter, and are negative from a fresh session |
| SessionStore.SuccessiveCopiesDisjoint | lib/session-store.ts:70-75 | two copies taken one after the other share no id |
| PlanStore.Database.DeleteUserPlansWithCustomGroups | lib/prisma.ts:32-77 | afterwards only other users' plans remain; exactly the deleted groups are removed, and everything else is unchanged |
| PlanStore.UserPlanRefs | lib/prisma.ts:34-37 | the query returns exactly the group references of the user's plans |
| PlanStore.NonNullIds | lib/prisma.ts:39-41 | `groupIds` holds exactly the non-null references |
| PlanStore.RefsIn | lib/prisma.ts:50-59 | the `in: groupIds` query keeps exactly the non-null references to candidate groups |
| PlanStore.CollectProtectedIds | lib/prisma.ts:61-67 | `protectedIds` is exactly the groups a template requirement or a faculty references |
| PlanStore.FilterOut | lib/prisma.ts:69 | `customGroupIds` keeps exactly the candidates not protected |
| PlanStore.OtherUsersPlans | lib/prisma.ts:44 | the surviving plans are exactly the other users' plans |
| PlanStore.DeletedGroups | lib/prisma.ts:34-76 | a group is deleted exactly when one of the user's plans references it and no template requirement or faculty does |
| PlanStore.CustomGroupsDeleted | lib/prisma.ts:39-76 | filtering the user's referenced groups by the protected ids yields exactly the groups the deletion removes |
| PlanStore.NoPlansRemain | lib/prisma.ts:44 | the user owns no plan afterwards, and every other user's plan is kept |
| PlanStore.SharedGroupSurvives | lib/prisma.ts:50-69 | a group referenced by a template requirement or a faculty is never deleted |
| PlanStore.CustomGroupDeleted | lib/prisma.ts:69-76 | an unprotected group referenced by one of the user's plans is deleted |
| PlanStore.UnreferencedGroupUntouched | lib/prisma.ts:34-41 | a group none of the user's plans references is untouched |
| PlanStore.NoCandidatesOnlyPlans | lib/prisma.ts:46 | with no candidate groups, only the plans are deleted |
| SchedulePlanner.EmptySchedule | app/schedule-planner/page.tsx:23-26 | the initial record has the eight term keys, all empty |
| SchedulePlanner.TermsDistinct | app/schedule-planner/page.tsx:18 | the eight term keys are distinct |
| SchedulePlanner.CountCode | app/schedule-planner/page.tsx:98-100 | a code's count in a list is zero exactly when no course there has it |
| SchedulePlanner.OccursIffIn | app/schedule-planner/page.tsx:98-100 | a code occurs over some terms exactly when one of those terms lists it |
| SchedulePlanner.ScheduledIffOccurs | app/schedule-planner/page.tsx:98-100 | the "already scheduled" test holds exactly when the code occurs in one of the eight terms |
| SchedulePlanner.CoursesIn | app/schedule-planner/page.tsx:58-65 | a term's list holds exactly the courses of the entries placed in that term |
| SchedulePlanner.Grouped | app/schedule-planner/page.tsx:54-65 | the grouped record has exactly the eight term keys |
| SchedulePlanner.GroupByTerm | app/schedule-planner/page.tsx:54-65 | the push loop builds the grouped record |
| SchedulePlanner.GroupedTotal | app/schedule-planner/page.tsx:58-65 | grouping keeps every entry whose term is one of the eight and drops the rest |
| SchedulePlanner.GroupedSnoc | app/schedule-planner/page.tsx:58-64 | one more entry lands at the end of its own term's list, or nowhere for an unknown term |
| SchedulePlanner.FindCode | app/schedule-planner/page.tsx:128 | `find` fails exactly when no course has the code; otherwise it returns a listed course with that code |
| SchedulePlanner.WithoutCode | app/schedule-planner/page.tsx:161 | the filter keeps exactly the courses with another code |
| SchedulePlanner.WithoutCodeCounts | app/schedule-planner/page.tsx:161 | filtering removes every course with the code and changes no other code's count |
| SchedulePlanner.MoveAbsentIsNoOp | app/schedule-planner/page.tsx:128-129 | moving a code that is not in the selected term changes nothing |
| SchedulePlanner.MoveKeepsTotal | app/schedule-planner/page.tsx:127-135 | moving to another term takes the course out of the selected term, appends it to the target, and keeps the course total |
| SchedulePlanner.MoveKeepsUnique | app/schedule-planner/page.tsx:127-135 | the corrected move keeps every code placed at most once |
| SchedulePlanner.MoveToSameTermDuplicates | app/schedule-planner/page.tsx:130-134 | as written, a move to the selected term itself appends a second copy of the course |
| SchedulePlanner.MoveToSameTermExample | app/schedule-planner/page.tsx:130-134 | as written, CS135 in 1A moved to 1A leaves 1A holding it twice |
| SchedulePlanner.RemoveKeepsUnique | app/schedule-planner/page.tsx:159-162 | removing keeps codes unique and takes out all of the code's occurrences in the selected term |
| SchedulePlanner.AddKeepsUnique | app/schedule-planner/page.tsx:98-113 | adding an unscheduled code keeps codes unique and places it exactly once |
| SchedulePlanner.Planner.constructor | app/schedule-planner/page.tsx:22-28 | the page starts on tab 1A with current term 1A, every term empty and nothing being edited |
| SchedulePlanner.Planner.IsTermCompleted | app/schedule-planner/page.tsx:42-43 | a term is completed exactly when its index is below the current term's |
| SchedulePlanner.CompletedTermsPrecedeCurrent | app/schedule-planner/page.tsx:42-43 | exactly the terms before a known current term are completed, and none for an unknown one |
| SchedulePlanner.Planner.FetchSchedule | app/schedule-planner/page.tsx:47-66 | on success the current term and the grouped record are taken; on failure nothing changes |
| SchedulePlanner.Planner.SelectTerm | app/schedule-planner/page.tsx:177 | a tab click changes the selected term only |
| SchedulePlanner.Planner.AddCourse | app/schedule-planner/page.tsx:96-117 | an already scheduled code, or a refused request, changes nothing; otherwise the course is appended to the selected term and no other term changes |
| SchedulePlanner.Planner.MoveCourse | app/schedule-planner/page.tsx:119-138 | on success the record becomes the corrected move and editing ends; on failure nothing changes |
| SchedulePlanner.Planner.SetCurrentTerm | app/schedule-planner/page.tsx:140-149 | the current term changes exactly when the server accepts |
| SchedulePlanner.Planner.RemoveCourse | app/schedule-planner/page.tsx:151-165 | on success every course with the code leaves the selected term and only that term, and editing ends |
| DegreeModal.AllIndices | app/components/DegreeModal.tsx:228-230 | the set of all indices of n requirements is exactly [0, n) |
| DegreeModal.ToggleIndex | app/components/DegreeModal.tsx:262-272 | toggling flips membership of the index and no other |
| DegreeModal.ToggleIndexTwice | app/components/DegreeModal.tsx:262-272 | toggling the same index twice restores the enabled set |
| DegreeModal.HasModifications | app/components/DegreeModal.tsx:328-336 | false without loaded requirements; otherwise true exactly when some index in [0, n) is off or a custom requirement exists |
| DegreeModal.RequirementName | app/components/DegreeModal.tsx:360 | the name is never empty; it is the group's name when that is non-empty, else the requirement's own name when that is non-empty, else `Requirement ` followed by the digits of index + 1, without a leading zero |
| DegreeModal.RequirementAmount | app/components/DegreeModal.tsx:361 | the amount is never 0; it is the requirement's own when that is present and non-zero, and 1 otherwise |
| DegreeModal.CustomEntries | app/components/DegreeModal.tsx:368-374 | one entry per custom requirement, in order |
| DegreeModal.BuildRequirements | app/components/DegreeModal.tsx:354-374 | the push loops build the enabled template entries followed by the custom entries |
| DegreeModal.TemplateEntriesCount | app/components/DegreeModal.tsx:357-365 | there is one template entry per enabled index below n |
| DegreeModal.BuiltLayout | app/components/DegreeModal.tsx:354-374 | the list has \|enabled ∩ [0, n)\| template entries, then one entry per custom requirement, in order |
| DegreeModal.TemplateEntriesAreTemplate | app/components/DegreeModal.tsx:357-365 | every template entry has a non-empty name and a non-zero amount |
| DegreeModal.AllEnabledKeepsTemplate | app/components/DegreeModal.tsx:357-365 | with all indices enabled, entry i is built from requirement i |
| DegreeModal.FacultyOnlyRequirementSendsNoCourses | app/components/DegreeModal.tsx:368-373 | a custom requirement made of faculties alone is sent with no course codes |
| DegreeModal.ConfirmRequest | app/components/DegreeModal.tsx:338-385 | there is a request exactly when a degree is selected, for that template; it assigns the template exactly when nothing was modified, and otherwise carries the name with ` (Custom)` appended and the enabled template entries followed by the custom entries |
| DegreeModal.FreshSelectionIsTemplate | app/components/DegreeModal.tsx:328-351 | a fresh degree is confirmed as its template; turning one requirement off sends a customised plan of n-1 requirements, and turning it back on undoes that |
| DegreeModal.RemoveById | app/components/DegreeModal.tsx:324-326 | the filter keeps exactly the custom requirements with another id |
| DegreeModal.NewCustomRequirement | app/components/DegreeModal.tsx:289-296 | the id is `custom-` followed by the decimal digits of `now`, without a leading zero, and the title, amount, courses and faculties are those entered |
| DegreeModal.BlankTitleRefused | app/components/DegreeModal.tsx:279-282 | a white-space-only title is refused |
| DegreeModal.VisibleTitleAccepted | app/components/DegreeModal.tsx:279-287 | a title with a visible character and some course or faculty is accepted |
| DegreeModal.Dialog.constructor | app/components/DegreeModal.tsx:35-53 | the dialog starts with nothing selected, nothing enabled, no custom requirement and an empty form |
| DegreeModal.Dialog.Open | app/components/DegreeModal.tsx:187-198 | opening sets the flag and keeps every other field, so the dialog shows what the last close left |
| DegreeModal.Dialog.Close | app/components/DegreeModal.tsx:187-208 | closing runs the reset effect: every choice, the custom requirements and the form are cleared; the course dropdown flag is kept |
| DegreeModal.CloseTopLayerPops | app/components/DegreeModal.tsx:144-160 | Escape removes exactly the first open layer in the order course dropdown, custom form, degree dropdown, editing, selected degree; with none open it changes nothing |
| DegreeModal.CloseTopLayerFrame | app/components/DegreeModal.tsx:144-160 | Escape changes no field outside the five layers, and a degree still selected afterwards is the one selected before |
| DegreeModal.Dialog.Escape | app/components/DegreeModal.tsx:144-160 | on an open dialog the whole new state is the old one with its top layer closed, and the page is asked to close exactly when no layer was open; any other key, or a closed dialog, changes nothing |
| DegreeModal.Dialog.DegreeClick | app/components/DegreeModal.tsx:212-239 | on success the degree is selected with all its requirements enabled and editing ends; either way the dropdown closes and the search box shows the name; every other field is unchanged |
| DegreeModal.Dialog.CancelEdit | app/components/DegreeModal.tsx:245-255 | with loaded requirements every index is enabled again; editing and the custom form close; every other field is unchanged |
| DegreeModal.Dialog.ToggleRequirement | app/components/DegreeModal.tsx:262-272 | the enabled set is toggled at the index; every other field is unchanged |
| DegreeModal.Dialog.ToggleCourse | app/components/DegreeModal.tsx:308-314 | the chosen courses are toggled and stay duplicate-free; every other field is unchanged |
| DegreeModal.Dialog.ToggleFaculty | app/components/DegreeModal.tsx:316-322 | the chosen faculties are toggled and stay duplicate-free; every other field is unchanged |
| DegreeModal.Dialog.SaveCustomRequirement | app/components/DegreeModal.tsx:278-301 | a refused form changes nothing; an accepted one appends exactly one requirement as entered, then clears and closes the form; every other field is unchanged |
| DegreeModal.Dialog.ResetCustomForm | app/components/DegreeModal.tsx:202-208 | the five form fields return to their initial values; every other field is unchanged |
| DegreeModal.Dialog.RemoveCustomRequirement | app/components/DegreeModal.tsx:324-326 | the custom requirement with the id is removed; every other field is unchanged |
| DegreeModal.Dialog.ConfirmSelection | app/components/DegreeModal.tsx:338-392 | the request posted is the one the current choices determine; the dialog closes exactly when a degree is selected and the POST did not throw, whatever its status |
| CourseGraph.FacultyColour | graph/CourseGraph.tsx:12-20 | a colour is a 7-character hex string, and the default for an unknown faculty |
| CourseGraph.FacultyTitle | graph/CourseGraph.tsx:22-30 | an unknown code is its own title, and a non-empty code has a non-empty title |
| CourseGraph.FacultyOf | graph/CourseGraph.tsx:111 | a node's faculty is never empty ("N/A" for a falsy one) |
| CourseGraph.CompletedCourses | graph/CourseGraph.tsx:92-98 | a code is completed exactly when an entry with that code has a term index below the current term's |
| CourseGraph.CollectCompleted | graph/CourseGraph.tsx:92-98 | the loop fills `completedCourses` with exactly those codes |
| CourseGraph.FacultyOrderMembers | graph/CourseGraph.tsx:109-114 | the grouping has a key exactly for each faculty some course has |
| CourseGraph.FacultyOrderDistinct | graph/CourseGraph.tsx:109-114 | no faculty key appears twice |
| CourseGraph.CoursesOfMembers | graph/CourseGraph.tsx:109-114 | a faculty's list holds exactly that faculty's courses |
| CourseGraph.GroupByFaculty | graph/CourseGraph.tsx:109-114 | the loop builds the faculty keys in first-appearance order, each mapped to its courses |
| CourseGraph.GroupedNext | graph/CourseGraph.tsx:110-114 | one round of the grouping loop appends the course to its faculty's list, opening the list and adding the faculty to the order when it is new |
| CourseGraph.RootLinksAt | graph/CourseGraph.tsx:129 | the k-th root link leads to the k-th faculty |
| CourseGraph.ValidPrereqsMembers | graph/CourseGraph.tsx:139-141 | the filter keeps exactly the prerequisites that are graph nodes |
| CourseGraph.LinksToMembers | graph/CourseGraph.tsx:144-146 | the pushed links are exactly those from a valid prerequisite to the course |
| CourseGraph.CourseLinksRules | graph/CourseGraph.tsx:138-150 | with a prerequisite in the graph, the course's links come from those prerequisites alone; with none at all, one link from its faculty; with all missing, no link |
| CourseGraph.BuildGraph | graph/CourseGraph.tsx:116-150 | the loops build the reference graph, and the faculty ids are exactly the faculties of the courses |
| CourseGraph.PushFaculties | graph/CourseGraph.tsx:125-131 | the nodes are the root, then each faculty's node followed by its courses; one root link per faculty |
| CourseGraph.PushedNext | graph/CourseGraph.tsx:125-131 | one round of the faculty loop appends the faculty node and its courses, its root link, and adds the faculty to the faculty ids |
| CourseGraph.FacultyNodeAt | graph/CourseGraph.tsx:125-131 | the node of every faculty already visited is among the nodes pushed so far, at a position the lemma names |
| CourseGraph.PushCourseLinks | graph/CourseGraph.tsx:138-150 | the loop appends each course's links, in order |
| CourseGraph.GroupedCountAll | graph/CourseGraph.tsx:109-114 | every course sits under exactly one faculty |
| CourseGraph.GroupedCountSnoc | graph/CourseGraph.tsx:109-114 | one more course raises the number of grouped courses by one exactly when its faculty is among the faculties counted |
| CourseGraph.GroupedCountLast | graph/CourseGraph.tsx:109-114 | the last course adds exactly one to the grouped count |
| CourseGraph.GroupedCountNewFaculty | graph/CourseGraph.tsx:109-114 | a course with an unseen faculty opens that faculty's group at the end of the order, holding just this course |
| CourseGraph.CourseLinkAt | graph/CourseGraph.tsx:138-150 | every link of every course appears among the appended course links, at a position the lemma names |
| CourseGraph.NodeCount | graph/CourseGraph.tsx:109-131 | the graph has 1 + #faculties + #courses nodes |
| CourseGraph.FacultyLinks | graph/CourseGraph.tsx:147-149 | a course without prerequisites is linked from its own faculty node, which exists and is linked from the root |
| CourseGraph.FacultyInGraph | graph/CourseGraph.tsx:125-131 | every faculty of the fetched courses has its node in the graph and a link from the root |
| CourseGraph.PrerequisiteLinked | graph/CourseGraph.tsx:139-146 | a prerequisite that is a fetched course is linked to the course that needs it |
| CourseGraph.View.constructor | graph/CourseGraph.tsx:70-71 | the refs start empty |
| CourseGraph.View.LoadData | graph/CourseGraph.tsx:73-150 | a failed schedule request changes nothing; an empty schedule clears the graph; otherwise the completed set is replaced, and the faculty ids and the graph are rebuilt from a good graph response and stay as they were after a failed one |
| CourseGraph.View.NodeVal | graph/CourseGraph.tsx:169-173 | the size is 20 exactly for the root, 12 exactly for faculty nodes, and 4 otherwise |
| CourseGraph.View.NodeColour | graph/CourseGraph.tsx:160-168 | the root is white; exactly the faculty nodes are tinted, each with the tint of its own faculty's colour; an uncompleted course is grey, and a completed one has its faculty's colour |
| CourseTree.BuildCourseMap | app/components/CourseTree.tsx:91-94 | the loop builds the course map |
| CourseTree.CourseMapKeys | app/components/CourseTree.tsx:91-94 | the map has a key exactly for each listed code, holding a listed course with that code |
| CourseTree.BuildElements | app/components/CourseTree.tsx:83-158 | the effect builds the reference element list |
| CourseTree.PushCategory | app/components/CourseTree.tsx:97-157 | a category appends its node, its root edge and its chains |
| CourseTree.PushChain | app/components/CourseTree.tsx:120-156 | a chain appends the elements of its codes, in order |
| CourseTree.ChainsNext | app/components/CourseTree.tsx:120-156 | one round of the chain loop appends the elements of the next chain after those of the earlier chains |
| CourseTree.CategoriesSound | app/components/CourseTree.tsx:97-157 | after the root no element is a root; course nodes are courses taken; every edge is named `edge-<source>-<target>` |
| CourseTree.CategoryLinked | app/components/CourseTree.tsx:97-117 | each category has its node and an edge from "center" |
| CourseTree.FirstCodeLinked | app/components/CourseTree.tsx:136-144 | the first code of a chain, when taken, has its node and an edge from its category |
| CourseTree.LaterCodeLinked | app/components/CourseTree.tsx:145-155 | a later code, when taken, has its node and an edge from the preceding code |
| CourseTree.OneRoot | app/components/CourseTree.tsx:86-88 | "center" comes first and is the only root; edge ids have the form `edge-<source>-<target>` |
| CourseTree.MissingCodeAbsent | app/components/CourseTree.tsx:122-123 | a code not taken has no node and no incoming edge |
| CourseTree.EveryChainCodeTaken | app/components/CourseTree.tsx:66-71 | every code of the page's chains is a course taken |
| CourseSearch.SkipSeparators | graph/CourseSearch.tsx:16 | a leading run of commas and white space is dropped, and nothing else |
| CourseSearch.NonEmpty | graph/CourseSearch.tsx:18 | the filter keeps exactly the non-empty pieces |
| CourseSearch.HandleSearch | graph/CourseSearch.tsx:13-20 | the flag passes through; the tokens are non-empty, upper-case and separator-free; joined, they are the upper-cased input without separators; a non-empty input without separators is a single token |
| CourseSearch.PiecesConcat | graph/CourseSearch.tsx:16 | the split pieces, joined, are the text without its separators |
| CourseSearch.NonEmptyConcat | graph/CourseSearch.tsx:18 | dropping empty pieces does not change the join |
| CourseSearch.TrimAllIdentity | graph/CourseSearch.tsx:17 | trimming each of a list of separator-free pieces gives the list back unchanged |
| CourseSearch.UpperIsUpperCase | graph/CourseSearch.tsx:15 | the upper-cased text has no lower-case letter |
| CourseSearch.PiecesClean | graph/CourseSearch.tsx:15-17 | the pieces hold no separator and no lower-case letter |
| CourseSearch.TokensWellFormed | graph/CourseSearch.tsx:14-18 | every token is non-empty, upper-case and free of commas and white space |
| CourseSearch.TokensConcat | graph/CourseSearch.tsx:14-18 | the tokens, in order, join to the upper-cased input without separators |
| CourseSearch.UpperSeparators | graph/CourseSearch.tsx:15-16 | upper-casing neither makes nor unmakes a separator |
| CourseSearch.PiecesWord | graph/CourseSearch.tsx:16 | a text without separators splits into itself alone |
| CourseSearch.PiecesSplit | graph/CourseSearch.tsx:16 | a separator after a text that is empty or ends in a non-separator closes that text's last piece: the pieces are the front's, then the back's after its leading separators |
| CourseSearch.NonEmptySkip | graph/CourseSearch.tsx:16-18 | leading separators add only an empty piece, which the filter drops |
| CourseSearch.NonEmptyAppend | graph/CourseSearch.tsx:18 | the filter distributes over concatenation |
| CourseSearch.NonEmptyPiecesSplit | graph/CourseSearch.tsx:16-18 | around any separator, the non-empty pieces are those before it followed by those after it |
| CourseSearch.TokenizeIsNonEmptyPieces | graph/CourseSearch.tsx:14-18 | the trim step changes no piece, so the tokens are the non-empty pieces of the upper-cased input |
| CourseSearch.TokenizeWord | graph/CourseSearch.tsx:14-18 | a non-empty word without commas or white space is exactly one token, itself upper-cased |
| CourseSearch.TokenizeSplit | graph/CourseSearch.tsx:14-18 | a comma or white-space character splits tokens: the tokens of `a`, separator, `b` are those of `a` followed by those of `b`; with `TokenizeWord` this fixes every token as a maximal separator-free run |
| CourseSearch.NoTokensIffSeparatorsOnly | graph/CourseSearch.tsx:14-18 | the search yields no course exactly when the input is commas and white space only, the empty input included |
| FacultySelector.Ids | graph/FacultySelector.tsx:30 | the ids are those of the faculties, in order |
| FacultySelector.ToggleFaculty | graph/FacultySelector.tsx:21-27 | a selected id is filtered out (every occurrence), keeping the others; an unselected one is appended |
| FacultySelector.SelectAll | graph/FacultySelector.tsx:29-31 | exactly the six ids, in `FACULTIES` order, each once |
| FacultySelector.ClearAll | graph/FacultySelector.tsx:33-35 | the selection is empty |
| FacultySelector.RemoveAllShorter | graph/FacultySelector.tsx:23 | deselecting shortens the list |
| FacultySelector.ToggleFacultyTwice | graph/FacultySelector.tsx:21-27 | toggling twice restores the set of ids, and the very list for an unselected id |
| FacultySelector.ToggleFacultyNoDup | graph/FacultySelector.tsx:21-27 | a duplicate-free selection stays duplicate-free |
| FacultySelector.ToggleFromAll | graph/FacultySelector.tsx:21-31 | from "All", toggling one faculty leaves exactly the five others |
| FacultySelector.ToggleEachFresh | graph/FacultySelector.tsx:24-25 | clicking unselected faculties once each appends them in click order |
| FacultySelector.ClickingEveryFacultyIsAll | graph/FacultySelector.tsx:21-31 | from "Clear", clicking every faculty in order gives "All" |

## Left out

- Network requests, response parsing and `BroadcastChannel` notifications: requests are parameters as described above. A thrown exception is treated like a failed request.
- Session storage: the counter `nextAnonId` reads and writes is a field of `SessionStore.AnonIdCounter`. The schedule and degree helpers that only serialise to storage are not modelled.
- Rendering: JSX, CSS, the Cytoscape style and layout, the 3d-force-graph setup and camera, and the fixed root position (`fx`/`fy`/`fz`).
- `mixWithWhite` (graph/CourseGraph.tsx:32-42): floating-point blending. `CourseGraph.View.NodeColour` returns `Tinted(c)` in its place.
- Debounced search boxes, click-outside handlers, the tree's tap handler and the course dropdown's filter over mock data: timers and browser events.
- The prerequisite-fetching graph endpoint, the course search endpoint and every other server route: server code outside this model.
- Prisma client setup, authentication and the seed script: thin wrappers or data.
- SchedulePlanner.Planner.MoveCourse: applies the corrected move. A move to the selected term itself keeps the record, whereas the page as written appends a second copy of the course (see Findings; `SchedulePlanner.MoveAsWritten` and `SchedulePlanner.MoveToSameTermDuplicates` model that).
- Text.Upper: upper-cases only the ASCII letters, because JavaScript's full Unicode case mapping is not modelled.
- Property names of JavaScript's object prototype used as term keys (e.g. a term named "toString") are not modelled. The schedule record is a map with the eight term keys only.
- Branch evaluation, force-complete overrides and text nodes of the requirement tree: the checklist treats every requirement as a flat leaf with a group, and the model does the same.
- CourseSearch.HandleSearch: returns the tokens and the flag; it does not model the `onSearch` callback that consumes them.
- The `custom-<now>` id of a custom requirement is modelled for a non-negative `now`; clock values are parameters.

## Findings

| source | as written | input that shows it | evidently intended | confidence | as-written member | corrected member |
|---|---|---|---|---|---|---|
| app/schedule-planner/page.tsx:130-134 | the update writes `[selectedTerm]` (filtered) then `[targetTerm]: [...prev[targetTerm], course]`; when both keys are the same term the second write wins and reads the unfiltered list | CS135 placed in 1A, selected term 1A, moved to 1A (the term menu offers every term, the current one included): 1A then holds CS135 twice | moving a course to the term it is already in leaves the schedule unchanged, so each code stays placed at most once | not executed | SchedulePlanner.MoveToSameTermExample | SchedulePlanner.MoveKeepsUnique |

`SchedulePlanner.MoveAsWritten` is the update as written, and
`SchedulePlanner.MoveToSameTermDuplicates` states the duplication for every
input. `SchedulePlanner.Move`, which `SchedulePlanner.Planner.MoveCourse` uses,
treats a move to the same term as a no-op and otherwise agrees with the
source.
