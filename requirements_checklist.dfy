/** The requirements checklist: it splits the student's schedule into
    completed and planned courses relative to the current term, flags courses
    none of whose prerequisites sits in an earlier term, and scores every
    top-level requirement as a flat "N of this course group" leaf. */
module RequirementsChecklist {
  import opened Terms

  /** A schedule entry as the schedule endpoint returns it: the course code,
      the term it is placed in and the codes of its prerequisites. */
  datatype ScheduleEntry = ScheduleEntry(courseCode: string, term: string, prereqs: seq<string>)

  /** A top-level requirement: `amount` courses needed from its course group,
      of whose links only the course codes matter here. */
  datatype Requirement = Requirement(id: int, name: string, amount: int,
                                     groupId: int, groupName: string, links: seq<string>)

  // ---------------------------------------------------------------------------
  // Completed / planned partition
  // ---------------------------------------------------------------------------

  /** Codes of the entries placed strictly before the current term. */
  function CompletedCodes(entries: seq<ScheduleEntry>, currentTerm: string): set<string> {
    set e | e in entries && Before(e.term, currentTerm) :: e.courseCode
  }

  /** Codes of the entries placed in the current term or later. A term
      outside the eight has index -1, so with a known current term such an
      entry counts as completed; with an unknown current term every entry is
      planned. */
  function PlannedCodes(entries: seq<ScheduleEntry>, currentTerm: string): set<string> {
    set e | e in entries && !Before(e.term, currentTerm) :: e.courseCode
  }

  /** No course code is scheduled twice (the store keeps (user, course) unique). */
  predicate CodesUnique(entries: seq<ScheduleEntry>) {
    forall i, j :: 0 <= i < j < |entries| ==> entries[i].courseCode != entries[j].courseCode
  }

  /** The loop that fills the `completed` and `planned` sets entry by entry. */
  method Partition(entries: seq<ScheduleEntry>, currentTerm: string)
    returns (completed: set<string>, planned: set<string>)
    ensures completed == CompletedCodes(entries, currentTerm)
    ensures planned == PlannedCodes(entries, currentTerm)
  {
    var currentTermIndex := TermIndex(currentTerm);
    completed, planned := {}, {};
    for i := 0 to |entries|
      invariant completed == CompletedCodes(entries[..i], currentTerm)
      invariant planned == PlannedCodes(entries[..i], currentTerm)
    {
      var entry := entries[i];
      PartitionStep(entries[..i], entry, currentTerm);
      assert entries[..i + 1] == entries[..i] + [entry];
      if TermIndex(entry.term) < currentTermIndex {
        completed := completed + {entry.courseCode};
      } else {
        planned := planned + {entry.courseCode};
      }
    }
    assert entries[..|entries|] == entries;
  }

  /** Appending one entry adds its code to exactly the set its term selects. */
  lemma PartitionStep(entries: seq<ScheduleEntry>, e: ScheduleEntry, currentTerm: string)
    ensures CompletedCodes(entries + [e], currentTerm)
            == CompletedCodes(entries, currentTerm) + (if Before(e.term, currentTerm) then {e.courseCode} else {})
    ensures PlannedCodes(entries + [e], currentTerm)
            == PlannedCodes(entries, currentTerm) + (if Before(e.term, currentTerm) then {} else {e.courseCode})
  {
    assert forall f :: f in entries + [e] <==> f in entries || f == e;
  }

  /** With unique codes, an entry is determined by its code. */
  lemma SameCodeSameEntry(entries: seq<ScheduleEntry>, e: ScheduleEntry, f: ScheduleEntry)
    requires CodesUnique(entries) && e in entries && f in entries
    requires e.courseCode == f.courseCode
    ensures e == f
  {
    var i :| 0 <= i < |entries| && entries[i] == e;
    var j :| 0 <= j < |entries| && entries[j] == f;
    assert !(i < j) && !(j < i);
  }

  /** Every scheduled code lands in completed or planned, and with unique
      codes in exactly one of them. */
  lemma PartitionExact(entries: seq<ScheduleEntry>, currentTerm: string)
    requires CodesUnique(entries)
    ensures CompletedCodes(entries, currentTerm) + PlannedCodes(entries, currentTerm)
            == set e | e in entries :: e.courseCode
    ensures CompletedCodes(entries, currentTerm) !! PlannedCodes(entries, currentTerm)
  {
    forall c | c in CompletedCodes(entries, currentTerm)
      ensures c !in PlannedCodes(entries, currentTerm)
    {
      var e :| e in entries && Before(e.term, currentTerm) && e.courseCode == c;
      forall f | f in entries && f.courseCode == c ensures Before(f.term, currentTerm) {
        SameCodeSameEntry(entries, e, f);
      }
    }
  }

  /** A code lands in completed exactly when its entry's term comes first. */
  lemma CompletedIff(entries: seq<ScheduleEntry>, currentTerm: string, e: ScheduleEntry)
    requires CodesUnique(entries) && e in entries
    ensures e.courseCode in CompletedCodes(entries, currentTerm) <==> Before(e.term, currentTerm)
  {
    PartitionExact(entries, currentTerm);
  }

  /** With a current term that is not one of the eight, nothing is completed
      and every scheduled code is planned. */
  lemma UnknownCurrentTermAllPlanned(entries: seq<ScheduleEntry>, currentTerm: string)
    requires currentTerm !in TERMS
    ensures CompletedCodes(entries, currentTerm) == {}
    ensures PlannedCodes(entries, currentTerm) == set e | e in entries :: e.courseCode
  {
    UnknownTerm(currentTerm);
  }

  // ---------------------------------------------------------------------------
  // Missing prerequisites
  // ---------------------------------------------------------------------------

  /** Codes scheduled in the term with the given name. */
  function CodesInTerm(entries: seq<ScheduleEntry>, t: string): set<string> {
    set e | e in entries && e.term == t :: e.courseCode
  }

  /** Codes scheduled in one of the eight terms whose index is below `k`. */
  function PriorCourses(entries: seq<ScheduleEntry>, k: int): set<string> {
    set e | e in entries && 0 <= TermIndex(e.term) < k :: e.courseCode
  }

  /** An entry is flagged when it has prerequisites and none of them is
      scheduled in a strictly earlier term ("any" semantics). */
  predicate Flagged(entries: seq<ScheduleEntry>, e: ScheduleEntry) {
    |e.prereqs| > 0 &&
    !(exists p :: p in e.prereqs && p in PriorCourses(entries, TermIndex(e.term)))
  }

  /** The `missing` set: codes of the flagged entries. */
  function MissingCodes(entries: seq<ScheduleEntry>): set<string> {
    set e | e in entries && Flagged(entries, e) :: e.courseCode
  }

  /** The `coursesByTerm` map: every term that occurs, with its codes. */
  method GroupCodesByTerm(entries: seq<ScheduleEntry>) returns (byTerm: map<string, set<string>>)
    ensures forall t :: t in byTerm <==> exists e :: e in entries && e.term == t
    ensures forall t :: t in byTerm ==> byTerm[t] == CodesInTerm(entries, t)
  {
    byTerm := map[];
    for i := 0 to |entries|
      invariant forall t :: t in byTerm <==> exists e :: e in entries[..i] && e.term == t
      invariant forall t :: t in byTerm ==> byTerm[t] == CodesInTerm(entries[..i], t)
    {
      var entry := entries[i];
      assert entries[..i + 1] == entries[..i] + [entry];
      if entry.term !in byTerm {
        byTerm := byTerm[entry.term := {}];
      }
      byTerm := byTerm[entry.term := byTerm[entry.term] + {entry.courseCode}];
    }
    assert entries[..|entries|] == entries;
  }

  /** `priorCourses` for an entry whose term has index `termIndex`: the union of
      `coursesByTerm.get(t)` over the terms `t` that come before it. */
  method CollectPriorCourses(entries: seq<ScheduleEntry>, byTerm: map<string, set<string>>, termIndex: int)
    returns (prior: set<string>)
    requires forall t :: t in byTerm <==> exists e :: e in entries && e.term == t
    requires forall t :: t in byTerm ==> byTerm[t] == CodesInTerm(entries, t)
    ensures prior == PriorCourses(entries, termIndex)
  {
    prior := {};
    for k := 0 to |TERMS|
      invariant prior == set e | e in entries && 0 <= TermIndex(e.term) < k && TermIndex(e.term) < termIndex :: e.courseCode
    {
      var t := TERMS[k];
      TermIndexOfTerm(k);
      ghost var before := prior;
      if TermIndex(t) < termIndex && t in byTerm {
        prior := prior + byTerm[t];
      }
      ThisTermCodes(entries, k);
      if TermIndex(t) < termIndex && t !in byTerm {
        assert CodesInTerm(entries, t) == {};
      }
    }
  }

  /** The codes whose term index is exactly `k` are the codes scheduled in TERMS[k]. */
  lemma ThisTermCodes(entries: seq<ScheduleEntry>, k: int)
    requires 0 <= k < |TERMS|
    ensures (set e | e in entries && TermIndex(e.term) == k :: e.courseCode) == CodesInTerm(entries, TERMS[k])
  {
    TermIndexOfTerm(k);
  }

  /** The `missing` loop: flag each entry that has prerequisites of which none
      is among its prior courses. */
  method ComputeMissing(entries: seq<ScheduleEntry>) returns (missing: set<string>)
    ensures missing == MissingCodes(entries)
  {
    var byTerm := GroupCodesByTerm(entries);
    missing := {};
    for i := 0 to |entries|
      invariant missing == MissingCodes'(entries, entries[..i])
    {
      var entry := entries[i];
      assert entries[..i + 1] == entries[..i] + [entry];
      if |entry.prereqs| == 0 {
        continue;
      }
      var termIndex := TermIndex(entry.term);
      var prior := CollectPriorCourses(entries, byTerm, termIndex);
      if !(exists p :: p in entry.prereqs && p in prior) {
        missing := missing + {entry.courseCode};
      }
    }
    assert entries[..|entries|] == entries;
  }

  /** Codes of the flagged entries among `some`, judged against all `entries`. */
  function MissingCodes'(entries: seq<ScheduleEntry>, some: seq<ScheduleEntry>): set<string> {
    set e | e in some && Flagged(entries, e) :: e.courseCode
  }

  /** A course with no prerequisites is never flagged; with unique codes its
      code is never in the missing set. */
  lemma NoPrereqsNeverMissing(entries: seq<ScheduleEntry>, e: ScheduleEntry)
    requires CodesUnique(entries) && e in entries && |e.prereqs| == 0
    ensures e.courseCode !in MissingCodes(entries)
  {
    forall f | f in entries && f.courseCode == e.courseCode ensures !Flagged(entries, f) {
      SameCodeSameEntry(entries, e, f);
    }
  }

  /** One prerequisite scheduled in a strictly earlier (known) term is enough
      to clear the flag. */
  lemma OnePrereqClears(entries: seq<ScheduleEntry>, e: ScheduleEntry, pre: ScheduleEntry)
    requires pre in entries && pre.courseCode in e.prereqs
    requires pre.term in TERMS && Before(pre.term, e.term)
    ensures !Flagged(entries, e)
  {
    assert pre.courseCode in PriorCourses(entries, TermIndex(e.term));
  }

  /** A course with prerequisites is flagged when none of them is scheduled
      in an earlier term. */
  lemma NoEarlierPrereqFlags(entries: seq<ScheduleEntry>, e: ScheduleEntry)
    requires e in entries && |e.prereqs| > 0
    requires forall pre :: pre in entries && pre.courseCode in e.prereqs ==>
               !(pre.term in TERMS && Before(pre.term, e.term))
    ensures e.courseCode in MissingCodes(entries)
  {
    assert Flagged(entries, e);
  }

  // ---------------------------------------------------------------------------
  // Fulfilment of the flat requirements
  // ---------------------------------------------------------------------------

  /** `links.filter(l => s.has(l.courseCode)).length`. */
  function CountIn(links: seq<string>, s: set<string>): (n: nat)
    ensures n <= |links|
  {
    if links == [] then 0
    else (if links[0] in s then 1 else 0) + CountIn(links[1..], s)
  }

  /** `fulfilled`: enough of the group's courses are completed. */
  predicate Fulfilled(r: Requirement, completed: set<string>) {
    CountIn(r.links, completed) >= r.amount
  }

  /** `fulfilledWithPlanned`: enough are completed or planned. */
  predicate FulfilledWithPlanned(r: Requirement, completed: set<string>, planned: set<string>) {
    CountIn(r.links, completed) + CountIn(r.links, planned) >= r.amount
  }

  /** `totalFulfilled`: how many requirements are fulfilled. */
  function TotalFulfilled(reqs: seq<Requirement>, completed: set<string>): (n: nat)
    ensures n <= |reqs|
  {
    if reqs == [] then 0
    else (if Fulfilled(reqs[0], completed) then 1 else 0) + TotalFulfilled(reqs[1..], completed)
  }

  /** How many requirements are fulfilled with the planned courses counted. */
  function TotalWithPlanned(reqs: seq<Requirement>, completed: set<string>, planned: set<string>): (n: nat)
    ensures n <= |reqs|
  {
    if reqs == [] then 0
    else (if FulfilledWithPlanned(reqs[0], completed, planned) then 1 else 0)
         + TotalWithPlanned(reqs[1..], completed, planned)
  }

  /** The "(+N planned)" figure: `totalFulfilledWithPlanned` as the source
      computes it, the with-planned count minus `totalFulfilled`. */
  function PlannedBonus(reqs: seq<Requirement>, completed: set<string>, planned: set<string>): int {
    TotalWithPlanned(reqs, completed, planned) - TotalFulfilled(reqs, completed)
  }

  /** A fulfilled requirement is also fulfilled with planned courses. */
  lemma FulfilledImpliesWithPlanned(r: Requirement, completed: set<string>, planned: set<string>)
    requires Fulfilled(r, completed)
    ensures FulfilledWithPlanned(r, completed, planned)
  {
  }

  /** The "+planned" figure is never negative, and together with
      `totalFulfilled` never exceeds the number of requirements. */
  lemma {:induction false} PlannedBonusBounds(reqs: seq<Requirement>, completed: set<string>, planned: set<string>)
    ensures 0 <= PlannedBonus(reqs, completed, planned)
    ensures TotalFulfilled(reqs, completed) + PlannedBonus(reqs, completed, planned) <= |reqs|
  {
    if reqs != [] {
      PlannedBonusBounds(reqs[1..], completed, planned);
      if Fulfilled(reqs[0], completed) {
        FulfilledImpliesWithPlanned(reqs[0], completed, planned);
      }
    }
  }

  /** Counting against a larger set never gives fewer matches. */
  lemma {:induction false} CountInMonotone(links: seq<string>, s: set<string>, t: set<string>)
    requires s <= t
    ensures CountIn(links, s) <= CountIn(links, t)
  {
    if links != [] {
      CountInMonotone(links[1..], s, t);
    }
  }

  /** Completing one more course never makes a fulfilled requirement
      unfulfilled. */
  lemma CompletingKeepsFulfilled(r: Requirement, completed: set<string>, code: string)
    requires Fulfilled(r, completed)
    ensures Fulfilled(r, completed + {code})
  {
    CountInMonotone(r.links, completed, completed + {code});
  }

  /** `totalFulfilled` only grows as courses are completed. */
  lemma {:induction false} TotalFulfilledMonotone(reqs: seq<Requirement>, s: set<string>, t: set<string>)
    requires s <= t
    ensures TotalFulfilled(reqs, s) <= TotalFulfilled(reqs, t)
  {
    if reqs != [] {
      CountInMonotone(reqs[0].links, s, t);
      TotalFulfilledMonotone(reqs[1..], s, t);
    }
  }

  // ---------------------------------------------------------------------------
  // Term picker and course selection
  // ---------------------------------------------------------------------------

  /** `ts.filter(t => TERMS.indexOf(t) >= k)`. */
  function TermsFrom(ts: seq<string>, k: int): seq<string> {
    if ts == [] then []
    else if TermIndex(ts[0]) >= k then [ts[0]] + TermsFrom(ts[1..], k)
    else TermsFrom(ts[1..], k)
  }

  /** The terms the picker offers for a course not yet scheduled. */
  function TermOptions(currentTerm: string): seq<string> {
    TermsFrom(TERMS, TermIndex(currentTerm))
  }

  /** The picker offers exactly the current term and the ones after it, in
      order; all eight terms when the current term is unknown. */
  lemma TermOptionsSuffix(currentTerm: string)
    ensures TermOptions(currentTerm)
            == TERMS[if TermIndex(currentTerm) < 0 then 0 else TermIndex(currentTerm)..]
  {
    forall i | 0 <= i < |TERMS| ensures TermIndex(TERMS[i]) == 0 + i {
      TermIndexOfTerm(i);
    }
    TermsFromConsecutive(TERMS, 0, TermIndex(currentTerm));
  }

  /** Filtering a run of consecutive terms, starting at index `j`, by "index at
      least `k`" keeps a suffix of the run. */
  lemma {:induction false} TermsFromConsecutive(ts: seq<string>, j: int, k: int)
    requires forall i :: 0 <= i < |ts| ==> TermIndex(ts[i]) == j + i
    ensures TermsFrom(ts, k) == ts[if k <= j then 0 else if k - j <= |ts| then k - j else |ts|..]
  {
    if ts != [] {
      assert TermIndex(ts[0]) == j;
      TermsFromConsecutive(ts[1..], j + 1, k);
      if k <= j {
        assert ts == [ts[0]] + ts[1..];
      }
    }
  }

  /** Every term the picker offers is one the partition counts as planned. */
  lemma PickedTermIsPlanned(currentTerm: string, t: string)
    requires t in TermOptions(currentTerm)
    ensures !Before(t, currentTerm)
  {
    TermOptionsSuffix(currentTerm);
    var k :| (if TermIndex(currentTerm) < 0 then 0 else TermIndex(currentTerm)) <= k < |TERMS| && TERMS[k] == t;
    TermIndexOfTerm(k);
  }

  /** What picking a search result does. */
  datatype Selection =
    | AddToGroupOnly(groupId: int, courseCode: string)  // already scheduled: no term asked
    | AwaitTerm(courseCode: string)                     // becomes `selectedCourse`

  /** `handleSelectCourse`: a course already completed or planned is added to
      the group alone; any other waits for a term. */
  function SelectCourse(courseCode: string, groupId: int, completed: set<string>, planned: set<string>): Selection {
    if courseCode in completed || courseCode in planned then AddToGroupOnly(groupId, courseCode)
    else AwaitTerm(courseCode)
  }

  /** A course that is on the schedule is never sent to the term picker, and
      one that is not always is. */
  lemma SelectScheduledCourse(entries: seq<ScheduleEntry>, currentTerm: string, courseCode: string, groupId: int)
    ensures (exists e :: e in entries && e.courseCode == courseCode) <==>
            SelectCourse(courseCode, groupId, CompletedCodes(entries, currentTerm), PlannedCodes(entries, currentTerm))
              == AddToGroupOnly(groupId, courseCode)
  {
    if e :| e in entries && e.courseCode == courseCode {
      if Before(e.term, currentTerm) {
        assert courseCode in CompletedCodes(entries, currentTerm);
      } else {
        assert courseCode in PlannedCodes(entries, currentTerm);
      }
    }
  }
}
