/** The schedule planner page: a record from each of the eight terms to the
    courses placed in it, the student's current term, and the handlers that
    load the schedule and add, move and remove courses once the server has
    accepted the change. */
module SchedulePlanner {
  import opened Wrappers
  import opened Terms
  import Lists

  /** A course as the page lists it. */
  datatype Course = Course(code: string, name: string)

  /** The course attached to a schedule entry by the schedule endpoint. */
  datatype CourseInfo = CourseInfo(code: string, title: string)

  /** A schedule entry as the schedule endpoint returns it. */
  datatype TermCourseEntry = TermCourseEntry(courseCode: string, term: string, course: CourseInfo)

  /** The `courses` record: term to the courses placed in it. */
  type Schedule = map<string, seq<Course>>

  /** The record has exactly the eight term keys. */
  ghost predicate WellFormed(s: Schedule) {
    forall t :: t in s <==> t in TERMS
  }

  /** The record the page starts from: every term empty. */
  function EmptySchedule(): (s: Schedule)
    ensures WellFormed(s)
    ensures forall t :: t in s ==> s[t] == []
  {
    map t | t in TERMS :: []
  }

  /** No two terms share a key: the eight terms are distinct. */
  lemma TermsDistinct()
    ensures Lists.NoDup(TERMS)
  {
    forall i, j | 0 <= i < j < |TERMS| ensures TERMS[i] != TERMS[j] {
      TermIndexOfTerm(i);
      TermIndexOfTerm(j);
    }
  }

  // ---------------------------------------------------------------------------
  // Counting courses
  // ---------------------------------------------------------------------------

  /** How many courses of `list` carry `code`. */
  function CountCode(list: seq<Course>, code: string): (n: nat)
    ensures n <= |list|
    ensures n == 0 <==> forall c :: c in list ==> c.code != code
  {
    if list == [] then 0
    else
      var init := list[..|list| - 1];
      assert forall c :: c in list <==> c in init || c == list[|list| - 1];
      CountCode(init, code) + (if list[|list| - 1].code == code then 1 else 0)
  }

  lemma CountCodeAppend(list: seq<Course>, c: Course, code: string)
    ensures CountCode(list + [c], code) == CountCode(list, code) + (if c.code == code then 1 else 0)
  {
    assert (list + [c])[..|list|] == list;
  }

  /** The number of courses over the terms `ts`. */
  function Total(ts: seq<string>, s: Schedule): nat {
    if ts == [] then 0 else (if ts[0] in s then |s[ts[0]]| else 0) + Total(ts[1..], s)
  }

  /** The number of times `code` is placed over the terms `ts`. */
  function Occurrences(ts: seq<string>, s: Schedule, code: string): nat {
    if ts == [] then 0 else (if ts[0] in s then CountCode(s[ts[0]], code) else 0) + Occurrences(ts[1..], s, code)
  }

  /** `Object.values(courses).some(list => list.some(c => c.code === code))`. */
  predicate Scheduled(s: Schedule, code: string) {
    exists t :: t in s && exists c :: c in s[t] && c.code == code
  }

  /** Every course code is placed at most once over all terms. */
  ghost predicate UniqueCodes(s: Schedule) {
    forall code :: Occurrences(TERMS, s, code) <= 1
  }

  lemma {:induction false} NoDupTail(ts: seq<string>)
    requires ts != [] && Lists.NoDup(ts)
    ensures Lists.NoDup(ts[1..]) && ts[0] !in ts[1..]
  {
    forall i, j | 0 <= i < j < |ts[1..]| ensures ts[1..][i] != ts[1..][j] {
      assert ts[1..][i] == ts[i + 1] && ts[1..][j] == ts[j + 1];
    }
    forall k | 0 <= k < |ts[1..]| ensures ts[1..][k] != ts[0] {
      assert ts[1..][k] == ts[k + 1];
    }
  }

  /** Replacing one term's list changes the total by the difference in length. */
  lemma {:induction false} UpdateTotal(ts: seq<string>, s: Schedule, k: string, v: seq<Course>)
    requires Lists.NoDup(ts) && k in s
    ensures Total(ts, s[k := v]) == Total(ts, s) + (if k in ts then |v| - |s[k]| else 0)
  {
    if ts != [] {
      NoDupTail(ts);
      UpdateTotal(ts[1..], s, k, v);
    }
  }

  /** Replacing one term's list changes a code's occurrences by the difference
      of its counts in the two lists. */
  lemma {:induction false} UpdateOccurrences(ts: seq<string>, s: Schedule, k: string, v: seq<Course>, code: string)
    requires Lists.NoDup(ts) && k in s
    ensures Occurrences(ts, s[k := v], code)
            == Occurrences(ts, s, code) + (if k in ts then CountCode(v, code) - CountCode(s[k], code) else 0)
  {
    if ts != [] {
      NoDupTail(ts);
      UpdateOccurrences(ts[1..], s, k, v, code);
    }
  }

  /** A code is scheduled exactly when it occurs in some term. */
  lemma {:induction false} OccursIffIn(ts: seq<string>, s: Schedule, code: string)
    ensures Occurrences(ts, s, code) > 0 <==> exists t :: t in ts && t in s && exists c :: c in s[t] && c.code == code
  {
    if ts != [] {
      OccursIffIn(ts[1..], s, code);
      assert forall t :: t in ts <==> t == ts[0] || t in ts[1..];
    }
  }

  lemma ScheduledIffOccurs(s: Schedule, code: string)
    requires WellFormed(s)
    ensures Scheduled(s, code) <==> Occurrences(TERMS, s, code) > 0
  {
    OccursIffIn(TERMS, s, code);
  }

  // ---------------------------------------------------------------------------
  // Loading the schedule
  // ---------------------------------------------------------------------------

  /** `{ code: entry.course.code, name: entry.course.title }`. */
  function ToCourse(e: TermCourseEntry): Course {
    Course(e.course.code, e.course.title)
  }

  /** The courses of the entries placed in term `t`, in entry order. */
  function CoursesIn(entries: seq<TermCourseEntry>, t: string): (r: seq<Course>)
    ensures |r| <= |entries|
    ensures forall c :: c in r <==> exists e :: e in entries && e.term == t && c == ToCourse(e)
  {
    if entries == [] then []
    else
      var init := entries[..|entries| - 1];
      var e := entries[|entries| - 1];
      assert forall x :: x in entries <==> x in init || x == e;
      CoursesIn(init, t) + (if e.term == t then [ToCourse(e)] else [])
  }

  /** The record `fetchSchedule` builds: every term's entries in order. */
  function Grouped(entries: seq<TermCourseEntry>): (s: Schedule)
    ensures WellFormed(s)
  {
    map t | t in TERMS :: CoursesIn(entries, t)
  }

  /** The number of entries whose term is one of the eight. */
  function KnownEntries(entries: seq<TermCourseEntry>): nat {
    if entries == [] then 0
    else KnownEntries(entries[..|entries| - 1]) + (if entries[|entries| - 1].term in TERMS then 1 else 0)
  }

  /** The loop of `fetchSchedule` that pushes each entry into its term's list. */
  method GroupByTerm(entries: seq<TermCourseEntry>) returns (grouped: Schedule)
    ensures grouped == Grouped(entries)
  {
    grouped := EmptySchedule();
    for i := 0 to |entries|
      invariant WellFormed(grouped)
      invariant forall t :: t in grouped ==> grouped[t] == CoursesIn(entries[..i], t)
    {
      var e := entries[i];
      assert entries[..i + 1][..i] == entries[..i];
      if e.term in grouped {
        grouped := grouped[e.term := grouped[e.term] + [ToCourse(e)]];
      }
    }
    assert entries[..|entries|] == entries;
  }

  /** Grouping keeps every entry whose term is one of the eight and drops the
      others: the record holds exactly that many courses. */
  lemma {:induction false} GroupedTotal(entries: seq<TermCourseEntry>)
    ensures Total(TERMS, Grouped(entries)) == KnownEntries(entries)
  {
    if entries == [] {
      ZeroTotal(TERMS, Grouped(entries));
    } else {
      var init := entries[..|entries| - 1];
      var e := entries[|entries| - 1];
      assert entries == init + [e];
      GroupedTotal(init);
      GroupedSnoc(init, e);
      if e.term in TERMS {
        TermsDistinct();
        var before := Grouped(init);
        UpdateTotal(TERMS, before, e.term, before[e.term] + [ToCourse(e)]);
      }
    }
  }

  /** One more entry lands at the end of its term's list, if its term is one of the eight. */
  lemma GroupedSnoc(init: seq<TermCourseEntry>, e: TermCourseEntry)
    ensures e.term in TERMS ==> Grouped(init + [e]) == Grouped(init)[e.term := Grouped(init)[e.term] + [ToCourse(e)]]
    ensures e.term !in TERMS ==> Grouped(init + [e]) == Grouped(init)
  {
    var entries := init + [e];
    assert entries[..|entries| - 1] == init && entries[|entries| - 1] == e;
    var before, after := Grouped(init), Grouped(entries);
    var expected := if e.term in TERMS then before[e.term := before[e.term] + [ToCourse(e)]] else before;
    assert forall t :: t in after <==> t in expected;
    forall t | t in after ensures after[t] == expected[t] {
      assert after[t] == CoursesIn(entries, t) == CoursesIn(init, t) + (if e.term == t then [ToCourse(e)] else []);
    }
    assert after == expected;
  }

  lemma {:induction false} ZeroTotal(ts: seq<string>, s: Schedule)
    requires forall t :: t in s ==> s[t] == []
    ensures Total(ts, s) == 0
  {
    if ts != [] {
      ZeroTotal(ts[1..], s);
    }
  }

  // ---------------------------------------------------------------------------
  // Moving and removing
  // ---------------------------------------------------------------------------

  /** `list.find(c => c.code === code)`. */
  function FindCode(list: seq<Course>, code: string): (r: Option<Course>)
    ensures r.None? <==> CountCode(list, code) == 0
    ensures r.Some? ==> exists i :: 0 <= i < |list| && list[i] == r.value && r.value.code == code
                                    && forall j :: 0 <= j < i ==> list[j].code != code
  {
    if list == [] then None
    else if list[0].code == code then Some(list[0])
    else
      var r := FindCode(list[1..], code);
      assert forall c :: c in list <==> c == list[0] || c in list[1..];
      if r.Some? then
        var i :| 0 <= i < |list[1..]| && list[1..][i] == r.value && r.value.code == code
                 && forall j :: 0 <= j < i ==> list[1..][j].code != code;
        assert list[i + 1] == r.value;
        r
      else r
  }

  /** `list.filter(c => c.code !== code)`. */
  function WithoutCode(list: seq<Course>, code: string): (r: seq<Course>)
    ensures forall c :: c in r <==> c in list && c.code != code
  {
    if list == [] then []
    else
      var init := list[..|list| - 1];
      var last := list[|list| - 1];
      assert forall c :: c in list <==> c in init || c == last;
      WithoutCode(init, code) + (if last.code == code then [] else [last])
  }

  /** Filtering drops exactly the courses with the code: no count of another
      code changes, and the length shrinks by the code's count. */
  lemma {:induction false} WithoutCodeCounts(list: seq<Course>, code: string, other: string)
    ensures CountCode(WithoutCode(list, code), other) == if other == code then 0 else CountCode(list, other)
    ensures |WithoutCode(list, code)| == |list| - CountCode(list, code)
  {
    if list != [] {
      var init := list[..|list| - 1];
      var last := list[|list| - 1];
      var rest := WithoutCode(init, code);
      WithoutCodeCounts(init, code, other);
      assert CountCode(list, other) == CountCode(init, other) + (if last.code == other then 1 else 0);
      assert CountCode(list, code) == CountCode(init, code) + (if last.code == code then 1 else 0);
      if last.code != code {
        assert WithoutCode(list, code) == rest + [last];
        CountCodeAppend(rest, last, other);
      } else {
        assert WithoutCode(list, code) == rest;
      }
    }
  }

  /** The update `handleMoveCourse` applies, as written: the course found in
      term `from` is filtered out of `from` and appended to `to`. The object
      spread writes `to` after `from`, so when the two are the same term the
      second write wins and reads the unfiltered list. */
  function MoveAsWritten(s: Schedule, from: string, code: string, to: string): Schedule
    requires from in s && to in s
  {
    match FindCode(s[from], code)
    case None => s
    case Some(c) => s[from := WithoutCode(s[from], code)][to := s[to] + [c]]
  }

  /** The move as intended: moving a course to the term it is in changes nothing. */
  function Move(s: Schedule, from: string, code: string, to: string): Schedule
    requires from in s && to in s
  {
    if from == to then s else MoveAsWritten(s, from, code, to)
  }

  /** A code not in the selected term is not moved. */
  lemma MoveAbsentIsNoOp(s: Schedule, from: string, code: string, to: string)
    requires from in s && to in s
    requires forall c :: c in s[from] ==> c.code != code
    ensures MoveAsWritten(s, from, code, to) == s
    ensures Move(s, from, code, to) == s
  {
  }

  /** Moving a course placed once in `from` to another term takes it out of
      `from`, puts it at the end of `to`, and keeps the number of courses. */
  lemma MoveKeepsTotal(s: Schedule, from: string, code: string, to: string)
    requires WellFormed(s) && from in TERMS && to in TERMS && from != to
    requires CountCode(s[from], code) == 1
    ensures var m := Move(s, from, code, to);
            && WellFormed(m)
            && Total(TERMS, m) == Total(TERMS, s)
            && CountCode(m[from], code) == 0
            && m[to][..|s[to]|] == s[to] && |m[to]| == |s[to]| + 1 && m[to][|s[to]|].code == code
  {
    TermsDistinct();
    var c := FindCode(s[from], code).value;
    var s1 := s[from := WithoutCode(s[from], code)];
    WithoutCodeCounts(s[from], code, code);
    UpdateTotal(TERMS, s, from, WithoutCode(s[from], code));
    UpdateTotal(TERMS, s1, to, s[to] + [c]);
  }

  /** The corrected move keeps every code placed at most once. */
  lemma MoveKeepsUnique(s: Schedule, from: string, code: string, to: string)
    requires WellFormed(s) && from in TERMS && to in TERMS
    requires UniqueCodes(s)
    ensures WellFormed(Move(s, from, code, to))
    ensures UniqueCodes(Move(s, from, code, to))
  {
    var found := FindCode(s[from], code);
    if from != to && found.Some? {
      TermsDistinct();
      var c := found.value;
      var v := WithoutCode(s[from], code);
      var s1 := s[from := v];
      forall other ensures Occurrences(TERMS, Move(s, from, code, to), other) <= 1 {
        WithoutCodeCounts(s[from], code, other);
        UpdateOccurrences(TERMS, s, from, v, other);
        UpdateOccurrences(TERMS, s1, to, s[to] + [c], other);
        CountCodeAppend(s[to], c, other);
        if other == code {
          OccurrencesAtLeast(TERMS, s, from, code);
        }
      }
    }
  }

  /** A term's count of a code is part of the code's occurrences. */
  lemma {:induction false} OccurrencesAtLeast(ts: seq<string>, s: Schedule, t: string, code: string)
    requires t in ts && t in s
    ensures CountCode(s[t], code) <= Occurrences(ts, s, code)
  {
    if ts[0] != t {
      OccurrencesAtLeast(ts[1..], s, t, code);
    }
  }

  /** As written, moving a course to the term it is already in appends a
      second copy of it to that term. */
  lemma MoveToSameTermDuplicates(s: Schedule, t: string, code: string)
    requires t in s && CountCode(s[t], code) > 0
    ensures var m := MoveAsWritten(s, t, code, t);
            m[t] == s[t] + [FindCode(s[t], code).value]
            && CountCode(m[t], code) == CountCode(s[t], code) + 1
  {
    CountCodeAppend(s[t], FindCode(s[t], code).value, code);
  }

  /** The smallest instance: one course in 1A, moved to 1A, shows up twice. */
  lemma MoveToSameTermExample()
    ensures var c := Course("CS135", "Designing Functional Programs");
            var s := EmptySchedule()["1A" := [c]];
            MoveAsWritten(s, "1A", "CS135", "1A")["1A"] == [c, c]
  {
    var c := Course("CS135", "Designing Functional Programs");
    var s := EmptySchedule()["1A" := [c]];
    assert FindCode(s["1A"], "CS135") == Some(c);
  }

  /** Removing keeps every code placed at most once and drops the code from
      the selected term only. */
  lemma RemoveKeepsUnique(s: Schedule, t: string, code: string)
    requires WellFormed(s) && t in TERMS && UniqueCodes(s)
    ensures UniqueCodes(s[t := WithoutCode(s[t], code)])
    ensures Occurrences(TERMS, s[t := WithoutCode(s[t], code)], code) == Occurrences(TERMS, s, code) - CountCode(s[t], code)
  {
    TermsDistinct();
    var removed := s[t := WithoutCode(s[t], code)];
    forall other ensures Occurrences(TERMS, removed, other) <= 1 {
      WithoutCodeCounts(s[t], code, other);
      UpdateOccurrences(TERMS, s, t, WithoutCode(s[t], code), other);
    }
    WithoutCodeCounts(s[t], code, code);
    UpdateOccurrences(TERMS, s, t, WithoutCode(s[t], code), code);
  }

  /** Adding a code that is not yet scheduled keeps every code placed at most once. */
  lemma AddKeepsUnique(s: Schedule, t: string, course: Course)
    requires WellFormed(s) && t in TERMS && UniqueCodes(s)
    requires !Scheduled(s, course.code)
    ensures UniqueCodes(s[t := s[t] + [course]])
    ensures Occurrences(TERMS, s[t := s[t] + [course]], course.code) == 1
  {
    TermsDistinct();
    ScheduledIffOccurs(s, course.code);
    OccurrencesAtLeast(TERMS, s, t, course.code);
    var added := s[t := s[t] + [course]];
    forall other ensures Occurrences(TERMS, added, other) <= 1 {
      UpdateOccurrences(TERMS, s, t, s[t] + [course], other);
      CountCodeAppend(s[t], course, other);
    }
    UpdateOccurrences(TERMS, s, t, s[t] + [course], course.code);
    CountCodeAppend(s[t], course, course.code);
  }

  // ---------------------------------------------------------------------------
  // The page state
  // ---------------------------------------------------------------------------

  /** The page's state: the selected tab, the course record, the current term
      and the course whose move menu is open. */
  class Planner {
    var selectedTerm: string
    var courses: Schedule
    var currentTerm: string
    var editingCourse: Option<string>

    /** The record keeps the eight term keys and the selected tab is a term. */
    ghost predicate Valid()
      reads this
    {
      WellFormed(courses) && selectedTerm in TERMS
    }

    /** The initial state: tab 1A, current term 1A, all terms empty. */
    constructor ()
      ensures Valid()
      ensures selectedTerm == "1A" && currentTerm == "1A" && courses == EmptySchedule() && editingCourse == None
    {
      selectedTerm := "1A";
      courses := EmptySchedule();
      currentTerm := "1A";
      editingCourse := None;
    }

    /** `isTermCompleted`: the term lies before the current one in TERMS,
        where a term missing from TERMS has index -1. */
    function IsTermCompleted(term: string): (r: bool)
      reads this
      ensures r <==> IndexOf(TERMS, term) < IndexOf(TERMS, currentTerm)
    {
      TermIndexIsIndexOf(term);
      TermIndexIsIndexOf(currentTerm);
      Before(term, currentTerm)
    }

    /** `fetchSchedule`: on a successful response take the current term and
        the entries grouped by term; otherwise change nothing. */
    method FetchSchedule(ok: bool, dataCurrentTerm: string, entries: seq<TermCourseEntry>)
      requires Valid()
      modifies this
      ensures Valid()
      ensures ok ==> currentTerm == dataCurrentTerm && courses == Grouped(entries)
      ensures !ok ==> currentTerm == old(currentTerm) && courses == old(courses)
      ensures selectedTerm == old(selectedTerm) && editingCourse == old(editingCourse)
    {
      if !ok {
        return;
      }
      currentTerm := dataCurrentTerm;
      courses := GroupByTerm(entries);
    }

    /** A click on a term tab. */
    method SelectTerm(term: string)
      requires Valid() && term in TERMS
      modifies this
      ensures Valid()
      ensures selectedTerm == term
      ensures courses == old(courses) && currentTerm == old(currentTerm) && editingCourse == old(editingCourse)
    {
      selectedTerm := term;
    }

    /** `handleAddCourse`: a course already placed in any term is ignored;
        otherwise, once the server accepts it, it is appended to the selected term. */
    method AddCourse(course: Course, ok: bool)
      requires Valid()
      modifies this
      ensures Valid()
      ensures courses == if !Scheduled(old(courses), course.code) && ok
                         then old(courses)[selectedTerm := old(courses)[selectedTerm] + [course]]
                         else old(courses)
      ensures selectedTerm == old(selectedTerm) && currentTerm == old(currentTerm) && editingCourse == old(editingCourse)
    {
      var alreadyScheduled := Scheduled(courses, course.code);
      if alreadyScheduled {
        return;
      }
      if !ok {
        return;
      }
      courses := courses[selectedTerm := courses[selectedTerm] + [course]];
    }

    /** `handleMoveCourse`, with a move to the selected term itself left as a
        no-op; on success the move menu closes. */
    method MoveCourse(courseCode: string, targetTerm: string, ok: bool)
      requires Valid() && targetTerm in TERMS
      modifies this
      ensures Valid()
      ensures courses == if ok then Move(old(courses), selectedTerm, courseCode, targetTerm) else old(courses)
      ensures editingCourse == if ok then None else old(editingCourse)
      ensures selectedTerm == old(selectedTerm) && currentTerm == old(currentTerm)
    {
      if !ok {
        return;
      }
      if targetTerm != selectedTerm {
        ghost var before := courses;
        var course := FindCode(courses[selectedTerm], courseCode);
        if course.Some? {
          courses := courses[selectedTerm := WithoutCode(courses[selectedTerm], courseCode)]
                            [targetTerm := courses[targetTerm] + [course.value]];
        }
        assert courses == MoveAsWritten(before, selectedTerm, courseCode, targetTerm);
      }
      editingCourse := None;
    }

    /** `handleSetCurrentTerm`: take the new current term once the server accepts it. */
    method SetCurrentTerm(term: string, ok: bool)
      requires Valid()
      modifies this
      ensures Valid()
      ensures currentTerm == if ok then term else old(currentTerm)
      ensures courses == old(courses) && selectedTerm == old(selectedTerm) && editingCourse == old(editingCourse)
    {
      if !ok {
        return;
      }
      currentTerm := term;
    }

    /** `handleRemoveCourse`: once the server accepts, every course with the
        code leaves the selected term; the other terms keep theirs. */
    method RemoveCourse(courseCode: string, ok: bool)
      requires Valid()
      modifies this
      ensures Valid()
      ensures courses == if ok then old(courses)[selectedTerm := WithoutCode(old(courses)[selectedTerm], courseCode)]
                         else old(courses)
      ensures editingCourse == if ok then None else old(editingCourse)
      ensures selectedTerm == old(selectedTerm) && currentTerm == old(currentTerm)
    {
      if !ok {
        return;
      }
      courses := courses[selectedTerm := WithoutCode(courses[selectedTerm], courseCode)];
      editingCourse := None;
    }
  }

  /** Exactly the terms before the current one are completed; when the current
      term is not one of the eight, no term is. */
  lemma CompletedTermsPrecedeCurrent(currentTerm: string, k: int)
    requires 0 <= k < |TERMS|
    ensures currentTerm in TERMS ==> (Before(TERMS[k], currentTerm) <==> k < TermIndex(currentTerm))
    ensures currentTerm !in TERMS ==> !Before(TERMS[k], currentTerm)
  {
    TermIndexOfTerm(k);
    KnownTerm(currentTerm);
  }
}
