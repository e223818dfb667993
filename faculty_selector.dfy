/** The faculty filter of the graph page: six faculties, a toggle per
    faculty, and "All" / "Clear" buttons. Each handler computes the new
    selection and hands it to `onChange`; the component keeps no state. */
module FacultySelector {
  import opened Lists

  datatype Faculty = Faculty(id: string, name: string)

  const FACULTIES: seq<Faculty> := [
    Faculty("MAT", "Mathematics"),
    Faculty("ENG", "Engineering"),
    Faculty("SCI", "Science"),
    Faculty("ART", "Arts"),
    Faculty("ENV", "Environment"),
    Faculty("HEA", "Health Sciences")
  ]

  /** `faculties.map((f) => f.id)`. */
  function Ids(faculties: seq<Faculty>): (r: seq<string>)
    ensures |r| == |faculties|
    ensures forall k :: 0 <= k < |faculties| ==> r[k] == faculties[k].id
  {
    if faculties == [] then [] else [faculties[0].id] + Ids(faculties[1..])
  }

  /** `toggleFaculty(id)`: a selected faculty is filtered out (every
      occurrence of it), an unselected one is appended at the end. */
  function ToggleFaculty(selected: seq<string>, facultyId: string): (r: seq<string>)
    ensures facultyId in selected ==> r == RemoveAll(selected, facultyId) && |r| < |selected|
    ensures facultyId in selected ==> facultyId !in r && forall f :: f != facultyId ==> (f in r <==> f in selected)
    ensures facultyId !in selected ==> r == selected + [facultyId]
  {
    ToggleCases(selected, facultyId);
    if facultyId in selected then
      RemoveAllShorter(selected, facultyId);
      Toggle(selected, facultyId)
    else Toggle(selected, facultyId)
  }

  /** `selectAll()`: the six faculty ids, in the order of `FACULTIES`,
      each once. */
  function SelectAll(): (r: seq<string>)
    ensures r == ["MAT", "ENG", "SCI", "ART", "ENV", "HEA"]
    ensures NoDup(r)
  {
    Ids(FACULTIES)
  }

  /** `clearAll()`. */
  function ClearAll(): (r: seq<string>)
    ensures |r| == 0
  {
    []
  }

  /** Filtering out a value that occurs makes the list shorter. */
  lemma {:induction false} RemoveAllShorter(xs: seq<string>, x: string)
    requires x in xs
    ensures |RemoveAll(xs, x)| < |xs|
  {
    if xs[0] != x {
      RemoveAllShorter(xs[1..], x);
    } else {
      assert |RemoveAll(xs[1..], x)| <= |xs[1..]|;
    }
  }

  /** Toggling a faculty twice gives back the same set of faculties; a
      faculty that was selected comes back at the end. */
  lemma ToggleFacultyTwice(selected: seq<string>, facultyId: string)
    ensures forall f :: f in ToggleFaculty(ToggleFaculty(selected, facultyId), facultyId) <==> f in selected
    ensures facultyId !in selected ==> ToggleFaculty(ToggleFaculty(selected, facultyId), facultyId) == selected
  {
    ToggleTwice(selected, facultyId);
    if facultyId !in selected {
      ToggleTwiceAbsent(selected, facultyId);
    }
  }

  /** A selection without repeats keeps none under toggling. */
  lemma ToggleFacultyNoDup(selected: seq<string>, facultyId: string)
    requires NoDup(selected)
    ensures NoDup(ToggleFaculty(selected, facultyId))
  {
    ToggleNoDup(selected, facultyId);
  }

  /** From "All", toggling one faculty leaves exactly the five others. */
  lemma ToggleFromAll(facultyId: string)
    requires facultyId in SelectAll()
    ensures forall f :: f in ToggleFaculty(SelectAll(), facultyId) <==> f in SelectAll() && f != facultyId
    ensures |ToggleFaculty(SelectAll(), facultyId)| == 5
  {
    var all := SelectAll();
    RemoveAllNoDup(all, facultyId);
    CountWithout(all, facultyId);
  }

  /** In a list without repeats, filtering out one member removes exactly one
      element. */
  lemma {:induction false} CountWithout(xs: seq<string>, x: string)
    requires NoDup(xs) && x in xs
    ensures |RemoveAll(xs, x)| == |xs| - 1
  {
    if xs[0] == x {
      assert x !in xs[1..] by {
        forall j | 0 <= j < |xs[1..]| ensures xs[1..][j] != x {
          assert xs[1..][j] == xs[j + 1];
        }
      }
      RemoveAbsent(xs[1..], x);
    } else {
      assert NoDup(xs[1..]) by {
        forall i, j | 0 <= i < j < |xs[1..]| ensures xs[1..][i] != xs[1..][j] {
          assert xs[1..][i] == xs[i + 1] && xs[1..][j] == xs[j + 1];
        }
      }
      CountWithout(xs[1..], x);
    }
  }

  /** Clicking the faculties of `clicks` in turn. */
  function ToggleEach(selected: seq<string>, clicks: seq<string>): seq<string>
    decreases |clicks|
  {
    if clicks == [] then selected
    else ToggleEach(ToggleFaculty(selected, clicks[0]), clicks[1..])
  }

  /** Clicking, once each, faculties that are not selected appends them in
      the order clicked. */
  lemma {:induction false} ToggleEachFresh(selected: seq<string>, clicks: seq<string>)
    requires NoDup(clicks)
    requires forall f :: f in clicks ==> f !in selected
    ensures ToggleEach(selected, clicks) == selected + clicks
    decreases |clicks|
  {
    if clicks != [] {
      var c := clicks[0];
      var rest := clicks[1..];
      assert c in clicks;
      var next := selected + [c];
      assert NoDup(rest) by {
        forall i, j | 0 <= i < j < |rest| ensures rest[i] != rest[j] {
          assert rest[i] == clicks[i + 1] && rest[j] == clicks[j + 1];
        }
      }
      assert forall f :: f in rest ==> f !in next by {
        forall f | f in rest ensures f !in next {
          var i :| 0 <= i < |rest| && rest[i] == f;
          assert clicks[i + 1] == f && clicks[0] == c;
          assert f in clicks;
        }
      }
      ToggleEachFresh(next, rest);
      assert next + rest == selected + clicks;
    }
  }

  /** Starting from "Clear" and clicking every faculty in the listed order
      gives the same selection as "All". */
  lemma ClickingEveryFacultyIsAll()
    ensures ToggleEach(ClearAll(), SelectAll()) == SelectAll()
  {
    ToggleEachFresh(ClearAll(), SelectAll());
    assert ClearAll() + SelectAll() == SelectAll();
  }
}
