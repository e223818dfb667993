/** The degree-selection dialog: the student picks a degree template, may
    switch some of its requirements off and add custom requirements of their
    own, and confirms. Confirming an untouched template assigns it as is;
    otherwise the enabled template requirements followed by the custom ones
    are sent as a customised plan. */
module DegreeModal {
  import opened Wrappers
  import opened Text
  import Lists

  /** A template requirement as the template endpoint returns it; `null` or
      missing fields are `None`. */
  datatype TemplateRequirement = TemplateRequirement(
    name: Option<string>, amount: Option<int>,
    courseGroupId: Option<int>, courseGroupName: Option<string>)

  /** The chosen degree; `requirements` is absent until they are loaded. */
  datatype SelectedDegree = SelectedDegree(id: int, name: string, requirements: Option<seq<TemplateRequirement>>)

  /** A requirement the student created in the dialog. */
  datatype CustomRequirement = CustomRequirement(
    id: string, title: string, amount: int,
    eligibleCourses: seq<string>, eligibleFaculties: seq<string>)

  /** One entry of the `requirements` list sent on confirmation. */
  datatype BuiltRequirement =
    | FromTemplate(name: string, amount: int, courseGroupId: Option<int>)
    | FromCustom(name: string, amount: int, courseCodes: seq<string>)

  /** The body posted to the degree endpoint on confirmation. */
  datatype DegreeRequest =
    | AssignTemplate(templateId: int)
    | AssignCustomised(templateId: int, name: string, requirements: seq<BuiltRequirement>)

  /** Every field of the dialog at one moment, so that a handler's contract can
      say which fields it sets and that all others stay. */
  datatype DialogState = DialogState(
    isOpen: bool, searchQuery: string, isDropdownOpen: bool,
    selectedDegree: Option<SelectedDegree>, isEditingRequirements: bool,
    enabledRequirements: set<int>, customRequirements: seq<CustomRequirement>,
    isCreatingCustom: bool, customTitle: string, customAmount: int,
    courseSearchQuery: string, selectedCourses: seq<string>,
    selectedFaculties: seq<string>, isCourseDropdownOpen: bool)

  /** The layers Escape can close, highest priority first. */
  datatype Layer = CourseDropdown | CustomForm | DegreeDropdown | Editing | ChosenDegree

  /** The open layers, in the order Escape closes them. */
  function Layers(st: DialogState): seq<Layer> {
    (if st.isCourseDropdownOpen then [CourseDropdown] else [])
    + ((if st.isCreatingCustom then [CustomForm] else [])
    + ((if st.isDropdownOpen then [DegreeDropdown] else [])
    + ((if st.isEditingRequirements then [Editing] else [])
    + (if st.selectedDegree.Some? then [ChosenDegree] else []))))
  }

  /** Escape on an open dialog: the highest open layer closes. */
  function CloseTopLayer(st: DialogState): DialogState {
    if st.isCourseDropdownOpen then st.(isCourseDropdownOpen := false)
    else if st.isCreatingCustom then st.(isCreatingCustom := false)
    else if st.isDropdownOpen then st.(isDropdownOpen := false)
    else if st.isEditingRequirements then st.(isEditingRequirements := false)
    else st.(selectedDegree := None)
  }

  /** Closing the top layer removes exactly the first open layer, and with
      none open changes nothing. */
  lemma {:induction false} CloseTopLayerPops(st: DialogState)
    ensures Layers(st) != [] ==> Layers(CloseTopLayer(st)) == Layers(st)[1..]
    ensures Layers(st) == [] ==> CloseTopLayer(st) == st
  {
    var r := CloseTopLayer(st);
    var t4: seq<Layer> := if st.selectedDegree.Some? then [ChosenDegree] else [];
    var t3 := (if st.isEditingRequirements then [Editing] else []) + t4;
    var t2 := (if st.isDropdownOpen then [DegreeDropdown] else []) + t3;
    var t1 := (if st.isCreatingCustom then [CustomForm] else []) + t2;
    if st.isCourseDropdownOpen {
      PopFront(CourseDropdown, t1, Layers(st), Layers(r));
    } else if st.isCreatingCustom {
      PopFront(CustomForm, t2, Layers(st), Layers(r));
    } else if st.isDropdownOpen {
      PopFront(DegreeDropdown, t3, Layers(st), Layers(r));
    } else if st.isEditingRequirements {
      PopFront(Editing, t4, Layers(st), Layers(r));
    } else if st.selectedDegree.Some? {
      PopFront(ChosenDegree, [], Layers(st), Layers(r));
    }
  }

  /** A list that is one layer followed by a tail loses that layer to `[1..]`. */
  lemma PopFront(x: Layer, tail: seq<Layer>, before: seq<Layer>, after: seq<Layer>)
    requires before == [x] + tail && after == [] + tail
    ensures after == before[1..]
  {
    assert before[1..] == tail;
  }

  /** Escape touches only the five layers, and a degree still chosen
      afterwards is the one chosen before. */
  lemma CloseTopLayerFrame(st: DialogState)
    ensures CloseTopLayer(st).selectedDegree.Some? ==> CloseTopLayer(st).selectedDegree == st.selectedDegree
    ensures CloseTopLayer(st).isOpen == st.isOpen
    ensures CloseTopLayer(st).searchQuery == st.searchQuery
    ensures CloseTopLayer(st).enabledRequirements == st.enabledRequirements
    ensures CloseTopLayer(st).customRequirements == st.customRequirements
    ensures CloseTopLayer(st).customTitle == st.customTitle
    ensures CloseTopLayer(st).customAmount == st.customAmount
    ensures CloseTopLayer(st).courseSearchQuery == st.courseSearchQuery
    ensures CloseTopLayer(st).selectedCourses == st.selectedCourses
    ensures CloseTopLayer(st).selectedFaculties == st.selectedFaculties
  {
  }

  // ---------------------------------------------------------------------------
  // The enabled set
  // ---------------------------------------------------------------------------

  /** `new Set(requirements.map((_, index) => index))`. */
  function AllIndices(n: nat): (s: set<int>)
    ensures forall i :: i in s <==> 0 <= i < n
    ensures |s| == n
  {
    if n == 0 then {} else AllIndices(n - 1) + {n - 1}
  }

  /** `toggleRequirement`: drop the index if present, add it otherwise. */
  function ToggleIndex(enabled: set<int>, index: int): (r: set<int>)
    ensures index in r <==> index !in enabled
    ensures forall i :: i != index ==> (i in r <==> i in enabled)
  {
    if index in enabled then enabled - {index} else enabled + {index}
  }

  /** Toggling the same index twice restores the enabled set. */
  lemma ToggleIndexTwice(enabled: set<int>, index: int)
    ensures ToggleIndex(ToggleIndex(enabled, index), index) == enabled
  {
  }

  // ---------------------------------------------------------------------------
  // hasModifications and the list sent on confirmation
  // ---------------------------------------------------------------------------

  /** `hasModifications`: with requirements loaded, some template requirement
      is switched off or some custom requirement exists. */
  function HasModifications(selected: Option<SelectedDegree>, enabled: set<int>,
                            custom: seq<CustomRequirement>): (r: bool)
    ensures r <==> selected.Some? && selected.value.requirements.Some?
                   && ((exists i :: 0 <= i < |selected.value.requirements.value| && i !in enabled) || |custom| > 0)
  {
    if selected.None? || selected.value.requirements.None? then false
    else
      var allEnabled := forall i :: 0 <= i < |selected.value.requirements.value| ==> i in enabled;
      !allEnabled || |custom| > 0
  }

  /** `req.courseGroup?.name || req.name || \`Requirement ${index + 1}\``. */
  function RequirementName(req: TemplateRequirement, index: nat): (r: string)
    ensures r != []
    ensures var groupNamed := req.courseGroupName.Some? && req.courseGroupName.value != [];
            var named := req.name.Some? && req.name.value != [];
            && (groupNamed ==> r == req.courseGroupName.value)
            && (!groupNamed && named ==> r == req.name.value)
            && (!groupNamed && !named ==>
                  && |r| > 12 && r[..12] == "Requirement "
                  && (forall i :: 12 <= i < |r| ==> '0' <= r[i] <= '9')
                  && DigitsValue(r[12..]) == index + 1
                  && r[12] != '0')
  {
    if req.courseGroupName.Some? && req.courseGroupName.value != [] then req.courseGroupName.value
    else if req.name.Some? && req.name.value != [] then req.name.value
    else
      var digits := NatToString(index + 1);
      assert ("Requirement " + digits)[12..] == digits;
      assert digits[0] != '0' by {
        if |digits| == 1 {
          assert DigitsValue(digits) == DigitsValue(digits[..0]) * 10 + (digits[0] as int - '0' as int);
        }
      }
      "Requirement " + digits
  }

  /** `req.amount || 1`: a missing or zero amount becomes 1. */
  function RequirementAmount(req: TemplateRequirement): (r: int)
    ensures r != 0
    ensures req.amount.Some? && req.amount.value != 0 ==> r == req.amount.value
    ensures !(req.amount.Some? && req.amount.value != 0) ==> r == 1
  {
    if req.amount.Some? && req.amount.value != 0 then req.amount.value else 1
  }

  function TemplateEntry(req: TemplateRequirement, index: nat): BuiltRequirement {
    FromTemplate(RequirementName(req, index), RequirementAmount(req), req.courseGroupId)
  }

  /** The custom entry: title, amount and eligible course codes. The eligible
      faculties are not part of it. */
  function CustomEntry(req: CustomRequirement): BuiltRequirement {
    FromCustom(req.title, req.amount, req.eligibleCourses)
  }

  /** The enabled template requirements, in index order. */
  function TemplateEntries(reqs: seq<TemplateRequirement>, enabled: set<int>): seq<BuiltRequirement> {
    if reqs == [] then []
    else
      var k := |reqs| - 1;
      TemplateEntries(reqs[..k], enabled) + (if k in enabled then [TemplateEntry(reqs[k], k)] else [])
  }

  /** The custom requirements, in the order they were created. */
  function CustomEntries(custom: seq<CustomRequirement>): (r: seq<BuiltRequirement>)
    ensures |r| == |custom|
    ensures forall j :: 0 <= j < |custom| ==> r[j] == CustomEntry(custom[j])
  {
    if custom == [] then []
    else CustomEntries(custom[..|custom| - 1]) + [CustomEntry(custom[|custom| - 1])]
  }

  /** The indices below `n` that are enabled. */
  function EnabledBelow(enabled: set<int>, n: nat): set<int> {
    set i | i in enabled && 0 <= i < n
  }

  /** The loops of `handleConfirmSelection` that build the `requirements` list. */
  method BuildRequirements(reqs: seq<TemplateRequirement>, enabled: set<int>, custom: seq<CustomRequirement>)
    returns (built: seq<BuiltRequirement>)
    ensures built == TemplateEntries(reqs, enabled) + CustomEntries(custom)
  {
    built := [];
    for index := 0 to |reqs|
      invariant built == TemplateEntries(reqs[..index], enabled)
    {
      assert reqs[..index + 1][..index] == reqs[..index];
      if index in enabled {
        built := built + [TemplateEntry(reqs[index], index)];
      }
    }
    assert reqs[..|reqs|] == reqs;
    ghost var templatePart := built;
    for j := 0 to |custom|
      invariant built == templatePart + CustomEntries(custom[..j])
    {
      assert custom[..j + 1][..j] == custom[..j];
      built := built + [CustomEntry(custom[j])];
    }
    assert custom[..|custom|] == custom;
  }

  /** There is one template entry per enabled index below the number of
      template requirements. */
  lemma {:induction false} TemplateEntriesCount(reqs: seq<TemplateRequirement>, enabled: set<int>)
    ensures |TemplateEntries(reqs, enabled)| == |EnabledBelow(enabled, |reqs|)|
  {
    if reqs != [] {
      var k := |reqs| - 1;
      assert |reqs[..k]| == k;
      TemplateEntriesCount(reqs[..k], enabled);
      if k in enabled {
        assert EnabledBelow(enabled, |reqs|) == EnabledBelow(enabled, k) + {k};
      } else {
        assert EnabledBelow(enabled, |reqs|) == EnabledBelow(enabled, k);
      }
    }
  }

  /** The built list holds |enabled ∩ [0, n)| template entries followed by one
      entry per custom requirement, in order. */
  lemma BuiltLayout(reqs: seq<TemplateRequirement>, enabled: set<int>, custom: seq<CustomRequirement>)
    ensures var built := TemplateEntries(reqs, enabled) + CustomEntries(custom);
            var k := |EnabledBelow(enabled, |reqs|)|;
            && |built| == k + |custom|
            && (forall j :: 0 <= j < k ==> built[j].FromTemplate?)
            && (forall j :: k <= j < |built| ==> built[j] == CustomEntry(custom[j - k]))
  {
    TemplateEntriesCount(reqs, enabled);
    TemplateEntriesAreTemplate(reqs, enabled);
  }

  lemma {:induction false} TemplateEntriesAreTemplate(reqs: seq<TemplateRequirement>, enabled: set<int>)
    ensures forall e :: e in TemplateEntries(reqs, enabled) ==> e.FromTemplate? && e.name != [] && e.amount != 0
  {
    if reqs != [] {
      TemplateEntriesAreTemplate(reqs[..|reqs| - 1], enabled);
    }
  }

  /** With every requirement enabled, entry i is built from requirement i. */
  lemma {:induction false} AllEnabledKeepsTemplate(reqs: seq<TemplateRequirement>, enabled: set<int>)
    requires forall i :: 0 <= i < |reqs| ==> i in enabled
    ensures |TemplateEntries(reqs, enabled)| == |reqs|
    ensures forall i :: 0 <= i < |reqs| ==> TemplateEntries(reqs, enabled)[i] == TemplateEntry(reqs[i], i)
  {
    if reqs != [] {
      var k := |reqs| - 1;
      AllEnabledKeepsTemplate(reqs[..k], enabled);
    }
  }

  /** A custom requirement made of faculties only passes the form's check but
      is sent with no course codes. */
  lemma FacultyOnlyRequirementSendsNoCourses(req: CustomRequirement)
    requires req.eligibleCourses == [] && req.eligibleFaculties != []
    ensures CustomEntry(req).courseCodes == []
  {
  }

  /** The request `handleConfirmSelection` posts, if any. */
  function ConfirmRequest(selected: Option<SelectedDegree>, enabled: set<int>,
                          custom: seq<CustomRequirement>): (r: Option<DegreeRequest>)
    ensures r.None? <==> selected.None?
    ensures selected.Some? ==> r.Some? && r.value.templateId == selected.value.id
    ensures selected.Some? ==> (r.value.AssignTemplate? <==> !HasModifications(selected, enabled, custom))
    ensures r.Some? && r.value.AssignCustomised? ==>
              && r.value.name == selected.value.name + " (Custom)"
              && r.value.requirements == TemplateEntries(selected.value.requirements.GetOr([]), enabled)
                                         + CustomEntries(custom)
  {
    if selected.None? then None
    else if !HasModifications(selected, enabled, custom) then Some(AssignTemplate(selected.value.id))
    else
      var reqs := selected.value.requirements.GetOr([]);
      Some(AssignCustomised(selected.value.id, selected.value.name + " (Custom)",
                            TemplateEntries(reqs, enabled) + CustomEntries(custom)))
  }

  /** A freshly loaded degree with no custom requirement is confirmed as the
      plain template; switching one requirement off makes it a customised plan
      holding the other requirements, and switching it back on undoes that. */
  lemma FreshSelectionIsTemplate(id: int, name: string, reqs: seq<TemplateRequirement>, index: int)
    requires 0 <= index < |reqs|
    ensures var sel := Some(SelectedDegree(id, name, Some(reqs)));
            && ConfirmRequest(sel, AllIndices(|reqs|), []) == Some(AssignTemplate(id))
            && ConfirmRequest(sel, ToggleIndex(AllIndices(|reqs|), index), []).value.AssignCustomised?
            && |ConfirmRequest(sel, ToggleIndex(AllIndices(|reqs|), index), []).value.requirements| == |reqs| - 1
            && ConfirmRequest(sel, ToggleIndex(ToggleIndex(AllIndices(|reqs|), index), index), []) == Some(AssignTemplate(id))
  {
    var sel := Some(SelectedDegree(id, name, Some(reqs)));
    var all := AllIndices(|reqs|);
    var off := ToggleIndex(all, index);
    assert ConfirmRequest(sel, all, []) == Some(AssignTemplate(id));
    assert ConfirmRequest(sel, off, []).value.AssignCustomised?
        && |ConfirmRequest(sel, off, []).value.requirements| == |reqs| - 1 by {
      assert index !in off;
      TemplateEntriesCount(reqs, off);
      assert EnabledBelow(off, |reqs|) == all - {index};
      assert |all - {index}| == |reqs| - 1;
    }
    assert ConfirmRequest(sel, ToggleIndex(off, index), []) == Some(AssignTemplate(id)) by {
      ToggleIndexTwice(all, index);
    }
  }

  // ---------------------------------------------------------------------------
  // Custom requirements
  // ---------------------------------------------------------------------------

  /** `customRequirements.filter(req => req.id !== id)`. */
  function RemoveById(custom: seq<CustomRequirement>, id: string): (r: seq<CustomRequirement>)
    ensures |r| <= |custom|
    ensures forall c :: c in r <==> c in custom && c.id != id
  {
    if custom == [] then []
    else
      var rest := RemoveById(custom[1..], id);
      assert forall c :: c in custom <==> c == custom[0] || c in custom[1..];
      (if custom[0].id == id then [] else [custom[0]]) + rest
  }

  /** The requirement the form creates at time `now` (milliseconds), with id
      `custom-<now>`. */
  function NewCustomRequirement(now: nat, title: string, amount: int,
                                courses: seq<string>, faculties: seq<string>): (r: CustomRequirement)
    ensures |r.id| > 7 && r.id[..7] == "custom-" && forall i :: 7 <= i < |r.id| ==> '0' <= r.id[i] <= '9'
    ensures DigitsValue(r.id[7..]) == now
    ensures |r.id| > 8 ==> r.id[7] != '0'
    ensures r.title == title && r.amount == amount
    ensures r.eligibleCourses == courses && r.eligibleFaculties == faculties
  {
    var digits := NatToString(now);
    assert ("custom-" + digits)[7..] == digits;
    assert |digits| > 1 ==> ("custom-" + digits)[7] == digits[0];
    CustomRequirement("custom-" + digits, title, amount, courses, faculties)
  }

  /** The form passes `handleSaveCustomRequirement`'s checks: the title is not
      blank and at least one course or faculty is chosen. */
  predicate CanSave(title: string, courses: seq<string>, faculties: seq<string>) {
    Trim(title) != [] && !(|courses| == 0 && |faculties| == 0)
  }

  /** A title made of white space only is refused, whatever else is chosen. */
  lemma BlankTitleRefused(title: string, courses: seq<string>, faculties: seq<string>)
    requires forall i :: 0 <= i < |title| ==> IsWhitespace(title[i])
    ensures !CanSave(title, courses, faculties)
  {
    TrimEmpty(title);
  }

  /** A title with a visible character and one chosen course is accepted. */
  lemma VisibleTitleAccepted(title: string, courses: seq<string>, faculties: seq<string>, i: int)
    requires 0 <= i < |title| && !IsWhitespace(title[i])
    requires courses != [] || faculties != []
    ensures CanSave(title, courses, faculties)
  {
    TrimEmpty(title);
  }

  // ---------------------------------------------------------------------------
  // The dialog state
  // ---------------------------------------------------------------------------

  class Dialog {
    /** The `isOpen` property the page passes in. */
    var isOpen: bool
    var searchQuery: string
    var isDropdownOpen: bool
    var selectedDegree: Option<SelectedDegree>
    var isEditingRequirements: bool
    var enabledRequirements: set<int>
    var customRequirements: seq<CustomRequirement>
    var isCreatingCustom: bool
    var customTitle: string
    var customAmount: int
    var courseSearchQuery: string
    var selectedCourses: seq<string>
    var selectedFaculties: seq<string>
    var isCourseDropdownOpen: bool

    /** The dialog as first rendered, open or not. */
    constructor (isOpen: bool)
      ensures this.isOpen == isOpen && selectedDegree == None && enabledRequirements == {}
      ensures customRequirements == [] && selectedCourses == [] && selectedFaculties == []
      ensures !isDropdownOpen && !isEditingRequirements && !isCreatingCustom && !isCourseDropdownOpen
      ensures customTitle == "" && customAmount == 1 && courseSearchQuery == "" && searchQuery == ""
    {
      this.isOpen := isOpen;
      searchQuery := "";
      isDropdownOpen := false;
      selectedDegree := None;
      isEditingRequirements := false;
      enabledRequirements := {};
      customRequirements := [];
      isCreatingCustom := false;
      customTitle := "";
      customAmount := 1;
      courseSearchQuery := "";
      selectedCourses := [];
      selectedFaculties := [];
      isCourseDropdownOpen := false;
    }

    /** The dialog's fields, taken together. */
    function State(): DialogState
      reads this
    {
      DialogState(isOpen, searchQuery, isDropdownOpen, selectedDegree, isEditingRequirements,
                  enabledRequirements, customRequirements, isCreatingCustom, customTitle,
                  customAmount, courseSearchQuery, selectedCourses, selectedFaculties,
                  isCourseDropdownOpen)
    }


    /** The page opens the dialog. Nothing else changes, so it shows what
        the last close left. */
    method Open()
      modifies this
      ensures isOpen && searchQuery == old(searchQuery) && isDropdownOpen == old(isDropdownOpen)
      ensures selectedDegree == old(selectedDegree) && isEditingRequirements == old(isEditingRequirements)
      ensures enabledRequirements == old(enabledRequirements) && customRequirements == old(customRequirements)
      ensures isCreatingCustom == old(isCreatingCustom) && customTitle == old(customTitle)
      ensures customAmount == old(customAmount) && courseSearchQuery == old(courseSearchQuery)
      ensures selectedCourses == old(selectedCourses) && selectedFaculties == old(selectedFaculties)
      ensures isCourseDropdownOpen == old(isCourseDropdownOpen)
    {
      isOpen := true;
    }

    /** The page closes the dialog and the reset effect runs: every choice
        and the form are cleared, but not the course dropdown flag. */
    method Close()
      modifies this
      ensures !isOpen && searchQuery == "" && !isDropdownOpen && selectedDegree == None
      ensures !isEditingRequirements && enabledRequirements == {} && customRequirements == []
      ensures !isCreatingCustom && customTitle == "" && customAmount == 1 && courseSearchQuery == ""
      ensures selectedCourses == [] && selectedFaculties == []
      ensures isCourseDropdownOpen == old(isCourseDropdownOpen)
    {
      isOpen, selectedDegree, searchQuery, isDropdownOpen, isEditingRequirements := false, None, "", false, false;
      enabledRequirements, customRequirements, isCreatingCustom := {}, [], false;
      ResetCustomForm();
    }

    /** The Escape handler: close the highest open layer, or ask the page to
        close the dialog when none is open. Other keys, or a closed dialog,
        change nothing. */
    method Escape(key: string) returns (closeRequested: bool)
      modifies this
      ensures key == "Escape" && isOpen ==>
                State() == CloseTopLayer(old(State())) && (closeRequested <==> Layers(old(State())) == [])
      ensures !(key == "Escape" && isOpen) ==> !closeRequested && State() == old(State())
    {
      closeRequested := false;
      if key == "Escape" && isOpen {
        if isCourseDropdownOpen {
          isCourseDropdownOpen := false;
        } else if isCreatingCustom {
          isCreatingCustom := false;
        } else if isDropdownOpen {
          isDropdownOpen := false;
        } else if isEditingRequirements {
          isEditingRequirements := false;
        } else if selectedDegree.Some? {
          selectedDegree := None;
        } else {
          closeRequested := true;
        }
      }
    }

    /** `handleDegreeClick` once the template request has answered: on
        success the degree is selected with its requirements (`|| []`), all of
        them enabled, and editing ends; on failure only the dropdown closes
        and the search box shows the degree's name. */
    method DegreeClick(templateId: int, degreeName: string, ok: bool,
                       requirements: Option<seq<TemplateRequirement>>)
      modifies this
      ensures ok ==> State() == old(State()).(
                       isDropdownOpen := false, searchQuery := degreeName,
                       selectedDegree := Some(SelectedDegree(templateId, degreeName, Some(requirements.GetOr([])))),
                       enabledRequirements := AllIndices(|requirements.GetOr([])|),
                       isEditingRequirements := false)
      ensures !ok ==> State() == old(State()).(isDropdownOpen := false, searchQuery := degreeName)
    {
      if ok {
        var reqs := requirements.GetOr([]);
        isDropdownOpen, searchQuery, selectedDegree, enabledRequirements, isEditingRequirements :=
          false, degreeName, Some(SelectedDegree(templateId, degreeName, Some(reqs))), AllIndices(|reqs|), false;
      } else {
        isDropdownOpen, searchQuery := false, degreeName;
      }
    }

    /** `handleCancelEdit`: every loaded requirement is enabled again and
        editing and the custom form close. */
    method CancelEdit()
      modifies this
      ensures var loaded := selectedDegree.Some? && selectedDegree.value.requirements.Some?;
              State() == old(State()).(
                enabledRequirements := if loaded then AllIndices(|selectedDegree.value.requirements.value|)
                                       else old(enabledRequirements),
                isEditingRequirements := false, isCreatingCustom := false)
    {
      if selectedDegree.Some? && selectedDegree.value.requirements.Some? {
        enabledRequirements := AllIndices(|selectedDegree.value.requirements.value|);
      }
      isEditingRequirements := false;
      isCreatingCustom := false;
    }

    /** `toggleRequirement`. */
    method ToggleRequirement(index: int)
      modifies this
      ensures State() == old(State()).(enabledRequirements := ToggleIndex(old(enabledRequirements), index))
    {
      enabledRequirements := ToggleIndex(enabledRequirements, index);
    }

    /** `toggleCourse`: remove the code if chosen, append it otherwise. */
    method ToggleCourse(courseCode: string)
      modifies this
      ensures State() == old(State()).(selectedCourses := Lists.Toggle(old(selectedCourses), courseCode))
      ensures Lists.NoDup(old(selectedCourses)) ==> Lists.NoDup(selectedCourses)
    {
      if Lists.NoDup(selectedCourses) {
        Lists.ToggleNoDup(selectedCourses, courseCode);
      }
      selectedCourses := Lists.Toggle(selectedCourses, courseCode);
    }

    /** `toggleFaculty`: remove the faculty if chosen, append it otherwise. */
    method ToggleFaculty(faculty: string)
      modifies this
      ensures State() == old(State()).(selectedFaculties := Lists.Toggle(old(selectedFaculties), faculty))
      ensures Lists.NoDup(old(selectedFaculties)) ==> Lists.NoDup(selectedFaculties)
    {
      if Lists.NoDup(selectedFaculties) {
        Lists.ToggleNoDup(selectedFaculties, faculty);
      }
      selectedFaculties := Lists.Toggle(selectedFaculties, faculty);
    }

    /** `handleSaveCustomRequirement` at time `now` (milliseconds): when the
        form passes its checks, append the requirement, clear the form and
        close it; otherwise change nothing. */
    method SaveCustomRequirement(now: nat)
      modifies this
      ensures !CanSave(old(customTitle), old(selectedCourses), old(selectedFaculties)) ==> State() == old(State())
      ensures CanSave(old(customTitle), old(selectedCourses), old(selectedFaculties)) ==>
                State() == old(State()).(
                  customRequirements := old(customRequirements)
                    + [NewCustomRequirement(now, old(customTitle), old(customAmount),
                                            old(selectedCourses), old(selectedFaculties))],
                  customTitle := "", customAmount := 1, courseSearchQuery := "",
                  selectedCourses := [], selectedFaculties := [], isCreatingCustom := false)
    {
      ghost var canSave := CanSave(customTitle, selectedCourses, selectedFaculties);
      if Trim(customTitle) == [] {
        assert !canSave;
        return;
      }
      if |selectedCourses| == 0 && |selectedFaculties| == 0 {
        assert !canSave;
        return;
      }
      assert canSave;
      var newCustomReq := NewCustomRequirement(now, customTitle, customAmount, selectedCourses, selectedFaculties);
      customRequirements := customRequirements + [newCustomReq];
      ResetCustomForm();
      isCreatingCustom := false;
    }

    /** `resetCustomForm`: the form's fields back to their initial values. */
    method ResetCustomForm()
      modifies this
      ensures customTitle == "" && customAmount == 1 && courseSearchQuery == ""
      ensures selectedCourses == [] && selectedFaculties == []
      ensures isOpen == old(isOpen) && searchQuery == old(searchQuery) && isDropdownOpen == old(isDropdownOpen)
      ensures selectedDegree == old(selectedDegree) && isEditingRequirements == old(isEditingRequirements)
      ensures enabledRequirements == old(enabledRequirements) && customRequirements == old(customRequirements)
      ensures isCreatingCustom == old(isCreatingCustom) && isCourseDropdownOpen == old(isCourseDropdownOpen)
    {
      customTitle, customAmount, courseSearchQuery, selectedCourses, selectedFaculties := "", 1, "", [], [];
    }

    /** `removeCustomRequirement`. */
    method RemoveCustomRequirement(id: string)
      modifies this
      ensures State() == old(State()).(customRequirements := RemoveById(old(customRequirements), id))
    {
      customRequirements := RemoveById(customRequirements, id);
    }

    /** `handleConfirmSelection`: the request posted for the current choices,
        if a degree is selected. `delivered` says whether the POST got any
        answer; its status is never read, so a refused request still reports
        the degree to the page and closes the dialog, and only a request that
        throws does not. */
    method ConfirmSelection(delivered: bool) returns (request: Option<DegreeRequest>, closes: bool)
      ensures request == ConfirmRequest(selectedDegree, enabledRequirements, customRequirements)
      ensures closes <==> selectedDegree.Some? && delivered
    {
      closes := selectedDegree.Some? && delivered;
      if selectedDegree.None? {
        return None, closes;
      }
      var modified := HasModifications(selectedDegree, enabledRequirements, customRequirements);
      if !modified {
        return Some(AssignTemplate(selectedDegree.value.id)), closes;
      }
      var built := BuildRequirements(selectedDegree.value.requirements.GetOr([]), enabledRequirements, customRequirements);
      request := Some(AssignCustomised(selectedDegree.value.id, selectedDegree.value.name + " (Custom)", built));
    }
  }
}
