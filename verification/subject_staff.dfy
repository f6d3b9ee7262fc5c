/** The subject-staff page (src/container/Subject/Sub/View.js): the sections of a standard,
    one details modal per section showing who teaches the subject there, and teacher
    assignment and removal. */
module SubjectStaff {
  import opened Js
  import opened Seqs

  datatype SectionRow = SectionRow(section_id: int, section_name: string, t_name: Option<string>)

  /** A subject-staff row of the details modal; every field keeps its JSON value. */
  datatype StaffRow = StaffRow(id: JsValue, t_id: JsValue, t_name: JsValue)

  datatype SubjectRow = SubjectRow(subject_id: JsValue, subject_name: JsValue)

  /** The answer to `view_subjectstaff`: its `result.section` and `result.teacher` parts,
      each `None` when missing or not an array; or a request that threw. */
  datatype StaffResponse = StaffResult(section: Option<seq<SubjectRow>>, teacher: Option<seq<StaffRow>>) | StaffFailed

  /** Both parts must be arrays for the answer to be used. */
  predicate Accepted(response: StaffResponse)
  {
    response.StaffResult? && response.section.Some? && response.teacher.Some?
  }

  /** An empty teacher list is stored as `null`. */
  function NormalizeTeachers(teachers: seq<StaffRow>): (details: Option<seq<StaffRow>>)
    ensures details.None? <==> teachers == []
    ensures details.Some? ==> details.value == teachers
  {
    if |teachers| > 0 then Some(teachers) else None
  }

  /** The teacher id and name `handleViewSubject` reports: those of the first teacher, or
      '-' when there is none. */
  function TeacherSummary(details: Option<seq<StaffRow>>): (idAndName: (JsValue, JsValue))
    ensures details.None? || details.value == [] ==> idAndName == (Str("-"), Str("-"))
    ensures details.Some? && details.value != [] ==> idAndName == (details.value[0].t_id, details.value[0].t_name)
  {
    if details.Some? && |details.value| > 0 then (details.value[0].t_id, details.value[0].t_name)
    else (Str("-"), Str("-"))
  }

  /** The row shown when the subject has no teacher in the section. */
  const Placeholder: StaffRow := StaffRow(Null, Null, Null)

  /** `teacherDetails || [{ id: null, t_id: null, t_name: null }]`. */
  function ModalRows(details: Option<seq<StaffRow>>): (rows: seq<StaffRow>)
    ensures details.None? ==> rows == [Placeholder]
    ensures details.Some? ==> rows == details.value
  {
    if details.Some? then details.value else [Placeholder]
  }

  /** `handleDeleteSubjectStaff`: the id to delete, or `None` ("Teacher not Assigned!") for a
      `null` record. */
  function DeleteStaffRequest(record: JsValue): (id: Option<JsValue>)
    ensures id.None? <==> record == Null
    ensures id.Some? ==> id.value == record
  {
    if record == Null then None else Some(record)
  }

  /** After a normalised answer the modal always has a row, and deleting the placeholder row
      sends nothing. */
  lemma ModalRowsNonEmpty(teachers: seq<StaffRow>)
    ensures |ModalRows(NormalizeTeachers(teachers))| >= 1
    ensures teachers == [] ==> DeleteStaffRequest(ModalRows(NormalizeTeachers(teachers))[0].id).None?
  {
  }

  /** Storing an empty list as `null` and defaulting `null` to the placeholder shows exactly
      the teachers when there are some, and the reported teacher is the first row the modal
      shows; without teachers the report is '-'. */
  lemma ModalShowsTeachers(teachers: seq<StaffRow>)
    ensures ModalRows(NormalizeTeachers(teachers)) == if teachers == [] then [Placeholder] else teachers
    ensures teachers != [] ==>
              TeacherSummary(NormalizeTeachers(teachers)) ==
              (ModalRows(NormalizeTeachers(teachers))[0].t_id, ModalRows(NormalizeTeachers(teachers))[0].t_name)
    ensures teachers == [] ==> TeacherSummary(NormalizeTeachers(teachers)) == (Str("-"), Str("-"))
  {
  }

  function ShowsSection(selected: Option<int>): SectionRow -> bool
  {
    (s: SectionRow) => selected == Some(s.section_id)
  }

  /** The sections whose details modal is visible: `selectedSection === section.section_id`. */
  function VisibleModals(sections: seq<SectionRow>, selected: Option<int>): seq<SectionRow>
  {
    Filter(sections, ShowsSection(selected))
  }

  function SectionIds(sections: seq<SectionRow>): (ids: seq<int>)
    ensures |ids| == |sections| && forall k :: 0 <= k < |sections| ==> ids[k] == sections[k].section_id
  {
    seq(|sections|, k requires 0 <= k < |sections| => sections[k].section_id)
  }

  /** With distinct section ids at most one details modal is visible, and it is the selected
      section's; with no selection none is. */
  lemma {:induction false} AtMostOneModal(sections: seq<SectionRow>, selected: Option<int>)
    requires NoDuplicates(SectionIds(sections))
    ensures |VisibleModals(sections, selected)| <= 1
    ensures forall s :: s in VisibleModals(sections, selected) ==> selected == Some(s.section_id) && s in sections
    ensures selected.None? ==> VisibleModals(sections, selected) == []
    decreases |sections|
  {
    var p := ShowsSection(selected);
    FilterMembers(sections, p);
    if sections != [] {
      var n := |sections| - 1;
      var init := sections[..n];
      assert SectionIds(init) == SectionIds(sections)[..n];
      AtMostOneModal(init, selected);
      if p(sections[n]) {
        forall k | 0 <= k < n
          ensures !p(init[k])
        {
          assert SectionIds(sections)[k] != SectionIds(sections)[n];
        }
        FilterNoneMatch(init, p);
      }
    }
  }

  class SubjectStaffScreen {
    var sections: seq<SectionRow>
    var subjectDetails: Option<seq<SubjectRow>>
    var teacherDetails: Option<seq<StaffRow>>
    var selectedSection: Option<int>
    var modalVisible: bool

    constructor ()
      ensures sections == [] && subjectDetails == None && teacherDetails == None
      ensures selectedSection == None && !modalVisible
    {
      sections := [];
      subjectDetails := None;
      teacherDetails := None;
      selectedSection := None;
      modalVisible := false;
    }

    /** `fetchSections`: an array result replaces the list, any other answer empties it, and
        a failed request leaves it. */
    method FetchSections(response: Response<SectionRow>)
      modifies this
      ensures sections == match response
                          case Array(items) => items
                          case NotAnArray => []
                          case RequestFailed => old(sections)
      ensures unchanged(this`subjectDetails, this`teacherDetails, this`selectedSection, this`modalVisible)
    {
      match response {
        case Array(items) => sections := items;
        case NotAnArray => sections := [];
        case RequestFailed =>
      }
    }

    /** `handleViewSubject`: an accepted answer stores the subject rows and the normalised
        teachers and selects the section, opening its modal; an answer of the wrong shape
        clears only the subject rows; a failed request changes nothing. Returns the teacher
        id and name it reports. */
    method HandleViewSubject(sectionId: int, response: StaffResponse) returns (idAndName: Option<(JsValue, JsValue)>)
      modifies this
      ensures Accepted(response) ==>
                subjectDetails == response.section && teacherDetails == NormalizeTeachers(response.teacher.value) &&
                selectedSection == Some(sectionId) && idAndName == Some(TeacherSummary(teacherDetails))
      ensures response.StaffResult? && !Accepted(response) ==>
                subjectDetails == None && teacherDetails == old(teacherDetails) &&
                selectedSection == old(selectedSection) && idAndName == None
      ensures response.StaffFailed? ==>
                subjectDetails == old(subjectDetails) && teacherDetails == old(teacherDetails) &&
                selectedSection == old(selectedSection) && idAndName == None
      ensures unchanged(this`sections, this`modalVisible)
    {
      idAndName := None;
      if Accepted(response) {
        subjectDetails := response.section;
        teacherDetails := NormalizeTeachers(response.teacher.value);
        idAndName := Some(TeacherSummary(teacherDetails));
        selectedSection := Some(sectionId);
      } else if response.StaffResult? {
        subjectDetails := None;
      }
    }

    /** Closing a section's modal clears the selection. */
    method CloseSectionModal()
      modifies this
      ensures selectedSection == None
      ensures unchanged(this`sections, this`subjectDetails, this`teacherDetails, this`modalVisible)
    {
      selectedSection := None;
    }

    method ShowModal()
      modifies this
      ensures modalVisible
      ensures unchanged(this`sections, this`subjectDetails, this`teacherDetails, this`selectedSection)
    {
      modalVisible := true;
    }

    /** `handleCancel`, and `handleAssignTeacher` once its request succeeded (the refetch of
        the sections that follows is a separate `FetchSections`). */
    method HideModal()
      modifies this
      ensures !modalVisible
      ensures unchanged(this`sections, this`subjectDetails, this`teacherDetails, this`selectedSection)
    {
      modalVisible := false;
    }
  }
}
