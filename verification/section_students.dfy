/** The students of one section (src/container/Classes/Sub/Details.js): the section's students
    filtered by name, an edit-or-assign modal, and removal from the section. */
module SectionStudents {
  import opened Js
  import opened Seqs
  import opened Search

  /** A student row; `section_id` keeps its JSON value, so a missing one is `Undefined` and
      only an explicit `null` is `Null`. `s_name` is `None` when the row's name is not a
      string (null, missing or another type). */
  datatype Student = Student(s_id: int, s_name: Option<string>, section_id: JsValue)

  /** The student picked in the assign list, tagged with the page's section. */
  datatype AssignChoice = AssignChoice(s_id: int, section_id: Option<string>, s_name: string)

  /** The body of an `update_student` request. */
  datatype Update =
    | EditStudent(values: map<string, string>, s_id: int)
    | SetSection(s_id: int, section_id: Option<string>)

  function Unassigned(s: Student): bool
  {
    s.section_id == Null
  }

  /** `result.filter(student => student.section_id === null)`. */
  function UnassignedStudents(all: seq<Student>): seq<Student>
  {
    Filter(all, Unassigned)
  }

  /** The unassigned students are, in their order, exactly those whose section is an explicit
      `null`. */
  lemma UnassignedStudentsCorrect(all: seq<Student>)
    ensures IsSubsequence(UnassignedStudents(all), all)
    ensures forall s :: s in UnassignedStudents(all) <==> s in all && s.section_id == Null
  {
    FilterIsSubsequence(all, Unassigned);
    FilterMembers(all, Unassigned);
  }

  function NameContains(term: string): Student -> bool
  {
    (s: Student) => s.s_name.Some? && ContainsIgnoringCase(s.s_name.value, term)
  }

  /** The table rows: `students.filter(student => student.s_name.toLowerCase().includes(...))`,
      evaluated while rendering. `filter` calls the test on every row, so one name that is not
      a string makes the render throw and, with no error boundary, unmounts the page: `None`. */
  function ShownStudents(students: seq<Student>, searchTerm: string): Option<seq<Student>>
  {
    if forall k :: 0 <= k < |students| ==> students[k].s_name.Some? then
      Some(Filter(students, NameContains(searchTerm)))
    else None
  }

  /** The table fails exactly when some row's name is not a string, wherever that row is;
      otherwise it shows, in order, the students whose name contains the term, and every
      student for the empty term. */
  lemma ShownStudentsCorrect(students: seq<Student>, searchTerm: string)
    ensures ShownStudents(students, searchTerm).None? <==>
              exists k :: 0 <= k < |students| && students[k].s_name.None?
    ensures ShownStudents(students, searchTerm).Some? ==>
              IsSubsequence(ShownStudents(students, searchTerm).value, students)
    ensures ShownStudents(students, searchTerm).Some? ==>
              forall s :: s in ShownStudents(students, searchTerm).value <==>
                s in students && s.s_name.Some? && ContainsIgnoringCase(s.s_name.value, searchTerm)
    ensures ShownStudents(students, "").Some? ==> ShownStudents(students, "") == Some(students)
  {
    FilterIsSubsequence(students, NameContains(searchTerm));
    FilterMembers(students, NameContains(searchTerm));
    if ShownStudents(students, "").Some? {
      forall k | 0 <= k < |students|
        ensures NameContains("")(students[k])
      {
        ContainsIgnoringCaseMeaning(students[k].s_name.value, "");
      }
      FilterKeepsAll(students, NameContains(""));
    }
  }

  /** The request `handleEditOk` sends: an edit of the selected student takes precedence over
      a pending assignment, which sends only the id and the section; with neither there is
      no request. */
  function EditOkRequest(selectedEdit: Option<Student>, selectedAssign: Option<AssignChoice>, values: map<string, string>): (r: Option<Update>)
    ensures selectedEdit.Some? ==> r == Some(EditStudent(values, selectedEdit.value.s_id))
    ensures selectedEdit.None? && selectedAssign.Some? ==>
              r == Some(SetSection(selectedAssign.value.s_id, selectedAssign.value.section_id))
    ensures r.None? <==> selectedEdit.None? && selectedAssign.None?
  {
    if selectedEdit.Some? then Some(EditStudent(values, selectedEdit.value.s_id))
    else if selectedAssign.Some? then Some(SetSection(selectedAssign.value.s_id, selectedAssign.value.section_id))
    else None
  }

  class SectionStudentsScreen {
    var sectionId: Option<string>
    var students: seq<Student>
    var unassignedStudents: seq<Student>
    var isModalVisible: bool
    var selectedEdit: Option<Student>
    var selectedAssign: Option<AssignChoice>
    var searchTerm: string

    /** The page opened with the `section` value of its query string: the section id starts
        as `null` and adopts that value only when it is truthy, so a missing or empty
        `?section=` leaves it `null`. */
    constructor (section: Option<string>)
      ensures sectionId == (if Truthy(section) then section else None)
      ensures sectionId.Some? ==> sectionId.value != ""
      ensures students == [] && unassignedStudents == []
      ensures !isModalVisible && selectedEdit == None && selectedAssign == None && searchTerm == ""
    {
      sectionId := if Truthy(section) then section else None;
      students := [];
      unassignedStudents := [];
      isModalVisible := false;
      selectedEdit := None;
      selectedAssign := None;
      searchTerm := "";
    }

    /** `fetchStudents`: an array answer replaces the list, any other answer empties it, and a
        failed request leaves it. */
    method FetchStudents(response: Response<Student>)
      modifies this
      ensures students == match response
                          case Array(items) => items
                          case NotAnArray => []
                          case RequestFailed => old(students)
      ensures unchanged(this`sectionId, this`unassignedStudents, this`isModalVisible)
      ensures unchanged(this`selectedEdit, this`selectedAssign, this`searchTerm)
    {
      match response
      case Array(items) => students := items;
      case NotAnArray => students := [];
      case RequestFailed =>
    }

    /** `showModal` with `fetchUnassignedStudents`. */
    method ShowModal(response: Response<Student>)
      modifies this
      ensures isModalVisible
      ensures unassignedStudents == match response
                                    case Array(items) => UnassignedStudents(items)
                                    case NotAnArray => []
                                    case RequestFailed => old(unassignedStudents)
      ensures unchanged(this`sectionId, this`students, this`selectedEdit, this`selectedAssign, this`searchTerm)
    {
      isModalVisible := true;
      match response
      case Array(items) => unassignedStudents := UnassignedStudents(items);
      case NotAnArray => unassignedStudents := [];
      case RequestFailed =>
    }

    method ShowEditModal(student: Student)
      modifies this
      ensures selectedEdit == Some(student) && isModalVisible
      ensures unchanged(this`sectionId, this`students, this`unassignedStudents, this`selectedAssign, this`searchTerm)
    {
      selectedEdit := Some(student);
      isModalVisible := true;
    }

    /** Picking a student in the assign list tags it with this page's section. */
    method SelectAssign(s_id: int, s_name: string)
      modifies this
      ensures selectedAssign == Some(AssignChoice(s_id, sectionId, s_name))
      ensures unchanged(this`sectionId, this`students, this`unassignedStudents, this`isModalVisible)
      ensures unchanged(this`selectedEdit, this`searchTerm)
    {
      selectedAssign := Some(AssignChoice(s_id, sectionId, s_name));
    }

    /** `handleEditOk`: `values` is `None` when the form does not validate; `posted` says
        whether the request succeeded. On success the modal closes and both selections are
        cleared; on any failure nothing changes. The refetch that follows is a separate
        `FetchStudents`. */
    method HandleEditOk(values: Option<map<string, string>>, posted: bool) returns (request: Option<Update>)
      modifies this
      ensures values.None? ==> request.None?
      ensures values.Some? ==> request == EditOkRequest(old(selectedEdit), old(selectedAssign), values.value)
      ensures values.Some? && (posted || request.None?) ==>
                !isModalVisible && selectedEdit == None && selectedAssign == None
      ensures values.None? || (!posted && request.Some?) ==>
                isModalVisible == old(isModalVisible) && selectedEdit == old(selectedEdit) && selectedAssign == old(selectedAssign)
      ensures unchanged(this`sectionId, this`students, this`unassignedStudents, this`searchTerm)
    {
      request := None;
      if values.Some? {
        request := EditOkRequest(selectedEdit, selectedAssign, values.value);
        if posted || request.None? {
          isModalVisible := false;
          selectedEdit := None;
          selectedAssign := None;
        }
      }
    }

    /** `handleEditCancel`: closes the modal and drops the edit selection only. */
    method HandleEditCancel()
      modifies this
      ensures !isModalVisible && selectedEdit == None
      ensures unchanged(this`sectionId, this`students, this`unassignedStudents, this`selectedAssign, this`searchTerm)
    {
      isModalVisible := false;
      selectedEdit := None;
    }

    /** `handleDelete`: removing a student sets its section to `null`. */
    method HandleDelete(studentId: int) returns (request: Update)
      ensures request.SetSection? && request.s_id == studentId && request.section_id.None?
    {
      request := SetSection(studentId, None);
    }

    method HandleSearch(value: string)
      modifies this
      ensures searchTerm == value
      ensures unchanged(this`sectionId, this`students, this`unassignedStudents, this`isModalVisible)
      ensures unchanged(this`selectedEdit, this`selectedAssign)
    {
      searchTerm := value;
    }
  }
}
