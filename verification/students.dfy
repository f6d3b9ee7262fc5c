/** The student list (src/container/Students/Student.js): all students, filtered by a search
    over every field value, with create, edit and view modals. */
module Students {
  import opened Js
  import opened Search

  /** A student row: its id and the values of all its fields in key order. */
  datatype Student = Student(s_id: int, fields: seq<JsValue>)

  function FieldsOf(s: Student): seq<JsValue>
  {
    s.fields
  }

  /** The effect that recomputes `filteredStudents` whenever the students or the search input
      change; `None` when stringifying some field throws. */
  function Filtered(students: seq<Student>, searchInput: string): Option<seq<Student>>
  {
    SearchRecords(students, FieldsOf, searchInput)
  }

  class StudentScreen {
    var searchInput: string
    var students: seq<Student>
    var filteredStudents: seq<Student>
    var isModalVisible: bool
    var isEditModalVisible: bool
    var isViewModalVisible: bool
    var selectedStudent: Option<Student>
    /** Whether the filtering effect has thrown. The effect has no `try` and the page no error
        boundary, so React then unmounts the page and nothing of it is shown any more. */
    var crashed: bool

    /** Until the page crashes, the shown list is the search of the current list with the
        current input. */
    ghost predicate Valid()
      reads this
    {
      !crashed ==> Filtered(students, searchInput) == Some(filteredStudents)
    }

    constructor ()
      ensures Valid()
      ensures searchInput == "" && students == [] && filteredStudents == []
      ensures !isModalVisible && !isEditModalVisible && !isViewModalVisible && selectedStudent == None
      ensures !crashed
    {
      crashed := false;
      searchInput := "";
      students := [];
      filteredStudents := [];
      isModalVisible := false;
      isEditModalVisible := false;
      isViewModalVisible := false;
      selectedStudent := None;
    }

    /** Runs the filtering effect: the shown list becomes the search result, and a throwing
        search crashes the page (the list is then never set). */
    method RefreshFiltered()
      modifies this`filteredStudents, this`crashed
      ensures Valid()
      ensures crashed == (old(crashed) || Filtered(students, searchInput).None?)
      ensures filteredStudents == if Filtered(students, searchInput).Some? then Filtered(students, searchInput).value
                                  else old(filteredStudents)
    {
      var filtered := Filtered(students, searchInput);
      if filtered.Some? {
        filteredStudents := filtered.value;
      } else {
        crashed := true;
      }
    }

    /** `fetchStudents`: an array result replaces the list, a missing or non-array one empties
        it, and a failed request leaves it. */
    method FetchStudents(response: Response<Student>)
      modifies this
      ensures Valid()
      ensures students == match response
                          case Array(items) => items
                          case NotAnArray => []
                          case RequestFailed => old(students)
      ensures searchInput == old(searchInput) && selectedStudent == old(selectedStudent)
      ensures isModalVisible == old(isModalVisible) && isEditModalVisible == old(isEditModalVisible)
      ensures isViewModalVisible == old(isViewModalVisible)
      ensures crashed == (old(crashed) || Filtered(students, searchInput).None?)
      ensures filteredStudents == if Filtered(students, searchInput).Some? then Filtered(students, searchInput).value
                                  else old(filteredStudents)
    {
      match response {
        case Array(items) => students := items;
        case NotAnArray => students := [];
        case RequestFailed =>
      }
      RefreshFiltered();
    }

    /** `handleSearch`. */
    method HandleSearch(value: string)
      modifies this
      ensures Valid()
      ensures searchInput == value
      ensures students == old(students) && selectedStudent == old(selectedStudent)
      ensures isModalVisible == old(isModalVisible) && isEditModalVisible == old(isEditModalVisible)
      ensures isViewModalVisible == old(isViewModalVisible)
      ensures crashed == (old(crashed) || Filtered(students, searchInput).None?)
      ensures filteredStudents == if Filtered(students, searchInput).Some? then Filtered(students, searchInput).value
                                  else old(filteredStudents)
    {
      searchInput := value;
      RefreshFiltered();
    }

    method ShowEditModal(student: Student)
      modifies this
      ensures selectedStudent == Some(student) && isEditModalVisible
      ensures searchInput == old(searchInput) && students == old(students) && filteredStudents == old(filteredStudents)
      ensures crashed == old(crashed)
      ensures isModalVisible == old(isModalVisible) && isViewModalVisible == old(isViewModalVisible)
    {
      selectedStudent := Some(student);
      isEditModalVisible := true;
    }

    /** `handleEditOk`: sends the form values with the selected student's id (`None` when no
        student is selected, which throws before the request); a successful request hides
        the edit modal but keeps the selection. */
    method HandleEditOk(values: map<string, string>, posted: bool) returns (request: Option<(map<string, string>, int)>)
      modifies this
      ensures request == if old(selectedStudent).Some? then Some((values, old(selectedStudent).value.s_id)) else None
      ensures isEditModalVisible == (old(isEditModalVisible) && !(posted && request.Some?))
      ensures searchInput == old(searchInput) && students == old(students) && filteredStudents == old(filteredStudents)
      ensures crashed == old(crashed)
      ensures selectedStudent == old(selectedStudent)
      ensures isModalVisible == old(isModalVisible) && isViewModalVisible == old(isViewModalVisible)
    {
      request := None;
      if selectedStudent.Some? {
        request := Some((values, selectedStudent.value.s_id));
        if posted {
          isEditModalVisible := false;
        }
      }
    }

    /** `handleEditCancel`: hides the edit modal and clears the selection. */
    method HandleEditCancel()
      modifies this
      ensures !isEditModalVisible && selectedStudent == None
      ensures searchInput == old(searchInput) && students == old(students) && filteredStudents == old(filteredStudents)
      ensures crashed == old(crashed)
      ensures isModalVisible == old(isModalVisible) && isViewModalVisible == old(isViewModalVisible)
    {
      isEditModalVisible := false;
      selectedStudent := None;
    }

    method ShowViewModal(student: Student)
      modifies this
      ensures selectedStudent == Some(student) && isViewModalVisible
      ensures searchInput == old(searchInput) && students == old(students) && filteredStudents == old(filteredStudents)
      ensures crashed == old(crashed)
      ensures isModalVisible == old(isModalVisible) && isEditModalVisible == old(isEditModalVisible)
    {
      selectedStudent := Some(student);
      isViewModalVisible := true;
    }

    /** `handleViewCancel`: hides the view modal and clears the selection. */
    method HandleViewCancel()
      modifies this
      ensures !isViewModalVisible && selectedStudent == None
      ensures searchInput == old(searchInput) && students == old(students) && filteredStudents == old(filteredStudents)
      ensures crashed == old(crashed)
      ensures isModalVisible == old(isModalVisible) && isEditModalVisible == old(isEditModalVisible)
    {
      isViewModalVisible := false;
      selectedStudent := None;
    }
  }
}
