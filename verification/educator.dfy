/** The teacher list (src/container/Educator/Educator.js): fetched teachers filtered by a search
    over every field value, edit selection, and the message shown when a delete fails. */
module Educator {
  import opened Js
  import opened Text
  import opened Search

  /** A teacher row: its id and the values of all its fields in key order. */
  datatype Teacher = Teacher(t_id: int, fields: seq<JsValue>)

  function FieldsOf(t: Teacher): seq<JsValue>
  {
    t.fields
  }

  /** How a delete request failed: no HTTP response at all, or a response with a status and
      the `details` text of its body, if any. */
  datatype DeleteFailure = NoResponse | HttpError(status: int, details: Option<string>)

  datatype DeleteMessage = CannotDeleteAssigned | DeleteFailed

  /** The message `handleDelete` shows for a failed delete. */
  function DeleteErrorMessage(failure: DeleteFailure): (m: DeleteMessage)
    ensures m == CannotDeleteAssigned <==>
              failure.HttpError? && failure.status == 500 && Truthy(failure.details) &&
              Includes(failure.details.value, "foreign key constraint")
  {
    match failure
    case HttpError(status, details) =>
      if status == 500 && Truthy(details) && Includes(details.value, "foreign key constraint")
      then CannotDeleteAssigned
      else DeleteFailed
    case NoResponse => DeleteFailed
  }

  /** Only a server error mentioning the constraint anywhere in its details is reported as an
      assigned teacher; the same details with another status are a plain failure. */
  lemma DeleteErrorNeedsStatus500(status: int, prefix: string, suffix: string)
    ensures DeleteErrorMessage(HttpError(status, Some(prefix + "foreign key constraint" + suffix))) ==
              if status == 500 then CannotDeleteAssigned else DeleteFailed
  {
    var d := prefix + "foreign key constraint" + suffix;
    assert OccursAt(d, "foreign key constraint", |prefix|) by {
      assert d[|prefix|..|prefix| + |"foreign key constraint"|] == "foreign key constraint";
    }
    IncludesAt(d, "foreign key constraint");
  }

  class EducatorScreen {
    var teachers: seq<Teacher>
    var filteredTeachers: seq<Teacher>
    var searchInput: string
    var isEditModalVisible: bool
    var editedTeacher: Option<Teacher>

    constructor ()
      ensures teachers == [] && filteredTeachers == [] && searchInput == ""
      ensures !isEditModalVisible && editedTeacher == None
    {
      teachers := [];
      filteredTeachers := [];
      searchInput := "";
      isEditModalVisible := false;
      editedTeacher := None;
    }

    /** `fetchTeachers`: an array answer is stored and its search with the current input is
        shown (if that search throws, the shown list stays); any other answer empties both
        lists; a failed request changes nothing. */
    method FetchTeachers(response: Response<Teacher>)
      modifies this
      ensures response.Array? ==> teachers == response.items
      ensures response.Array? ==>
                filteredTeachers == match SearchRecords(response.items, FieldsOf, searchInput)
                                    case Some(found) => found
                                    case None => old(filteredTeachers)
      ensures response.NotAnArray? ==> teachers == [] && filteredTeachers == []
      ensures response.RequestFailed? ==> teachers == old(teachers) && filteredTeachers == old(filteredTeachers)
      ensures searchInput == old(searchInput) && isEditModalVisible == old(isEditModalVisible)
      ensures editedTeacher == old(editedTeacher)
    {
      match response {
        case Array(items) =>
          teachers := items;
          var filtered := SearchRecords(items, FieldsOf, searchInput);
          if filtered.Some? {
            filteredTeachers := filtered.value;
          }
        case NotAnArray =>
          teachers := [];
          filteredTeachers := [];
        case RequestFailed =>
      }
    }

    /** `handleSearch`: a new input refetches the teachers and filters the fresh list; when
        that search throws, the fresh list is stored but the shown list stays. */
    method HandleSearch(value: string, response: Response<Teacher>)
      modifies this
      ensures searchInput == value
      ensures response.Array? ==> teachers == response.items
      ensures response.Array? && SearchRecords(response.items, FieldsOf, value).Some? ==>
                filteredTeachers == SearchRecords(response.items, FieldsOf, value).value
      ensures response.Array? && SearchRecords(response.items, FieldsOf, value).None? ==>
                filteredTeachers == old(filteredTeachers)
      ensures response.NotAnArray? ==> teachers == [] && filteredTeachers == []
      ensures response.RequestFailed? ==> teachers == old(teachers) && filteredTeachers == old(filteredTeachers)
      ensures isEditModalVisible == old(isEditModalVisible) && editedTeacher == old(editedTeacher)
    {
      searchInput := value;
      FetchTeachers(response);
    }

    method HandleEdit(teacher: Teacher)
      modifies this
      ensures editedTeacher == Some(teacher) && isEditModalVisible
      ensures teachers == old(teachers) && filteredTeachers == old(filteredTeachers) && searchInput == old(searchInput)
    {
      editedTeacher := Some(teacher);
      isEditModalVisible := true;
    }

    method HandleEditCancel()
      modifies this
      ensures editedTeacher == None && !isEditModalVisible
      ensures teachers == old(teachers) && filteredTeachers == old(filteredTeachers) && searchInput == old(searchInput)
    {
      isEditModalVisible := false;
      editedTeacher := None;
    }
  }
}
