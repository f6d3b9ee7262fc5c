/** The subjects of one standard (src/container/Subject/Sub/Details.js): the fetched subjects,
    a name search over the full list, edit selection, and subject creation. */
module SubjectList {
  import opened Js
  import opened Seqs
  import opened Search

  /** A subject card; `subject_name` is `None` when the name is not a string (null, missing
      or another type). */
  datatype Subject = Subject(subject_id: int, subject_name: Option<string>)

  datatype CreateSubject = CreateSubject(subject_name: string, standard_name: Option<string>)

  function NamedLike(term: string): Subject -> bool
  {
    (s: Subject) => s.subject_name.Some? && ContainsIgnoringCase(s.subject_name.value, term)
  }

  /** `subjects.filter(subject => subject.subject_name.toLowerCase().includes(...))`: `filter`
      tests every subject, so one name that is not a string makes it throw (`None`). */
  function SearchSubjects(subjects: seq<Subject>, value: string): Option<seq<Subject>>
  {
    if forall k :: 0 <= k < |subjects| ==> subjects[k].subject_name.Some? then
      Some(Filter(subjects, NamedLike(value)))
    else None
  }

  /** The search throws exactly when some name is not a string, wherever it is; otherwise it
      keeps, in order, the subjects whose name contains the text, and the empty search keeps
      them all. */
  lemma SearchSubjectsCorrect(subjects: seq<Subject>, value: string)
    ensures SearchSubjects(subjects, value).None? <==>
              exists k :: 0 <= k < |subjects| && subjects[k].subject_name.None?
    ensures SearchSubjects(subjects, value).Some? ==>
              IsSubsequence(SearchSubjects(subjects, value).value, subjects)
    ensures SearchSubjects(subjects, value).Some? ==>
              forall s :: s in SearchSubjects(subjects, value).value <==>
                s in subjects && s.subject_name.Some? && ContainsIgnoringCase(s.subject_name.value, value)
    ensures SearchSubjects(subjects, "").Some? ==> SearchSubjects(subjects, "") == Some(subjects)
  {
    FilterIsSubsequence(subjects, NamedLike(value));
    FilterMembers(subjects, NamedLike(value));
    if SearchSubjects(subjects, "").Some? {
      forall k | 0 <= k < |subjects|
        ensures NamedLike("")(subjects[k])
      {
        ContainsIgnoringCaseMeaning(subjects[k].subject_name.value, "");
      }
      FilterKeepsAll(subjects, NamedLike(""));
    }
  }

  class SubjectListScreen {
    /** The `standard` query parameter of the page. */
    var standardName: Option<string>
    var subjects: seq<Subject>
    var filteredSubjects: seq<Subject>
    var searchInput: string
    var isAddModalVisible: bool
    var isEditModalVisible: bool
    var editedSubject: Option<Subject>

    constructor (standard: Option<string>)
      ensures standardName == standard && subjects == [] && filteredSubjects == [] && searchInput == ""
      ensures !isAddModalVisible && !isEditModalVisible && editedSubject == None
    {
      standardName := standard;
      subjects := [];
      filteredSubjects := [];
      searchInput := "";
      isAddModalVisible := false;
      isEditModalVisible := false;
      editedSubject := None;
    }

    /** `fetchSubjects`: an array answer becomes both the list and the shown list, whatever
        the search input; any other answer empties both; a failed request changes nothing. */
    method FetchSubjects(response: Response<Subject>)
      modifies this
      ensures subjects == filteredSubjects || response.RequestFailed?
      ensures subjects == match response
                          case Array(items) => items
                          case NotAnArray => []
                          case RequestFailed => old(subjects)
      ensures response.RequestFailed? ==> filteredSubjects == old(filteredSubjects)
      ensures unchanged(this`standardName, this`searchInput, this`isAddModalVisible, this`isEditModalVisible, this`editedSubject)
    {
      match response {
        case Array(items) =>
          subjects := items;
          filteredSubjects := items;
        case NotAnArray =>
          subjects := [];
          filteredSubjects := [];
        case RequestFailed =>
      }
    }

    /** `handleSearch`: filters the full list, never the previous result. The input is set
        first; when the filter throws, the error leaves the change handler (React does not
        unmount for it) and the shown list stays. */
    method HandleSearch(value: string)
      modifies this
      ensures searchInput == value
      ensures filteredSubjects == match SearchSubjects(subjects, value)
                                  case Some(found) => found
                                  case None => old(filteredSubjects)
      ensures unchanged(this`standardName, this`subjects, this`isAddModalVisible, this`isEditModalVisible, this`editedSubject)
    {
      searchInput := value;
      var filtered := SearchSubjects(subjects, value);
      if filtered.Some? {
        filteredSubjects := filtered.value;
      }
    }

    method HandleEdit(subject: Subject)
      modifies this
      ensures editedSubject == Some(subject) && isEditModalVisible
      ensures unchanged(this`standardName, this`subjects, this`filteredSubjects, this`searchInput, this`isAddModalVisible)
    {
      editedSubject := Some(subject);
      isEditModalVisible := true;
    }

    method HandleEditCancel()
      modifies this
      ensures editedSubject == None && !isEditModalVisible
      ensures unchanged(this`standardName, this`subjects, this`filteredSubjects, this`searchInput, this`isAddModalVisible)
    {
      isEditModalVisible := false;
      editedSubject := None;
    }

    /** `handleAddOk`: `subjectName` is `None` when the form does not validate; the request
        names the page's standard, and a successful one closes the add modal. */
    method HandleAddOk(subjectName: Option<string>, posted: bool) returns (request: Option<CreateSubject>)
      modifies this
      ensures request == if subjectName.Some? then Some(CreateSubject(subjectName.value, standardName)) else None
      ensures isAddModalVisible == (old(isAddModalVisible) && !(request.Some? && posted))
      ensures unchanged(this`standardName, this`subjects, this`filteredSubjects, this`searchInput)
      ensures unchanged(this`isEditModalVisible, this`editedSubject)
    {
      request := None;
      if subjectName.Some? {
        request := Some(CreateSubject(subjectName.value, standardName));
        if posted {
          isAddModalVisible := false;
        }
      }
    }
  }

  /** Searching narrows from the full list each time: a search followed by any other search
      shows what the second search alone would show, and when the searches throw the list
      shown before both stays. */
  method SearchTwice(screen: SubjectListScreen, first: string, second: string)
    modifies screen
    ensures screen.searchInput == second
    ensures SearchSubjects(old(screen.subjects), second).Some? ==>
              screen.filteredSubjects == SearchSubjects(old(screen.subjects), second).value
    ensures SearchSubjects(old(screen.subjects), second).None? ==>
              screen.filteredSubjects == old(screen.filteredSubjects)
  {
    screen.HandleSearch(first);
    screen.HandleSearch(second);
  }
}
