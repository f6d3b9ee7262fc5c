/** The standards page (src/container/Classes/Classes.js): standard cards filtered by name,
    edit/delete actions guarded by the standard's name, and the link to its sections. */
module Classes {
  import opened Js
  import opened Text
  import opened Seqs
  import opened Search

  datatype Standard = Standard(standard_name: Option<string>, curriculum: string)

  datatype UpdateStandard = UpdateStandard(standard_name: string, curriculum: string)

  datatype EditOutcome = ValidationFailed | InvalidStandard | Sent(request: UpdateStandard)

  function NamedLike(term: string): Standard -> bool
  {
    (s: Standard) => NameMatches(s.standard_name, term)
  }

  /** `filteredStandards`. */
  function FilteredStandards(standards: seq<Standard>, searchInput: string): seq<Standard>
  {
    Filter(standards, NamedLike(searchInput))
  }

  /** The shown standards are, in order, those with a non-empty name containing the search
      text, letter case ignored. */
  lemma FilteredStandardsCorrect(standards: seq<Standard>, searchInput: string)
    ensures IsSubsequence(FilteredStandards(standards, searchInput), standards)
    ensures forall s :: s in FilteredStandards(standards, searchInput) <==>
              s in standards && Truthy(s.standard_name) && ContainsIgnoringCase(s.standard_name.value, searchInput)
  {
    FilterIsSubsequence(standards, NamedLike(searchInput));
    FilterMembers(standards, NamedLike(searchInput));
  }

  /** `handleDelete`: the name to delete, or `None` ("Invalid standard data") when there is
      no standard or it has no name. */
  function DeleteRequest(standard: Option<Standard>): (name: Option<string>)
    ensures name.Some? <==> standard.Some? && Truthy(standard.value.standard_name)
    ensures name.Some? ==> name == standard.value.standard_name
  {
    if standard.Some? && Truthy(standard.value.standard_name) then standard.value.standard_name else None
  }

  /** Every card of the filtered list offers a delete that is accepted and names that card's
      standard; without a standard nothing is deleted. */
  lemma ShownStandardsDeletable(standards: seq<Standard>, searchInput: string)
    ensures forall s :: s in FilteredStandards(standards, searchInput) ==>
              DeleteRequest(Some(s)).Some? && DeleteRequest(Some(s)) == s.standard_name
    ensures DeleteRequest(None) == None
  {
    FilterMembers(standards, NamedLike(searchInput));
  }

  const SectionsPrefix: string := "/classes/sections?standard="

  /** `redirectToSections`, for a card of the filtered list (whose name is never empty). */
  function RedirectPath(standard: Standard): (path: string)
    requires Truthy(standard.standard_name)
  {
    SectionsPrefix + standard.standard_name.value
  }

  /** The path is the sections page with the standard's name as its query value, so two
      standards lead to the same page exactly when their names are equal. */
  lemma RedirectPathQuery(a: Standard, b: Standard)
    requires Truthy(a.standard_name) && Truthy(b.standard_name)
    ensures StartsWith(RedirectPath(a), SectionsPrefix)
    ensures RedirectPath(a)[|SectionsPrefix|..] == a.standard_name.value
    ensures RedirectPath(a) == RedirectPath(b) <==> a.standard_name == b.standard_name
  {
    if RedirectPath(a) == RedirectPath(b) {
      assert RedirectPath(a)[|SectionsPrefix|..] == RedirectPath(b)[|SectionsPrefix|..];
    }
  }

  class ClassesScreen {
    var standards: seq<Standard>
    var searchInput: string
    var isEditModalVisible: bool
    var selectedStandard: Option<Standard>

    constructor ()
      ensures standards == [] && searchInput == "" && !isEditModalVisible && selectedStandard == None
    {
      standards := [];
      searchInput := "";
      isEditModalVisible := false;
      selectedStandard := None;
    }

    /** `fetchStandards`: an array result replaces the list, any other answer empties it, and
        a failed request leaves it. */
    method FetchStandards(response: Response<Standard>)
      modifies this
      ensures standards == match response
                           case Array(items) => items
                           case NotAnArray => []
                           case RequestFailed => old(standards)
      ensures unchanged(this`searchInput, this`isEditModalVisible, this`selectedStandard)
    {
      match response {
        case Array(items) => standards := items;
        case NotAnArray => standards := [];
        case RequestFailed =>
      }
    }

    method ShowEditModal(standard: Standard)
      modifies this
      ensures selectedStandard == Some(standard) && isEditModalVisible
      ensures unchanged(this`standards, this`searchInput)
    {
      selectedStandard := Some(standard);
      isEditModalVisible := true;
    }

    /** `handleEditOk`: `curriculum` is `None` when the form does not validate. The update
        keeps the selected standard's original name with the new curriculum, and is sent only
        for a selection that could also be deleted (one with a name); a successful request
        closes the modal. */
    method HandleEditOk(curriculum: Option<string>, posted: bool) returns (outcome: EditOutcome)
      modifies this
      ensures curriculum.None? ==> outcome == ValidationFailed
      ensures curriculum.Some? && DeleteRequest(selectedStandard).None? ==> outcome == InvalidStandard
      ensures curriculum.Some? && DeleteRequest(selectedStandard).Some? ==>
                outcome == Sent(UpdateStandard(DeleteRequest(selectedStandard).value, curriculum.value))
      ensures isEditModalVisible == (old(isEditModalVisible) && !(outcome.Sent? && posted))
      ensures unchanged(this`standards, this`searchInput, this`selectedStandard)
    {
      if curriculum.None? {
        outcome := ValidationFailed;
      } else if selectedStandard.Some? && Truthy(selectedStandard.value.standard_name) {
        outcome := Sent(UpdateStandard(selectedStandard.value.standard_name.value, curriculum.value));
        if posted {
          isEditModalVisible := false;
        }
      } else {
        outcome := InvalidStandard;
      }
    }

    method HandleEditCancel()
      modifies this
      ensures !isEditModalVisible && selectedStandard == None
      ensures unchanged(this`standards, this`searchInput)
    {
      isEditModalVisible := false;
      selectedStandard := None;
    }

    method HandleSearch(value: string)
      modifies this
      ensures searchInput == value
      ensures unchanged(this`standards, this`isEditModalVisible, this`selectedStandard)
    {
      searchInput := value;
    }
  }
}
