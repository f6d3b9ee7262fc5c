/** The sections of one standard (src/container/Classes/Sub/Section.js): section cards
    filtered by name, and edit/delete actions guarded by the section's id. */
module Sections {
  import opened Js
  import opened Text
  import opened Seqs
  import opened Search

  datatype Section = Section(section_id: Option<int>, section_name: Option<string>, t_id: Option<int>, t_name: Option<string>)

  /** The edit form's two fields. */
  datatype SectionForm = SectionForm(sectionName: Option<string>, teacherId: Option<string>)

  datatype UpdateSection = UpdateSection(section_id: int, section_name: string, t_id: string, standard: Option<string>)

  datatype EditOutcome = ValidationFailed | InvalidSection | Sent(request: UpdateSection)

  function NamedLike(term: string): Section -> bool
  {
    (s: Section) => NameMatches(s.section_name, term)
  }

  /** `filteredSections`. */
  function FilteredSections(sections: seq<Section>, searchInput: string): seq<Section>
  {
    Filter(sections, NamedLike(searchInput))
  }

  /** The shown sections are, in order, those with a non-empty name containing the search
      text; a section without a name is never shown, not even for an empty search. */
  lemma FilteredSectionsCorrect(sections: seq<Section>, searchInput: string)
    ensures IsSubsequence(FilteredSections(sections, searchInput), sections)
    ensures forall s :: s in FilteredSections(sections, searchInput) <==>
              s in sections && Truthy(s.section_name) && ContainsIgnoringCase(s.section_name.value, searchInput)
    ensures forall s :: s in FilteredSections(sections, "") <==> s in sections && Truthy(s.section_name)
  {
    FilterIsSubsequence(sections, NamedLike(searchInput));
    FilterMembers(sections, NamedLike(searchInput));
    FilterMembers(sections, NamedLike(""));
    forall s: Section | Truthy(s.section_name)
      ensures ContainsIgnoringCase(s.section_name.value, "")
    {
      ContainsIgnoringCaseMeaning(s.section_name.value, "");
    }
  }

  /** `handleDelete`: the id to delete, or `None` ("Invalid section data") when there is no
      section or it has no id. */
  function DeleteRequest(section: Option<Section>): (id: Option<int>)
    ensures id.Some? <==> section.Some? && TruthyId(section.value.section_id)
    ensures id.Some? ==> id == section.value.section_id
  {
    if section.Some? && TruthyId(section.value.section_id) then section.value.section_id else None
  }

  /** A section shown in the list can be deleted exactly when its id is present and not 0:
      a section whose id is 0 exists but is refused as "Invalid section data", and what is
      deleted is always that section's own, non-zero id. */
  lemma DeleteRequestOfCard(section: Section)
    ensures section.section_id == Some(0) ==> DeleteRequest(Some(section)) == None
    ensures section.section_id.None? ==> DeleteRequest(Some(section)) == None
    ensures section.section_id.Some? && section.section_id.value != 0 ==> DeleteRequest(Some(section)) == section.section_id
    ensures DeleteRequest(Some(section)).Some? ==> DeleteRequest(Some(section)).value != 0
    ensures DeleteRequest(None) == None
  {
  }

  /** The card title: `(section.section_name || 'N/A').toUpperCase()`. */
  function CardTitle(section: Section): (title: string)
    ensures !Truthy(section.section_name) ==> title == "N/A"
    ensures Truthy(section.section_name) ==> |title| == |section.section_name.value|
  {
    Upper(if Truthy(section.section_name) then section.section_name.value else "N/A")
  }

  /** The title is already in upper case and reads, letter case ignored, as the name. */
  lemma CardTitleUpper(section: Section)
    ensures Upper(CardTitle(section)) == CardTitle(section)
    ensures Truthy(section.section_name) ==> Lower(CardTitle(section)) == Lower(section.section_name.value)
  {
    var t := CardTitle(section);
    assert forall i :: 0 <= i < |t| ==> UpperChar(UpperChar(t[i])) == UpperChar(t[i]);
    if Truthy(section.section_name) {
      LowerUpper(section.section_name.value);
    } else {
      assert forall i :: 0 <= i < |t| ==> UpperChar(t[i]) == t[i];
    }
  }

  class SectionScreen {
    /** The `standard` query parameter of the page. */
    var standardName: Option<string>
    var searchInput: string
    var sections: seq<Section>
    var isEditModalVisible: bool
    var selectedSection: Option<Section>
    /** The values the edit form was last filled with. */
    var prefill: SectionForm

    constructor (standard: Option<string>)
      ensures standardName == standard && searchInput == "" && sections == []
      ensures !isEditModalVisible && selectedSection == None && prefill == SectionForm(None, None)
    {
      standardName := standard;
      searchInput := "";
      sections := [];
      isEditModalVisible := false;
      selectedSection := None;
      prefill := SectionForm(None, None);
    }

    /** `fetchSections`: without a standard name no request is made; otherwise an array
        answer replaces the list, any other answer empties it, and a failed request leaves
        it. */
    method FetchSections(response: Response<Section>) returns (requested: bool)
      modifies this
      ensures requested == Truthy(standardName)
      ensures sections == if !requested then old(sections) else match response
                            case Array(items) => items
                            case NotAnArray => []
                            case RequestFailed => old(sections)
      ensures unchanged(this`standardName, this`searchInput, this`isEditModalVisible, this`selectedSection, this`prefill)
    {
      requested := Truthy(standardName);
      if requested {
        match response {
          case Array(items) => sections := items;
          case NotAnArray => sections := [];
          case RequestFailed =>
        }
      }
    }

    /** `showEditModal`: selects the section and fills the form with its name and its
        teacher's name. */
    method ShowEditModal(section: Section)
      modifies this
      ensures selectedSection == Some(section) && isEditModalVisible
      ensures prefill == SectionForm(section.section_name, section.t_name)
      ensures unchanged(this`standardName, this`searchInput, this`sections)
    {
      selectedSection := Some(section);
      isEditModalVisible := true;
      prefill := SectionForm(section.section_name, section.t_name);
    }

    /** `handleEditOk`: `values` is `None` when the form does not validate. The update is
        sent only for a selected section that could also be deleted (one with an id); a
        successful request empties the form, closes the modal and keeps the selection. */
    method HandleEditOk(values: Option<(string, string)>, posted: bool) returns (outcome: EditOutcome)
      modifies this
      ensures values.None? ==> outcome == ValidationFailed
      ensures values.Some? && DeleteRequest(selectedSection).None? ==> outcome == InvalidSection
      ensures values.Some? && DeleteRequest(selectedSection).Some? ==>
                outcome == Sent(UpdateSection(DeleteRequest(selectedSection).value, values.value.0, values.value.1, standardName))
      ensures isEditModalVisible == (old(isEditModalVisible) && !(outcome.Sent? && posted))
      ensures prefill == if outcome.Sent? && posted then SectionForm(None, None) else old(prefill)
      ensures unchanged(this`standardName, this`searchInput, this`sections, this`selectedSection)
    {
      if values.None? {
        outcome := ValidationFailed;
      } else if selectedSection.Some? && TruthyId(selectedSection.value.section_id) {
        outcome := Sent(UpdateSection(selectedSection.value.section_id.value, values.value.0, values.value.1, standardName));
        if posted {
          prefill := SectionForm(None, None);
          isEditModalVisible := false;
        }
      } else {
        outcome := InvalidSection;
      }
    }

    /** `handleEditCancel`: empties the form, hides the modal and forgets the selection. */
    method HandleEditCancel()
      modifies this
      ensures !isEditModalVisible && selectedSection == None && prefill == SectionForm(None, None)
      ensures unchanged(this`standardName, this`searchInput, this`sections)
    {
      prefill := SectionForm(None, None);
      isEditModalVisible := false;
      selectedSection := None;
    }

    method SetSearchInput(value: string)
      modifies this
      ensures searchInput == value
      ensures unchanged(this`standardName, this`sections, this`isEditModalVisible, this`selectedSection, this`prefill)
    {
      searchInput := value;
    }
  }
}
