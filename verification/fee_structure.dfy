/** The fee-structure screen (src/container/Fees/FeeStructure.js): the create drawer generates
    one input per requested field and posts the entered values joined with commas; the view
    drawer shows a standard's fee heads and posts the edited values keyed by fee type. */
module FeeStructure {
  import opened Js
  import opened Text
  import opened Seqs

  datatype Standard = Standard(standard_name: string, curriculum: string)

  /** One fee head of a standard's structure as the backend sends it. */
  datatype Fee = Fee(feetype: string, value: string)

  /** One generated input of the create form: its React key, its form name inside `fields`
      and its label. */
  datatype FieldInput = FieldInput(key: nat, name: string, caption: string)

  function FieldName(i: nat): string
  {
    "field" + NatToString(i + 1)
  }

  function FieldCaption(i: nat): string
  {
    "Field " + NatToString(i + 1)
  }

  /** The number of passes of `for (let i = 0; i < numFields; i++)`; `None` is the `NaN`
      that `parseInt` gives for an empty or non-numeric entry. */
  function InputCount(numFields: Option<int>): nat
  {
    if numFields.Some? && numFields.value > 0 then numFields.value else 0
  }

  /** `generateFieldsInputs`: pushes one labelled input per requested field. */
  method GenerateFieldsInputs(numFields: Option<int>) returns (inputs: seq<FieldInput>)
    ensures |inputs| == InputCount(numFields)
    ensures forall i :: 0 <= i < |inputs| ==> inputs[i] == FieldInput(i, FieldName(i), FieldCaption(i))
  {
    inputs := [];
    var i := 0;
    while numFields.Some? && i < numFields.value
      invariant 0 <= i && |inputs| == i
      invariant numFields.Some? && numFields.value > 0 ==> i <= numFields.value
      invariant numFields.None? || numFields.value <= 0 ==> i == 0
      invariant forall k :: 0 <= k < i ==> inputs[k] == FieldInput(k, FieldName(k), FieldCaption(k))
      decreases if numFields.Some? then numFields.value - i else 0
    {
      inputs := inputs + [FieldInput(i, FieldName(i), FieldCaption(i))];
      i := i + 1;
    }
  }

  /** The generated names are pairwise distinct and each carries its one-based position. */
  lemma FieldNamesDistinct(i: nat, j: nat)
    ensures ParseInt(FieldName(i)[5..]) == Some(i + 1)
    ensures FieldName(i) == FieldName(j) ==> i == j
  {
    NumberAfterPrefix("field", i + 1, j + 1);
  }

  /** `Object.values(values.fields).slice(1).join(',')`: the values of the `fields` group in
      registration order; the first is the number-of-fields entry, which is dropped. */
  function CreatePayload(fieldValues: seq<string>): string
  {
    if |fieldValues| <= 1 then "" else Join(fieldValues[1..], ',')
  }

  /** The backend can split the payload back into the entered values, provided none of them
      contains a comma; with no entered value the payload is empty. */
  lemma CreatePayloadRoundTrip(fieldValues: seq<string>)
    requires forall k :: 1 <= k < |fieldValues| ==> ',' !in fieldValues[k]
    ensures |fieldValues| <= 1 ==> CreatePayload(fieldValues) == ""
    ensures |fieldValues| >= 2 ==> Split(CreatePayload(fieldValues), ',') == fieldValues[1..]
  {
    if |fieldValues| >= 2 {
      SplitJoin(fieldValues[1..], ',');
    }
  }

  /** The form value registered as `fees[index].value`, `undefined` when there is none. */
  function FormValue(form: map<nat, string>, index: nat): Option<string>
  {
    if index in form then Some(form[index]) else None
  }

  function EntryKey(e: (string, Option<string>)): string
  {
    e.0
  }

  function EntryValue(e: (string, Option<string>)): Option<string>
  {
    e.1
  }

  /** Each fee's type paired with the form value at its index. */
  function Entries(fees: seq<Fee>, form: map<nat, string>): (entries: seq<(string, Option<string>)>)
    ensures |entries| == |fees|
    ensures forall i :: 0 <= i < |fees| ==> entries[i] == (fees[i].feetype, FormValue(form, i))
  {
    seq(|fees|, i requires 0 <= i < |fees| => (fees[i].feetype, FormValue(form, i)))
  }

  /** The object `valuesToUpdate` after every fee has written its entry. */
  function UpdateValues(fees: seq<Fee>, form: map<nat, string>): map<string, Option<string>>
  {
    Assign(map[], Entries(fees, form), EntryKey, EntryValue)
  }

  ghost predicate LastOfType(fees: seq<Fee>, feetype: string, i: int)
  {
    0 <= i < |fees| && fees[i].feetype == feetype && forall j :: i < j < |fees| ==> fees[j].feetype != feetype
  }

  /** The update object has one key per fee type present, holding the form value at the last
      fee of that type. */
  lemma UpdateValuesLastWins(fees: seq<Fee>, form: map<nat, string>, feetype: string)
    ensures feetype in UpdateValues(fees, form) <==> exists i :: 0 <= i < |fees| && fees[i].feetype == feetype
    ensures feetype in UpdateValues(fees, form) ==>
              exists i :: LastOfType(fees, feetype, i) && UpdateValues(fees, form)[feetype] == FormValue(form, i)
  {
    var entries := Entries(fees, form);
    AssignLastWins(map[], entries, EntryKey, EntryValue, feetype);
    if exists i :: 0 <= i < |fees| && fees[i].feetype == feetype {
      var i :| 0 <= i < |fees| && fees[i].feetype == feetype;
      assert EntryKey(entries[i]) == feetype;
    }
    if feetype in UpdateValues(fees, form) {
      var i :| LastWithKey(entries, EntryKey, feetype, i) && UpdateValues(fees, form)[feetype] == EntryValue(entries[i]);
      assert LastOfType(fees, feetype, i);
    } else {
      forall i | 0 <= i < |fees|
        ensures fees[i].feetype != feetype
      {
        assert EntryKey(entries[i]) == fees[i].feetype;
      }
    }
  }

  /** The create drawer, the view drawer and the lists the screen holds. */
  class StructureScreen {
    var createVisible: bool
    var viewVisible: bool
    var numFields: Option<int>
    /** The `fields` part of the create state, which only the reset writes. */
    var fields: map<string, string>
    var standards: seq<Standard>
    var feesStructure: seq<Fee>
    var selectedStandard: Option<string>

    constructor ()
      ensures !createVisible && !viewVisible && numFields == Some(1) && fields == map[]
      ensures standards == [] && feesStructure == [] && selectedStandard == None
    {
      createVisible := false;
      viewVisible := false;
      numFields := Some(1);
      fields := map[];
      standards := [];
      feesStructure := [];
      selectedStandard := None;
    }

    /** `fetchStandards`: an array result is stored as it came, field for field; anything
        else leaves the list as it was. */
    method FetchStandards(response: Response<Standard>)
      modifies this
      ensures response.Array? ==> standards == response.items
      ensures !response.Array? ==> standards == old(standards)
      ensures createVisible == old(createVisible) && viewVisible == old(viewVisible)
      ensures numFields == old(numFields) && fields == old(fields) && feesStructure == old(feesStructure)
      ensures selectedStandard == old(selectedStandard)
    {
      if response.Array? {
        standards := response.items;
      }
    }

    method ShowCreateDrawer()
      modifies this
      ensures createVisible
      ensures viewVisible == old(viewVisible) && numFields == old(numFields) && fields == old(fields) && standards == old(standards)
      ensures feesStructure == old(feesStructure) && selectedStandard == old(selectedStandard)
    {
      createVisible := true;
    }

    /** `onCloseCreateDrawer`: hides the drawer and resets the structure to one field. */
    method OnCloseCreateDrawer()
      modifies this
      ensures !createVisible && numFields == Some(1) && fields == map[]
      ensures viewVisible == old(viewVisible) && standards == old(standards)
      ensures feesStructure == old(feesStructure) && selectedStandard == old(selectedStandard)
    {
      createVisible := false;
      numFields := Some(1);
      fields := map[];
    }

    /** Typing in the number-of-fields input stores `parseInt` of the text, called without a
        radix; for the decimal text a number input yields it agrees with `ParseInt`
        (`AutoRadixAgreesWithDecimal`). */
    method SetNumFields(text: string)
      modifies this
      ensures numFields == ParseIntAutoRadix(text) && fields == old(fields)
      ensures createVisible == old(createVisible) && viewVisible == old(viewVisible)
      ensures standards == old(standards) && feesStructure == old(feesStructure)
      ensures selectedStandard == old(selectedStandard)
    {
      numFields := ParseIntAutoRadix(text);
    }

    /** `handleCreateStructure`: builds the payload; when the post succeeds the drawer closes
        and the structure is reset, when it fails nothing changes. The refetch of the
        standards that follows a success is a separate `FetchStandards`. */
    method HandleCreateStructure(fieldValues: seq<string>, posted: bool) returns (payload: string)
      modifies this
      ensures payload == CreatePayload(fieldValues)
      ensures posted ==> !createVisible && numFields == Some(1) && fields == map[]
      ensures !posted ==> createVisible == old(createVisible) && numFields == old(numFields) && fields == old(fields)
      ensures viewVisible == old(viewVisible) && standards == old(standards)
      ensures feesStructure == old(feesStructure) && selectedStandard == old(selectedStandard)
    {
      payload := CreatePayload(fieldValues);
      if posted {
        OnCloseCreateDrawer();
      }
    }

    /** `handleStandardClick` with `viewFeesStructure`: selects the standard, clears the
        list, stores an array answer and opens the view drawer. */
    method HandleStandardClick(standard: string, response: Response<Fee>)
      modifies this
      ensures selectedStandard == Some(standard) && viewVisible
      ensures feesStructure == if response.Array? then response.items else []
      ensures createVisible == old(createVisible) && numFields == old(numFields) && fields == old(fields)
      ensures standards == old(standards)
    {
      selectedStandard := Some(standard);
      feesStructure := [];
      if response.Array? {
        feesStructure := response.items;
      }
      viewVisible := true;
    }

    method OnCloseViewDrawer()
      modifies this
      ensures feesStructure == [] && !viewVisible
      ensures createVisible == old(createVisible) && numFields == old(numFields) && fields == old(fields)
      ensures standards == old(standards) && selectedStandard == old(selectedStandard)
    {
      feesStructure := [];
      viewVisible := false;
    }

    /** `handleUpdateFees`: writes each fee's form value under its fee type. */
    method HandleUpdateFees(form: map<nat, string>) returns (valuesToUpdate: map<string, Option<string>>)
      ensures valuesToUpdate == UpdateValues(feesStructure, form)
    {
      valuesToUpdate := map[];
      ghost var entries := Entries(feesStructure, form);
      var index := 0;
      while index < |feesStructure|
        invariant index <= |feesStructure|
        invariant valuesToUpdate == Assign(map[], entries[..index], EntryKey, EntryValue)
      {
        var fee := feesStructure[index];
        valuesToUpdate := valuesToUpdate[fee.feetype := FormValue(form, index)];
        assert entries[..index + 1][..index] == entries[..index];
        index := index + 1;
      }
      assert entries[..index] == entries;
    }
  }
}
