/** The fee table (src/container/Fees/Fees.js): a student's fee record is an object whose
    first two keys identify the student and whose remaining keys are fee heads; the page shows
    their total, derives one labelled form field per fee head for the update form, totals the
    form, and shows the student's name or 'N/A'. */
module Fees {
  import opened Js
  import opened Text
  import opened Seqs

  /** One own property of a fee record, in the object's key order. */
  datatype Field = Field(name: string, value: int)

  /** A fee record as its own properties in key order, e.g. s_id, standard, then fee heads. */
  type FeeRecord = seq<Field>

  function FieldName(f: Field): string
  {
    f.name
  }

  function FieldValue(f: Field): int
  {
    f.value
  }

  function Names(r: FeeRecord): (names: seq<string>)
    ensures |names| == |r| && forall k :: 0 <= k < |r| ==> names[k] == r[k].name
  {
    seq(|r|, k requires 0 <= k < |r| => r[k].name)
  }

  /** An object has each key once. */
  predicate WellFormed(r: FeeRecord)
  {
    NoDuplicates(Names(r))
  }

  function SumValues(fields: seq<Field>): int
    decreases |fields|
  {
    if fields == [] then 0 else SumValues(fields[..|fields| - 1]) + fields[|fields| - 1].value
  }

  /** `Object.values(record).slice(2).reduce((total, value) => total + value, 0)`. */
  function TotalFees(r: FeeRecord): int
  {
    if |r| <= 2 then 0 else SumValues(r[2..])
  }

  lemma {:induction false} SumValuesAppend(a: seq<Field>, b: seq<Field>)
    ensures SumValues(a + b) == SumValues(a) + SumValues(b)
    decreases |b|
  {
    if b == [] {
      assert a + b == a;
    } else {
      SumValuesAppend(a, b[..|b| - 1]);
      assert (a + b)[..|a + b| - 1] == a + b[..|b| - 1];
    }
  }

  /** The two identifying keys never count, and each further fee head adds its amount. */
  lemma TotalFeesHeads(r: FeeRecord, f: Field)
    ensures |r| <= 2 ==> TotalFees(r) == 0
    ensures |r| >= 2 ==> TotalFees(r + [f]) == TotalFees(r) + f.value
  {
    if |r| >= 2 {
      assert (r + [f])[2..] == r[2..] + [f];
      SumValuesAppend(r[2..], [f]);
      if |r| == 2 {
        assert r[2..] == [];
      }
    }
  }

  // ---------------------------------------------------------------- update form

  datatype FormField = FormField(name: string, title: string)

  /** `field.charAt(0).toUpperCase() + field.slice(1)`. */
  function Capitalize(s: string): (r: string)
    ensures |r| == |s|
    ensures s != [] ==> r[0] == UpperChar(s[0]) && r[1..] == s[1..]
  {
    if s == [] then [] else Upper([s[0]]) + s[1..]
  }

  /** A label reads as its key with letter case ignored, and labelling a label changes
      nothing. */
  lemma CapitalizeLabel(s: string)
    ensures Lower(Capitalize(s)) == Lower(s)
    ensures Capitalize(Capitalize(s)) == Capitalize(s)
  {
    if s != [] {
      assert LowerChar(UpperChar(s[0])) == LowerChar(s[0]);
      assert UpperChar(UpperChar(s[0])) == UpperChar(s[0]);
      assert Capitalize(s) == [UpperChar(s[0])] + s[1..];
      assert Capitalize(Capitalize(s)) == [UpperChar(UpperChar(s[0]))] + s[1..];
    }
  }

  /** `Object.keys(record).slice(2).map(field => ({ name: field, label }))`. */
  function FormFields(r: FeeRecord): (fields: seq<FormField>)
  {
    if |r| <= 2 then []
    else seq(|r| - 2, k requires 0 <= k < |r| - 2 => FormField(r[k + 2].name, Capitalize(r[k + 2].name)))
  }

  /** The form fields are the record's keys after the first two, in order, each labelled with
      its first character upper-cased and the rest as it is. */
  lemma FormFieldsAreFeeHeads(r: FeeRecord)
    ensures |r| <= 2 ==> FormFields(r) == []
    ensures |r| > 2 ==> |FormFields(r)| == |r| - 2
    ensures forall k :: 0 <= k < |FormFields(r)| ==> FormFields(r)[k].name == Names(r)[k + 2]
    ensures forall k :: 0 <= k < |FormFields(r)| ==>
              |FormFields(r)[k].title| == |FormFields(r)[k].name| &&
              (FormFields(r)[k].name != [] ==>
                 FormFields(r)[k].title[0] == UpperChar(FormFields(r)[k].name[0]) &&
                 FormFields(r)[k].title[1..] == FormFields(r)[k].name[1..])
  {
  }

  predicate HasStudentId(studentId: int, r: FeeRecord)
  {
    exists k :: 0 <= k < |r| && r[k] == Field("s_id", studentId)
  }

  function IdIs(studentId: int): FeeRecord -> bool
  {
    (r: FeeRecord) => HasStudentId(studentId, r)
  }

  /** `handleUpdate(studentId)`: the form fields of the first record with that `s_id`, and
      the values the form is filled with; `None` when no record has it (`Object.keys` of
      `undefined` throws). */
  function HandleUpdate(studentFees: seq<FeeRecord>, studentId: int): (r: Option<(seq<FormField>, FeeRecord)>)
    ensures r.None? <==> forall k :: 0 <= k < |studentFees| ==> !HasStudentId(studentId, studentFees[k])
    ensures r.Some? ==>
              exists k :: 0 <= k < |studentFees| && HasStudentId(studentId, studentFees[k]) &&
                (forall j :: 0 <= j < k ==> !HasStudentId(studentId, studentFees[j])) &&
                r.value == (FormFields(studentFees[k]), studentFees[k])
  {
    var i := FindIndex(studentFees, IdIs(studentId));
    if i.Some? then Some((FormFields(studentFees[i.value]), studentFees[i.value])) else None
  }

  /** The values of a record by key, as `form.setFieldsValue(selectedStudent)` stores them. */
  function Values(r: FeeRecord): map<string, int>
  {
    Assign(map[], r, FieldName, FieldValue)
  }

  /** `formFields.reduce((sum, { name }) => sum + form.getFieldValue(name), 0)`; `None` when a
      field has no value (`undefined` makes the sum `NaN`). */
  function FormTotal(fields: seq<FormField>, values: map<string, int>): Option<int>
    decreases |fields|
  {
    if fields == [] then Some(0)
    else
      var rest := FormTotal(fields[..|fields| - 1], values);
      var name := fields[|fields| - 1].name;
      if rest.Some? && name in values then Some(rest.value + values[name]) else None
  }

  lemma ValuesOfDistinctKeys(r: FeeRecord, k: nat)
    requires WellFormed(r) && k < |r|
    ensures r[k].name in Values(r) && Values(r)[r[k].name] == r[k].value
  {
    AssignLastWins(map[], r, FieldName, FieldValue, r[k].name);
    var j :| LastWithKey(r, FieldName, r[k].name, j) && Values(r)[r[k].name] == FieldValue(r[j]);
    assert Names(r)[j] == Names(r)[k];
  }

  /** When each form field's stored value is the amount beside it, the form total is the sum
      of the amounts. */
  lemma {:induction false} FormTotalOfStored(fields: seq<FormField>, values: map<string, int>, amounts: seq<Field>)
    requires |fields| == |amounts|
    requires forall k :: 0 <= k < |fields| ==> fields[k].name in values && values[fields[k].name] == amounts[k].value
    ensures FormTotal(fields, values) == Some(SumValues(amounts))
    decreases |fields|
  {
    if fields != [] {
      var n := |fields| - 1;
      FormTotalOfStored(fields[..n], values, amounts[..n]);
    }
  }

  lemma FormTotalOfHeads(r: FeeRecord, m: nat)
    requires WellFormed(r) && m + 2 <= |r|
    ensures FormTotal(FormFields(r)[..m], Values(r)) == Some(SumValues(r[2..m + 2]))
  {
    var fields := FormFields(r)[..m];
    var amounts := r[2..m + 2];
    forall k | 0 <= k < m
      ensures fields[k].name in Values(r) && Values(r)[fields[k].name] == amounts[k].value
    {
      ValuesOfDistinctKeys(r, k + 2);
    }
    FormTotalOfStored(fields, Values(r), amounts);
  }

  /** Right after `handleUpdate` fills the form with the record, the form total equals the
      table's total for that record. */
  lemma FormTotalMatchesTable(r: FeeRecord)
    requires WellFormed(r)
    ensures FormTotal(FormFields(r), Values(r)) == Some(TotalFees(r))
  {
    if |r| > 2 {
      FormTotalOfHeads(r, |r| - 2);
      assert FormFields(r)[..|r| - 2] == FormFields(r);
      assert r[2..|r|] == r[2..];
    }
  }

  // ---------------------------------------------------------------- student name

  datatype Student = Student(s_id: int, s_name: Option<string>)

  function StudentWithId(id: int): Student -> bool
  {
    (s: Student) => s.s_id == id
  }

  /** `students.find(student => student.s_id === id)?.s_name || 'N/A'`. */
  function StudentName(students: seq<Student>, id: int): (name: string)
    ensures (forall k :: 0 <= k < |students| ==> students[k].s_id != id) ==> name == "N/A"
    ensures forall k :: 0 <= k < |students| && students[k].s_id == id &&
                        (forall j :: 0 <= j < k ==> students[j].s_id != id) ==>
              name == (if Truthy(students[k].s_name) then students[k].s_name.value else "N/A")
  {
    var i := FindIndex(students, StudentWithId(id));
    if i.Some? && Truthy(students[i.value].s_name) then students[i.value].s_name.value else "N/A"
  }
}
