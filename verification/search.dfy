/** The search boxes of the list screens: a case-insensitive substring test on one name, and
    the whole-record search that stringifies every field value of a record. */
module Search {
  import opened Js
  import opened Text
  import opened Seqs

  /** `text.toLowerCase().includes(term.toLowerCase())`. */
  predicate ContainsIgnoringCase(text: string, term: string)
  {
    Includes(Lower(text), Lower(term))
  }

  lemma LowerUpper(s: string)
    ensures Lower(Upper(s)) == Lower(s)
  {
    assert forall i :: 0 <= i < |s| ==> LowerChar(UpperChar(s[i])) == LowerChar(s[i]);
  }

  /** The test finds the term at some offset of the lower-cased text, and the letter case of
      either side does not matter. */
  lemma ContainsIgnoringCaseMeaning(text: string, term: string)
    ensures ContainsIgnoringCase(text, term) <==> exists i :: OccursAt(Lower(text), Lower(term), i)
    ensures ContainsIgnoringCase(Upper(text), term) == ContainsIgnoringCase(text, term)
    ensures ContainsIgnoringCase(text, Upper(term)) == ContainsIgnoringCase(text, term)
    ensures ContainsIgnoringCase(text, "")
  {
    IncludesAt(Lower(text), Lower(term));
    LowerUpper(text);
    LowerUpper(term);
    assert Lower("") == "";
  }

  /** A name filter guarded by truthiness: `name && name.toLowerCase().includes(...)`. */
  predicate NameMatches(name: Option<string>, term: string)
  {
    Truthy(name) && ContainsIgnoringCase(name.value, term)
  }

  // ---------------------------------------------------------------- whole-record search

  /** `value.toString()`; `None` for `null` and `undefined`, which have no `toString`. */
  function ToText(v: JsValue): (r: Option<string>)
    ensures r.None? <==> v.Null? || v.Undefined?
  {
    match v
    case Str(s) => Some(s)
    case Num(n) => Some(IntToString(n))
    case Bool(b) => Some(if b then "true" else "false")
    case Null => None
    case Undefined => None
  }

  predicate ValueMatches(v: JsValue, term: string)
  {
    ToText(v).Some? && ContainsIgnoringCase(ToText(v).value, term)
  }

  /** `Object.values(record).some(value => value.toString().toLowerCase().includes(...))`,
      evaluated from the first value and stopping at the first match; `None` when it reaches
      a `null` or `undefined` value first (the `TypeError`). */
  function SomeValueMatches(values: seq<JsValue>, term: string): (r: Option<bool>)
    ensures r == Some(true) <==> exists k :: 0 <= k < |values| && ValueMatches(values[k], term) &&
                                             (forall j :: 0 <= j < k ==> ToText(values[j]).Some?)
    ensures r == Some(false) <==> forall k :: 0 <= k < |values| ==> ToText(values[k]).Some? && !ValueMatches(values[k], term)
    decreases |values|
  {
    if values == [] then Some(false)
    else if ToText(values[0]).None? then None
    else if ContainsIgnoringCase(ToText(values[0]).value, term) then Some(true)
    else
      var rest := SomeValueMatches(values[1..], term);
      assert forall k :: 1 <= k < |values| ==> values[1..][k - 1] == values[k];
      rest
  }

  function RecordMatches<R>(valuesOf: R -> seq<JsValue>, term: string): R -> bool
  {
    (x: R) => SomeValueMatches(valuesOf(x), term) == Some(true)
  }

  /** `records.filter(...)` with the record test above; `None` when the test throws on some
      record. */
  function SearchRecords<R>(records: seq<R>, valuesOf: R -> seq<JsValue>, term: string): (r: Option<seq<R>>)
    ensures r.Some? <==> forall k :: 0 <= k < |records| ==> SomeValueMatches(valuesOf(records[k]), term).Some?
    decreases |records|
  {
    if records == [] then Some([])
    else
      var init := records[..|records| - 1];
      var rest := SearchRecords(init, valuesOf, term);
      var last := records[|records| - 1];
      assert forall k :: 0 <= k < |init| ==> init[k] == records[k];
      assert records == init + [last];
      var m := SomeValueMatches(valuesOf(last), term);
      if rest.None? || m.None? then None
      else Some(rest.value + (if m.value then [last] else []))
  }

  lemma {:induction false} SearchRecordsIsFilter<R>(records: seq<R>, valuesOf: R -> seq<JsValue>, term: string)
    requires SearchRecords(records, valuesOf, term).Some?
    ensures SearchRecords(records, valuesOf, term).value == Filter(records, RecordMatches(valuesOf, term))
    decreases |records|
  {
    if records != [] {
      SearchRecordsIsFilter(records[..|records| - 1], valuesOf, term);
    }
  }

  /** Once the test does not throw, it holds exactly when some field matches. */
  lemma SomeValueMatchesDefined(values: seq<JsValue>, term: string)
    requires SomeValueMatches(values, term).Some?
    ensures SomeValueMatches(values, term).value <==> exists k :: 0 <= k < |values| && ValueMatches(values[k], term)
  {
  }

  /** When the search succeeds it keeps, in their order, exactly the records with a field
      whose text contains the term, letter case ignored. */
  lemma SearchRecordsCorrect<R>(records: seq<R>, valuesOf: R -> seq<JsValue>, term: string)
    requires SearchRecords(records, valuesOf, term).Some?
    ensures IsSubsequence(SearchRecords(records, valuesOf, term).value, records)
    ensures forall x :: x in SearchRecords(records, valuesOf, term).value <==>
              x in records && exists k :: 0 <= k < |valuesOf(x)| && ValueMatches(valuesOf(x)[k], term)
  {
    var p := RecordMatches(valuesOf, term);
    SearchRecordsIsFilter(records, valuesOf, term);
    FilterIsSubsequence(records, p);
    FilterMembers(records, p);
    forall x | x in records
      ensures p(x) <==> exists k :: 0 <= k < |valuesOf(x)| && ValueMatches(valuesOf(x)[k], term)
    {
      var i :| 0 <= i < |records| && records[i] == x;
      SomeValueMatchesDefined(valuesOf(x), term);
    }
  }

  /** An empty search keeps every record whose first field has a value, and drops a record
      with no fields at all. */
  lemma EmptySearchKeepsAll<R>(records: seq<R>, valuesOf: R -> seq<JsValue>)
    requires forall k :: 0 <= k < |records| ==> valuesOf(records[k]) != [] && ToText(valuesOf(records[k])[0]).Some?
    ensures SearchRecords(records, valuesOf, "") == Some(records)
  {
    forall k | 0 <= k < |records|
      ensures SomeValueMatches(valuesOf(records[k]), "") == Some(true)
    {
      ContainsIgnoringCaseMeaning(ToText(valuesOf(records[k])[0]).value, "");
    }
    SearchRecordsIsFilter(records, valuesOf, "");
    FilterKeepsAll(records, RecordMatches(valuesOf, ""));
  }

  /** Values read, from the first, without a match until one that is `null` or `undefined`
      make the test throw, wherever that value stands. */
  lemma {:induction false} ThrowsAtNull(values: seq<JsValue>, term: string, i: nat)
    requires i < |values|
    requires forall j :: 0 <= j < i ==> ToText(values[j]).Some? && !ValueMatches(values[j], term)
    requires ToText(values[i]).None?
    ensures SomeValueMatches(values, term).None?
    decreases i
  {
    if i > 0 {
      assert !ValueMatches(values[0], term);
      ThrowsAtNull(values[1..], term, i - 1);
    }
  }

  /** Such a record makes the whole search throw. */
  lemma NullValueFails<R>(records: seq<R>, valuesOf: R -> seq<JsValue>, term: string, k: nat, i: nat)
    requires k < |records| && i < |valuesOf(records[k])|
    requires forall j :: 0 <= j < i ==> ToText(valuesOf(records[k])[j]).Some? && !ValueMatches(valuesOf(records[k])[j], term)
    requires ToText(valuesOf(records[k])[i]).None?
    ensures SearchRecords(records, valuesOf, term).None?
  {
    ThrowsAtNull(valuesOf(records[k]), term, i);
  }
}
