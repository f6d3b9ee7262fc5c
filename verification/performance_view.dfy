/** The per-standard performance page (src/container/Performance/View.js): the section ranking
    (flatten the nested per-section response, drop repeated students, sort by performance,
    number the ranks), the standard average shown as a progress bar, and the parsing of a
    student's exam score strings. */
module PerformanceView {
  import opened Js
  import opened Text
  import opened Seqs

  // ---------------------------------------------------------------- section ranking

  /** One row of the nested section-performance response; `overall_performance` is the
      value `parseFloat` produced. */
  datatype RawStudent = RawStudent(s_id: string, student_name: string, overall_performance: real)

  /** A row of the ranking table; `rank` is absent until the numbering pass writes it. */
  datatype SectionStudent =
    SectionStudent(student_id: string, student_name: string, overall_performance: real, rank: Option<nat>)

  function ToSectionStudent(raw: RawStudent): SectionStudent
  {
    SectionStudent(raw.s_id, raw.student_name, raw.overall_performance, None)
  }

  /** `inner.map(ToSectionStudent)`. */
  function Rows(inner: seq<RawStudent>): (r: seq<SectionStudent>)
    ensures |r| == |inner| && forall j :: 0 <= j < |inner| ==> r[j] == ToSectionStudent(inner[j])
  {
    seq(|inner|, j requires 0 <= j < |inner| => ToSectionStudent(inner[j]))
  }

  /** `message.map(inner => inner.map(ToSectionStudent)).flat()`. */
  function Flatten(message: seq<seq<RawStudent>>): seq<SectionStudent>
  {
    Concat(message, Rows)
  }

  /** Flattening works group by group: the rows of earlier groups come first. */
  lemma FlattenAppend(a: seq<seq<RawStudent>>, b: seq<seq<RawStudent>>)
    ensures Flatten(a + b) == Flatten(a) + Flatten(b)
  {
    ConcatAppend(a, b, Rows);
  }

  /** Every inner record, and nothing else, reaches the flattened list, unranked. */
  lemma FlattenMembers(message: seq<seq<RawStudent>>)
    ensures forall x :: x in Flatten(message) <==>
              exists i, j :: 0 <= i < |message| && 0 <= j < |message[i]| && x == ToSectionStudent(message[i][j])
  {
    forall x
      ensures x in Flatten(message) <==>
              exists i, j :: 0 <= i < |message| && 0 <= j < |message[i]| && x == ToSectionStudent(message[i][j])
    {
      ConcatMembers(message, Rows, x);
      if x in Flatten(message) {
        var i :| 0 <= i < |message| && x in Rows(message[i]);
        var j :| 0 <= j < |message[i]| && Rows(message[i])[j] == x;
      }
      if exists i, j :: 0 <= i < |message| && 0 <= j < |message[i]| && x == ToSectionStudent(message[i][j]) {
        var i, j :| 0 <= i < |message| && 0 <= j < |message[i]| && x == ToSectionStudent(message[i][j]);
        assert Rows(message[i])[j] == x;
      }
    }
  }

  function Ids(s: seq<SectionStudent>): (ids: seq<string>)
    ensures |ids| == |s| && forall k :: 0 <= k < |s| ==> ids[k] == s[k].student_id
  {
    seq(|s|, k requires 0 <= k < |s| => s[k].student_id)
  }

  /** `Array.from(new Set(ids)).map(id => data.find(s => s.student_id === id))`. */
  function Dedupe(data: seq<SectionStudent>): seq<SectionStudent>
  {
    var ids := Ids(data);
    var unique := Distinct(ids);
    DistinctMembers(ids);
    seq(|unique|, k requires 0 <= k < |unique| => data[FirstIndex(ids, unique[k])])
  }

  /** After deduplication the ids are the distinct ids of the input in order of first
      appearance (so each occurs once, and every input id occurs), and each kept record is
      the first record carrying its id. */
  lemma DedupeKeepsFirstOccurrences(data: seq<SectionStudent>)
    ensures Ids(Dedupe(data)) == Distinct(Ids(data))
    ensures NoDuplicates(Ids(Dedupe(data)))
    ensures forall id :: id in Ids(Dedupe(data)) <==> id in Ids(data)
    ensures forall k :: 0 <= k < |Dedupe(data)| ==>
              Dedupe(data)[k].student_id in Ids(data) &&
              Dedupe(data)[k] == data[FirstIndex(Ids(data), Dedupe(data)[k].student_id)]
  {
    var ids := Ids(data);
    DistinctMembers(ids);
    DistinctNoDuplicates(ids);
    assert Ids(Dedupe(data)) == Distinct(ids);
  }

  /** `(a, b) => b.overall_performance - a.overall_performance`, as an order: non-increasing. */
  ghost predicate SortedByPerformance(s: seq<SectionStudent>)
  {
    forall i, j :: 0 <= i < j < |s| ==> s[i].overall_performance >= s[j].overall_performance
  }

  /** Where a stable sort puts `x` among already sorted rows: after every row that performs
      at least as well. */
  function InsertPos(sorted: seq<SectionStudent>, x: SectionStudent): (k: nat)
    ensures k <= |sorted|
    decreases |sorted|
  {
    if sorted == [] || sorted[|sorted| - 1].overall_performance >= x.overall_performance then |sorted|
    else InsertPos(sorted[..|sorted| - 1], x)
  }

  function Insert(sorted: seq<SectionStudent>, x: SectionStudent): seq<SectionStudent>
  {
    var k := InsertPos(sorted, x);
    sorted[..k] + [x] + sorted[k..]
  }

  /** The stable sort by non-increasing performance (`Array.prototype.sort` is stable, and a
      stable sort by one key has exactly one possible result). */
  function SortByPerformance(s: seq<SectionStudent>): (r: seq<SectionStudent>)
    decreases |s|
  {
    if s == [] then [] else Insert(SortByPerformance(s[..|s| - 1]), s[|s| - 1])
  }

  /** Every row after the insertion position performs worse than `x`. */
  lemma {:induction false} InsertPosAfter(t: seq<SectionStudent>, x: SectionStudent)
    ensures forall i :: InsertPos(t, x) <= i < |t| ==> t[i].overall_performance < x.overall_performance
    decreases |t|
  {
    if t != [] && t[|t| - 1].overall_performance < x.overall_performance {
      InsertPosAfter(t[..|t| - 1], x);
    }
  }

  /** In a sorted list, every row before the insertion position performs at least as well
      as `x`, and every row after it worse. */
  lemma {:induction false} InsertPosBounds(t: seq<SectionStudent>, x: SectionStudent)
    requires SortedByPerformance(t)
    ensures forall i :: 0 <= i < InsertPos(t, x) ==> t[i].overall_performance >= x.overall_performance
    ensures forall i :: InsertPos(t, x) <= i < |t| ==> t[i].overall_performance < x.overall_performance
    decreases |t|
  {
    InsertPosAfter(t, x);
    if t != [] && t[|t| - 1].overall_performance < x.overall_performance {
      InsertPosBounds(t[..|t| - 1], x);
    }
  }

  /** A position with a good-enough row before it and only worse rows after it is the
      insertion position. */
  lemma {:induction false} InsertPosAt(t: seq<SectionStudent>, x: SectionStudent, j: nat)
    requires j <= |t|
    requires j == 0 || t[j - 1].overall_performance >= x.overall_performance
    requires forall k :: j <= k < |t| ==> t[k].overall_performance < x.overall_performance
    ensures InsertPos(t, x) == j
    decreases |t|
  {
    if j < |t| {
      InsertPosAt(t[..|t| - 1], x, j);
    }
  }

  lemma InsertSorted(t: seq<SectionStudent>, x: SectionStudent)
    requires SortedByPerformance(t)
    ensures SortedByPerformance(Insert(t, x))
    ensures multiset(Insert(t, x)) == multiset(t) + multiset{x}
  {
    InsertPosBounds(t, x);
    var k := InsertPos(t, x);
    assert t == t[..k] + t[k..];
  }

  /** Rows with performance `p`. */
  function WithPerformance(p: real): SectionStudent -> bool
  {
    (x: SectionStudent) => x.overall_performance == p
  }

  /** Filtering an insertion filters the part before, the inserted row and the part after. */
  lemma InsertFilter(t: seq<SectionStudent>, x: SectionStudent, q: SectionStudent -> bool)
    ensures Filter(Insert(t, x), q)
         == Filter(t[..InsertPos(t, x)], q) + Filter([x], q) + Filter(t[InsertPos(t, x)..], q)
    ensures Filter(t, q) == Filter(t[..InsertPos(t, x)], q) + Filter(t[InsertPos(t, x)..], q)
  {
    var k := InsertPos(t, x);
    var left, right := t[..k], t[k..];
    assert t == left + right;
    FilterAppend(left + [x], right, q);
    FilterAppend(left, [x], q);
    FilterAppend(left, right, q);
  }

  /** Inserting a row of performance `p` puts it after every row of that performance. */
  lemma InsertOfEqual(t: seq<SectionStudent>, x: SectionStudent, p: real)
    requires x.overall_performance == p
    ensures Filter(Insert(t, x), WithPerformance(p)) == Filter(t, WithPerformance(p)) + [x]
  {
    var q := WithPerformance(p);
    InsertFilter(t, x, q);
    FilterSingleton(x, q);
    NoneEqualAfterInsertPos(t, x);
  }

  /** No row after the insertion position performs like `x`. */
  lemma NoneEqualAfterInsertPos(t: seq<SectionStudent>, x: SectionStudent)
    ensures Filter(t[InsertPos(t, x)..], WithPerformance(x.overall_performance)) == []
  {
    var k := InsertPos(t, x);
    var right := t[k..];
    InsertPosAfter(t, x);
    assert forall m :: 0 <= m < |right| ==> right[m] == t[k + m];
    FilterNoneMatch(right, WithPerformance(x.overall_performance));
  }

  /** Inserting a row of another performance leaves the rows of performance `p` alone. */
  lemma InsertOfOther(t: seq<SectionStudent>, x: SectionStudent, p: real)
    requires x.overall_performance != p
    ensures Filter(Insert(t, x), WithPerformance(p)) == Filter(t, WithPerformance(p))
  {
    var q := WithPerformance(p);
    InsertFilter(t, x, q);
    FilterSingleton(x, q);
  }

  /** Inserting `x` keeps the order among the rows of any one performance, `x` last. */
  lemma InsertStable(t: seq<SectionStudent>, x: SectionStudent, p: real)
    ensures Filter(Insert(t, x), WithPerformance(p)) == Filter(t, WithPerformance(p)) + Filter([x], WithPerformance(p))
  {
    FilterSingleton(x, WithPerformance(p));
    if x.overall_performance == p {
      InsertOfEqual(t, x, p);
    } else {
      InsertOfOther(t, x, p);
    }
  }

  /** The sort yields a non-increasing permutation of its input. */
  lemma {:induction false} SortByPerformanceCorrect(s: seq<SectionStudent>)
    ensures |SortByPerformance(s)| == |s|
    ensures SortedByPerformance(SortByPerformance(s))
    ensures multiset(SortByPerformance(s)) == multiset(s)
    decreases |s|
  {
    if s != [] {
      var init := s[..|s| - 1];
      SortByPerformanceCorrect(init);
      InsertSorted(SortByPerformance(init), s[|s| - 1]);
      assert s == init + [s[|s| - 1]];
    }
  }

  /** The sort is stable: rows of equal performance keep their input order. */
  lemma {:induction false} SortByPerformanceStable(s: seq<SectionStudent>, p: real)
    ensures Filter(SortByPerformance(s), WithPerformance(p)) == Filter(s, WithPerformance(p))
    decreases |s|
  {
    if s != [] {
      var init := s[..|s| - 1];
      var x := s[|s| - 1];
      SortByPerformanceStable(init, p);
      InsertStable(SortByPerformance(init), x, p);
      assert s == init + [x];
      FilterAppend(init, [x], WithPerformance(p));
    }
  }

  /** Sorting rows that are already in order changes nothing, so ranking twice gives the
      same ranks. */
  lemma {:induction false} SortSortedIsIdentity(s: seq<SectionStudent>)
    requires SortedByPerformance(s)
    ensures SortByPerformance(s) == s
    decreases |s|
  {
    if s != [] {
      var init := s[..|s| - 1];
      SortSortedIsIdentity(init);
      assert InsertPos(init, s[|s| - 1]) == |init|;
      assert init[..|init|] == init;
    }
  }

  /** `sorted.forEach((student, index) => { student.rank = index + 1; })` as a value. */
  function WithRanks(s: seq<SectionStudent>): (r: seq<SectionStudent>)
  {
    seq(|s|, i requires 0 <= i < |s| => s[i].(rank := Some(i + 1)))
  }

  /** `Array.prototype.sort` with the performance comparator, in place. */
  method SortInPlace(a: array<SectionStudent>)
    modifies a
    ensures a[..] == SortByPerformance(old(a[..]))
  {
    ghost var input := a[..];
    var i := 0;
    while i < a.Length
      invariant 0 <= i <= a.Length
      invariant a[..i] == SortByPerformance(input[..i])
      invariant a[i..] == input[i..]
    {
      InsertInPlace(a, i);
      assert input[..i + 1] == input[..i] + [input[i]];
      i := i + 1;
    }
    assert a[..] == a[..a.Length];
    assert input == input[..a.Length];
  }

  /** One step of the sort: the row at `i` moves left past every worse row before it. */
  method InsertInPlace(a: array<SectionStudent>, i: nat)
    requires i < a.Length
    modifies a
    ensures a[..i + 1] == Insert(old(a[..i]), old(a[i]))
    ensures a[i + 1..] == old(a[i + 1..])
  {
    ghost var sorted := a[..i];
    var x := a[i];
    var j := i;
    while j > 0 && a[j - 1].overall_performance < x.overall_performance
      invariant 0 <= j <= i
      invariant forall k :: 0 <= k < j ==> a[k] == sorted[k]
      invariant forall k :: j < k <= i ==> a[k] == sorted[k - 1]
      invariant a[i + 1..] == old(a[i + 1..])
      invariant forall k :: j <= k < i ==> sorted[k].overall_performance < x.overall_performance
    {
      a[j] := a[j - 1];
      j := j - 1;
    }
    a[j] := x;
    InsertPosAt(sorted, x, j);
    ShiftedInsert(a[..i + 1], sorted, x, j);
  }

  /** A list that agrees with `sorted` before `j`, holds `x` at `j` and agrees with `sorted`
      shifted by one after `j` is the insertion of `x` at `j`. */
  lemma ShiftedInsert(r: seq<SectionStudent>, sorted: seq<SectionStudent>, x: SectionStudent, j: nat)
    requires j <= |sorted| && |r| == |sorted| + 1
    requires forall k :: 0 <= k < j ==> r[k] == sorted[k]
    requires r[j] == x
    requires forall k :: j < k < |r| ==> r[k] == sorted[k - 1]
    ensures r == sorted[..j] + [x] + sorted[j..]
  {
  }

  /** The `forEach` that writes `rank = index + 1` into each row, in place. */
  method AssignRanks(a: array<SectionStudent>)
    modifies a
    ensures a[..] == WithRanks(old(a[..]))
  {
    var i := 0;
    while i < a.Length
      invariant 0 <= i <= a.Length
      invariant forall k :: 0 <= k < i ==> a[k] == old(a[k]).(rank := Some(k + 1))
      invariant forall k :: i <= k < a.Length ==> a[k] == old(a[k])
    {
      a[i] := a[i].(rank := Some(i + 1));
      i := i + 1;
    }
  }

  /** What `fetchSectionDetails` stores for a response: flatten, deduplicate, sort, rank. */
  function SectionDetails(message: seq<seq<RawStudent>>): seq<SectionStudent>
  {
    WithRanks(SortByPerformance(Dedupe(Flatten(message))))
  }

  /** `fetchSectionDetails` after the response arrived. */
  method FetchSectionDetails(message: seq<seq<RawStudent>>) returns (details: seq<SectionStudent>)
    ensures details == SectionDetails(message)
  {
    var unique := Dedupe(Flatten(message));
    var a := new SectionStudent[|unique|](k requires 0 <= k < |unique| => unique[k]);
    assert a[..] == unique;
    SortInPlace(a);
    AssignRanks(a);
    details := a[..];
  }

  function Unranked(s: seq<SectionStudent>): (r: seq<SectionStudent>)
  {
    seq(|s|, i requires 0 <= i < |s| => s[i].(rank := None))
  }

  lemma FlattenUnranked(message: seq<seq<RawStudent>>)
    ensures forall k :: 0 <= k < |Flatten(message)| ==> Flatten(message)[k].rank == None
  {
    forall k | 0 <= k < |Flatten(message)|
      ensures Flatten(message)[k].rank == None
    {
      var x := Flatten(message)[k];
      ConcatMembers(message, Rows, x);
      var i :| 0 <= i < |message| && x in Rows(message[i]);
    }
  }

  /** The sort keeps exactly the rows it was given. */
  lemma SortMembers(s: seq<SectionStudent>)
    ensures forall y :: y in SortByPerformance(s) <==> y in s
  {
    SortByPerformanceCorrect(s);
    forall y ensures y in SortByPerformance(s) <==> y in s
    {
      assert y in SortByPerformance(s) <==> y in multiset(SortByPerformance(s));
    }
  }

  lemma UnrankedWithRanks(s: seq<SectionStudent>)
    requires forall k :: 0 <= k < |s| ==> s[k].rank == None
    ensures Unranked(WithRanks(s)) == s
  {
  }

  lemma IdsAppend(a: seq<SectionStudent>, b: seq<SectionStudent>)
    ensures Ids(a + b) == Ids(a) + Ids(b)
  {
  }

  /** Splicing a row between two parts adds its id to the ids of the parts. */
  lemma IdsOfSplice(left: seq<SectionStudent>, x: SectionStudent, right: seq<SectionStudent>)
    ensures multiset(Ids(left + [x] + right)) == multiset(Ids(left + right)) + multiset{x.student_id}
  {
    IdsAppend(left, right);
    IdsAppend(left, [x]);
    IdsAppend(left + [x], right);
    var a, b, id := Ids(left), Ids(right), x.student_id;
    assert Ids([x]) == [id];
    assert multiset(a + [id] + b) == multiset(a) + multiset{id} + multiset(b);
  }

  /** Inserting a row adds its id to the ids. */
  lemma InsertIds(t: seq<SectionStudent>, x: SectionStudent)
    ensures multiset(Ids(Insert(t, x))) == multiset(Ids(t)) + multiset{x.student_id}
  {
    var k := InsertPos(t, x);
    assert t == t[..k] + t[k..];
    IdsOfSplice(t[..k], x, t[k..]);
  }

  /** The sort permutes the student ids along with the rows. */
  lemma {:induction false} SortIds(s: seq<SectionStudent>)
    ensures multiset(Ids(SortByPerformance(s))) == multiset(Ids(s))
    decreases |s|
  {
    if s != [] {
      var init := s[..|s| - 1];
      var x := s[|s| - 1];
      SortIds(init);
      InsertIds(SortByPerformance(init), x);
      IdsAppend(init, [x]);
      assert s == init + [x];
    }
  }

  /** The sorted deduplicated rows of a response, all still unranked. */
  lemma SortedUnique(message: seq<seq<RawStudent>>)
    ensures Unranked(SectionDetails(message)) == SortByPerformance(Dedupe(Flatten(message)))
  {
    var unique := Dedupe(Flatten(message));
    DedupeKeepsFirstOccurrences(Flatten(message));
    FlattenUnranked(message);
    SortMembers(unique);
    var sorted := SortByPerformance(unique);
    forall k | 0 <= k < |sorted| ensures sorted[k].rank == None
    {
      assert sorted[k] in unique;
    }
    UnrankedWithRanks(sorted);
  }

  /** The ranking has one row per distinct student id of the response, carries the ranks
      1..N in table order, and its performance never increases down the table. */
  lemma SectionDetailsRanked(message: seq<seq<RawStudent>>)
    ensures |SectionDetails(message)| == |Distinct(Ids(Flatten(message)))|
    ensures forall i :: 0 <= i < |SectionDetails(message)| ==> SectionDetails(message)[i].rank == Some(i + 1)
    ensures SortedByPerformance(SectionDetails(message))
  {
    var unique := Dedupe(Flatten(message));
    SortByPerformanceCorrect(unique);
    assert |unique| == |Distinct(Ids(Flatten(message)))|;
  }

  /** No student appears twice in the ranking, and (ranks aside) the ranking is a
      permutation of the deduplicated rows. */
  lemma SectionDetailsUnique(message: seq<seq<RawStudent>>)
    ensures NoDuplicates(Ids(SectionDetails(message)))
    ensures multiset(Unranked(SectionDetails(message))) == multiset(Dedupe(Flatten(message)))
  {
    var unique := Dedupe(Flatten(message));
    var sorted := SortByPerformance(unique);
    DistinctNoDuplicates(Ids(Flatten(message)));
    assert Ids(unique) == Distinct(Ids(Flatten(message)));
    SortByPerformanceCorrect(unique);
    SortedUnique(message);
    SortIds(unique);
    NoDuplicatesPermutation(Ids(unique), Ids(sorted));
    assert Ids(SectionDetails(message)) == Ids(sorted);
  }

  /** A student with strictly higher performance always gets a smaller rank number. */
  lemma HigherPerformanceRanksFirst(message: seq<seq<RawStudent>>, i: nat, j: nat)
    requires i < |SectionDetails(message)| && j < |SectionDetails(message)|
    requires SectionDetails(message)[i].overall_performance > SectionDetails(message)[j].overall_performance
    ensures SectionDetails(message)[i].rank.Some? && SectionDetails(message)[j].rank.Some?
    ensures SectionDetails(message)[i].rank.value < SectionDetails(message)[j].rank.value
  {
    SectionDetailsRanked(message);
  }

  /** Students with equal performance keep their first-seen order (the sort is stable). */
  lemma TiesKeepFirstSeenOrder(message: seq<seq<RawStudent>>, p: real)
    ensures Filter(Unranked(SectionDetails(message)), WithPerformance(p))
         == Filter(Dedupe(Flatten(message)), WithPerformance(p))
  {
    SortByPerformanceStable(Dedupe(Flatten(message)), p);
    SortedUnique(message);
  }

  // ---------------------------------------------------------------- standard average

  /** A row of the standard-average response; `None` is a `null` performance. */
  datatype SectionAverage = SectionAverage(section_name: Option<string>, overall_performance: Option<real>)

  function PerformanceOrZero(a: SectionAverage): real
  {
    if a.overall_performance.Some? then a.overall_performance.value else 0.0
  }

  /** The `reduce` of `fetchStandardAverage`: null performances count as 0. */
  function TotalAverage(averages: seq<SectionAverage>): real
    decreases |averages|
  {
    if averages == [] then 0.0
    else TotalAverage(averages[..|averages| - 1]) + PerformanceOrZero(averages[|averages| - 1])
  }

  /** `totalAverage / averages.length`; `None` stands for the `NaN` of an empty response. */
  function StandardAverage(averages: seq<SectionAverage>): Option<real>
  {
    if averages == [] then None else Some(TotalAverage(averages) / (|averages| as real))
  }

  /** `Math.floor(standardAverage)`, the value the progress bar shows. */
  function RoundedAverage(average: Option<real>): Option<int>
  {
    if average.Some? then Some(average.value.Floor) else None
  }

  function NullAsZero(a: SectionAverage): SectionAverage
  {
    if a.overall_performance.None? then a.(overall_performance := Some(0.0)) else a
  }

  /** A null performance weighs exactly like a performance of 0: it still counts in the
      denominator. */
  lemma {:induction false} NullCountsAsZero(averages: seq<SectionAverage>)
    ensures StandardAverage(averages)
         == StandardAverage(seq(|averages|, i requires 0 <= i < |averages| => NullAsZero(averages[i])))
  {
    TotalNullAsZero(averages);
  }

  lemma {:induction false} TotalNullAsZero(averages: seq<SectionAverage>)
    ensures TotalAverage(averages)
         == TotalAverage(seq(|averages|, i requires 0 <= i < |averages| => NullAsZero(averages[i])))
    decreases |averages|
  {
    if averages != [] {
      var init := averages[..|averages| - 1];
      TotalNullAsZero(init);
      var z := seq(|averages|, i requires 0 <= i < |averages| => NullAsZero(averages[i]));
      assert z[..|z| - 1] == seq(|init|, i requires 0 <= i < |init| => NullAsZero(init[i]));
    }
  }

  ghost predicate Percentages(averages: seq<SectionAverage>)
  {
    forall i :: 0 <= i < |averages| && averages[i].overall_performance.Some? ==>
      0.0 <= averages[i].overall_performance.value <= 100.0
  }

  lemma {:induction false} TotalBounds(averages: seq<SectionAverage>)
    requires Percentages(averages)
    ensures 0.0 <= TotalAverage(averages) <= 100.0 * (|averages| as real)
    decreases |averages|
  {
    if averages != [] {
      TotalBounds(averages[..|averages| - 1]);
    }
  }

  /** With percentages (or nulls) in the response, the progress bar value stays in 0..100. */
  lemma AverageIsPercentage(averages: seq<SectionAverage>)
    requires averages != [] && Percentages(averages)
    ensures 0 <= RoundedAverage(StandardAverage(averages)).value <= 100
  {
    TotalBounds(averages);
    MeanOfPercentages(TotalAverage(averages), |averages|);
  }

  /** A total of `n > 0` percentages, divided by `n`, is a percentage. */
  lemma MeanOfPercentages(total: real, n: nat)
    requires n > 0 && 0.0 <= total <= 100.0 * (n as real)
    ensures 0.0 <= total / (n as real) <= 100.0
  {
    var avg := total / (n as real);
    assert avg * (n as real) == total;
  }

  // ---------------------------------------------------------------- exam score strings

  /** One row of the student-mark response. */
  datatype MarkEntry = MarkEntry(exam_name: string, individual_scores: string, overall_score: int, subject_names: string)

  /** `None` is the `NaN` that `parseInt` gives for a missing or non-numeric score. */
  datatype SubjectScore = SubjectScore(subject: string, individual_score: Option<int>)

  datatype ProcessedMark = ProcessedMark(
    exam_name: string, individual_scores: string, overall_score: int, subject_names: string,
    subject_data: seq<SubjectScore>)

  /** `const [subject, individual_score] = segment.split(':').map(trim)`; a segment without
      ':' leaves `individual_score` undefined, which `parseInt` turns into `NaN`. */
  function ParseSegment(segment: string): SubjectScore
  {
    var pieces := Split(segment, ':');
    SubjectScore(Trim(pieces[0]), if |pieces| >= 2 then ParseInt(Trim(pieces[1])) else None)
  }

  function ParseSegments(segments: seq<string>): (r: seq<SubjectScore>)
    ensures |r| == |segments| && forall k :: 0 <= k < |segments| ==> r[k] == ParseSegment(segments[k])
  {
    seq(|segments|, k requires 0 <= k < |segments| => ParseSegment(segments[k]))
  }

  /** The `subject_data` of one exam: one entry per comma-separated segment when the scores
      contain ',', otherwise the single entry named by `subject_names`. */
  function SubjectData(entry: MarkEntry): seq<SubjectScore>
  {
    if ',' in entry.individual_scores then ParseSegments(Split(entry.individual_scores, ','))
    else
      [SubjectScore(entry.subject_names, ParseInt(entry.individual_scores))]
  }

  /** Without a ',' the score string is one score: the entry is named by `subject_names`
      (whatever the string holds) and its score reads back what `String` wrote. */
  lemma SingleSubjectData(entry: MarkEntry, score: int)
    requires ',' !in entry.individual_scores
    ensures |SubjectData(entry)| == 1 && SubjectData(entry)[0].subject == entry.subject_names
    ensures SubjectData(entry)[0].individual_score == ParseInt(entry.individual_scores)
    ensures entry.individual_scores == IntToString(score) ==>
              SubjectData(entry) == [SubjectScore(entry.subject_names, Some(score))]
  {
    ParseIntRoundTrip(score);
  }

  /** `studentMarkDetails.map(...)` in `fetchStudentMarkDetails`. */
  function ProcessMarks(entries: seq<MarkEntry>): (r: seq<ProcessedMark>)
    ensures |r| == |entries|
    ensures forall i :: 0 <= i < |entries| ==>
              r[i].exam_name == entries[i].exam_name &&
              r[i].individual_scores == entries[i].individual_scores &&
              r[i].overall_score == entries[i].overall_score &&
              r[i].subject_names == entries[i].subject_names &&
              r[i].subject_data == SubjectData(entries[i])
  {
    seq(|entries|, i requires 0 <= i < |entries| =>
      var e := entries[i];
      ProcessedMark(e.exam_name, e.individual_scores, e.overall_score, e.subject_names, SubjectData(e)))
  }

  /** A subject name as the backend writes it: no separator and no surrounding white space. */
  predicate PlainSubject(name: string)
  {
    ',' !in name && ':' !in name && (name == [] || (!IsSpace(name[0]) && !IsSpace(name[|name| - 1])))
  }

  function FormatSegment(subject: string, score: int): string
  {
    subject + ":" + IntToString(score)
  }

  /** The score string the backend sends for several subjects: `"Maths:85,Science:90"`. */
  function FormatScores(subjects: seq<string>, scores: seq<int>): string
    requires |subjects| == |scores|
  {
    Join(FormatSegments(subjects, scores), ',')
  }

  function FormatSegments(subjects: seq<string>, scores: seq<int>): (r: seq<string>)
    requires |subjects| == |scores|
    ensures |r| == |subjects| && forall k :: 0 <= k < |subjects| ==> r[k] == FormatSegment(subjects[k], scores[k])
  {
    seq(|subjects|, k requires 0 <= k < |subjects| => FormatSegment(subjects[k], scores[k]))
  }

  /** A rendered integer holds only digits and perhaps a leading '-'. */
  lemma IntToStringPlain(score: int)
    ensures ':' !in IntToString(score) && ',' !in IntToString(score)
    ensures !IsSpace(IntToString(score)[0]) && !IsSpace(IntToString(score)[|IntToString(score)| - 1])
  {
    var digits := IntToString(score);
    if score < 0 {
      var m := NatToString(-score);
      assert digits == "-" + m;
      assert AllDigits(m);
      assert digits[|digits| - 1] == m[|m| - 1];
      assert forall c :: c in digits ==> c == '-' || IsDigit(c);
    } else {
      assert forall c :: c in digits ==> IsDigit(c);
    }
  }

  lemma ParseFormattedSegment(subject: string, score: int)
    requires PlainSubject(subject)
    ensures ParseSegment(FormatSegment(subject, score)) == SubjectScore(subject, Some(score))
  {
    var digits := IntToString(score);
    IntToStringPlain(score);
    assert FormatSegment(subject, score) == subject + [':'] + digits;
    SplitAfterPiece(subject, ':', digits);
    SplitNoSeparator(digits, ':');
    assert Split(FormatSegment(subject, score), ':') == [subject, digits];
    TrimPlain(subject);
    TrimPlain(digits);
    ParseIntRoundTrip(score);
  }

  /** Parsing a multi-subject score string gives back each subject with its score, in order. */
  lemma ParseFormattedScores(entry: MarkEntry, subjects: seq<string>, scores: seq<int>)
    requires |subjects| == |scores| >= 2
    requires forall k :: 0 <= k < |subjects| ==> PlainSubject(subjects[k])
    requires entry.individual_scores == FormatScores(subjects, scores)
    ensures |SubjectData(entry)| == |subjects|
    ensures forall k :: 0 <= k < |subjects| ==> SubjectData(entry)[k] == SubjectScore(subjects[k], Some(scores[k]))
  {
    var segments := FormatSegments(subjects, scores);
    forall k | 0 <= k < |segments| ensures ',' !in segments[k]
    {
      IntToStringPlain(scores[k]);
    }
    SplitJoin(segments, ',');
    SplitCount(entry.individual_scores, ',');
    assert SubjectData(entry) == ParseSegments(segments);
    forall k | 0 <= k < |subjects|
      ensures ParseSegment(segments[k]) == SubjectScore(subjects[k], Some(scores[k]))
    {
      ParseFormattedSegment(subjects[k], scores[k]);
    }
  }
}
