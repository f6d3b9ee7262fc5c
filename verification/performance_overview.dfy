/** The standards overview (src/container/Performance/Performance.js): for each standard,
    the matching performance entry, the number of named sections, the average of the parseable
    section performances, and the number of students, with a fallback record whenever a
    response is missing, malformed or fails. */
module PerformanceOverview {
  import opened Js
  import opened Seqs
  import PerformanceView

  type SectionAverage = PerformanceView.SectionAverage

  datatype Standard = Standard(standard_name: string, curriculum: string)

  /** An entry of `standard_details`. */
  datatype StandardDetail = StandardDetail(standard: string, performance: real)

  /** An entry of `section_details`. */
  datatype SectionDetail = SectionDetail(standard: string, student_count: int)

  /** The `view_perform` response: its `standard_details` array and its `section_details`
      (`None` when that is not an array, so that its `reduce` throws); or a message whose
      `standard_details` is not an array; or a failed request. */
  datatype PerformResponse =
    | Perform(standard_details: seq<StandardDetail>, section_details: Option<seq<SectionDetail>>)
    | PerformMalformed
    | PerformFailed

  /** `{ ...standard, performance, studentCount, overallPerformance }`. */
  datatype StandardRecord =
    StandardRecord(standard: Standard, performance: Option<StandardDetail>, studentCount: int, overallPerformance: real)

  // ---------------------------------------------------------------- aggregates

  predicate HasSectionName(item: SectionAverage)
  {
    Truthy(item.section_name)
  }

  /** The `forEach` that counts sections with a truthy `section_name`. */
  method SectionCount(items: seq<SectionAverage>) returns (sectionCount: nat)
    ensures sectionCount == |Filter(items, HasSectionName)|
  {
    sectionCount := 0;
    var i := 0;
    while i < |items|
      invariant 0 <= i <= |items|
      invariant sectionCount == |Filter(items[..i], HasSectionName)|
    {
      assert items[..i + 1][..i] == items[..i];
      if Truthy(items[i].section_name) {
        sectionCount := sectionCount + 1;
      }
      i := i + 1;
    }
    assert items[..i] == items;
  }

  /** The `reduce` that adds every performance that is present and parses; `None` stands for
      a null or unparseable value (a numeric 0, skipped as falsy, adds nothing either way). */
  function PerformanceSum(items: seq<SectionAverage>): real
    decreases |items|
  {
    if items == [] then 0.0
    else
      var last := items[|items| - 1];
      PerformanceSum(items[..|items| - 1]) + (if last.overall_performance.Some? then last.overall_performance.value else 0.0)
  }

  /** `sectionCount !== 0 ? overallPerformance / sectionCount : 0`. */
  function AveragePerformance(sum: real, sectionCount: nat): real
  {
    if sectionCount != 0 then sum / (sectionCount as real) else 0.0
  }

  function HasPerformance(item: SectionAverage): bool
  {
    item.overall_performance.Some?
  }

  lemma {:induction false} PerformanceSumBounds(items: seq<SectionAverage>)
    requires PerformanceView.Percentages(items)
    ensures 0.0 <= PerformanceSum(items) <= 100.0 * (|Filter(items, HasPerformance)| as real)
    decreases |items|
  {
    if items != [] {
      PerformanceSumBounds(items[..|items| - 1]);
    }
  }

  lemma {:induction false} FilterCountMonotone(items: seq<SectionAverage>)
    requires forall k :: 0 <= k < |items| && HasPerformance(items[k]) ==> HasSectionName(items[k])
    ensures |Filter(items, HasPerformance)| <= |Filter(items, HasSectionName)|
    decreases |items|
  {
    if items != [] {
      FilterCountMonotone(items[..|items| - 1]);
    }
  }

  /** When every section that reports a percentage is also named, the average shown is a
      percentage too. */
  lemma AverageIsPercentage(items: seq<SectionAverage>)
    requires PerformanceView.Percentages(items)
    requires forall k :: 0 <= k < |items| && HasPerformance(items[k]) ==> HasSectionName(items[k])
    ensures 0.0 <= AveragePerformance(PerformanceSum(items), |Filter(items, HasSectionName)|) <= 100.0
  {
    PerformanceSumBounds(items);
    FilterCountMonotone(items);
    PercentageOfCount(PerformanceSum(items), |Filter(items, HasPerformance)|, |Filter(items, HasSectionName)|);
  }

  /** A sum of at most `m` percentages, divided by a count `n >= m`, is a percentage. */
  lemma PercentageOfCount(sum: real, m: nat, n: nat)
    requires 0.0 <= sum <= 100.0 * (m as real) && m <= n
    ensures 0.0 <= AveragePerformance(sum, n) <= 100.0
  {
    if n != 0 {
      var avg := sum / (n as real);
      assert avg * (n as real) == sum;
      assert sum <= 100.0 * (n as real);
    }
  }

  lemma {:induction false} SumMatchesTotal(items: seq<SectionAverage>)
    requires forall k :: 0 <= k < |items| ==> items[k].overall_performance.Some?
    ensures PerformanceSum(items) == PerformanceView.TotalAverage(items)
    decreases |items|
  {
    if items != [] {
      SumMatchesTotal(items[..|items| - 1]);
    }
  }

  /** With every section named and every performance present, this page's average equals
      the standard average of the per-standard page; they differ only in how they treat
      missing names and null performances. */
  lemma AgreesWithStandardAverage(items: seq<SectionAverage>)
    requires items != []
    requires forall k :: 0 <= k < |items| ==> HasSectionName(items[k]) && items[k].overall_performance.Some?
    ensures AveragePerformance(PerformanceSum(items), |Filter(items, HasSectionName)|)
         == PerformanceView.StandardAverage(items).value
  {
    SumMatchesTotal(items);
    FilterKeepsAll(items, HasSectionName);
  }

  /** The `reduce` that adds `student_count` over the sections of standard `name`. */
  function StudentCount(sections: seq<SectionDetail>, name: string): int
    decreases |sections|
  {
    if sections == [] then 0
    else
      var last := sections[|sections| - 1];
      StudentCount(sections[..|sections| - 1], name) + (if last.standard == name then last.student_count else 0)
  }

  /** The count is additive over the list, so sections of other standards never change it. */
  lemma {:induction false} StudentCountAppend(a: seq<SectionDetail>, b: seq<SectionDetail>, name: string)
    ensures StudentCount(a + b, name) == StudentCount(a, name) + StudentCount(b, name)
    decreases |b|
  {
    if b == [] {
      assert a + b == a;
    } else {
      StudentCountAppend(a, b[..|b| - 1], name);
      assert (a + b)[..|a + b| - 1] == a + b[..|b| - 1];
    }
  }

  lemma {:induction false} StudentCountOtherStandards(sections: seq<SectionDetail>, name: string)
    requires forall k :: 0 <= k < |sections| ==> sections[k].standard != name
    ensures StudentCount(sections, name) == 0
    decreases |sections|
  {
    if sections != [] {
      StudentCountOtherStandards(sections[..|sections| - 1], name);
    }
  }

  // ---------------------------------------------------------------- records

  function Fallback(standard: Standard): StandardRecord
  {
    StandardRecord(standard, None, 0, 0.0)
  }

  function MatchesStandard(name: string): StandardDetail -> bool
  {
    (s: StandardDetail) => s.standard == name
  }

  /** `record` is what the per-standard callback of `fetchStandards` returns for `standard`,
      given the `view_perform` response and the `view_std_avg` response (requested only when a
      matching standard exists): the full record when every step succeeds, else the fallback. */
  ghost predicate Summarizes(record: StandardRecord, standard: Standard, perform: PerformResponse, averages: Response<SectionAverage>)
  {
    record.standard == standard &&
    (record.performance.None? ==> record == Fallback(standard)) &&
    (record.performance.Some? <==>
       perform.Perform? && perform.section_details.Some? && !averages.RequestFailed? &&
       Find(perform.standard_details, MatchesStandard(standard.standard_name)).Some?) &&
    (record.performance.Some? ==>
       record.performance == Find(perform.standard_details, MatchesStandard(standard.standard_name)) &&
       record.studentCount == StudentCount(perform.section_details.value, standard.standard_name) &&
       record.overallPerformance ==
         (if averages.Array?
          then AveragePerformance(PerformanceSum(averages.items), |Filter(averages.items, HasSectionName)|)
          else 0.0))
  }

  /** The per-standard callback of `fetchStandards`. */
  method SummarizeStandard(standard: Standard, perform: PerformResponse, averages: Response<SectionAverage>)
    returns (record: StandardRecord)
    ensures Summarizes(record, standard, perform, averages)
  {
    if !perform.Perform? {
      return Fallback(standard);
    }
    var matching := Find(perform.standard_details, MatchesStandard(standard.standard_name));
    if matching.None? || averages.RequestFailed? {
      return Fallback(standard);
    }
    var overallPerformance := 0.0;
    var sectionCount := 0;
    if averages.Array? {
      sectionCount := SectionCount(averages.items);
      overallPerformance := PerformanceSum(averages.items);
    }
    var average := AveragePerformance(overallPerformance, sectionCount);
    if perform.section_details.None? {
      return Fallback(standard);
    }
    var studentCount := StudentCount(perform.section_details.value, standard.standard_name);
    record := StandardRecord(standard, matching, studentCount, average);
  }

  /** `fetchStandards`: one record per standard, in order, when the standards response is an
      array; `Some([])` for any other payload; `None` (the list is left as it was) when the
      request fails. `perStandard[i]` holds the two responses for the `i`-th standard. */
  method FetchStandards(response: Response<Standard>, perStandard: seq<(PerformResponse, Response<SectionAverage>)>)
    returns (standards: Option<seq<StandardRecord>>)
    requires response.Array? ==> |perStandard| == |response.items|
    ensures response.RequestFailed? <==> standards.None?
    ensures response.NotAnArray? ==> standards == Some([])
    ensures response.Array? ==>
              standards.Some? && |standards.value| == |response.items| &&
              forall i :: 0 <= i < |response.items| ==>
                Summarizes(standards.value[i], response.items[i], perStandard[i].0, perStandard[i].1)
  {
    if response.RequestFailed? {
      return None;
    }
    if response.NotAnArray? {
      return Some([]);
    }
    var records: seq<StandardRecord> := [];
    var i := 0;
    while i < |response.items|
      invariant 0 <= i <= |response.items|
      invariant |records| == i
      invariant forall j :: 0 <= j < i ==>
                  Summarizes(records[j], response.items[j], perStandard[j].0, perStandard[j].1)
    {
      var record := SummarizeStandard(response.items[i], perStandard[i].0, perStandard[i].1);
      records := records + [record];
      i := i + 1;
    }
    standards := Some(records);
  }
}
