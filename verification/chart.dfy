/** The chart component (src/components/Graph/Chart.js): which chart a graph type selects,
    the points of the section chart, and for the student chart the subject names (one line
    each) and one row of scores per exam. */
module Chart {
  import opened Js
  import opened Text
  import opened Seqs
  import opened PerformanceView

  // ---------------------------------------------------------------- graph type

  datatype GraphKind = Bar | SinusoidalSection | SinusoidalStudent | Nothing

  /** `useState(initialGraphType || 'bar')`. */
  function InitialGraphType(given: Option<string>): string
  {
    if Truthy(given) then given.value else "bar"
  }

  /** The `switch (graphType)` of `renderGraph`; an unknown type renders nothing. */
  function Dispatch(graphType: string): GraphKind
  {
    match graphType
    case "bar" => Bar
    case "sinusoidal-section" => SinusoidalSection
    case "sinusoidal-student" => SinusoidalStudent
    case _ => Nothing
  }

  /** Without a (truthy) graph type the bar chart is drawn; a given type renders nothing
      exactly when it is none of the three known names. */
  lemma GraphTypeDefault(given: Option<string>)
    ensures !Truthy(given) ==> Dispatch(InitialGraphType(given)) == Bar
    ensures Truthy(given) ==>
              (Dispatch(InitialGraphType(given)) == Nothing <==>
               given.value !in {"bar", "sinusoidal-section", "sinusoidal-student"})
  {
  }

  // ---------------------------------------------------------------- section chart

  datatype SectionPoint = SectionPoint(rank: Option<nat>, studentName: string, overallPerformance: real)

  /** `data.map(student => ({ rank, studentName, overallPerformance }))`. */
  function FormatSection(data: seq<SectionStudent>): (r: seq<SectionPoint>)
    ensures |r| == |data|
    ensures forall i :: 0 <= i < |data| ==>
              r[i] == SectionPoint(data[i].rank, data[i].student_name, data[i].overall_performance)
  {
    seq(|data|, i requires 0 <= i < |data| =>
      SectionPoint(data[i].rank, data[i].student_name, data[i].overall_performance))
  }

  /** Fed with the ranking, the section chart's x axis runs 1..N and its bars never rise. */
  lemma SectionChartOfRanking(message: seq<seq<RawStudent>>)
    ensures forall i :: 0 <= i < |FormatSection(SectionDetails(message))| ==>
              FormatSection(SectionDetails(message))[i].rank == Some(i + 1)
    ensures forall i, j :: 0 <= i < j < |FormatSection(SectionDetails(message))| ==>
              FormatSection(SectionDetails(message))[i].overallPerformance >=
              FormatSection(SectionDetails(message))[j].overallPerformance
  {
    SectionDetailsRanked(message);
  }

  // ---------------------------------------------------------------- student chart

  /** `const [subject] = score.split(':'); subject.trim()`. */
  function SegmentSubject(segment: string): string
  {
    Trim(Split(segment, ':')[0])
  }

  function SegmentSubjects(segments: seq<string>): (r: seq<string>)
    ensures |r| == |segments| && forall k :: 0 <= k < |segments| ==> r[k] == SegmentSubject(segments[k])
  {
    seq(|segments|, k requires 0 <= k < |segments| => SegmentSubject(segments[k]))
  }

  function Segments(exam: ProcessedMark): seq<string>
  {
    Split(exam.individual_scores, ',')
  }

  /** The trimmed subjects of one exam, segment by segment. */
  function ExamSubjects(exam: ProcessedMark): seq<string>
  {
    SegmentSubjects(Segments(exam))
  }

  /** Every trimmed subject of every exam, exam by exam then segment by segment. */
  function AllSubjects(data: seq<ProcessedMark>): seq<string>
  {
    Concat(data, ExamSubjects)
  }

  /** The `forEach` loops that push each subject not yet in `subjectNames`. */
  method SubjectNames(data: seq<ProcessedMark>) returns (subjectNames: seq<string>)
    ensures subjectNames == Distinct(AllSubjects(data))
  {
    subjectNames := [];
    var i := 0;
    while i < |data|
      invariant 0 <= i <= |data|
      invariant subjectNames == Distinct(AllSubjects(data[..i]))
    {
      var segments := Segments(data[i]);
      ghost var before := AllSubjects(data[..i]);
      SubjectStep(before, segments, 0);
      var k := 0;
      while k < |segments|
        invariant 0 <= k <= |segments|
        invariant subjectNames == Distinct(before + SegmentSubjects(segments[..k]))
      {
        var subject := SegmentSubject(segments[k]);
        SubjectStep(before, segments, k);
        if subject !in subjectNames {
          subjectNames := subjectNames + [subject];
        }
        k := k + 1;
      }
      ExamStep(data, i);
      assert segments[..k] == segments;
      i := i + 1;
    }
    assert data[..i] == data;
  }

  /** One step of the inner loop: the distinct subjects grow by the next segment's subject
      when it is new. */
  lemma SubjectStep(before: seq<string>, segments: seq<string>, k: nat)
    requires k <= |segments|
    ensures k == 0 ==> before + SegmentSubjects(segments[..k]) == before
    ensures k < |segments| ==>
              var seen := before + SegmentSubjects(segments[..k]);
              var subject := SegmentSubject(segments[k]);
              Distinct(before + SegmentSubjects(segments[..k + 1]))
              == if subject in Distinct(seen) then Distinct(seen) else Distinct(seen) + [subject]
  {
    if k < |segments| {
      var seen := before + SegmentSubjects(segments[..k]);
      assert SegmentSubjects(segments[..k + 1]) == SegmentSubjects(segments[..k]) + [SegmentSubject(segments[k])];
      assert before + SegmentSubjects(segments[..k + 1]) == seen + [SegmentSubject(segments[k])];
      DistinctSnoc(seen, SegmentSubject(segments[k]));
    }
  }

  /** One step of the outer loop: the next exam's subjects follow those of the earlier ones. */
  lemma ExamStep(data: seq<ProcessedMark>, i: nat)
    requires i < |data|
    ensures AllSubjects(data[..i + 1]) == AllSubjects(data[..i]) + SegmentSubjects(Segments(data[i]))
  {
    assert data[..i + 1][..i] == data[..i];
  }

  /** A subject is among one exam's subjects exactly when one of its segments names it. */
  lemma ExamSubjectsMembers(exam: ProcessedMark, s: string)
    ensures s in SegmentSubjects(Segments(exam)) <==>
            exists k :: 0 <= k < |Segments(exam)| && SegmentSubject(Segments(exam)[k]) == s
  {
    var subjects := SegmentSubjects(Segments(exam));
    if s in subjects {
      var k :| 0 <= k < |subjects| && subjects[k] == s;
      assert SegmentSubject(Segments(exam)[k]) == s;
    }
  }

  /** The subject names hold no duplicate, hold every trimmed subject of every exam, and
      keep first-seen order. */
  lemma SubjectNamesCorrect(data: seq<ProcessedMark>, s: string)
    ensures NoDuplicates(Distinct(AllSubjects(data)))
    ensures s in Distinct(AllSubjects(data)) <==>
            exists i, k :: 0 <= i < |data| && 0 <= k < |Segments(data[i])| && SegmentSubject(Segments(data[i])[k]) == s
    ensures forall i, j :: 0 <= i < j < |Distinct(AllSubjects(data))| ==>
              SeenBefore(AllSubjects(data), Distinct(AllSubjects(data))[i], Distinct(AllSubjects(data))[j])
  {
    DistinctNoDuplicates(AllSubjects(data));
    DistinctMembers(AllSubjects(data));
    ConcatMembers(data, ExamSubjects, s);
    forall i | 0 <= i < |data|
      ensures s in ExamSubjects(data[i]) <==>
              exists k :: 0 <= k < |Segments(data[i])| && SegmentSubject(Segments(data[i])[k]) == s
    {
      ExamSubjectsMembers(data[i], s);
    }
    DistinctFirstSeenOrder(AllSubjects(data));
  }

  /** A value of an exam row: the exam name under "exam", a parsed score under a subject
      (`None` for `NaN`). */
  datatype Cell = ExamName(name: string) | Score(score: Option<int>)

  /** The segment holds a ':', so `value` in `const [subject, value] = score.split(':')` is
      defined. */
  predicate HasValue(segment: string)
  {
    ':' in segment
  }

  /** `value` is defined exactly when the split yields a second piece. */
  lemma HasValueSplit(segment: string)
    ensures HasValue(segment) <==> |Split(segment, ':')| >= 2
  {
    SplitCount(segment, ':');
  }

  /** `parseInt(value.trim())`, with no radix, for a segment that has a value. */
  function SegmentScore(segment: string): Cell
  {
    var pieces := Split(segment, ':');
    Score(if |pieces| >= 2 then ParseIntAutoRadix(Trim(pieces[1])) else None)
  }

  /** A segment written as `subject:score`, with the score in decimal, has a value and reads
      back the trimmed subject and the score itself. */
  lemma SegmentReadsBack(subject: string, score: int)
    requires ':' !in subject
    ensures HasValue(subject + ":" + IntToString(score))
    ensures SegmentSubject(subject + ":" + IntToString(score)) == Trim(subject)
    ensures SegmentScore(subject + ":" + IntToString(score)) == Score(Some(score))
  {
    var text := IntToString(score);
    assert forall k :: 0 <= k < |text| ==> text[k] == '-' || IsDigit(text[k]);
    assert ':' !in text;
    SplitAfterPiece(subject, ':', text);
    SplitNoSeparator(text, ':');
    TrimPlain(text);
    ParseIntAutoRadixRoundTrip(score);
  }

  /** A score written with a `0x` or `0X` prefix is read as hexadecimal, as `parseInt`
      without a radix does. */
  lemma SegmentHexScore(subject: string, text: string)
    requires ':' !in subject
    requires HexPrefixed(text) && |text| >= 3 && AllHex(text[2..])
    ensures SegmentScore(subject + ":" + text) == Score(Some(HexValue(text[2..])))
  {
    assert forall k :: 2 <= k < |text| ==> text[k] == text[2..][k - 2];
    assert ':' !in text;
    SplitAfterPiece(subject, ':', text);
    SplitNoSeparator(text, ':');
    TrimPlain(text);
    ParseIntAutoRadixHex(text);
  }

  /** `examData` after writing every segment's score under its subject into `{ exam }`. */
  function RowOf(examName: string, segments: seq<string>): map<string, Cell>
  {
    Assign(map["exam" := ExamName(examName)], segments, SegmentSubject, SegmentScore)
  }

  /** A row has the key "exam" and one key per subject; a subject holds the score of its
      last segment, and "exam" holds the exam name unless a subject is itself called "exam". */
  lemma RowOfLastWins(examName: string, segments: seq<string>, s: string)
    ensures s in RowOf(examName, segments) <==>
            s == "exam" || exists k :: 0 <= k < |segments| && SegmentSubject(segments[k]) == s
    ensures (exists k :: 0 <= k < |segments| && SegmentSubject(segments[k]) == s) ==>
            exists k :: LastWithKey(segments, SegmentSubject, s, k) && RowOf(examName, segments)[s] == SegmentScore(segments[k])
    ensures s == "exam" && (forall k :: 0 <= k < |segments| ==> SegmentSubject(segments[k]) != s) ==>
            RowOf(examName, segments)[s] == ExamName(examName)
  {
    AssignLastWins(map["exam" := ExamName(examName)], segments, SegmentSubject, SegmentScore, s);
  }

  /** Every one of the segments has a value after its ':'. */
  ghost predicate AllHaveValue(segments: seq<string>)
  {
    forall k :: 0 <= k < |segments| ==> HasValue(segments[k])
  }

  /** Every segment of the exam's scores has a value after its ':'. */
  ghost predicate ExamHasValues(exam: ProcessedMark)
  {
    AllHaveValue(Segments(exam))
  }

  /** The row of one exam: its name and the scores of its segments. */
  function ExamRowOf(exam: ProcessedMark): map<string, Cell>
  {
    RowOf(exam.exam_name, Segments(exam))
  }

  /** One `examData` object, or `None` when a segment without ':' makes `value.trim()` throw. */
  method ExamRow(exam: ProcessedMark) returns (row: Option<map<string, Cell>>)
    ensures row.None? <==> !ExamHasValues(exam)
    ensures row.Some? ==> row.value == ExamRowOf(exam)
  {
    var segments := Segments(exam);
    var examData := map["exam" := ExamName(exam.exam_name)];
    var k := 0;
    while k < |segments|
      invariant 0 <= k <= |segments|
      invariant AllHaveValue(segments[..k])
      invariant examData == RowOf(exam.exam_name, segments[..k])
    {
      if !HasValue(segments[k]) {
        assert !ExamHasValues(exam);
        return None;
      }
      var subject := SegmentSubject(segments[k]);
      var score := SegmentScore(segments[k]);
      RowStep(exam.exam_name, segments, k);
      examData := examData[subject := score];
      k := k + 1;
    }
    assert segments[..k] == segments;
    row := Some(examData);
  }

  /** One step of the loop over the segments: a segment with a value extends the checked
      prefix, and writing its score extends the row. */
  lemma RowStep(examName: string, segments: seq<string>, k: nat)
    requires k < |segments| && AllHaveValue(segments[..k]) && HasValue(segments[k])
    ensures AllHaveValue(segments[..k + 1])
    ensures RowOf(examName, segments[..k + 1])
         == RowOf(examName, segments[..k])[SegmentSubject(segments[k]) := SegmentScore(segments[k])]
  {
    AssignSnoc(map["exam" := ExamName(examName)], segments, SegmentSubject, SegmentScore, k);
    var before, after := segments[..k], segments[..k + 1];
    forall j | 0 <= j < |after| ensures HasValue(after[j])
    {
      if j < k {
        assert after[j] == before[j];
      }
    }
  }

  /** Every exam's scores can be read as rows. */
  ghost predicate AllHaveValues(data: seq<ProcessedMark>)
  {
    forall i :: 0 <= i < |data| ==> ExamHasValues(data[i])
  }

  /** `linesData`: one row per exam in input order, or `None` when building any row throws. */
  method LinesData(data: seq<ProcessedMark>) returns (lines: Option<seq<map<string, Cell>>>)
    ensures lines.None? <==> !AllHaveValues(data)
    ensures lines.Some? ==>
              |lines.value| == |data| && forall i :: 0 <= i < |data| ==> lines.value[i] == ExamRowOf(data[i])
  {
    var rows: seq<map<string, Cell>> := [];
    var i := 0;
    while i < |data|
      invariant 0 <= i <= |data|
      invariant |rows| == i
      invariant forall j :: 0 <= j < i ==> ExamHasValues(data[j])
      invariant forall j :: 0 <= j < i ==> rows[j] == ExamRowOf(data[j])
    {
      var row := ExamRow(data[i]);
      if row.None? {
        assert !ExamHasValues(data[i]);
        return None;
      }
      rows := rows + [row.value];
      i := i + 1;
    }
    assert AllHaveValues(data);
    lines := Some(rows);
  }
}
