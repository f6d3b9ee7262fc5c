# Schoolmate admin dashboard — a Dafny model of its data rules

Schoolmate is a React/antd admin dashboard for a school: classes and sections, students,
educators, subjects, fees, timetables, exam performance, an event calendar, a login page and a
side menu. Almost all of it is rendering and HTTP calls. This project models the logic
inside the screens and proves properties about it. The backend responses are treated as
parameters that the screens receive. The logic covered is:

- **Performance ranking** (`PerformanceView`, from `View.js`): a section's nested
  results are flattened and deduplicated by student id, keeping the first occurrence. They are
  then stably sorted by overall performance, highest first, and ranked 1..N. The sort and the
  ranking loop are in-place methods on an `array`. Both are proved against specification
  functions: the sorted list is a sorted permutation, ties keep their first-seen order, and a
  higher performance always gets a smaller rank.
- **Averages**: the standard average, where a null performance counts as 0 and the result is
  floored (`View.js`). The per-standard section count, performance sum, average and student
  count, with fallback records (`PerformanceOverview`, from `Performance.js`).
- **Exam score strings** such as `"Maths:85, Science:90"`, parsed in `View.js`. The model
  proves that parsing reads back what a formatter writes. The chart (`Chart`) collects the
  distinct subjects in first-seen order and builds one keyed row per exam. In a row, a repeated
  subject keeps its last value, and a segment without `:` makes the construction fail.
- **Timetable grid** (`Timetable`): entries are grouped by day, the largest period gives one
  column per period, and there are six rows from Monday to Saturday. In a row, a later entry for
  the same period overwrites an earlier one. A cell falls back to "Unknown Teacher",
  "Unknown Subject" or "No data".
- **Fees** (`Fees`, `FeeStructure`): the row total over the fee heads, and the update form
  fields derived from a record (its keys after the first two, capitalised). The model proves
  that the form total of an untouched form equals the table's total. Also covered: the
  generated field inputs, the create payload (a comma-join that splits back), the last-wins
  update map, and the drawer state.
- **Small decision rules**: the path to menu key mapping (`Navbar`), the calendar badge type and
  the view/edit modal state (`Calendar`), and the login credential match (`Login`).
- **CRUD screens** (`SectionStudents`, `Students`, `Educator`, `Sections`, `Classes`,
  `SubjectList`, `SubjectStaff`):
  - case-insensitive searches that yield order-preserving subsequences;
  - the unassigned-student filter;
  - the guards that demand an id or a name before an update or a delete;
  - edit-over-assign precedence;
  - normalisation of the teacher-details response;
  - the rule that at most one section modal is visible.

Shared modules:

- `Js`: option values, responses and JavaScript values.
- `Text`: the JavaScript string operations used, ASCII only. These are `toLowerCase`,
  `toUpperCase`, `includes`, `split`/`join`, `trim`, `parseInt` and `String(n)`. Round-trip
  lemmas are proved for them. `parseInt` is modelled both with radix 10 and without a radix;
  the latter reads a `0x`/`0X` prefix as hexadecimal.
- `Seqs`: `filter`, `find`/`findIndex`, first-seen distinct values and keyed last-wins
  assignment.

Ten screens are `class`es: Students, Educator, Sections, Classes, a section's students,
the subject list, subject staff, the fee structure, the timetable and the calendar. Their
React state becomes fields. Their handlers are methods with `modifies this`, and each method
states the whole new state, including the `crashed` flag where a render can throw.

Three other pages also update state through setters, but they are modelled by members that
return what a setter stores:

- Fees.js: `Fees.HandleUpdate` gives what `setFormFields` and `setFieldsValue` store.
- Performance/View.js: `PerformanceView.FetchSectionDetails` gives what `setSectionDetails`
  stores, and `PerformanceView.StandardAverage` what `setAverage` stores.
- Performance/Performance.js: `PerformanceOverview.FetchStandards` gives what `setStandards`
  stores, or `None` when the list is left as it is.

## Model

| member | source | states |
|---|---|---|
| PerformanceView.Rows | src/container/Performance/View.js:124-128 | one row per inner record, in order; what reaches the table is proved by PerformanceView.FlattenMembers (every inner record and nothing else) and PerformanceView.FlattenUnranked (no rank yet) |
| PerformanceView.Flatten | src/container/Performance/View.js:123-129 | the flattened rows; PerformanceView.FlattenAppend proves they come group by group in order, and PerformanceView.FlattenMembers that they are exactly the mapped inner records |
| PerformanceView.FlattenAppend | src/container/Performance/View.js:123-129 | flattening distributes over concatenation, so the rows come outer-then-inner in order |
| PerformanceView.FlattenMembers | src/container/Performance/View.js:123-129 | a row is in the flattened list exactly when it is the mapping of some inner record |
| PerformanceView.Ids | src/container/Performance/View.js:131-132 | the student-id column; through it PerformanceView.DedupeKeepsFirstOccurrences proves the kept ids are the distinct ids in first-seen order, and PerformanceView.SortIds that sorting permutes them |
| PerformanceView.Dedupe | src/container/Performance/View.js:131-132 | the deduplicated rows; PerformanceView.DedupeKeepsFirstOccurrences proves one row per distinct id, in first-seen order, each the first row with its id |
| PerformanceView.DedupeKeepsFirstOccurrences | src/container/Performance/View.js:131-132 | after dedupe the ids are the distinct ids in first-seen order, with no repeats; every id survives, and each kept row is the first occurrence of its id |
| PerformanceView.SortByPerformance | src/container/Performance/View.js:134 | the stable sort; PerformanceView.SortByPerformanceCorrect proves it a non-increasing permutation, and PerformanceView.SortByPerformanceStable that ties keep their order |
| PerformanceView.InsertPos | src/container/Performance/View.js:134 | the insertion point lies within the list |
| PerformanceView.InsertPosBounds | src/container/Performance/View.js:134 | before the insertion point performances are ≥ the new one, after it they are strictly smaller (stability) |
| PerformanceView.InsertPosAt | src/container/Performance/View.js:134 | the insertion point is the unique position satisfying those bounds |
| PerformanceView.InsertSorted | src/container/Performance/View.js:134 | inserting into a sorted list keeps it sorted and adds exactly the new element |
| PerformanceView.InsertFilter | src/container/Performance/View.js:134 | any filter of an insertion splits at the insertion point |
| PerformanceView.InsertStable | src/container/Performance/View.js:134 | for every performance value, the rows with that value after an insertion are the earlier ones followed by the new row when it has that value |
| PerformanceView.InsertPosAfter | src/container/Performance/View.js:134 | every row after the insertion point performs strictly worse than the inserted one |
| PerformanceView.NoneEqualAfterInsertPos | src/container/Performance/View.js:134 | no row after the insertion point has the inserted row's performance |
| PerformanceView.InsertOfEqual | src/container/Performance/View.js:134 | among rows of the inserted row's performance, the inserted row comes last |
| PerformanceView.InsertOfOther | src/container/Performance/View.js:134 | rows of any other performance are left as they were, in order |
| PerformanceView.SortByPerformanceCorrect | src/container/Performance/View.js:134 | the sort returns a permutation of its input, non-increasing in overall_performance |
| PerformanceView.SortByPerformanceStable | src/container/Performance/View.js:134 | for every performance value, the records with that value keep their input order |
| PerformanceView.SortSortedIsIdentity | src/container/Performance/View.js:134 | sorting an already sorted list changes nothing |
| PerformanceView.WithRanks | src/container/Performance/View.js:136-138 | the numbered rows; PerformanceView.UnrankedWithRanks proves only the rank changes, and PerformanceView.SectionDetailsRanked that the ranks are 1..N in list order |
| PerformanceView.SortInPlace | src/container/Performance/View.js:134 | the in-place array sort leaves exactly the stable descending sort of the old contents |
| PerformanceView.InsertInPlace | src/container/Performance/View.js:134 | one insertion step places a[i] into the sorted prefix and leaves the rest of the array alone |
| PerformanceView.AssignRanks | src/container/Performance/View.js:136-138 | the forEach loop writes rank = index + 1 into every record and changes nothing else |
| PerformanceView.SectionDetails | src/container/Performance/View.js:123-140 | the stored details; PerformanceView.SectionDetailsRanked, SectionDetailsUnique and HigherPerformanceRanksFirst state what they hold |
| PerformanceView.FetchSectionDetails | src/container/Performance/View.js:123-140 | the whole flatten, dedupe, sort and rank pipeline produces the specified section details |
| PerformanceView.FlattenUnranked | src/container/Performance/View.js:123-129 | flattened rows carry no rank yet |
| PerformanceView.SortMembers | src/container/Performance/View.js:134 | sorting keeps exactly the same records |
| PerformanceView.UnrankedWithRanks | src/container/Performance/View.js:136-138 | numbering changes only the rank field |
| PerformanceView.SortIds | src/container/Performance/View.js:134 | sorting permutes the student ids |
| PerformanceView.IdsOfSplice | src/container/Performance/View.js:131-134 | splicing a row between two parts adds exactly its id to their ids |
| PerformanceView.InsertIds | src/container/Performance/View.js:131-134 | inserting a row adds exactly its id to the ids |
| PerformanceView.SortedUnique | src/container/Performance/View.js:131-138 | the ranked details, ranks removed, are the sorted dedupe of the flattened rows |
| PerformanceView.SectionDetailsRanked | src/container/Performance/View.js:136-138 | there is one record per distinct student id; the ranks are exactly 1..N in list order, with no gap or repeat, and the list is sorted by performance |
| PerformanceView.SectionDetailsUnique | src/container/Performance/View.js:131-134 | student ids are unique and the list is a permutation of the deduplicated rows |
| PerformanceView.HigherPerformanceRanksFirst | src/container/Performance/View.js:134-138 | a strictly higher performance always gets a strictly smaller rank |
| PerformanceView.TiesKeepFirstSeenOrder | src/container/Performance/View.js:134 | students with equal performance appear in first-seen order |
| PerformanceView.TotalAverage | src/container/Performance/View.js:48-51 | the reduce over the averages; PerformanceView.TotalNullAsZero proves a null adds 0, and PerformanceView.TotalBounds bounds it by 100 per entry |
| PerformanceView.StandardAverage | src/container/Performance/View.js:48-53 | the total divided by the number of rows, None (NaN) for no rows; PerformanceView.NullCountsAsZero proves a null row still counts in the divisor |
| PerformanceView.RoundedAverage | src/container/Performance/View.js:28 | the floor shown on the progress bar; PerformanceView.AverageIsPercentage proves it lies in 0..100 for percentages |
| PerformanceView.NullCountsAsZero | src/container/Performance/View.js:48-53 | a null overall_performance gives the same average as a 0; the division is by the full list length |
| PerformanceView.TotalNullAsZero | src/container/Performance/View.js:48-51 | the reduce sums null performances as 0 |
| PerformanceView.TotalBounds | src/container/Performance/View.js:48-51 | with percentages as input, the total lies between 0 and 100 times the count |
| PerformanceView.AverageIsPercentage | src/container/Performance/View.js:48-53 | the floored average of percentages is a whole percentage between 0 and 100 |
| PerformanceView.ParseSegments | src/container/Performance/View.js:211-214 | one parsed pair per segment, in order; PerformanceView.ParseFormattedScores proves that a comma-joined "subject:score" string parses back to exactly its subjects and scores |
| PerformanceView.ParseSegment | src/container/Performance/View.js:211-214 | a segment split at ":" and trimmed; PerformanceView.ParseFormattedSegment proves a written "subject:score" reads back as that subject and score |
| PerformanceView.SubjectData | src/container/Performance/View.js:206-217 | the subject data of one entry; PerformanceView.ParseFormattedScores covers the comma branch and PerformanceView.SingleSubjectData the single-score branch |
| PerformanceView.SingleSubjectData | src/container/Performance/View.js:215-217 | without a comma there is one entry, named by subject_names, whose score is parseInt of the whole string, so a written score reads back |
| PerformanceView.ProcessMarks | src/container/Performance/View.js:205-225 | one output per entry, in order, with exam_name, individual_scores, overall_score and subject_names unchanged; what subject_data holds is proved by PerformanceView.ParseFormattedScores and PerformanceView.SingleSubjectData |
| PerformanceView.FormatSegments | src/container/Performance/View.js:211-214 | the "subject:score" segments a backend writes; PerformanceView.ParseFormattedScores proves that parsing their comma-join gives the subjects and scores back |
| PerformanceView.IntToStringPlain | src/container/Performance/View.js:212-213 | a rendered score contains no separator and has no surrounding white space |
| PerformanceView.ParseFormattedSegment | src/container/Performance/View.js:212-213 | parsing a formatted segment gives back its subject and score |
| PerformanceView.ParseFormattedScores | src/container/Performance/View.js:206-217 | a comma-joined score string of two or more subjects parses back to exactly those subjects and scores |
| Chart.GraphTypeDefault | src/components/Graph/Chart.js:102-103 | no graphType renders a bar chart; a given type renders nothing exactly when it is not one of the three known kinds |
| Chart.InitialGraphType | src/components/Graph/Chart.js:5 | the given type, or "bar" when it is missing or empty; Chart.GraphTypeDefault proves that then the bar chart is drawn |
| Chart.Dispatch | src/components/Graph/Chart.js:13-103 | the switch on the graph type; Chart.GraphTypeDefault proves an unknown type, and only one, renders nothing |
| Chart.FormatSection | src/components/Graph/Chart.js:30-34 | one point per student, in order; Chart.SectionChartOfRanking proves that for the ranking the x axis runs 1..N and the bars never rise |
| Chart.SectionChartOfRanking | src/components/Graph/Chart.js:30-34 | the section chart of ranked details has ranks 1..N and non-increasing performance |
| Chart.SegmentSubjects | src/components/Graph/Chart.js:67-72 | one trimmed subject per segment, in order; Chart.ExamSubjectsMembers and Chart.SubjectNamesCorrect prove which subjects reach the legend |
| Chart.SegmentSubject | src/components/Graph/Chart.js:69-71 | the trimmed text before the first ":"; Chart.SegmentReadsBack proves a written "subject:score" gives back its subject |
| Chart.SubjectNames | src/components/Graph/Chart.js:63-75 | the forEach/push loop produces the first-seen distinct subjects of all exams |
| Chart.SubjectStep | src/components/Graph/Chart.js:67-72 | one loop step appends the next segment's subject |
| Chart.ExamStep | src/components/Graph/Chart.js:63-75 | the subjects of the exams read so far, followed by the next exam's subjects, are the subjects of one exam more |
| Chart.ExamSubjectsMembers | src/components/Graph/Chart.js:67-72 | a subject is among one exam's subjects exactly when one of its segments names it |
| Chart.SubjectNamesCorrect | src/components/Graph/Chart.js:63-75 | subjectNames has no duplicates, holds every trimmed subject seen, and keeps first-seen order across exams then segments |
| Chart.RowOfLastWins | src/components/Graph/Chart.js:77-85 | an exam row has the key "exam" and one key per subject; a repeated subject keeps its last value |
| Chart.HasValueSplit | src/components/Graph/Chart.js:81-82 | a segment has a defined value exactly when it holds a ':', that is when its split yields a second piece |
| Chart.SegmentScore | src/components/Graph/Chart.js:82 | parseInt without a radix of the trimmed value; Chart.SegmentReadsBack and Chart.SegmentHexScore prove decimal scores read back and 0x scores read as hexadecimal |
| Chart.SegmentReadsBack | src/components/Graph/Chart.js:80-82 | a segment "subject:score" written in decimal has a value, its trimmed subject and that score |
| Chart.SegmentHexScore | src/components/Graph/Chart.js:82 | a score written "0x…" or "0X…" is read as hexadecimal, as parseInt without a radix does |
| Text.ParseIntAutoRadix | src/components/Graph/Chart.js:82 | parseInt without a radix; Text.AutoRadixAgreesWithDecimal proves it equals the radix-10 reading unless a 0x prefix follows the sign |
| Text.AutoRadixAgreesWithDecimal | src/components/Graph/Chart.js:82 | without a "0x"/"0X" prefix after the sign the result is that of parseInt(_, 10); with one, radix 10 reads 0 |
| Text.ParseIntAutoRadixHex | src/components/Graph/Chart.js:82 | "0x" or "0X" followed by hexadecimal digits reads as their value |
| Text.ParseIntAutoRadixNegativeHex | src/components/Graph/Chart.js:82 | a "-" before such a prefix negates the value |
| Text.ParseIntAutoRadixRoundTrip | src/components/Graph/Chart.js:82 | every integer written by String reads back as itself |
| Chart.RowOf | src/components/Graph/Chart.js:78-84 | the row after all segments are written; Chart.RowOfLastWins proves its keys and that the last segment of a subject wins |
| Chart.RowStep | src/components/Graph/Chart.js:80-83 | one pass of the segment loop extends the checked prefix and writes the segment's score under its subject |
| Chart.ExamRowOf | src/components/Graph/Chart.js:78-84 | the row of one exam; Chart.ExamRow proves the loop builds it whenever every segment has a value |
| Chart.ExamRow | src/components/Graph/Chart.js:78-84 | building an exam row fails exactly when some segment has no ":", and otherwise gives the keyed row, scores read by parseInt without a radix |
| Chart.LinesData | src/components/Graph/Chart.js:77-85 | linesData fails exactly when some exam has a segment without ':'; otherwise there is one row per exam in order |
| Timetable.GroupByDay | src/container/TimeTable/Timetable.js:56-60 | the reduce builds a grouping: one bucket per day that occurs, each the entries of that day in input order |
| Timetable.GroupStep | src/container/TimeTable/Timetable.js:56-60 | pushing one entry into its day bucket preserves the grouping of the prefix |
| Timetable.FilterStep | src/container/TimeTable/Timetable.js:56-60 | the entries of a day in a longer prefix are those of the shorter prefix plus the new entry if it is on that day |
| Timetable.NoneOnDay | src/container/TimeTable/Timetable.js:56-60 | a prefix without entries for a day gives that day nothing |
| Timetable.GroupingPartitions | src/container/TimeTable/Timetable.js:56-60 | every entry is in its day's bucket; buckets hold only entries of their day; no bucket is empty, and each keeps input order |
| Timetable.MaxPeriod | src/container/TimeTable/Timetable.js:113-121 | the nested loop computes the largest periodno over all buckets, or 0 |
| Timetable.MaxPeriodUnique | src/container/TimeTable/Timetable.js:113-121 | that maximum is unique |
| Timetable.MaxPeriodOfEntries | src/container/TimeTable/Timetable.js:113-121 | maxPeriod bounds every entry's period, including days outside Monday–Saturday; it is some entry's period or 0, and 0 for no entries |
| Timetable.GetColumns | src/container/TimeTable/Timetable.js:123-140 | the columns are "Day" followed by exactly maxPeriod period columns in ascending order |
| Timetable.PeriodColumnKeys | src/container/TimeTable/Timetable.js:132-140 | the period column i reads period i, and the column keys are distinct and differ from the "Day" key |
| Timetable.PeriodMap | src/container/TimeTable/Timetable.js:211-214 | the period map of a bucket; Timetable.PeriodMapLastWins proves its keys are the periods present, the last entry winning |
| Timetable.PeriodMapLastWins | src/container/TimeTable/Timetable.js:211-214 | a day row has a period exactly when some entry has it; the value is the last such entry |
| Timetable.DataSource | src/container/TimeTable/Timetable.js:208-215 | always six rows, Monday..Saturday in that order, whatever the data |
| Timetable.MakeRow | src/container/TimeTable/Timetable.js:208-215 | one day row; Timetable.DataSourceCell proves which periods it holds |
| Timetable.BucketPeriods | src/container/TimeTable/Timetable.js:211-214 | the day bucket has period p exactly when some entry of that day has period p |
| Timetable.BucketHasPeriod | src/container/TimeTable/Timetable.js:56-60 | some entry of a day's bucket has period p exactly when some entry of the response has that day and period |
| Timetable.DataSourceCell | src/container/TimeTable/Timetable.js:208-215 | row i holds period p exactly when its day has an entry for p, the last such entry wins, and a day with no entries carries only key and day |
| Timetable.RenderPeriod | src/container/TimeTable/Timetable.js:145-165 | "No data" exactly when the period is absent or a lookup list is empty; otherwise the first matching teacher and subject names, or "Unknown Teacher"/"Unknown Subject" when none matches |
| Timetable.TimetableScreen.constructor | src/container/TimeTable/Timetable.js:15-19 | the initial screen state |
| Timetable.TimetableScreen.HandleSectionChange | src/container/TimeTable/Timetable.js:101-109 | an empty section clears the data without fetching; otherwise the fetch is recorded, and the grouping of the response or the error message is stored; loading ends false |
| PerformanceOverview.SectionCount | src/container/Performance/Performance.js:39-43 | the counting loop gives the number of entries with a truthy section_name |
| PerformanceOverview.PerformanceSum | src/container/Performance/Performance.js:44-49 | the reduce over present performances; PerformanceOverview.PerformanceSumBounds bounds it and PerformanceOverview.SumMatchesTotal relates it to View.js |
| PerformanceOverview.AveragePerformance | src/container/Performance/Performance.js:52 | the sum over the section count, 0 without sections; PerformanceOverview.AverageIsPercentage proves it a percentage |
| PerformanceOverview.PerformanceSumBounds | src/container/Performance/Performance.js:44-49 | the sum skips missing performances and is at most 100 per counted entry |
| PerformanceOverview.FilterCountMonotone | src/container/Performance/Performance.js:39-49 | when every entry with a performance is named, the summed entries are no more than the counted ones |
| PerformanceOverview.AverageIsPercentage | src/container/Performance/Performance.js:52 | the standard average, with 0 for no sections, is a percentage |
| PerformanceOverview.SumMatchesTotal | src/container/Performance/Performance.js:44-49 | when every performance is present, this sum equals the one in View.js |
| PerformanceOverview.AgreesWithStandardAverage | src/container/Performance/Performance.js:52 | for named entries that all have performances, this average agrees with the one in View.js |
| PerformanceOverview.StudentCount | src/container/Performance/Performance.js:54-59 | the student-count reduce; PerformanceOverview.StudentCountAppend and StudentCountOtherStandards prove it counts only the standard's sections |
| PerformanceOverview.StudentCountAppend | src/container/Performance/Performance.js:54-59 | the student count adds up over concatenated section lists |
| PerformanceOverview.StudentCountOtherStandards | src/container/Performance/Performance.js:54-59 | sections of other standards contribute nothing |
| PerformanceOverview.Fallback | src/container/Performance/Performance.js:69-91 | the record with performance null and both counts 0; PerformanceOverview.SummarizeStandard proves when it is returned |
| PerformanceOverview.SummarizeStandard | src/container/Performance/Performance.js:22-93 | a standard's record is its summary when a match exists; otherwise it is the fallback with performance null, studentCount 0 and overallPerformance 0 |
| PerformanceOverview.FetchStandards | src/container/Performance/Performance.js:16-94 | one summarised record per standard, in input order; [] for a non-array payload; nothing on failure |
| Fees.Names | src/container/Fees/Fees.js:86-91 | the key list of a record; Fees.FormFieldsAreFeeHeads proves the form fields are its keys after the first two, and Fees.ValuesOfDistinctKeys uses it for distinct keys |
| Fees.SumValuesAppend | src/container/Fees/Fees.js:98-101 | the fee sum adds up over concatenation |
| Fees.TotalFeesHeads | src/container/Fees/Fees.js:98-101 | the total is 0 with no fee heads, and each further head adds its value |
| Fees.TotalFees | src/container/Fees/Fees.js:98-101 | the row total; Fees.TotalFeesHeads proves the two identifying keys never count and each fee head adds its amount |
| Fees.Capitalize | src/container/Fees/Fees.js:90 | the first character upper-cased, the rest kept; Fees.CapitalizeLabel proves the label reads as the key with case ignored and that a label is its own label |
| Fees.CapitalizeLabel | src/container/Fees/Fees.js:90 | the label equals the key up to letter case, and capitalising twice changes nothing |
| Fees.FormFields | src/container/Fees/Fees.js:86-91 | the form fields of a record; Fees.FormFieldsAreFeeHeads proves they are its fee heads, in order, each labelled |
| Fees.FormFieldsAreFeeHeads | src/container/Fees/Fees.js:86-91 | the form fields are exactly the record's keys after the first two, in order, each labelled with its capitalised key; none for two keys or fewer |
| Fees.HandleUpdate | src/container/Fees/Fees.js:82-95 | no update without a record for the id; otherwise the first record with that s_id, with its form fields |
| Fees.Values | src/container/Fees/Fees.js:94 | the values the form is filled with; Fees.ValuesOfDistinctKeys proves each key holds its own amount |
| Fees.ValuesOfDistinctKeys | src/container/Fees/Fees.js:94 | with distinct keys, the prefilled form holds each key's own value |
| Fees.FormTotal | src/container/Fees/Fees.js:103-106 | the form total, None (NaN) for a field without value; Fees.FormTotalMatchesTable proves it equals the table total on an untouched form |
| Fees.FormTotalOfHeads | src/container/Fees/Fees.js:103-106 | over the first m form fields, the total is the sum of the first m fee heads |
| Fees.FormTotalOfStored | src/container/Fees/Fees.js:104 | when every form field's stored value is the amount beside it, the reduce gives the sum of those amounts |
| Fees.FormTotalMatchesTable | src/container/Fees/Fees.js:98-106 | the form total of an untouched form equals the table's row total |
| Fees.StudentName | src/container/Fees/Fees.js:202 | the first student with the id gives the name; no match or a missing name gives "N/A" |
| FeeStructure.GenerateFieldsInputs | src/container/Fees/FeeStructure.js:85-103 | the loop yields exactly numFields inputs (none for ≤ 0 or NaN), named field1..fieldN and captioned "Field 1".."Field N" in order |
| FeeStructure.InputCount | src/container/Fees/FeeStructure.js:88 | the passes of the for loop; FeeStructure.GenerateFieldsInputs proves the loop yields that many inputs |
| FeeStructure.FieldNamesDistinct | src/container/Fees/FeeStructure.js:88-96 | field names encode their number and are pairwise distinct |
| FeeStructure.CreatePayload | src/container/Fees/FeeStructure.js:61-62 | the payload; FeeStructure.CreatePayloadRoundTrip proves the backend splits it back into the entered values |
| FeeStructure.CreatePayloadRoundTrip | src/container/Fees/FeeStructure.js:61-62 | the payload drops the first value and joins the rest with ','; splitting it gives them back |
| FeeStructure.Entries | src/container/Fees/FeeStructure.js:138-142 | one (feetype, form value) pair per fee, in order; FeeStructure.UpdateValuesLastWins proves the object built from them has one key per feetype holding its last fee's value |
| FeeStructure.UpdateValues | src/container/Fees/FeeStructure.js:138-142 | the update object; FeeStructure.UpdateValuesLastWins proves its keys are the feetypes present and each holds its last fee's value |
| FeeStructure.UpdateValuesLastWins | src/container/Fees/FeeStructure.js:138-142 | one key per distinct feetype, holding the form value of its last fee |
| FeeStructure.StructureScreen.constructor | src/container/Fees/FeeStructure.js:12-20 | the initial drawer state, with numFields 1 and no fields |
| FeeStructure.StructureScreen.FetchStandards | src/container/Fees/FeeStructure.js:27-44 | an array payload replaces the standards unchanged; otherwise nothing changes |
| FeeStructure.StructureScreen.ShowCreateDrawer | src/container/Fees/FeeStructure.js:46-48 | opens the create drawer only |
| FeeStructure.StructureScreen.OnCloseCreateDrawer | src/container/Fees/FeeStructure.js:50-56 | closes the drawer and resets the structure to numFields 1 and no fields |
| FeeStructure.StructureScreen.SetNumFields | src/container/Fees/FeeStructure.js:199-202 | stores `parseInt` without a radix of the typed text (Text.AutoRadixAgreesWithDecimal: the radix-10 value for the decimal text a number input gives); nothing else changes |
| FeeStructure.StructureScreen.HandleCreateStructure | src/container/Fees/FeeStructure.js:58-83 | sends the join payload; a successful post closes and resets the drawer |
| FeeStructure.StructureScreen.HandleStandardClick | src/container/Fees/FeeStructure.js:105-128 | selects the standard and opens the view drawer with the fetched fees, or [] |
| FeeStructure.StructureScreen.OnCloseViewDrawer | src/container/Fees/FeeStructure.js:130-134 | clears the fee structure and hides the view drawer |
| FeeStructure.StructureScreen.HandleUpdateFees | src/container/Fees/FeeStructure.js:136-142 | the forEach loop builds exactly the last-wins feetype map |
| Calendar.MapStatusToBadgeType | src/components/Calendar/Calendar.js:47-58 | "0" gives error, "2" gives warning, anything else gives success (both directions) |
| Calendar.NumericStatusIsSuccess | src/components/Calendar/Calendar.js:47-58 | numeric statuses, including 0, give success because the comparison is strict |
| Calendar.GetListData | src/components/Calendar/Calendar.js:33-45 | [] when no event has the date, else one item built from the first event with that date |
| Calendar.EventCalendar.constructor | src/components/Calendar/Calendar.js:10-15 | no events, no selection, modal closed, view mode, not crashed |
| Calendar.EventCalendar.FetchData | src/components/Calendar/Calendar.js:17-26 | an `events` array replaces the events; a payload whose `events` is missing or not an array sets `crashed`, since every day cell then calls `find` on it while rendering; a failed request changes nothing; the modal and form are untouched |
| Calendar.EventCalendar.HandleEventClick | src/components/Calendar/Calendar.js:73-77 | selects the event, leaves edit mode and opens the modal |
| Calendar.EventCalendar.HandleEdit | src/components/Calendar/Calendar.js:79-83 | enters edit mode with the modal open, prefilling the event text; the status prefill is always empty |
| Calendar.EventCalendar.HandleModalClose | src/components/Calendar/Calendar.js:125-129 | turns off both the modal and edit mode and clears the form |
| Calendar.EventCalendar.HandleRequestDone | src/components/Calendar/Calendar.js:85-123 | a successful delete or update closes the modal; a failure leaves it |
| Login.OnFinish | src/container/Login/Login.js:14-24 | navigates to "/classes" exactly when some user matches both fields strictly, otherwise not at all |
| Login.OrderIndependent | src/container/Login/Login.js:17 | the outcome depends only on the users present, not their order |
| Navbar.GetMenuKey | src/components/Navbar/Navbar.js:28-62 | a key exactly for the listed paths; never "6" or "7"; "sub1" exactly for the two fee paths |
| Navbar.MenuKeysDistinct | src/components/Navbar/Navbar.js:29-58 | apart from the fee pair, distinct listed paths get distinct keys |
| Navbar.ItemPathOfMenuItems | src/components/Navbar/Navbar.js:71-118 | the key-to-link lookup agrees with every menu item |
| Navbar.GetMenuKeyLeadsBack | src/components/Navbar/Navbar.js:28-62 | apart from "sub1", the key getMenuKey gives belongs to the item linking to that very path |
| Navbar.FeeItemsNeverHighlighted | src/components/Navbar/Navbar.js:40-42 | every item except the two fee items is highlighted on its own path; the fee items never are, and no item has key "sub1" |
| Navbar.MenuKey | src/components/Navbar/Navbar.js:28-62 | corrected mapping: a key exactly for the listed paths |
| Navbar.MenuKeyLeadsBack | src/components/Navbar/Navbar.js:28-62 | under the corrected mapping, the key of every listed path belongs to the item linking to that path |
| Navbar.MenuKeyHighlightsEveryItem | src/components/Navbar/Navbar.js:71-118 | under the corrected mapping every menu item is highlighted on its own path and on no other |
| Search.ContainsIgnoringCaseMeaning | src/container/Classes/Sub/Details.js:169 | the lower-cased term occurs in the lower-cased text; case does not matter on either side, and "" always matches |
| Search.ContainsIgnoringCase | src/container/Classes/Sub/Details.js:169 | the lower-cased includes test; Search.ContainsIgnoringCaseMeaning proves it finds the term at an offset, ignores case and accepts "" |
| Search.ToText | src/container/Students/Student.js:29 | toString fails exactly on null and undefined |
| Search.SomeValueMatches | src/container/Students/Student.js:27-31 | `some` is true at the first matching value, provided no earlier value failed; it is false when every value converts and none matches |
| Search.SearchRecords | src/container/Students/Student.js:25-33 | the search is defined exactly when every record's test is defined |
| Search.SearchRecordsIsFilter | src/container/Students/Student.js:27 | when defined, the search is the filter by the record test |
| Search.SearchRecordsCorrect | src/container/Students/Student.js:27-31 | the result is an order-preserving subsequence holding exactly the records with some matching field |
| Search.EmptySearchKeepsAll | src/container/Students/Student.js:27-31 | an empty search keeps every student |
| Search.NullValueFails | src/container/Students/Student.js:29 | a record whose values, read in order, miss the term until a null or undefined one makes the whole filter throw, wherever that value stands |
| SectionStudents.UnassignedStudentsCorrect | src/container/Classes/Sub/Details.js:73 | unassigned students are exactly those with section_id === null, in input order |
| SectionStudents.UnassignedStudents | src/container/Classes/Sub/Details.js:73 | the unassigned students; SectionStudents.UnassignedStudentsCorrect proves they are those with section_id null, in order |
| SectionStudents.ShownStudentsCorrect | src/container/Classes/Sub/Details.js:169 | the table render throws (None) exactly when some student's name is not a string, wherever it is; otherwise the rows are, in order, the students whose name contains the term case-insensitively, and all students for "" |
| SectionStudents.ShownStudents | src/container/Classes/Sub/Details.js:169 | the table rows, or None when the render throws on a name that is not a string; SectionStudents.ShownStudentsCorrect states both cases |
| SectionStudents.EditOkRequest | src/container/Classes/Sub/Details.js:99-110 | a selected edit student takes precedence; an assignment sends only s_id and section_id; nothing without a selection |
| SectionStudents.SectionStudentsScreen.constructor | src/container/Classes/Sub/Details.js:12-31 | the section id starts null and takes the query value only when it is non-empty; lists and selections start empty |
| SectionStudents.SectionStudentsScreen.FetchStudents | src/container/Classes/Sub/Details.js:54-66 | an array payload becomes the students; any other payload gives [] |
| SectionStudents.SectionStudentsScreen.ShowModal | src/container/Classes/Sub/Details.js:68-86 | opens the modal with the unassigned students of the response |
| SectionStudents.SectionStudentsScreen.ShowEditModal | src/container/Classes/Sub/Details.js:88-94 | selects the student for editing and opens the modal |
| SectionStudents.SectionStudentsScreen.SelectAssign | src/container/Classes/Sub/Details.js:251-256 | records the chosen student tagged with the page's section id, null when the query had none |
| SectionStudents.SectionStudentsScreen.HandleEditOk | src/container/Classes/Sub/Details.js:96-121 | sends the precedence request; after success both selections are cleared and the modal hidden |
| SectionStudents.SectionStudentsScreen.HandleEditCancel | src/container/Classes/Sub/Details.js:123-127 | clears the edit selection and hides the modal, keeping the assign selection |
| SectionStudents.SectionStudentsScreen.HandleDelete | src/container/Classes/Sub/Details.js:129-138 | removing a student sends section_id null for that s_id |
| SectionStudents.SectionStudentsScreen.HandleSearch | src/container/Classes/Sub/Details.js:141-143 | stores the search term |
| Students.StudentScreen.constructor | src/container/Students/Student.js:12-19 | the initial state, with the filtered list in step with the search |
| Students.Filtered | src/container/Students/Student.js:25-33 | the effect's filter; Search.SearchRecordsCorrect proves what it keeps and Search.NullValueFails when it throws |
| Students.StudentScreen.RefreshFiltered | src/container/Students/Student.js:25-33 | filteredStudents becomes the search result; a throwing search crashes the page, which stays crashed |
| Students.StudentScreen.FetchStudents | src/container/Students/Student.js:57-68 | an array replaces the students, a missing or non-array result empties them, a failed request keeps them; the shown list becomes their search with the current input, or stays as it was while the page crashes when that search throws; the input, selection and modals are untouched |
| Students.StudentScreen.HandleSearch | src/container/Students/Student.js:70-72 | stores the input; the shown list becomes the search of the students with it, or stays as it was while the page crashes when that search throws; the students, selection and modals are untouched |
| Students.StudentScreen.ShowEditModal | src/container/Students/Student.js:97-101 | selects the student and opens the edit modal |
| Students.StudentScreen.HandleEditOk | src/container/Students/Student.js:103-115 | sends the edit for the selected student; a success closes the modal |
| Students.StudentScreen.HandleEditCancel | src/container/Students/Student.js:117-121 | hides the edit modal and clears the selection |
| Students.StudentScreen.ShowViewModal | src/container/Students/Student.js:136-139 | selects the student and opens the view modal |
| Students.StudentScreen.HandleViewCancel | src/container/Students/Student.js:141-144 | hides the view modal and clears the selection |
| Educator.DeleteErrorMessage | src/container/Educator/Educator.js:73-84 | "cannot be deleted" exactly for status 500 with details containing "foreign key constraint"; Educator.DeleteErrorNeedsStatus500 proves the phrase is found anywhere in the details and only under status 500 |
| Educator.DeleteErrorNeedsStatus500 | src/container/Educator/Educator.js:73-84 | the same details under another status give the generic message |
| Educator.EducatorScreen.constructor | src/container/Educator/Educator.js:12-19 | the initial screen state |
| Educator.EducatorScreen.FetchTeachers | src/container/Educator/Educator.js:21-42 | teachers become the array, and filteredTeachers its search result; a non-array payload empties both |
| Educator.EducatorScreen.HandleSearch | src/container/Educator/Educator.js:45-53 | stores the input and, for an array, the fresh teachers; shows their search with the new input, or keeps the shown list when that search throws (a null field before any match); a non-array empties both lists, a failed request keeps them |
| Educator.EducatorScreen.HandleEdit | src/container/Educator/Educator.js:59-63 | selects the teacher and opens the edit modal |
| Educator.EducatorScreen.HandleEditCancel | src/container/Educator/Educator.js:120-123 | hides the edit modal and clears the selection |
| Sections.FilteredSectionsCorrect | src/container/Classes/Sub/Section.js:167-171 | shown sections have a truthy name containing the text case-insensitively, in order; unnamed ones are excluded even for "" |
| Sections.FilteredSections | src/container/Classes/Sub/Section.js:167-171 | the shown sections; Sections.FilteredSectionsCorrect proves they are the named matches, in order |
| Sections.DeleteRequest | src/container/Classes/Sub/Section.js:139-154 | a delete is sent exactly for a section whose id is present and non-zero, carrying that id; Sections.DeleteRequestOfCard spells out the refused cases |
| Sections.DeleteRequestOfCard | src/container/Classes/Sub/Section.js:139-148 | a section with id 0 or no id is refused as "Invalid section data"; a deleted id is never 0 |
| Sections.CardTitle | src/container/Classes/Sub/Section.js:212 | "N/A" without a name, otherwise a title as long as the name |
| Sections.CardTitleUpper | src/container/Classes/Sub/Section.js:212 | the title is upper case and equals the name up to case |
| Sections.SectionScreen.constructor | src/container/Classes/Sub/Section.js:13-26 | the initial screen state for the standard in the query |
| Sections.SectionScreen.FetchSections | src/container/Classes/Sub/Section.js:35-55 | no request without a standard name; a non-array result gives [] |
| Sections.SectionScreen.ShowEditModal | src/container/Classes/Sub/Section.js:101-108 | selects the section and prefills sectionName from section_name and teacherId from t_name |
| Sections.SectionScreen.HandleEditOk | src/container/Classes/Sub/Section.js:110-131 | an update is sent exactly for a selection that DeleteRequest accepts, otherwise "Invalid section data"; a sent update empties the form and closes the modal |
| Sections.SectionScreen.HandleEditCancel | src/container/Classes/Sub/Section.js:133-137 | empties the form, hides the modal and clears the selection |
| Sections.SectionScreen.SetSearchInput | src/container/Classes/Sub/Section.js:195 | stores the search text |
| Classes.FilteredStandardsCorrect | src/container/Classes/Classes.js:129-133 | shown standards have a truthy name containing the text case-insensitively, in order |
| Classes.FilteredStandards | src/container/Classes/Classes.js:129-133 | the shown standards; Classes.FilteredStandardsCorrect proves they are the named matches, in order |
| Classes.DeleteRequest | src/container/Classes/Classes.js:96-111 | a delete is sent exactly for a standard with a non-empty name, carrying that name; Classes.ShownStandardsDeletable proves every shown card qualifies |
| Classes.ShownStandardsDeletable | src/container/Classes/Classes.js:96-111 | every card of the filtered list has a delete that is sent, under that card's own name |
| Classes.RedirectPathQuery | src/container/Classes/Classes.js:135-137 | the path is the sections route followed by the name, and different names give different paths |
| Classes.RedirectPath | src/container/Classes/Classes.js:135-137 | the sections path of a card; Classes.RedirectPathQuery proves it carries the name and tells names apart |
| Classes.ClassesScreen.constructor | src/container/Classes/Classes.js:12-18 | the initial screen state |
| Classes.ClassesScreen.FetchStandards | src/container/Classes/Classes.js:25-37 | an array becomes the standards; a non-array response gives [] |
| Classes.ClassesScreen.ShowEditModal | src/container/Classes/Classes.js:113-116 | selects the standard and opens the edit modal |
| Classes.ClassesScreen.HandleEditOk | src/container/Classes/Classes.js:69-88 | sends the original name with the new curriculum exactly for a selection that DeleteRequest accepts, otherwise "Invalid standard data" |
| Classes.ClassesScreen.HandleEditCancel | src/container/Classes/Classes.js:90-94 | hides the modal and clears the selection |
| Classes.ClassesScreen.HandleSearch | src/container/Classes/Classes.js:65-67 | stores the search text |
| SubjectList.SearchSubjects | src/container/Subject/Sub/Details.js:52-54 | the name search, or None when it throws on a name that is not a string; SubjectList.SearchSubjectsCorrect states both cases |
| SubjectList.SearchSubjectsCorrect | src/container/Subject/Sub/Details.js:49-55 | the filter throws (None) exactly when some name is not a string; otherwise it keeps, in order, the subjects whose name contains the text case-insensitively, and "" keeps all |
| SubjectList.SubjectListScreen.constructor | src/container/Subject/Sub/Details.js:11-24 | the initial screen state |
| SubjectList.SubjectListScreen.FetchSubjects | src/container/Subject/Sub/Details.js:30-47 | subjects and filteredSubjects become the same list, whatever the search; a non-array response empties both |
| SubjectList.SubjectListScreen.HandleSearch | src/container/Subject/Sub/Details.js:49-56 | stores the input and shows the search of the full subjects list, not of the previous result; when that search throws, the shown list stays |
| SubjectList.SubjectListScreen.HandleEdit | src/container/Subject/Sub/Details.js:73-77 | selects the subject and opens the edit modal |
| SubjectList.SubjectListScreen.HandleEditCancel | src/container/Subject/Sub/Details.js:139-142 | hides the edit modal and clears the selection |
| SubjectList.SubjectListScreen.HandleAddOk | src/container/Subject/Sub/Details.js:96-115 | sends the entered name with the page's standard; a success closes the modal |
| SubjectList.SearchTwice | src/container/Subject/Sub/Details.js:49-55 | after two searches the input is the second one and the shown list is what the second search alone gives, or the list shown before both when the search throws |
| SubjectStaff.NormalizeTeachers | src/container/Subject/Sub/View.js:103 | an empty array becomes null; SubjectStaff.ModalShowsTeachers proves the modal then shows exactly the teachers, or the placeholder without any |
| SubjectStaff.TeacherSummary | src/container/Subject/Sub/View.js:108-111 | the first teacher's id and name, or "-"; SubjectStaff.ModalShowsTeachers proves the reported teacher is the first row the modal shows |
| SubjectStaff.ModalRows | src/container/Subject/Sub/View.js:244 | the stored details or the placeholder row; SubjectStaff.ModalShowsTeachers and SubjectStaff.ModalRowsNonEmpty prove the table is never empty and shows exactly the teachers |
| SubjectStaff.DeleteStaffRequest | src/container/Subject/Sub/View.js:125-146 | no request exactly for a null id; SubjectStaff.ModalRowsNonEmpty proves deleting the placeholder row sends nothing |
| SubjectStaff.ModalRowsNonEmpty | src/container/Subject/Sub/View.js:129-130 | the table is never empty, and deleting the placeholder sends nothing |
| SubjectStaff.ModalShowsTeachers | src/container/Subject/Sub/View.js:103-111 | the modal shows exactly the teachers, or the placeholder for none; the reported teacher is its first row, or "-" |
| SubjectStaff.SectionIds | src/container/Subject/Sub/View.js:236 | the section ids in order; SubjectStaff.AtMostOneModal proves that when they are distinct at most one modal is visible |
| SubjectStaff.AtMostOneModal | src/container/Subject/Sub/View.js:236 | with distinct section ids, at most one modal is visible, and it is the selected section's |
| SubjectStaff.SubjectStaffScreen.constructor | src/container/Subject/Sub/View.js:11-19 | the initial screen state |
| SubjectStaff.SubjectStaffScreen.FetchSections | src/container/Subject/Sub/View.js:31-45 | an array becomes the sections, otherwise [] |
| SubjectStaff.SubjectStaffScreen.HandleViewSubject | src/container/Subject/Sub/View.js:83-122 | only a response with both arrays is accepted and moves the selection; otherwise the details become null |
| SubjectStaff.SubjectStaffScreen.CloseSectionModal | src/container/Subject/Sub/View.js:237 | closing clears the selected section |
| SubjectStaff.SubjectStaffScreen.ShowModal | src/container/Subject/Sub/View.js:150-152 | opens the assign modal |
| SubjectStaff.SubjectStaffScreen.HideModal | src/container/Subject/Sub/View.js:154-157 | hides the assign modal |

## Left out

- All HTTP requests are left out. Each response is a parameter: an array, a payload of another shape, or a failed request. Each outcome of a post is a boolean parameter.
- A throw during rendering unmounts the page, since the app has no error boundary. It is modelled as a `crashed` flag (`Students.StudentScreen`, `Calendar.EventCalendar`) or as a `None` table (`SectionStudents.ShownStudents`). A throw in an event handler keeps the state set before it (`SubjectList.SubjectListScreen.HandleSearch`). What the browser shows after an unmount is left out.
- Fees.js, Performance/View.js and Performance/Performance.js are not `class`es, so the model does not capture their stored state or its order across handlers. These are the drawer and modal visibility, the selected standard, student and section, and the chart, count and modal data. Only the values that the members named above compute for the setters are modelled.
- React rendering, JSX, antd form, modal, table and drawer mechanics, `useEffect` scheduling and routing are left out. A re-fetch that an effect triggers is a separate method call.
- `Promise.all` in `Performance.js` is left out. Each standard is summarised in turn, in input order.
- IEEE floating point is not modelled, and performances are `real`. A `parseInt` result is an option in which `None` stands for NaN. So is a performance in `PerformanceOverview`, where `None` is a null or unparseable value.
- `PerformanceView.SortByPerformance`: a student's `overall_performance` (View.js:127) is a plain number, and so is a non-null `SectionAverage` performance (View.js:49). A value that `parseFloat` turns into NaN is outside the model, and so are the NaN comparisons it would bring into the sort.
- `PerformanceView.StandardAverage`: View.js:53 divides by zero for an empty list, giving NaN; the model returns `None` there.
- `romanize`, `encodeURIComponent`, moment date formatting and the random chart line colours are foreign code and are left out.
- Console logging and toast messages are left out. Messages appear only as result labels.
- The contents of `users.json` are left out. The user list is a parameter.
- `Text.Lower`, `Text.Upper`: only ASCII letters change case. Unicode case folding is not modelled.
- `Text.IsSpace`: the Unicode space separators other than U+00A0 are not in the white-space set.
- The Calendar form page and the Group page have no logic and are not modelled.
- The add and create modals of the student, educator, section and standard screens are not modelled. Their handlers only post form values.
- The delete handlers of those screens are not modelled beyond the guards and payloads listed above. They only post and re-fetch.
- The Fees drawer's update submit is not modelled. It posts the form as is.
- `Chart.SubjectNames`: the exam-name set built beside the subject names is never read, so it is not modelled.
- JavaScript orders integer-like object keys first. Records are modelled as sequences of named fields in insertion order, so this ordering is not modelled.
- `Fees.HandleUpdate`: form values are modelled as integers, although an edited Input yields strings.
- `Fees.StudentName`: only the line at Fees.js:202 is cited. The same lookup is repeated at line 235.

## Findings

| source | as written | input that shows it | evidently intended | confidence | as-written member | corrected member |
|---|---|---|---|---|---|---|
| src/components/Navbar/Navbar.js:40-42 | "/fees" and "/fee-structure" both map to the key "sub1", but no menu item has that key, since the fee items are "6" and "7" | pathname "/fees" | "/fees" selects "6" and "/fee-structure" selects "7", so the current fee page is highlighted | not executed | Navbar.FeeItemsNeverHighlighted | Navbar.MenuKeyHighlightsEveryItem |
