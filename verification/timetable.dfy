/** The timetable page (src/container/TimeTable/Timetable.js): the fetched slots grouped by
    day, the widest period number, the "Day" column followed by one column per period, the
    six Monday..Saturday rows, and the lookup that renders one cell. */
module Timetable {
  import opened Js
  import opened Text
  import opened Seqs

  /** One entry of the timetable response. */
  datatype Slot = Slot(day: string, periodno: int, teacherId: string, subjectId: string)

  datatype Subject = Subject(subject_id: string, subject_name: string)
  datatype Teacher = Teacher(t_id: string, t_name: string)

  const DaysOrder: seq<string> := ["Monday", "Tuesday", "Wednesday", "Thursday", "Friday", "Saturday"]

  // ---------------------------------------------------------------- grouping by day

  function OnDay(d: string): Slot -> bool
  {
    (e: Slot) => e.day == d
  }

  /** `grouped` is what the `reduce` of `fetchTimetable` builds from `entries`: a bucket for
      each day that occurs, holding that day's entries in input order. */
  ghost predicate IsGrouping(entries: seq<Slot>, grouped: map<string, seq<Slot>>)
  {
    (forall d :: d in grouped <==> exists k :: 0 <= k < |entries| && entries[k].day == d) &&
    (forall d :: d in grouped ==> grouped[d] == Filter(entries, OnDay(d)))
  }

  /** The `reduce` that pushes each entry onto the bucket of its day. */
  method GroupByDay(entries: seq<Slot>) returns (grouped: map<string, seq<Slot>>)
    ensures IsGrouping(entries, grouped)
  {
    grouped := map[];
    var i := 0;
    while i < |entries|
      invariant 0 <= i <= |entries|
      invariant IsGrouping(entries[..i], grouped)
    {
      var e := entries[i];
      var bucket := if e.day in grouped then grouped[e.day] else [];
      GroupStep(entries, i, grouped);
      grouped := grouped[e.day := bucket + [e]];
      i := i + 1;
    }
    assert entries[..i] == entries;
  }

  /** One step of the `reduce`: pushing entry `i` onto its day's bucket turns the grouping
      of the first `i` entries into the grouping of the first `i + 1`. */
  lemma GroupStep(entries: seq<Slot>, i: nat, prev: map<string, seq<Slot>>)
    requires i < |entries|
    requires IsGrouping(entries[..i], prev)
    ensures var e := entries[i];
            IsGrouping(entries[..i + 1], prev[e.day := (if e.day in prev then prev[e.day] else []) + [e]])
  {
    var e := entries[i];
    var next := prev[e.day := (if e.day in prev then prev[e.day] else []) + [e]];
    var before, after := entries[..i], entries[..i + 1];
    forall d
      ensures d in next <==> exists k :: 0 <= k < |after| && after[k].day == d
    {
      if d in prev {
        var k :| 0 <= k < |before| && before[k].day == d;
        assert after[k] == before[k];
      } else if d == e.day {
        assert after[i] == e;
      }
      if k :| 0 <= k < |after| && after[k].day == d {
        if k < i {
          assert before[k] == after[k];
        }
      }
    }
    forall d | d in next
      ensures next[d] == Filter(after, OnDay(d))
    {
      FilterStep(entries, i, d);
      if d == e.day && d !in prev {
        forall k | 0 <= k < i ensures entries[k].day != d
        {
          assert before[k] == entries[k];
        }
        NoneOnDay(entries, i, d);
      }
    }
  }

  lemma FilterStep(entries: seq<Slot>, i: nat, d: string)
    requires i < |entries|
    ensures Filter(entries[..i + 1], OnDay(d))
         == Filter(entries[..i], OnDay(d)) + (if entries[i].day == d then [entries[i]] else [])
  {
    assert entries[..i + 1][..i] == entries[..i];
  }

  /** A day no entry of the prefix has gets an empty bucket. */
  lemma {:induction false} NoneOnDay(entries: seq<Slot>, n: nat, d: string)
    requires n <= |entries|
    requires forall k :: 0 <= k < n ==> entries[k].day != d
    ensures Filter(entries[..n], OnDay(d)) == []
    decreases n
  {
    if n > 0 {
      NoneOnDay(entries, n - 1, d);
      FilterStep(entries, n - 1, d);
    }
  }

  /** Every entry lands in the bucket of its own day and in no other, each bucket keeps the
      input order, and no bucket is empty. */
  lemma GroupingPartitions(entries: seq<Slot>, grouped: map<string, seq<Slot>>)
    requires IsGrouping(entries, grouped)
    ensures forall k :: 0 <= k < |entries| ==> entries[k].day in grouped && entries[k] in grouped[entries[k].day]
    ensures forall d, e :: d in grouped && e in grouped[d] ==> e in entries && e.day == d
    ensures forall d :: d in grouped ==> grouped[d] != [] && IsSubsequence(grouped[d], entries)
  {
    forall d | d in grouped
      ensures forall e :: e in grouped[d] <==> e in entries && e.day == d
      ensures grouped[d] != [] && IsSubsequence(grouped[d], entries)
    {
      FilterMembers(entries, OnDay(d));
      FilterIsSubsequence(entries, OnDay(d));
      var k :| 0 <= k < |entries| && entries[k].day == d;
      assert entries[k] in grouped[d];
    }
    forall k | 0 <= k < |entries|
      ensures entries[k].day in grouped && entries[k] in grouped[entries[k].day]
    {
      FilterMembers(entries, OnDay(entries[k].day));
    }
  }

  // ---------------------------------------------------------------- columns

  /** `m` is what `getColumns` computes as `maxPeriod`: 0 or more, at least every period
      number in every bucket (whatever the day), and reached by one of them unless it is 0. */
  ghost predicate IsMaxPeriod(grouped: map<string, seq<Slot>>, m: int)
  {
    m >= 0 &&
    (forall d, k :: d in grouped && 0 <= k < |grouped[d]| ==> grouped[d][k].periodno <= m) &&
    (m == 0 || exists d, k :: d in grouped && 0 <= k < |grouped[d]| && grouped[d][k].periodno == m)
  }

  /** The nested `forEach` over `Object.values(timetableData)` that raises `maxPeriod`. */
  method MaxPeriod(grouped: map<string, seq<Slot>>) returns (maxPeriod: int)
    ensures IsMaxPeriod(grouped, maxPeriod)
  {
    maxPeriod := 0;
    var days := grouped.Keys;
    ghost var done: set<string> := {};
    while days != {}
      invariant days !! done && days + done == grouped.Keys
      invariant maxPeriod >= 0
      invariant forall d, k :: d in done && 0 <= k < |grouped[d]| ==> grouped[d][k].periodno <= maxPeriod
      invariant maxPeriod == 0 ||
                exists d, k :: d in done && 0 <= k < |grouped[d]| && grouped[d][k].periodno == maxPeriod
      decreases |days|
    {
      var d :| d in days;
      var periods := grouped[d];
      var j := 0;
      while j < |periods|
        invariant 0 <= j <= |periods|
        invariant maxPeriod >= 0
        invariant forall k :: 0 <= k < j ==> periods[k].periodno <= maxPeriod
        invariant forall e, k :: e in done && 0 <= k < |grouped[e]| ==> grouped[e][k].periodno <= maxPeriod
        invariant maxPeriod == 0 ||
                  (exists e, k :: e in done && 0 <= k < |grouped[e]| && grouped[e][k].periodno == maxPeriod) ||
                  (exists k :: 0 <= k < j && periods[k].periodno == maxPeriod)
      {
        if periods[j].periodno > maxPeriod {
          maxPeriod := periods[j].periodno;
        }
        j := j + 1;
      }
      days := days - {d};
      done := done + {d};
    }
  }

  /** There is only one such maximum. */
  lemma MaxPeriodUnique(grouped: map<string, seq<Slot>>, m: int, n: int)
    requires IsMaxPeriod(grouped, m) && IsMaxPeriod(grouped, n)
    ensures m == n
  {
  }

  /** Over a grouping of the response, the maximum is taken over every entry of the response. */
  lemma MaxPeriodOfEntries(entries: seq<Slot>, grouped: map<string, seq<Slot>>, m: int)
    requires IsGrouping(entries, grouped) && IsMaxPeriod(grouped, m)
    ensures m >= 0 && forall k :: 0 <= k < |entries| ==> entries[k].periodno <= m
    ensures m == 0 || exists k :: 0 <= k < |entries| && entries[k].periodno == m
    ensures entries == [] ==> m == 0
  {
    GroupingPartitions(entries, grouped);
    forall k | 0 <= k < |entries| ensures entries[k].periodno <= m
    {
      var b := grouped[entries[k].day];
      var j :| 0 <= j < |b| && b[j] == entries[k];
    }
    if m != 0 {
      var d, j :| d in grouped && 0 <= j < |grouped[d]| && grouped[d][j].periodno == m;
      assert grouped[d][j] in grouped[d];
    }
  }

  /** A table column; `render` names the period whose cell the column renders. */
  datatype Column = Column(title: string, dataIndex: string, key: string, render: Option<int>)

  const DayColumn := Column("Day", "day", "day", None)

  function PeriodColumn(i: nat): Column
  {
    Column("Period " + NatToString(i), NatToString(i), NatToString(i), Some(i))
  }

  /** `getColumns`: the "Day" column, then "Period 1".."Period maxPeriod" in order. */
  method GetColumns(grouped: map<string, seq<Slot>>) returns (columns: seq<Column>)
    ensures |columns| >= 1 && IsMaxPeriod(grouped, |columns| - 1)
    ensures columns[0] == DayColumn
    ensures forall i :: 1 <= i < |columns| ==> columns[i] == PeriodColumn(i)
  {
    var maxPeriod := MaxPeriod(grouped);
    columns := [DayColumn];
    var i := 1;
    while i <= maxPeriod
      invariant 1 <= i <= maxPeriod + 1
      invariant |columns| == i && columns[0] == DayColumn
      invariant forall k :: 1 <= k < |columns| ==> columns[k] == PeriodColumn(k)
    {
      columns := columns + [PeriodColumn(i)];
      i := i + 1;
    }
  }

  /** Each period column's data index reads back as its period number, so the column keys
      are pairwise distinct and none is "day". */
  lemma PeriodColumnKeys(i: nat, j: nat)
    ensures ParseInt(PeriodColumn(i).dataIndex) == Some(i)
    ensures PeriodColumn(i).key != DayColumn.key
    ensures i != j ==> PeriodColumn(i).key != PeriodColumn(j).key
  {
    ParseIntRoundTrip(i);
    assert AllDigits(NatToString(i));
    assert !IsDigit('d');
    if NatToString(i) == NatToString(j) {
      NatToStringInjective(i, j);
    }
  }

  // ---------------------------------------------------------------- rows

  /** One row of the table's data source. */
  datatype DayRow = DayRow(key: string, day: string, periods: map<int, Slot>)

  function PeriodOf(e: Slot): int
  {
    e.periodno
  }

  function SlotItself(e: Slot): Slot
  {
    e
  }

  /** `bucket.reduce((acc, curr) => { acc[curr.periodno] = curr; return acc; }, {})`. */
  function PeriodMap(bucket: seq<Slot>): map<int, Slot>
  {
    Assign(map[], bucket, PeriodOf, SlotItself)
  }

  /** Period `p` of a row holds the last entry with that period number; a period without an
      entry is absent. */
  lemma PeriodMapLastWins(bucket: seq<Slot>, p: int)
    ensures p in PeriodMap(bucket) <==> exists k :: 0 <= k < |bucket| && bucket[k].periodno == p
    ensures p in PeriodMap(bucket) ==> exists k :: LastWithKey(bucket, PeriodOf, p, k) && PeriodMap(bucket)[p] == bucket[k]
  {
    AssignLastWins(map[], bucket, PeriodOf, SlotItself, p);
  }

  function MakeRow(grouped: map<string, seq<Slot>>, day: string): DayRow
  {
    DayRow(day, day, if day in grouped then PeriodMap(grouped[day]) else map[])
  }

  /** `daysOrder.map(day => ({ key: day, day, ...periods }))`: exactly six rows in the fixed
      Monday..Saturday order, whatever days the data holds. */
  function DataSource(grouped: map<string, seq<Slot>>): (rows: seq<DayRow>)
    ensures |rows| == 6
    ensures forall i :: 0 <= i < 6 ==> rows[i].key == DaysOrder[i] && rows[i].day == DaysOrder[i]
  {
    seq(|DaysOrder|, i requires 0 <= i < |DaysOrder| => MakeRow(grouped, DaysOrder[i]))
  }

  /** Some entry of a day's bucket has period `p` exactly when some entry of the response
      has that day and period. */
  lemma BucketHasPeriod(entries: seq<Slot>, d: string, p: int)
    ensures var bucket := Filter(entries, OnDay(d));
            (exists k :: 0 <= k < |bucket| && bucket[k].periodno == p) <==>
            exists k :: 0 <= k < |entries| && entries[k].day == d && entries[k].periodno == p
  {
    var bucket := Filter(entries, OnDay(d));
    FilterMembers(entries, OnDay(d));
    forall k | 0 <= k < |bucket| && bucket[k].periodno == p
      ensures exists j :: 0 <= j < |entries| && entries[j].day == d && entries[j].periodno == p
    {
      assert bucket[k] in bucket;
      var j :| 0 <= j < |entries| && entries[j] == bucket[k];
    }
    forall k | 0 <= k < |entries| && entries[k].day == d && entries[k].periodno == p
      ensures exists j :: 0 <= j < |bucket| && bucket[j].periodno == p
    {
      assert OnDay(d)(entries[k]);
      assert entries[k] in bucket;
      var j :| 0 <= j < |bucket| && bucket[j] == entries[k];
    }
  }

  /** A day's bucket has period `p` exactly when some entry of that day has it. */
  lemma BucketPeriods(entries: seq<Slot>, d: string, p: int)
    ensures p in PeriodMap(Filter(entries, OnDay(d))) <==>
            exists k :: 0 <= k < |entries| && entries[k].day == d && entries[k].periodno == p
  {
    PeriodMapLastWins(Filter(entries, OnDay(d)), p);
    BucketHasPeriod(entries, d, p);
  }

  /** A cell of a day row holds the last response entry of that day with that period; a day
      without entries carries no period at all. */
  lemma DataSourceCell(entries: seq<Slot>, grouped: map<string, seq<Slot>>, i: nat, p: int)
    requires IsGrouping(entries, grouped) && i < 6
    ensures p in DataSource(grouped)[i].periods <==>
            exists k :: 0 <= k < |entries| && entries[k].day == DaysOrder[i] && entries[k].periodno == p
    ensures p in DataSource(grouped)[i].periods ==>
            exists k :: LastWithKey(Filter(entries, OnDay(DaysOrder[i])), PeriodOf, p, k) &&
                        DataSource(grouped)[i].periods[p] == Filter(entries, OnDay(DaysOrder[i]))[k]
    ensures DaysOrder[i] !in grouped ==> DataSource(grouped)[i].periods == map[]
  {
    var d := DaysOrder[i];
    assert DataSource(grouped)[i] == MakeRow(grouped, d);
    if d in grouped {
      BucketPeriods(entries, d, p);
      PeriodMapLastWins(Filter(entries, OnDay(d)), p);
    }
  }

  // ---------------------------------------------------------------- cells

  /** What a period cell shows. */
  datatype Cell = NoData | Names(teacherName: string, subjectName: string)

  function SubjectNamed(id: string): Subject -> bool
  {
    (s: Subject) => s.subject_id == id
  }

  function TeacherNamed(id: string): Teacher -> bool
  {
    (t: Teacher) => t.t_id == id
  }

  /** `renderPeriod(record, period)`: "No data" unless the row has the period and both lookup
      lists are non-empty; otherwise the names of the first teacher and first subject with the
      slot's ids, falling back to "Unknown Teacher" / "Unknown Subject". */
  function RenderPeriod(row: DayRow, period: int, subjects: seq<Subject>, teachers: seq<Teacher>): (c: Cell)
    ensures c == NoData <==> period !in row.periods || subjects == [] || teachers == []
    ensures c.Names? ==>
              var slot := row.periods[period];
              (c.teacherName == "Unknown Teacher" && forall k :: 0 <= k < |teachers| ==> teachers[k].t_id != slot.teacherId) ||
              (exists k :: 0 <= k < |teachers| && teachers[k].t_id == slot.teacherId && c.teacherName == teachers[k].t_name &&
                 forall j :: 0 <= j < k ==> teachers[j].t_id != slot.teacherId)
    ensures c.Names? ==>
              var slot := row.periods[period];
              (c.subjectName == "Unknown Subject" && forall k :: 0 <= k < |subjects| ==> subjects[k].subject_id != slot.subjectId) ||
              (exists k :: 0 <= k < |subjects| && subjects[k].subject_id == slot.subjectId && c.subjectName == subjects[k].subject_name &&
                 forall j :: 0 <= j < k ==> subjects[j].subject_id != slot.subjectId)
  {
    if period in row.periods && |subjects| > 0 && |teachers| > 0 then
      var slot := row.periods[period];
      var subject := FindIndex(subjects, SubjectNamed(slot.subjectId));
      var teacher := FindIndex(teachers, TeacherNamed(slot.teacherId));
      Names(if teacher.Some? then teachers[teacher.value].t_name else "Unknown Teacher",
            if subject.Some? then subjects[subject.value].subject_name else "Unknown Subject")
    else
      NoData
  }

  // ---------------------------------------------------------------- screen state

  /** The state of the timetable page that the section selector drives. */
  class TimetableScreen {
    var selectedSection: Option<string>
    var loading: bool
    var timetableData: map<string, seq<Slot>>
    var error: string
    /** Section ids whose timetable was requested, oldest first. */
    var requested: seq<string>

    constructor ()
      ensures selectedSection == Some("") && !loading && timetableData == map[] && error == "" && requested == []
    {
      selectedSection := Some("");
      loading := false;
      timetableData := map[];
      error := "";
      requested := [];
    }

    /** `handleSectionChange` together with the `fetchTimetable` it starts, once `response`
        has come back: an empty choice clears the grid without a request; otherwise the grid
        becomes the grouping of the response, or the error message is set and the grid kept. */
    method HandleSectionChange(value: Option<string>, response: Response<Slot>)
      modifies this
      ensures selectedSection == value && !loading
      ensures !Truthy(value) ==>
                timetableData == map[] && requested == old(requested) && error == old(error)
      ensures Truthy(value) ==> requested == old(requested) + [value.value]
      ensures Truthy(value) && response.Array? ==>
                IsGrouping(response.items, timetableData) && error == old(error)
      ensures Truthy(value) && !response.Array? ==>
                timetableData == old(timetableData) && error == "Error fetching timetable"
    {
      selectedSection := value;
      loading := true;
      if Truthy(value) {
        requested := requested + [value.value];
        if response.Array? {
          var grouped := GroupByDay(response.items);
          timetableData := grouped;
        } else {
          error := "Error fetching timetable";
        }
        loading := false;
      } else {
        loading := false;
        timetableData := map[];
      }
    }
  }
}
