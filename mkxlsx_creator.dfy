// The session-planner workbook creator: what it keeps of the loaded fused
// data, the planning summary it reports over the students enrolled in a
// statistics course, the sheet's statistics section (which counts every
// student with a topic) and the planner range its COUNTIF formulas read.

module SessionPlanner {
  import opened Text
  import opened Numbers
  import Sorting
  import opened ExcelComponents

  /** The courses whose students the planning summary counts. */
  const StatisticsCourseCodes: set<string> := {
    "BMEVIAUMT00", "BMEVIAUMT10", "BMEVIAUMT12", "BMEVIAUM026",
    "BMEVIAUAL01", "BMEVIAUAL03", "BMEVIAUAL04", "BMEVIAUAL05",
    "BMEVIAUML10", "BMEVIAUML12", "BMEVIAUML11", "BMEVIAUML13",
    "BMEVIAUM039", "BMEVIAUAT02", "BMEVIAUMT11"
  }

  const SessionTypes: seq<string> := ["SW", "HW", "ENG", "GEN", "ONLINE", "SPARE", "NONE"]
  const SpecialSessionTypes: seq<string> := ["ROBONAUT", "AI"]
  const AllSessionTypes: seq<string> := SessionTypes + SpecialSessionTypes

  /** The description column of the session type table. */
  const SessionDescriptions: map<string, string> := map[
    "SW" := "Software session",
    "HW" := "Hardware and software session",
    "ENG" := "English course presentation",
    "GEN" := "Generic session for all types",
    "ONLINE" := "Online generic session",
    "SPARE" := "Spare time slot for later use",
    "NONE" := "Not used timeslot",
    "ROBONAUT" := "Special ROBONAUT session",
    "AI" := "Special AI session"
  ]

  /** `session_descriptions.get(t, "Custom session type")`. */
  function Description(t: string): string
  {
    if t in SessionDescriptions then SessionDescriptions[t] else "Custom session type"
  }

  lemma EverySessionTypeDescribed()
    ensures forall t | t in AllSessionTypes :: t in SessionDescriptions && Description(t) != "Custom session type"
  {
  }

  /**
   * openpyxl's `get_column_letter`: column numbers written in bijective
   * base 26, `A` for 1 up to `Z` for 26, then `AA` for 27.
   */
  function ColumnLetter(c: nat): (r: string)
    requires c >= 1
    ensures |r| >= 1 && forall i | 0 <= i < |r| :: 'A' <= r[i] <= 'Z'
    decreases c
  {
    var last := [('A' as int + (c - 1) % 26) as char];
    if c <= 26 then last else ColumnLetter((c - 1) / 26) + last
  }

  /** The column number a run of capital letters names. */
  function ColumnIndex(s: string): nat
    requires forall i | 0 <= i < |s| :: 'A' <= s[i] <= 'Z'
  {
    if |s| == 0 then 0
    else ColumnIndex(s[..|s| - 1]) * 26 + (s[|s| - 1] as int - 'A' as int + 1)
  }

  /** Every column letter names the column it was made from. */
  lemma {:induction false} ColumnRoundTrip(c: nat)
    requires c >= 1
    ensures ColumnIndex(ColumnLetter(c)) == c
  {
    var r := ColumnLetter(c);
    if c > 26 {
      var q := (c - 1) / 26;
      ColumnRoundTrip(q);
      assert r[..|r| - 1] == ColumnLetter(q);
    }
  }

  /** The planner cells the session counts read: rows 4 to 7 of columns B to P, one cell per slot. */
  const PlannerStartRow: nat := 4
  const PlannerStartCol: nat := 2

  function PlannerEndRow(): nat { PlannerStartRow + |TimeSlots| - 1 }

  function PlannerEndCol(): nat { PlannerStartCol + |Weekdays| * |Rooms| - 1 }

  /** The range text of the COUNTIF formulas. */
  function PlannerRange(): string
  {
    ColumnLetter(PlannerStartCol) + NatString(PlannerStartRow) + ":"
      + ColumnLetter(PlannerEndCol()) + NatString(PlannerEndRow())
  }

  lemma PlannerRangeText()
    ensures PlannerRange() == "B4:P7"
  {
    assert NatString(4) == "4" && NatString(7) == "7";
  }

  /**
   * The range is the grid the planner table writes when it starts at row 3,
   * as the workbook builder places it: the first slot row is the one after
   * the header row, the last is one row per time slot further, and the
   * columns run from the one after the slot column to the last header.
   */
  lemma PlannerRangeCoversGrid()
    ensures PlannerStartRow == 3 + 1 && PlannerEndRow() == 3 + |TimeSlots|
    ensures ColumnIndex(ColumnLetter(PlannerStartCol)) == 2
    ensures ColumnIndex(ColumnLetter(PlannerEndCol())) == 1 + |Weekdays| * |Rooms|
  {
    ColumnRoundTrip(PlannerStartCol);
    ColumnRoundTrip(PlannerEndCol());
  }

  function CountIfFormula(range: string, t: string): string
  {
    "=COUNTIF(" + range + ",\"" + t + "\")"
  }

  /** A row of the session type table: the type, its formula, its description. */
  datatype SessionTypeRow = SessionTypeRow(sessionType: string, formula: string, description: string)

  /** One row per session type, standard ones first, each counting that type's code over `range`. */
  method SessionTypeTable(range: string) returns (rows: seq<SessionTypeRow>)
    ensures |rows| == |AllSessionTypes|
    ensures forall i | 0 <= i < |rows| ::
              rows[i] == SessionTypeRow(AllSessionTypes[i], CountIfFormula(range, AllSessionTypes[i]),
                                        Description(AllSessionTypes[i]))
  {
    rows := [];
    for i := 0 to |AllSessionTypes|
      invariant |rows| == i
      invariant forall j | 0 <= j < i ::
                  rows[j] == SessionTypeRow(AllSessionTypes[j], CountIfFormula(range, AllSessionTypes[j]),
                                            Description(AllSessionTypes[j]))
    {
      var t := AllSessionTypes[i];
      rows := rows + [SessionTypeRow(t, CountIfFormula(range, t), Description(t))];
    }
  }

  datatype PlannerDimensions = PlannerDimensions(timeSlots: nat, weekdays: nat, rooms: nat, totalSlots: nat)

  /** The dict `get_planning_summary` returns; `categories` is the key order of its category dict. */
  datatype PlanningSummary = PlanningSummary(
    totalStudents: nat, studentsWithTopics: nat, categories: seq<string>, hungarian: map<string, nat>,
    english: nat, requiredSessions: nat, dimensions: PlannerDimensions, sessionTypesSupported: seq<string>)

  /** The students the sheet's statistics iterate: none without a document or its `students` key. */
  function SheetStudents(fused: Option<FusedDoc>): seq<PlanStudent>
  {
    if fused.Some? then StudentsOf(fused.value) else []
  }

  /** The course filter can only drop students: the summary never counts more than the sheet. */
  lemma {:induction false} FilterCountsFewer(students: seq<PlanStudent>, codes: set<string>)
    ensures |Eligible(students, Some(codes))| <= |Eligible(students, None)|
  {
    if |students| > 0 {
      FilterCountsFewer(students[..|students| - 1], codes);
    }
  }

  class SessionPlannerCreator {
    var fusedData: Option<FusedDoc>

    constructor ()
      ensures fusedData == None
    {
      fusedData := None;
    }

    /**
     * `load_fused_data`, given the parsed file (`None` when the file is
     * missing or does not parse). A parsed document is kept even when the
     * log line after it fails on a missing `students` key, which reports
     * failure.
     */
    method LoadFusedData(parsed: Option<FusedDoc>) returns (ok: bool)
      modifies this
      ensures parsed.None? ==> !ok && fusedData == old(fusedData)
      ensures parsed.Some? ==> fusedData == parsed && (ok <==> parsed.value.students.Some?)
    {
      if parsed.None? {
        return false;
      }
      fusedData := parsed;
      ok := parsed.value.students.Some?;
    }

    /**
     * `get_planning_summary`: an error without a truthy document; otherwise
     * the tallies over the topic students enrolled in a statistics course,
     * the sessions they need at nine per session, and the planner's size.
     */
    method GetPlanningSummary() returns (r: Result<PlanningSummary, string>)
      ensures r.Err? <==> fusedData.None? || !DocTruthy(fusedData.value)
      ensures r.Ok? ==> r.value.totalStudents == |StudentsOf(fusedData.value)|
      ensures r.Ok? ==> r.value.categories
                        == Sorting.TallyKeys(HungarianOf(StudentsOf(fusedData.value), Some(StatisticsCourseCodes)), CategoryName)
      ensures r.Ok? ==> r.value.hungarian
                        == Sorting.Tally(HungarianOf(StudentsOf(fusedData.value), Some(StatisticsCourseCodes)), CategoryName)
      ensures r.Ok? ==> r.value.english == |EnglishOf(StudentsOf(fusedData.value), Some(StatisticsCourseCodes))|
      ensures r.Ok? ==> r.value.studentsWithTopics == |Eligible(StudentsOf(fusedData.value), Some(StatisticsCourseCodes))|
      ensures r.Ok? ==> r.value.studentsWithTopics == r.value.english + Sorting.SumOver(r.value.categories, r.value.hungarian)
      ensures r.Ok? ==> r.value.requiredSessions == RequiredSessions(r.value.studentsWithTopics, 9)
      ensures r.Ok? ==> r.value.dimensions == PlannerDimensions(4, 5, 3, 60)
      ensures r.Ok? ==> r.value.sessionTypesSupported == AllSessionTypes
    {
      if fusedData.None? || !DocTruthy(fusedData.value) {
        return Err("No fused data available");
      }
      var students := StudentsOf(fusedData.value);
      var courses := Some(StatisticsCourseCodes);
      var categories: seq<string>, counts: map<string, nat>, english: nat := [], map[], 0;
      var withTopics: nat := 0;
      assert students[..0] == [];
      for i := 0 to |students|
        invariant TalliedSoFar(students, courses, i, Tallies(categories, counts, english))
        invariant withTopics == |Eligible(students[..i], courses)|
      {
        ghost var before := Tallies(categories, counts, english);
        CountStudentKeeps(students, courses, i, before);
        EligibleStep(students, i, courses);
        var s := students[i];
        if HasCourseIn(s, StatisticsCourseCodes) && s.hasTopic && Truthy(s.category) {
          withTopics := withTopics + 1;
          if s.isEnglishTopic {
            english := english + 1;
          } else {
            var category := s.category.value;
            if category !in counts {
              categories := categories + [category];
            }
            counts := counts[category := (if category in counts then counts[category] else 0) + 1];
          }
        }
        assert Tallies(categories, counts, english) == CountStudent(before, s, courses);
      }
      assert students[..|students|] == students;
      TopicCountsAddUp(students, courses);
      var sessions := if withTopics > 0 then CeilDiv(withTopics, 9) else 0;
      var slots := |TimeSlots| * |Weekdays| * |Rooms|;
      r := Ok(PlanningSummary(|students|, withTopics, categories, counts, english, sessions,
                              PlannerDimensions(|TimeSlots|, |Weekdays|, |Rooms|, slots), AllSessionTypes));
    }

    /**
     * `create_statistics_section`: the topic table over every student with a
     * topic and a category, whatever their courses, then one COUNTIF row per
     * session type over the planner range. The result is the row after the
     * section: its titles, headers and gaps take seventeen rows besides the
     * topic rows. A start row of 0 or less fails at the first cell and
     * returns the start row.
     */
    method CreateStatisticsSection(startRow: int)
      returns (st: TopicStatistics, topicRows: seq<StatRow>, sessionRows: seq<SessionTypeRow>, next: int)
      ensures startRow < 1 ==> topicRows == [] && sessionRows == [] && next == startRow
      ensures startRow >= 1 ==> st.categories == Sorting.TallyKeys(HungarianOf(SheetStudents(fusedData), None), CategoryName)
      ensures startRow >= 1 ==> st.hungarian == Sorting.Tally(HungarianOf(SheetStudents(fusedData), None), CategoryName)
      ensures startRow >= 1 ==> st.english == |EnglishOf(SheetStudents(fusedData), None)|
      ensures startRow >= 1 ==> st.total == |Eligible(SheetStudents(fusedData), None)|
      ensures startRow >= 1 ==> TopicTable(st, topicRows)
      ensures startRow >= 1 ==> |sessionRows| == |AllSessionTypes|
      ensures startRow >= 1 ==> forall i | 0 <= i < |sessionRows| ::
                sessionRows[i] == SessionTypeRow(AllSessionTypes[i], CountIfFormula(PlannerRange(), AllSessionTypes[i]),
                                                 Description(AllSessionTypes[i]))
      ensures startRow >= 1 ==> next == startRow + 17 + |topicRows|
    {
      st := TopicStatistics([], map[], 0, 0, 0);
      if startRow < 1 {
        return st, [], [], startRow;
      }
      var students: seq<PlanStudent> := [];
      if fusedData.Some? && fusedData.value.students.Some? {
        students := fusedData.value.students.value;
      }
      var categories, counts, english := TallyTopics(students, None);
      TopicCountsAddUp(students, None);
      Sorting.TallyTotal(HungarianOf(students, None), CategoryName);
      var totalHungarian := Sorting.SumOver(categories, counts);
      st := TopicStatistics(categories, counts, english, totalHungarian, totalHungarian + english);
      forall c | c in categories
        ensures c in counts
      {
        Sorting.TallyKeysIn(HungarianOf(students, None), CategoryName, c);
      }
      topicRows := TopicRows(st);
      sessionRows := SessionTypeTable(PlannerRange());
      var currentRow := startRow + 3 + |topicRows| + 2;
      currentRow := currentRow + 3 + |sessionRows|;
      next := currentRow;
    }
  }

  /** The course-filtering scenario: one Hungarian and one English student in listed courses, one outside. */
  function FilteringStudents(): seq<PlanStudent>
  {
    [ PlanStudent([Some("BMEVIAUMT00")], true, Some("Software"), false),
      PlanStudent([Some("BMEVIAUML10")], true, Some("Hardware"), true),
      PlanStudent([Some("BMEVIAUAT01")], true, Some("Software"), false) ]
  }

  lemma FilteringEligible()
    ensures Eligible(FilteringStudents(), Some(StatisticsCourseCodes)) == FilteringStudents()[..2]
  {
    var s := FilteringStudents();
    var codes := Some(StatisticsCourseCodes);
    assert s[0].courseCodes[0].value in StatisticsCourseCodes;
    assert s[1].courseCodes[0].value in StatisticsCourseCodes;
    assert !HasCourseIn(s[2], StatisticsCourseCodes);
    assert s[..2][..1] == s[..1] && s[..1][..0] == [];
    assert Eligible(s[..1], codes) == s[..1];
    assert Eligible(s[..2], codes) == s[..2];
  }

  /** The summary of that scenario: two topic students, `{"Software": 1}` and one English student. */
  lemma FilteringScenario()
    ensures |Eligible(FilteringStudents(), Some(StatisticsCourseCodes))| == 2
    ensures Sorting.Tally(HungarianOf(FilteringStudents(), Some(StatisticsCourseCodes)), CategoryName) == map["Software" := 1]
    ensures |EnglishOf(FilteringStudents(), Some(StatisticsCourseCodes))| == 1
  {
    var s := FilteringStudents();
    FilteringEligible();
    var e := s[..2];
    assert e[..1] == [s[0]] && e[..1][..0] == [];
    assert Filter(e, HungarianTopic) == [s[0]];
    assert Filter(e, EnglishTopic) == [s[1]];
    assert [s[0]][..0] == [];
  }
}
