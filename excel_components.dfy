// The statistics behind the session-planner workbook: which fused students a
// topic table counts, their tally per Hungarian category and the English
// count, the number of sessions a head count needs, and the planner grid's
// header and rows.

module ExcelComponents {
  import opened Text
  import Sorting

  /**
   * The fields of one fused student the statistics read. An absent key takes
   * its `.get` default: no courses, no topic, no category, not English. A
   * course without a `course_code` key is `None`.
   */
  datatype PlanStudent = PlanStudent(
    courseCodes: seq<Option<string>>, hasTopic: bool, category: Option<string>, isEnglishTopic: bool)

  /** The loaded fused-data document: its `students` list when that key is present, and how many other keys it has. */
  datatype FusedDoc = FusedDoc(students: Option<seq<PlanStudent>>, otherKeys: nat)

  /** A dict is truthy iff it has a key. */
  predicate DocTruthy(d: FusedDoc)
  {
    d.students.Some? || d.otherKeys > 0
  }

  /** `fused_data.get('students', [])`. */
  function StudentsOf(d: FusedDoc): seq<PlanStudent>
  {
    if d.students.Some? then d.students.value else []
  }

  /** `any(course.get('course_code') in codes for course in enrolled_courses)`. */
  predicate HasCourseIn(s: PlanStudent, codes: set<string>)
  {
    exists i | 0 <= i < |s.courseCodes| :: s.courseCodes[i].Some? && s.courseCodes[i].value in codes
  }

  /**
   * Whether a topic table counts the student: a course among `courses` when
   * that filter is given, `has_topic`, and a truthy `topic_category`.
   */
  predicate Counted(s: PlanStudent, courses: Option<set<string>>)
  {
    (courses.Some? ==> HasCourseIn(s, courses.value)) && s.hasTopic && Truthy(s.category)
  }

  /** The counted students, in input order. */
  function Eligible(students: seq<PlanStudent>, courses: Option<set<string>>): seq<PlanStudent>
  {
    if |students| == 0 then []
    else
      var last := students[|students| - 1];
      Eligible(students[..|students| - 1], courses) + if Counted(last, courses) then [last] else []
  }

  lemma EligibleStep(students: seq<PlanStudent>, i: nat, courses: Option<set<string>>)
    requires i < |students|
    ensures Eligible(students[..i + 1], courses)
         == Eligible(students[..i], courses) + if Counted(students[i], courses) then [students[i]] else []
  {
    assert students[..i + 1][..i] == students[..i];
  }

  /** A student is counted exactly when listed among the eligible ones. */
  lemma {:induction false} EligibleExactly(students: seq<PlanStudent>, courses: Option<set<string>>)
    ensures forall s :: s in Eligible(students, courses) <==> s in students && Counted(s, courses)
  {
    if |students| > 0 {
      var front, last := students[..|students| - 1], students[|students| - 1];
      EligibleExactly(front, courses);
      assert students == front + [last];
    }
  }

  predicate EnglishTopic(s: PlanStudent) { s.isEnglishTopic }

  predicate HungarianTopic(s: PlanStudent) { !s.isEnglishTopic }

  /** The dict key a Hungarian student is counted under. */
  function CategoryName(s: PlanStudent): string
  {
    if s.category.Some? then s.category.value else ""
  }

  /** The counted students with a Hungarian topic, in input order. */
  function HungarianOf(students: seq<PlanStudent>, courses: Option<set<string>>): seq<PlanStudent>
  {
    Filter(Eligible(students, courses), HungarianTopic)
  }

  /** The counted students with an English topic, in input order. */
  function EnglishOf(students: seq<PlanStudent>, courses: Option<set<string>>): seq<PlanStudent>
  {
    Filter(Eligible(students, courses), EnglishTopic)
  }

  /** The counting loop's variables: the category keys in insertion order, their counts, the English count. */
  datatype Tallies = Tallies(categories: seq<string>, counts: map<string, nat>, english: nat)

  /** One iteration of the counting loop. */
  function CountStudent(t: Tallies, s: PlanStudent, courses: Option<set<string>>): Tallies
  {
    if !Counted(s, courses) then t
    else if s.isEnglishTopic then t.(english := t.english + 1)
    else
      var c := CategoryName(s);
      Tallies(t.categories + (if c in t.counts then [] else [c]),
              t.counts[c := (if c in t.counts then t.counts[c] else 0) + 1], t.english)
  }

  /** The tallies of the first `k` students: the dict and its key order over the Hungarian ones, the English count. */
  predicate TalliedSoFar(students: seq<PlanStudent>, courses: Option<set<string>>, k: nat, t: Tallies)
    requires k <= |students|
  {
    && t.categories == Sorting.TallyKeys(HungarianOf(students[..k], courses), CategoryName)
    && t.counts == Sorting.Tally(HungarianOf(students[..k], courses), CategoryName)
    && t.english == |EnglishOf(students[..k], courses)|
  }

  lemma CountStudentKeeps(students: seq<PlanStudent>, courses: Option<set<string>>, k: nat, t: Tallies)
    requires k < |students| && TalliedSoFar(students, courses, k, t)
    ensures TalliedSoFar(students, courses, k + 1, CountStudent(t, students[k], courses))
  {
    TallyStep(students, k, courses);
    CountStudentStep(HungarianOf(students[..k], courses), EnglishOf(students[..k], courses), students[k], t, courses);
  }

  /** One iteration of the counting loop, over the Hungarian and English lists so far. */
  lemma CountStudentStep(h: seq<PlanStudent>, e: seq<PlanStudent>, s: PlanStudent, t: Tallies, courses: Option<set<string>>)
    requires t.categories == Sorting.TallyKeys(h, CategoryName) && t.counts == Sorting.Tally(h, CategoryName)
    requires t.english == |e|
    ensures var h', e' := h + (if Counted(s, courses) && !s.isEnglishTopic then [s] else []),
                          e + (if Counted(s, courses) && s.isEnglishTopic then [s] else []);
            var t' := CountStudent(t, s, courses);
            t'.categories == Sorting.TallyKeys(h', CategoryName) && t'.counts == Sorting.Tally(h', CategoryName)
            && t'.english == |e'|
  {
    if Counted(s, courses) && !s.isEnglishTopic {
      HungarianCounted(h, s, t);
    } else {
      assert h + [] == h;
    }
  }

  /** A Hungarian-topic student bumps its category and appends the category key at its first occurrence. */
  lemma HungarianCounted(h: seq<PlanStudent>, s: PlanStudent, t: Tallies)
    requires t.categories == Sorting.TallyKeys(h, CategoryName)
    requires t.counts == Sorting.Tally(h, CategoryName)
    ensures t.categories + (if CategoryName(s) in t.counts then [] else [CategoryName(s)])
      == Sorting.TallyKeys(h + [s], CategoryName)
    ensures t.counts[CategoryName(s) := (if CategoryName(s) in t.counts then t.counts[CategoryName(s)] else 0) + 1]
      == Sorting.Tally(h + [s], CategoryName)
  {
    Sorting.TallySnoc(h, s, CategoryName);
    Sorting.TallyKeysSnoc(h, s, CategoryName);
    Sorting.TallyKeysIn(h, CategoryName, CategoryName(s));
  }

  /**
   * The counting loop shared by the statistics builders: an English topic
   * bumps the English count, any other bumps its category, whose key joins
   * the dict at its first student.
   */
  method TallyTopics(students: seq<PlanStudent>, courses: Option<set<string>>)
    returns (categories: seq<string>, counts: map<string, nat>, english: nat)
    ensures categories == Sorting.TallyKeys(HungarianOf(students, courses), CategoryName)
    ensures counts == Sorting.Tally(HungarianOf(students, courses), CategoryName)
    ensures english == |EnglishOf(students, courses)|
  {
    categories, counts, english := [], map[], 0;
    assert students[..0] == [];
    for i := 0 to |students|
      invariant TalliedSoFar(students, courses, i, Tallies(categories, counts, english))
    {
      ghost var before := Tallies(categories, counts, english);
      CountStudentKeeps(students, courses, i, before);
      var s := students[i];
      if Counted(s, courses) {
        if s.isEnglishTopic {
          english := english + 1;
        } else {
          var category := s.category.value;
          if category !in counts {
            categories := categories + [category];
          }
          counts := counts[category := (if category in counts then counts[category] else 0) + 1];
        }
      }
      assert Tallies(categories, counts, english) == CountStudent(before, s, courses);
    }
    assert students[..|students|] == students;
  }

  /** One more student joins the Hungarian or the English list when counted. */
  lemma TallyStep(students: seq<PlanStudent>, i: nat, courses: Option<set<string>>)
    requires i < |students|
    ensures HungarianOf(students[..i + 1], courses) == HungarianOf(students[..i], courses)
              + if Counted(students[i], courses) && !students[i].isEnglishTopic then [students[i]] else []
    ensures EnglishOf(students[..i + 1], courses) == EnglishOf(students[..i], courses)
              + if Counted(students[i], courses) && students[i].isEnglishTopic then [students[i]] else []
  {
    var s, e := students[i], Eligible(students[..i], courses);
    EligibleStep(students, i, courses);
    if Counted(s, courses) {
      FilterSnoc(e, s, HungarianTopic);
      FilterSnoc(e, s, EnglishTopic);
    } else {
      assert e + [] == e;
    }
  }

  /**
   * The counted students split into the two buckets: every Hungarian
   * category tally is its number of students and at least one, the keys are
   * non-empty and distinct, and the tallies with the English count add up to
   * the counted students.
   */
  lemma TopicCountsAddUp(students: seq<PlanStudent>, courses: Option<set<string>>)
    ensures var h := HungarianOf(students, courses);
            Sorting.SumOver(Sorting.TallyKeys(h, CategoryName), Sorting.Tally(h, CategoryName))
            + |EnglishOf(students, courses)| == |Eligible(students, courses)|
    ensures var h := HungarianOf(students, courses);
            forall k | k in Sorting.Tally(h, CategoryName) ::
              k != "" && Sorting.Tally(h, CategoryName)[k] == Sorting.Occurrences(h, CategoryName, k) >= 1
    ensures var ks := Sorting.TallyKeys(HungarianOf(students, courses), CategoryName);
            forall i, j | 0 <= i < j < |ks| :: ks[i] != ks[j]
  {
    var e := Eligible(students, courses);
    var h := HungarianOf(students, courses);
    Sorting.TallyTotal(h, CategoryName);
    Sorting.TallyKeysDistinct(h, CategoryName);
    EligibleExactly(students, courses);
    FilterPartition(e, (s: PlanStudent) => true, EnglishTopic, HungarianTopic);
    assert Filter(e, (s: PlanStudent) => true) == e by { FilterKeepsAll(e, (s: PlanStudent) => true); }
    forall k | k in Sorting.Tally(h, CategoryName)
      ensures k != "" && Sorting.Tally(h, CategoryName)[k] == Sorting.Occurrences(h, CategoryName, k) >= 1
    {
      Sorting.TallyCounts(h, CategoryName, k);
      Sorting.OccurrencesPositive(h, CategoryName, k);
      var i :| 0 <= i < |h| && CategoryName(h[i]) == k;
      assert h[i] in h;
    }
  }

  /** `calculate_required_sessions`: `ceil(n / k)` for a positive head count, else 0. */
  function RequiredSessions(n: int, k: int): (r: nat)
    requires k > 0
    ensures n <= 0 ==> r == 0
    ensures n > 0 ==> r >= 1 && (r - 1) * k < n <= r * k
  {
    if n > 0 then CeilDiv(n, k) else 0
  }

  /** The least `s` with `s * k >= n`. */
  function CeilDiv(n: nat, k: nat): (s: nat)
    requires k > 0
    ensures s * k >= n && (s == 0 || (s - 1) * k < n)
    decreases n
  {
    if n == 0 then 0
    else if n <= k then 1
    else CeilDiv(n - k, k) + 1
  }

  /** The statistics dict of `calculate_topic_statistics`. */
  datatype TopicStatistics = TopicStatistics(
    categories: seq<string>, hungarian: map<string, nat>, english: nat, totalHungarian: nat, total: nat)

  class StatisticsCalculator {
    const statisticsCourseCodes: set<string>

    constructor (codes: set<string>)
      ensures statisticsCourseCodes == codes
    {
      statisticsCourseCodes := codes;
    }

    /**
     * `calculate_topic_statistics`: the tallies over the students enrolled
     * in a statistics course; no document or no `students` key gives zeros.
     */
    method CalculateTopicStatistics(fused: Option<FusedDoc>) returns (st: TopicStatistics)
      ensures var students := if fused.Some? then StudentsOf(fused.value) else [];
              var h := HungarianOf(students, Some(statisticsCourseCodes));
              && st.categories == Sorting.TallyKeys(h, CategoryName)
              && st.hungarian == Sorting.Tally(h, CategoryName)
              && st.english == |EnglishOf(students, Some(statisticsCourseCodes))|
              && st.totalHungarian == |h|
              && st.total == |Eligible(students, Some(statisticsCourseCodes))|
    {
      var students: seq<PlanStudent> := [];
      if fused.Some? && DocTruthy(fused.value) && fused.value.students.Some? {
        students := fused.value.students.value;
      }
      var categories, counts, english := TallyTopics(students, Some(statisticsCourseCodes));
      var totalHungarian := Sorting.SumOver(categories, counts);
      TopicCountsAddUp(students, Some(statisticsCourseCodes));
      Sorting.TallyTotal(HungarianOf(students, Some(statisticsCourseCodes)), CategoryName);
      st := TopicStatistics(categories, counts, english, totalHungarian, totalHungarian + english);
    }
  }

  /** One row of a topic statistics table: a label, a head count and the sessions it needs. */
  datatype StatRow = StatRow(name: string, students: nat, sessions: nat)

  /**
   * The rows of the topic statistics table: one per Hungarian category in
   * dict order, an `ENG` row only when some student is English, and the
   * `TOTAL` row, each with the sessions its head count needs.
   */
  predicate TopicTable(st: TopicStatistics, rows: seq<StatRow>)
  {
    && |rows| == |st.categories| + (if st.english > 0 then 1 else 0) + 1
    && (forall i | 0 <= i < |st.categories| ::
          st.categories[i] in st.hungarian
          && rows[i] == StatRow(st.categories[i], st.hungarian[st.categories[i]],
                                RequiredSessions(st.hungarian[st.categories[i]], 9)))
    && (st.english > 0 ==> rows[|st.categories|] == StatRow("ENG", st.english, RequiredSessions(st.english, 9)))
    && rows[|rows| - 1] == StatRow("TOTAL", st.total, RequiredSessions(st.total, 9))
  }

  method TopicRows(st: TopicStatistics) returns (rows: seq<StatRow>)
    requires forall c | c in st.categories :: c in st.hungarian
    ensures TopicTable(st, rows)
  {
    rows := [];
    for i := 0 to |st.categories|
      invariant |rows| == i
      invariant forall j | 0 <= j < i ::
                  rows[j] == StatRow(st.categories[j], st.hungarian[st.categories[j]],
                                     RequiredSessions(st.hungarian[st.categories[j]], 9))
    {
      var count := st.hungarian[st.categories[i]];
      rows := rows + [StatRow(st.categories[i], count, RequiredSessions(count, 9))];
    }
    if st.english > 0 {
      rows := rows + [StatRow("ENG", st.english, RequiredSessions(st.english, 9))];
    }
    rows := rows + [StatRow("TOTAL", st.total, RequiredSessions(st.total, 9))];
  }

  /** The planner's fixed axes. */
  const TimeSlots: seq<string> := ["8:00-10:00", "10:00-12:00", "12:00-14:00", "14:00-16:00"]
  const Weekdays: seq<string> := ["Monday", "Tuesday", "Wednesday", "Thursday", "Friday"]
  const Rooms: seq<string> := ["QB203", "QBF14", "QBF15"]

  /** The header of the planner column for weekday `w` and room `r`. */
  function SlotHeader(w: nat, r: nat): string
    requires w < |Weekdays| && r < |Rooms|
  {
    Weekdays[w] + "\n" + Rooms[r]
  }

  /**
   * `PlannerTableCreator.create_planner_table`: the header row is
   * `Time Slot` and one column per weekday and room, weekday by weekday; one
   * row per time slot holds the slot and an empty cell per column; the
   * result is the row after a one-row gap. A start row of 1 or less puts
   * the title off the sheet, which fails before anything is written and
   * returns the start row.
   */
  method CreatePlannerTable(startRow: int) returns (headers: seq<string>, rows: seq<seq<string>>, next: int)
    ensures startRow < 2 ==> headers == [] && rows == [] && next == startRow
    ensures startRow >= 2 ==>
      && |headers| == 1 + |Weekdays| * |Rooms| == 16
      && headers[0] == "Time Slot"
      && (forall w, r | 0 <= w < |Weekdays| && 0 <= r < |Rooms| :: headers[1 + |Rooms| * w + r] == SlotHeader(w, r))
      && |rows| == |TimeSlots|
      && (forall i | 0 <= i < |rows| :: |rows[i]| == |headers| && rows[i][0] == TimeSlots[i])
      && (forall i, c | 0 <= i < |rows| && 1 <= c < |headers| :: rows[i][c] == "")
      && next == startRow + |TimeSlots| + 2
  {
    if startRow < 2 {
      return [], [], startRow;
    }
    headers := ["Time Slot"];
    for w := 0 to |Weekdays|
      invariant |headers| == 1 + |Rooms| * w
      invariant headers[0] == "Time Slot"
      invariant forall v, r | 0 <= v < w && 0 <= r < |Rooms| :: headers[1 + |Rooms| * v + r] == SlotHeader(v, r)
    {
      for r := 0 to |Rooms|
        invariant |headers| == 1 + |Rooms| * w + r
        invariant headers[0] == "Time Slot"
        invariant forall v, q | 0 <= v < w && 0 <= q < |Rooms| :: headers[1 + |Rooms| * v + q] == SlotHeader(v, q)
        invariant forall q | 0 <= q < r :: headers[1 + |Rooms| * w + q] == SlotHeader(w, q)
      {
        headers := headers + [SlotHeader(w, r)];
      }
    }
    rows := [];
    var currentRow := startRow + 1;
    for i := 0 to |TimeSlots|
      invariant |rows| == i && currentRow == startRow + 1 + i
      invariant forall j | 0 <= j < i :: |rows[j]| == |headers| && rows[j][0] == TimeSlots[j]
      invariant forall j, c | 0 <= j < i && 1 <= c < |headers| :: rows[j][c] == ""
    {
      var row := [TimeSlots[i]];
      for c := 2 to |headers| + 1
        invariant |row| == c - 1 && row[0] == TimeSlots[i]
        invariant forall d | 1 <= d < |row| :: row[d] == ""
      {
        row := row + [""];
      }
      rows := rows + [row];
      currentRow := currentRow + 1;
    }
    next := currentRow + 1;
  }
}
