// The processor that combines the topic workbook (DLXLS) and the grade-import
// files (DLNEP) into one record per student, sorted by name, and summarises
// the result. The loaders keep only records of the allowed courses; the
// fusion deduplicates each student's courses by code and lets the last topic
// record of a student win.

module DlFusionProcessor {
  import opened Text
  import Sorting
  import DL = DataLoaders

  /** `DataFusionProcessor.ALLOWED_COURSE_CODES`. */
  const AllowedCourseCodes: set<string> := {
    "BMEVIAUAL01", "BMEVIAUAL03", "BMEVIAUAL04", "BMEVIAUAL05",
    "BMEVIAUAT00", "BMEVIAUAT01", "BMEVIAUAT02", "BMEVIAUA019",
    "BMEVIAUML10", "BMEVIAUML11", "BMEVIAUML12", "BMEVIAUML13",
    "BMEVIAUMT00", "BMEVIAUMT01", "BMEVIAUMT03", "BMEVIAUMT10",
    "BMEVIAUMT11", "BMEVIAUMT12", "BMEVIAUMT13",
    "BMEVIAUM026", "BMEVIAUM027", "BMEVIAUM039"
  }

  /** One kept row of the topic workbook; every field is a stripped cell text. */
  datatype DlxlsRecord = DlxlsRecord(
    supervisor: string, supervisorId: string, courseName: string, courseCode: string,
    category: string, topicTitle: string, studentName: string, studentNeptun: string)

  /** One kept student row of a grade-import file. */
  datatype DlnepRecord = DlnepRecord(
    courseCode: string, isEnglishCourse: bool, studentNeptun: string, studentName: string,
    scheduleType: string, currentSemesterEntries: string, entry: string, partialResult: string)

  /** One entry of a fused student's `enrolled_courses`. */
  datatype Course = Course(code: string, isEnglish: bool, scheduleType: string, entry: string, partialResult: string)

  /** A fused student; the topic fields are `None` (JSON null) for a student without a topic. */
  datatype Student = Student(
    neptun: string, name: string, courses: seq<Course>, hasTopic: bool,
    supervisor: Option<string>, category: Option<string>, title: Option<string>,
    isEnglishTopic: bool, inEnglishCourse: bool)

  /** The summary of a fused data set. */
  datatype FusionSummary = FusionSummary(
    totalStudents: nat, withTopics: nat, withEnrollments: nat, withBoth: nat,
    withEnglishTopics: nat, withHungarianTopics: nat, inEnglishCourses: nat,
    uniqueCourses: nat, englishCourses: nat, hungarianCourses: nat,
    courseList: seq<string>, englishCourseList: seq<string>, hungarianCourseList: seq<string>,
    hungarianCategories: map<Option<string>, nat>, englishCategories: map<Option<string>, nat>,
    dlxlsRecords: nat, dlnepRecords: nat)

  // ---------------------------------------------------------------------------
  // Reading the rows

  /**
   * A topic-sheet course code gets the `BME` prefix when it is non-empty and
   * lacks it, so `VIAUAL04` and `BMEVIAUAL04` name the same course.
   */
  function WithBmePrefix(code: string): string
  {
    if code != "" && !("BME" <= code) then "BME" + code else code
  }

  /**
   * The prefixed code starts with `BME` exactly when the code is non-empty,
   * ends with the code, and is the code itself when it already has the prefix.
   */
  lemma WithBmePrefixProperties(code: string)
    ensures code != "" <==> "BME" <= WithBmePrefix(code)
    ensures var r := WithBmePrefix(code); |r| >= |code| && r[|r| - |code|..] == code
    ensures WithBmePrefix(code) == code || WithBmePrefix(code) == "BME" + code
    ensures "BME" <= code ==> WithBmePrefix(code) == code
    ensures WithBmePrefix(WithBmePrefix(code)) == WithBmePrefix(code)
  {
  }

  /** A record is kept when it has a Neptun code and an allowed course code. */
  predicate Kept(neptun: string, code: string, allowed: set<string>)
  {
    neptun != "" && code != "" && code in allowed
  }

  /** The record a topic-workbook row yields, if it is kept. */
  function DlxlsRecordOf(row: DL.Row, allowed: set<string>): (r: Option<DlxlsRecord>)
    ensures r.Some? ==> Kept(r.value.studentNeptun, r.value.courseCode, allowed)
  {
    var record := DlxlsRowRecord(row);
    if Kept(record.studentNeptun, record.courseCode, allowed) then Some(record) else None
  }

  /** The topic workbook's columns read into a record; the course code gets the `BME` prefix. */
  function DlxlsRowRecord(row: DL.Row): DlxlsRecord
  {
    DlxlsRecord(
      DL.Cell(row, "Konzulens"), DL.Cell(row, "Konz. száma"), DL.Cell(row, "Tárgy"),
      WithBmePrefix(DL.Cell(row, "Tárgy nept")), DL.Cell(row, "Kategória"), DL.Cell(row, "Téma címe"),
      DL.Cell(row, "Hallgató neve"), DL.Cell(row, "Hallg. nept"))
  }

  /** The record a grade-import row yields for course `code`, if it is kept. */
  function DlnepRecordOf(row: DL.Row, code: string, english: bool, allowed: set<string>): (r: Option<DlnepRecord>)
    ensures r.Some? ==> Kept(r.value.studentNeptun, r.value.courseCode, allowed)
    ensures r.Some? ==> r.value.courseCode == code && r.value.isEnglishCourse == english
  {
    var record := DlnepRecord(
      code, english, DL.Cell(row, "Neptunkód"), DL.Cell(row, "Név"), DL.Cell(row, "Tanrend típus"),
      DL.Cell(row, "Bejegyzések (Aktuális félév)"), DL.Cell(row, "Bejegyzés"), DL.Cell(row, "Részeredmény"));
    if Kept(record.studentNeptun, record.courseCode, allowed) then Some(record) else None
  }

  /** The kept records of the topic workbook's rows, in row order. */
  function DlxlsRecords(rows: seq<DL.Row>, allowed: set<string>): seq<DlxlsRecord>
  {
    Collect(rows, row => DlxlsRecordOf(row, allowed))
  }

  /** A topic record is loaded iff some row yields it, and it is then kept. */
  lemma DlxlsRecordsExactly(rows: seq<DL.Row>, allowed: set<string>)
    ensures forall r :: r in DlxlsRecords(rows, allowed) <==> exists i | 0 <= i < |rows| :: DlxlsRecordOf(rows[i], allowed) == Some(r)
    ensures forall r | r in DlxlsRecords(rows, allowed) :: Kept(r.studentNeptun, r.courseCode, allowed)
  {
    CollectExactly(rows, row => DlxlsRecordOf(row, allowed));
  }

  /** The kept records of one grade-import file's rows for course `code`, in row order. */
  function DlnepRecords(rows: seq<DL.Row>, code: string, english: bool, allowed: set<string>): seq<DlnepRecord>
  {
    Collect(rows, row => DlnepRecordOf(row, code, english, allowed))
  }

  lemma DlnepRecordsExactly(rows: seq<DL.Row>, code: string, english: bool, allowed: set<string>)
    ensures forall r :: r in DlnepRecords(rows, code, english, allowed) <==>
      exists i | 0 <= i < |rows| :: DlnepRecordOf(rows[i], code, english, allowed) == Some(r)
    ensures forall r | r in DlnepRecords(rows, code, english, allowed) ::
      Kept(r.studentNeptun, r.courseCode, allowed) && r.courseCode == code && r.isEnglishCourse == english
  {
    DlnepRecordsFrom(rows, code, english, allowed);
    forall r | r in DlnepRecords(rows, code, english, allowed)
      ensures Kept(r.studentNeptun, r.courseCode, allowed) && r.courseCode == code && r.isEnglishCourse == english
    {
      var i :| 0 <= i < |rows| && DlnepRecordOf(rows[i], code, english, allowed) == Some(r);
    }
  }

  /** A grade-import record is loaded iff some row of the file yields it. */
  lemma DlnepRecordsFrom(rows: seq<DL.Row>, code: string, english: bool, allowed: set<string>)
    ensures forall r :: r in DlnepRecords(rows, code, english, allowed) <==>
      exists i | 0 <= i < |rows| :: DlnepRecordOf(rows[i], code, english, allowed) == Some(r)
  {
    CollectExactly(rows, row => DlnepRecordOf(row, code, english, allowed));
  }

  /** A file is read when its name yields a `BMEVI` code and it has rows. */
  predicate FileRead(file: DL.ExcelFile)
  {
    "BMEVI" <= DL.CourseInfoFromFilename(file.name).0 && |file.rows| > 0
  }

  /** The records one grade-import file contributes. */
  function FileRecords(file: DL.ExcelFile, allowed: set<string>): seq<DlnepRecord>
  {
    var info := DL.CourseInfoFromFilename(file.name);
    if FileRead(file) then DlnepRecords(file.rows, info.0, info.1, allowed) else []
  }

  /** The records of a folder's files, file after file. */
  function FolderRecords(files: seq<DL.ExcelFile>, allowed: set<string>): seq<DlnepRecord>
  {
    Flatten(files, file => FileRecords(file, allowed))
  }

  /**
   * A record loaded from a folder is kept, and carries the `BMEVI` course
   * code and the language that the name of a read file yields.
   */
  lemma FolderRecordsKept(files: seq<DL.ExcelFile>, allowed: set<string>, r: DlnepRecord)
    requires r in FolderRecords(files, allowed)
    ensures Kept(r.studentNeptun, r.courseCode, allowed) && "BMEVI" <= r.courseCode
    ensures exists i | 0 <= i < |files| :: FileRead(files[i]) && (r.courseCode, r.isEnglishCourse) == DL.CourseInfoFromFilename(files[i].name)
  {
    FlattenExactly(files, file => FileRecords(file, allowed));
    var i :| 0 <= i < |files| && r in FileRecords(files[i], allowed);
    var info := DL.CourseInfoFromFilename(files[i].name);
    DlnepRecordsExactly(files[i].rows, info.0, info.1, allowed);
  }

  /** Every allowed code starts with `BMEVI`, so the file-name check never drops a kept row. */
  lemma AllowedCodesAreBmevi(code: string)
    requires code in AllowedCourseCodes
    ensures "BMEVI" <= code
  {
  }

  // ---------------------------------------------------------------------------
  // The fused record of one student, defined from the loaded records

  function Codes(es: seq<DlnepRecord>): (r: seq<string>)
    ensures |r| == |es| && forall i | 0 <= i < |es| :: r[i] == es[i].studentNeptun
  {
    seq(|es|, i requires 0 <= i < |es| => es[i].studentNeptun)
  }

  function TopicCodes(ts: seq<DlxlsRecord>): (r: seq<string>)
    ensures |r| == |ts| && forall i | 0 <= i < |ts| :: r[i] == ts[i].studentNeptun
  {
    seq(|ts|, i requires 0 <= i < |ts| => ts[i].studentNeptun)
  }

  function FirstEnrollment(k: string, es: seq<DlnepRecord>): (r: Option<DlnepRecord>)
    ensures r.Some? ==> r.value in es && r.value.studentNeptun == k
    ensures r.None? <==> k !in Codes(es)
  {
    if |es| == 0 then None
    else
      var front, last := es[..|es| - 1], es[|es| - 1];
      assert Codes(es) == Codes(front) + [last.studentNeptun];
      var f := FirstEnrollment(k, front);
      if f.Some? then f else if last.studentNeptun == k then Some(last) else None
  }

  function FirstTopic(k: string, ts: seq<DlxlsRecord>): (r: Option<DlxlsRecord>)
    ensures r.Some? ==> r.value in ts && r.value.studentNeptun == k
    ensures r.None? <==> k !in TopicCodes(ts)
  {
    if |ts| == 0 then None
    else
      var front, last := ts[..|ts| - 1], ts[|ts| - 1];
      assert TopicCodes(ts) == TopicCodes(front) + [last.studentNeptun];
      var f := FirstTopic(k, front);
      if f.Some? then f else if last.studentNeptun == k then Some(last) else None
  }

  function LastTopic(k: string, ts: seq<DlxlsRecord>): (r: Option<DlxlsRecord>)
    ensures r.Some? ==> r.value in ts && r.value.studentNeptun == k
    ensures r.None? <==> k !in TopicCodes(ts)
  {
    if |ts| == 0 then None
    else
      var front, last := ts[..|ts| - 1], ts[|ts| - 1];
      assert TopicCodes(ts) == TopicCodes(front) + [last.studentNeptun];
      if last.studentNeptun == k then Some(last) else LastTopic(k, front)
  }

  function CourseOf(e: DlnepRecord): Course
  {
    Course(e.courseCode, e.isEnglishCourse, e.scheduleType, e.entry, e.partialResult)
  }

  predicate HasCode(cs: seq<Course>, code: string)
  {
    exists c | c in cs :: c.code == code
  }

  /** The student's courses: each enrollment appended unless its code is already listed. */
  function CoursesOf(k: string, es: seq<DlnepRecord>): (r: seq<Course>)
    ensures k !in Codes(es) ==> r == []
  {
    if |es| == 0 then []
    else
      var front, last := es[..|es| - 1], es[|es| - 1];
      assert Codes(es) == Codes(front) + [last.studentNeptun];
      var cs := CoursesOf(k, front);
      if last.studentNeptun == k && !HasCode(cs, last.courseCode) then cs + [CourseOf(last)] else cs
  }

  /** Whether some enrollment of the student is in an English course. */
  function EnglishEnrolled(k: string, es: seq<DlnepRecord>): bool
  {
    if |es| == 0 then false
    else EnglishEnrolled(k, es[..|es| - 1]) || (es[|es| - 1].studentNeptun == k && es[|es| - 1].isEnglishCourse)
  }

  /** The topic fields a topic record sets. */
  function WithTopic(s: Student, t: DlxlsRecord): Student
  {
    s.(hasTopic := true, supervisor := Some(t.supervisor), category := Some(t.category),
       title := Some(t.topicTitle), isEnglishTopic := DL.IsEnglishTopic(t.topicTitle))
  }

  /**
   * What the record of student `k` should be: the name of the first
   * enrollment (or, with none, the first topic record), the courses
   * deduplicated by code, the English-course flag, and the topic fields of the
   * last topic record.
   */
  function Expected(k: string, es: seq<DlnepRecord>, ts: seq<DlxlsRecord>): (s: Student)
    ensures s.neptun == k
  {
    var name := match FirstEnrollment(k, es)
      case Some(e) => e.studentName
      case None => if FirstTopic(k, ts).Some? then FirstTopic(k, ts).value.studentName else "";
    var base := Student(k, name, CoursesOf(k, es), false, None, None, None, false, EnglishEnrolled(k, es));
    match LastTopic(k, ts)
      case None => base
      case Some(t) => WithTopic(base, t)
  }

  /** The students in dictionary insertion order: enrollments first, then topic records. */
  function StudentCodes(es: seq<DlnepRecord>, ts: seq<DlxlsRecord>): seq<string>
  {
    Sorting.Distinct(Codes(es) + TopicCodes(ts))
  }

  /** `list(students_dict.values())` before sorting. */
  function Unsorted(es: seq<DlnepRecord>, ts: seq<DlxlsRecord>): (r: seq<Student>)
    ensures |r| == |StudentCodes(es, ts)|
  {
    var ks := StudentCodes(es, ts);
    seq(|ks|, i requires 0 <= i < |ks| => Expected(ks[i], es, ts))
  }

  function StudentName(s: Student): string { s.name }

  function StudentNeptun(s: Student): string { s.neptun }

  /** The fused data set: the students sorted by name. */
  function Fused(es: seq<DlnepRecord>, ts: seq<DlxlsRecord>): seq<Student>
  {
    Sorting.SortByStr(Unsorted(es, ts), StudentName)
  }

  // ---------------------------------------------------------------------------
  // The dictionary-building loops

  function NewStudent(e: DlnepRecord): Student
  {
    Student(e.studentNeptun, e.studentName, [], false, None, None, None, false, false)
  }

  function TopicOnlyStudent(t: DlxlsRecord): Student
  {
    Student(t.studentNeptun, t.studentName, [], true, Some(t.supervisor), Some(t.category), Some(t.topicTitle),
            DL.IsEnglishTopic(t.topicTitle), false)
  }

  /** One enrollment applied to a student: its course unless the code is listed, and the English flag. */
  function Enroll(s: Student, e: DlnepRecord): Student
  {
    var s1 := if HasCode(s.courses, e.courseCode) then s else s.(courses := s.courses + [CourseOf(e)]);
    if e.isEnglishCourse then s1.(inEnglishCourse := true) else s1
  }

  ghost predicate EnrollState(keys: seq<string>, students: map<string, Student>, es: seq<DlnepRecord>)
  {
    keys == Sorting.Distinct(Codes(es))
    && (forall k :: k in students <==> k in Codes(es))
    && (forall k | k in students :: students[k] == Expected(k, es, []))
  }

  ghost predicate TopicState(keys: seq<string>, students: map<string, Student>, es: seq<DlnepRecord>, ts: seq<DlxlsRecord>)
  {
    keys == StudentCodes(es, ts)
    && (forall k :: k in students <==> k in Codes(es) || k in TopicCodes(ts))
    && (forall k | k in students :: students[k] == Expected(k, es, ts))
  }

  /** A student with no enrollment has no English-course enrollment. */
  lemma {:induction false} NotEnglishEnrolled(k: string, es: seq<DlnepRecord>)
    requires k !in Codes(es)
    ensures !EnglishEnrolled(k, es)
  {
    if |es| > 0 {
      var front := es[..|es| - 1];
      assert Codes(es) == Codes(front) + [es[|es| - 1].studentNeptun];
      NotEnglishEnrolled(k, front);
    }
  }

  /** An enrollment of another student leaves student `j`'s expected record as it was. */
  lemma EnrollOther(j: string, es: seq<DlnepRecord>, e: DlnepRecord)
    requires j != e.studentNeptun
    ensures Expected(j, es + [e], []) == Expected(j, es, [])
  {
    assert (es + [e])[..|es|] == es;
  }

  /** An enrollment updates its own student's expected record as the loop body does. */
  lemma EnrollSelf(es: seq<DlnepRecord>, e: DlnepRecord)
    ensures var k := e.studentNeptun;
            Expected(k, es + [e], []) == Enroll(if k in Codes(es) then Expected(k, es, []) else NewStudent(e), e)
  {
    var k := e.studentNeptun;
    assert (es + [e])[..|es|] == es;
    if k !in Codes(es) {
      NotEnglishEnrolled(k, es);
    }
  }

  lemma EnrollStep(keys: seq<string>, students: map<string, Student>, enrollments: seq<DlnepRecord>, i: nat)
    requires i < |enrollments| && EnrollState(keys, students, enrollments[..i])
    ensures var k := enrollments[i].studentNeptun;
            var created := if k in students then students else students[k := NewStudent(enrollments[i])];
            EnrollState(if k in students then keys else keys + [k], created[k := Enroll(created[k], enrollments[i])],
                        enrollments[..i + 1])
  {
    var es, e := enrollments[..i], enrollments[i];
    var k := e.studentNeptun;
    var es' := enrollments[..i + 1];
    assert es' == es + [e];
    assert es'[..|es|] == es;
    assert Codes(es') == Codes(es) + [k];
    Sorting.DistinctSnoc(Codes(es), k);
    var created := if k in students then students else students[k := NewStudent(e)];
    var updated := created[k := Enroll(created[k], e)];
    forall j | j in updated ensures updated[j] == Expected(j, es', []) {
      if j != k {
        EnrollOther(j, es, e);
      } else {
        EnrollSelf(es, e);
      }
    }
  }

  /** A topic record of another student leaves student `j`'s expected record as it was. */
  lemma TopicOther(j: string, es: seq<DlnepRecord>, ts: seq<DlxlsRecord>, t: DlxlsRecord)
    requires j != t.studentNeptun
    ensures Expected(j, es, ts + [t]) == Expected(j, es, ts)
  {
    assert (ts + [t])[..|ts|] == ts;
  }

  /** A topic record updates its own student's expected record as the loop body does. */
  lemma TopicSelf(es: seq<DlnepRecord>, ts: seq<DlxlsRecord>, t: DlxlsRecord)
    ensures var k := t.studentNeptun;
            Expected(k, es, ts + [t]) ==
              if k in Codes(es) || k in TopicCodes(ts) then WithTopic(Expected(k, es, ts), t) else TopicOnlyStudent(t)
  {
    var k := t.studentNeptun;
    assert (ts + [t])[..|ts|] == ts;
    if k !in Codes(es) {
      NotEnglishEnrolled(k, es);
    }
  }

  lemma TopicStep(keys: seq<string>, students: map<string, Student>, es: seq<DlnepRecord>,
                  topics: seq<DlxlsRecord>, j: nat)
    requires j < |topics| && TopicState(keys, students, es, topics[..j])
    ensures var k := topics[j].studentNeptun;
            var updated := if k in students then students[k := WithTopic(students[k], topics[j])]
                           else students[k := TopicOnlyStudent(topics[j])];
            TopicState(if k in students then keys else keys + [k], updated, es, topics[..j + 1])
  {
    var ts, t := topics[..j], topics[j];
    var k := t.studentNeptun;
    var ts' := topics[..j + 1];
    assert ts' == ts + [t];
    assert ts'[..|ts|] == ts;
    assert TopicCodes(ts') == TopicCodes(ts) + [k];
    assert Codes(es) + TopicCodes(ts') == (Codes(es) + TopicCodes(ts)) + [k];
    Sorting.DistinctSnoc(Codes(es) + TopicCodes(ts), k);
    var updated := if k in students then students[k := WithTopic(students[k], t)]
                   else students[k := TopicOnlyStudent(t)];
    forall j | j in updated ensures updated[j] == Expected(j, es, ts') {
      if j != k {
        TopicOther(j, es, ts, t);
      } else {
        TopicSelf(es, ts, t);
      }
    }
  }

  // ---------------------------------------------------------------------------
  // The processor

  class DataFusionProcessor {
    const allowedCourseCodes: set<string>
    var dlxlsData: seq<DlxlsRecord>
    var dlnepData: seq<DlnepRecord>
    var fusedData: seq<Student>

    constructor ()
      ensures allowedCourseCodes == AllowedCourseCodes
      ensures dlxlsData == [] && dlnepData == [] && fusedData == []
    {
      allowedCourseCodes := AllowedCourseCodes;
      dlxlsData, dlnepData, fusedData := [], [], [];
    }

    /**
     * `load_dlxls_data`: `None` stands for a missing or unreadable workbook,
     * which leaves the processor unchanged and reports failure.
     */
    method LoadDlxlsData(file: Option<seq<DL.Row>>) returns (ok: bool)
      modifies this
      ensures ok <==> file.Some?
      ensures ok ==> dlxlsData == DlxlsRecords(file.value, allowedCourseCodes)
      ensures !ok ==> dlxlsData == old(dlxlsData)
      ensures dlnepData == old(dlnepData) && fusedData == old(fusedData)
    {
      if file.None? {
        return false;
      }
      dlxlsData := CollectPresent(file.value, row => DlxlsRecordOf(row, allowedCourseCodes));
      return true;
    }

    /**
     * `load_dlnep_data`: `None` stands for a missing folder; a folder without
     * workbooks fails too, and both leave the processor unchanged.
     */
    method LoadDlnepData(folder: Option<seq<DL.ExcelFile>>) returns (ok: bool)
      modifies this
      ensures ok <==> folder.Some? && folder.value != []
      ensures ok ==> dlnepData == FolderRecords(folder.value, allowedCourseCodes)
      ensures !ok ==> dlnepData == old(dlnepData)
      ensures dlxlsData == old(dlxlsData) && fusedData == old(fusedData)
    {
      if folder.None? || folder.value == [] {
        return false;
      }
      dlnepData := ReadFolder(folder.value, allowedCourseCodes);
      return true;
    }

    /**
     * `fuse_data`: fails, changing nothing, when neither source has records;
     * otherwise builds the dictionary in two loops and stores its values
     * sorted by name.
     */
    method FuseData() returns (ok: bool)
      modifies this
      ensures ok <==> old(dlxlsData) != [] || old(dlnepData) != []
      ensures ok ==> fusedData == Fused(dlnepData, dlxlsData)
      ensures !ok ==> fusedData == old(fusedData)
      ensures dlxlsData == old(dlxlsData) && dlnepData == old(dlnepData)
    {
      var es, ts := dlnepData, dlxlsData;
      if ts == [] && es == [] {
        return false;
      }
      var values := FuseRecords(es, ts);
      fusedData := Sorting.SortByStr(values, StudentName);
      return true;
    }

    /**
     * `get_fusion_summary`: an error when nothing is fused; otherwise the
     * counts, the sorted course lists and the category tallies.
     */
    method GetFusionSummary() returns (r: Result<FusionSummary, string>)
      ensures fusedData == [] <==> r.Err?
      ensures r.Ok? ==> SummaryOf(r.value, fusedData, |dlxlsData|, |dlnepData|)
    {
      if fusedData == [] {
        return Err("No fused data available");
      }
      var fused := fusedData;
      var withTopics := Filter(fused, HasTopic);
      var all, english, hungarian := CourseSets(fused);
      var allList := Sorting.SortedSet(all);
      var englishList := Sorting.SortedSet(english);
      var hungarianList := Sorting.SortedSet(hungarian);
      var hungarianCategories, englishCategories := CategoryTallies(withTopics);
      r := Ok(FusionSummary(
        |fused|, |withTopics|, |Filter(fused, HasEnrollments)|, |Filter(fused, HasBoth)|,
        |Filter(withTopics, EnglishTopic)|, |Filter(withTopics, HungarianTopic)|, |Filter(fused, InEnglishCourse)|,
        |all|, |english|, |hungarian|, allList, englishList, hungarianList,
        hungarianCategories, englishCategories, |dlxlsData|, |dlnepData|));
    }

    /**
     * `process_fusion`: load both sources, fuse, and save; `written` stands for
     * the outcome of writing the JSON file, which needs a non-empty data set.
     */
    method ProcessFusion(file: Option<seq<DL.Row>>, folder: Option<seq<DL.ExcelFile>>, written: bool)
      returns (ok: bool)
      modifies this
      ensures ok <==> file.Some? && folder.Some? && folder.value != [] && written
                      && (DlxlsRecords(file.value, allowedCourseCodes) != [] || FolderRecords(folder.value, allowedCourseCodes) != [])
      ensures ok ==> fusedData == Fused(FolderRecords(folder.value, allowedCourseCodes), DlxlsRecords(file.value, allowedCourseCodes))
    {
      ok := LoadDlxlsData(file);
      if !ok { return; }
      ok := LoadDlnepData(folder);
      if !ok { return; }
      ok := FuseData();
      if !ok { return; }
      assert |fusedData| == |Unsorted(dlnepData, dlxlsData)|;
      FusedNonEmpty(dlnepData, dlxlsData);
      ok := fusedData != [] && written;
    }
  }

  /** The file loop of `load_dlnep_data`: each read file's kept rows, file after file. */
  method ReadFolder(files: seq<DL.ExcelFile>, allowed: set<string>) returns (records: seq<DlnepRecord>)
    ensures records == FolderRecords(files, allowed)
  {
    ghost var f := file => FileRecords(file, allowed);
    records := [];
    for i := 0 to |files|
      invariant records == Flatten(files[..i], f)
    {
      FlattenStep(files, i, f);
      var fileRecords := ReadFile(files[i], allowed);
      records := records + fileRecords;
    }
    assert files[..|files|] == files;
  }

  /** One file of `load_dlnep_data`: skipped unless its code starts with `BMEVI` and it has rows. */
  method ReadFile(file: DL.ExcelFile, allowed: set<string>) returns (records: seq<DlnepRecord>)
    ensures records == FileRecords(file, allowed)
  {
    var info := DL.CourseInfoFromFilename(file.name);
    if !("BMEVI" <= info.0) || |file.rows| == 0 {
      return [];
    }
    records := CollectPresent(file.rows, row => DlnepRecordOf(row, info.0, info.1, allowed));
  }

  /** The two loops of `fuse_data` and `list(students_dict.values())`. */
  method FuseRecords(es: seq<DlnepRecord>, ts: seq<DlxlsRecord>) returns (values: seq<Student>)
    ensures values == Unsorted(es, ts)
  {
    var keys, students := CollectEnrollments(es);
    assert Codes(es) + TopicCodes([]) == Codes(es);
    keys, students := AddTopics(keys, students, es, ts);
    Sorting.DistinctProperties(Codes(es) + TopicCodes(ts));
    forall i | 0 <= i < |keys| ensures keys[i] in students {
      assert keys[i] in Codes(es) + TopicCodes(ts);
    }
    values := seq(|keys|, i requires 0 <= i < |keys| => students[keys[i]]);
  }

  /** The enrollment loop of `fuse_data`. */
  method CollectEnrollments(enrollments: seq<DlnepRecord>) returns (keys: seq<string>, students: map<string, Student>)
    ensures EnrollState(keys, students, enrollments)
  {
    keys, students := [], map[];
    for i := 0 to |enrollments|
      invariant EnrollState(keys, students, enrollments[..i])
    {
      var e := enrollments[i];
      EnrollStep(keys, students, enrollments, i);
      var k := e.studentNeptun;
      if k !in students {
        keys, students := keys + [k], students[k := NewStudent(e)];
      }
      var s := students[k];
      ghost var before := s;
      if !(exists c | c in s.courses :: c.code == e.courseCode) {
        s := s.(courses := s.courses + [CourseOf(e)]);
      }
      if e.isEnglishCourse {
        s := s.(inEnglishCourse := true);
      }
      assert s == Enroll(before, e);
      students := students[k := s];
    }
    assert enrollments[..|enrollments|] == enrollments;
  }

  /** The topic loop of `fuse_data`: update the student's topic fields, or add a student without courses. */
  method AddTopics(keys0: seq<string>, students0: map<string, Student>, enrollments: seq<DlnepRecord>,
                   topics: seq<DlxlsRecord>) returns (keys: seq<string>, students: map<string, Student>)
    requires TopicState(keys0, students0, enrollments, [])
    ensures TopicState(keys, students, enrollments, topics)
  {
    keys, students := keys0, students0;
    for j := 0 to |topics|
      invariant TopicState(keys, students, enrollments, topics[..j])
    {
      var t := topics[j];
      TopicStep(keys, students, enrollments, topics, j);
      var k := t.studentNeptun;
      if k in students {
        students := students[k := WithTopic(students[k], t)];
      } else {
        keys, students := keys + [k], students[k := TopicOnlyStudent(t)];
      }
    }
    assert topics[..|topics|] == topics;
  }

  lemma FusedNonEmpty(es: seq<DlnepRecord>, ts: seq<DlxlsRecord>)
    requires es != [] || ts != []
    ensures Fused(es, ts) != []
  {
    Sorting.DistinctProperties(Codes(es) + TopicCodes(ts));
    var all := Codes(es) + TopicCodes(ts);
    assert all[0] in all;
    assert |Fused(es, ts)| == |StudentCodes(es, ts)|;
  }

  // ---------------------------------------------------------------------------
  // What the fused data set promises

  /** The unsorted records: one per distinct Neptun code of either source. */
  lemma UnsortedOnePerStudent(es: seq<DlnepRecord>, ts: seq<DlxlsRecord>)
    ensures Sorting.UniqueKeys(Unsorted(es, ts), StudentNeptun)
    ensures forall s | s in Unsorted(es, ts) :: s == Expected(s.neptun, es, ts)
    ensures forall k :: (exists s | s in Unsorted(es, ts) :: s.neptun == k) <==> k in Codes(es) || k in TopicCodes(ts)
  {
    var all := Codes(es) + TopicCodes(ts);
    var ks, r := StudentCodes(es, ts), Unsorted(es, ts);
    Sorting.DistinctProperties(all);
    assert forall i | 0 <= i < |r| :: r[i] == Expected(ks[i], es, ts) && r[i].neptun == ks[i];
    forall i, j | 0 <= i < j < |r| ensures StudentNeptun(r[i]) != StudentNeptun(r[j]) {
      assert ks[i] != ks[j];
    }
    forall k ensures (exists s | s in r :: s.neptun == k) <==> k in Codes(es) || k in TopicCodes(ts) {
      if k in Codes(es) || k in TopicCodes(ts) {
        assert k in all;
        var i :| 0 <= i < |ks| && ks[i] == k;
        assert r[i] in r;
      }
      if s :| s in r && s.neptun == k {
        var i :| 0 <= i < |r| && r[i] == s;
        assert ks[i] in all;
      }
    }
  }

  /**
   * The fused data set is sorted by name and is a permutation of the
   * dictionary's values; it has one record per distinct Neptun code of either
   * source, each the student's expected record.
   */
  lemma FusedOnePerStudent(es: seq<DlnepRecord>, ts: seq<DlxlsRecord>)
    ensures Sorting.SortedByStr(Fused(es, ts), StudentName)
    ensures multiset(Fused(es, ts)) == multiset(Unsorted(es, ts))
    ensures Sorting.UniqueKeys(Fused(es, ts), StudentNeptun)
    ensures forall s | s in Fused(es, ts) :: s == Expected(s.neptun, es, ts)
    ensures forall k :: (exists s | s in Fused(es, ts) :: s.neptun == k) <==> k in Codes(es) || k in TopicCodes(ts)
  {
    var u, f := Unsorted(es, ts), Fused(es, ts);
    UnsortedOnePerStudent(es, ts);
    Sorting.PermutationUniqueKeys(u, f, StudentNeptun);
    forall s ensures s in f <==> s in u {
      assert s in f <==> s in multiset(f);
      assert s in u <==> s in multiset(u);
    }
  }

  /** A student's courses have pairwise different codes, each from one of their enrollments. */
  lemma {:induction false} CoursesOfDistinct(k: string, es: seq<DlnepRecord>)
    ensures forall i, j | 0 <= i < j < |CoursesOf(k, es)| :: CoursesOf(k, es)[i].code != CoursesOf(k, es)[j].code
    ensures forall c | c in CoursesOf(k, es) :: exists e | e in es :: e.studentNeptun == k && c == CourseOf(e)
  {
    if |es| > 0 {
      var front, last := es[..|es| - 1], es[|es| - 1];
      CoursesOfDistinct(k, front);
      var cs := CoursesOf(k, front);
      forall c | c in CoursesOf(k, es) ensures exists e | e in es :: e.studentNeptun == k && c == CourseOf(e) {
        if c in cs {
          var e :| e in front && e.studentNeptun == k && c == CourseOf(e);
          assert e in es;
        } else {
          assert es[|es| - 1] == last;
        }
      }
    }
  }

  /** Every enrollment code of the student is listed, with the first enrollment of that code. */
  lemma {:induction false} CoursesOfComplete(k: string, es: seq<DlnepRecord>, e: DlnepRecord)
    requires e in es && e.studentNeptun == k
    ensures HasCode(CoursesOf(k, es), e.courseCode)
  {
    var front, last := es[..|es| - 1], es[|es| - 1];
    assert es == front + [last];
    if e in front {
      CoursesOfComplete(k, front, e);
      var c :| c in CoursesOf(k, front) && c.code == e.courseCode;
      assert c in CoursesOf(k, es);
    } else {
      assert e == last;
      if HasCode(CoursesOf(k, front), e.courseCode) {
        var c :| c in CoursesOf(k, front) && c.code == e.courseCode;
        assert c in CoursesOf(k, es);
      } else {
        assert CourseOf(e) in CoursesOf(k, es);
      }
    }
  }

  lemma {:induction false} EnglishEnrolledExists(k: string, es: seq<DlnepRecord>)
    ensures EnglishEnrolled(k, es) <==> exists e | e in es :: e.studentNeptun == k && e.isEnglishCourse
  {
    if |es| > 0 {
      var front, last := es[..|es| - 1], es[|es| - 1];
      assert es == front + [last];
      EnglishEnrolledExists(k, front);
    }
  }

  /**
   * Each fused student's courses are their enrollments deduplicated by code;
   * the English-course flag is set iff one of their enrollments is English;
   * a student without enrollments has no courses; the topic fields come from
   * the student's last topic record, and a student without one has none.
   */
  lemma FusedStudentFields(es: seq<DlnepRecord>, ts: seq<DlxlsRecord>, s: Student)
    requires s in Fused(es, ts)
    ensures forall i, j | 0 <= i < j < |s.courses| :: s.courses[i].code != s.courses[j].code
    ensures forall c | c in s.courses :: exists e | e in es :: e.studentNeptun == s.neptun && c == CourseOf(e)
    ensures forall e | e in es && e.studentNeptun == s.neptun :: HasCode(s.courses, e.courseCode)
    ensures s.inEnglishCourse <==> exists e | e in es :: e.studentNeptun == s.neptun && e.isEnglishCourse
    ensures s.neptun !in Codes(es) ==> s.courses == [] && !s.inEnglishCourse
    ensures LastTopic(s.neptun, ts).None? ==> !s.hasTopic && s.supervisor.None? && s.category.None? && s.title.None?
    ensures LastTopic(s.neptun, ts).Some? ==>
      var t := LastTopic(s.neptun, ts).value;
      s.hasTopic && s.supervisor == Some(t.supervisor) && s.category == Some(t.category)
      && s.title == Some(t.topicTitle) && (s.isEnglishTopic <==> DL.IsEnglishTopic(t.topicTitle))
  {
    FusedOnePerStudent(es, ts);
    var k := s.neptun;
    assert s == Expected(k, es, ts);
    CoursesOfDistinct(k, es);
    forall e | e in es && e.studentNeptun == k ensures HasCode(s.courses, e.courseCode) {
      CoursesOfComplete(k, es, e);
    }
    EnglishEnrolledExists(k, es);
    if k !in Codes(es) {
      forall e | e in es ensures e.studentNeptun != k {
        var i :| 0 <= i < |es| && es[i] == e;
        assert Codes(es)[i] == e.studentNeptun;
      }
    }
  }

  // ---------------------------------------------------------------------------
  // The summary

  predicate HasTopic(s: Student) { s.hasTopic }

  predicate HasEnrollments(s: Student) { s.courses != [] }

  predicate HasBoth(s: Student) { s.hasTopic && s.courses != [] }

  predicate EnglishTopic(s: Student) { s.isEnglishTopic }

  predicate HungarianTopic(s: Student) { !s.isEnglishTopic }

  predicate InEnglishCourse(s: Student) { s.inEnglishCourse }

  function Category(s: Student): Option<string> { s.category }

  /** The codes of the courses in `cs` that are English (`Some(true)`), Hungarian (`Some(false)`), or any (`None`). */
  function CodesOf(cs: seq<Course>, english: Option<bool>): set<string>
  {
    if |cs| == 0 then {}
    else
      var c := cs[|cs| - 1];
      CodesOf(cs[..|cs| - 1], english) + if english.None? || english == Some(c.isEnglish) then {c.code} else {}
  }

  function StudentCodesOf(fused: seq<Student>, english: Option<bool>): set<string>
  {
    if |fused| == 0 then {} else StudentCodesOf(fused[..|fused| - 1], english) + CodesOf(fused[|fused| - 1].courses, english)
  }

  /** The summary `r` is the one of `fused`, with the source record counts given. */
  ghost predicate SummaryOf(r: FusionSummary, fused: seq<Student>, dlxls: nat, dlnep: nat)
  {
    var withTopics := Filter(fused, HasTopic);
    && r.totalStudents == |fused|
    && r.withTopics == |withTopics|
    && r.withEnrollments == |Filter(fused, HasEnrollments)|
    && r.withBoth == |Filter(fused, HasBoth)|
    && r.withEnglishTopics == |Filter(withTopics, EnglishTopic)|
    && r.withHungarianTopics == |Filter(withTopics, HungarianTopic)|
    && r.inEnglishCourses == |Filter(fused, InEnglishCourse)|
    && r.uniqueCourses == |StudentCodesOf(fused, None)|
    && r.englishCourses == |StudentCodesOf(fused, Some(true))|
    && r.hungarianCourses == |StudentCodesOf(fused, Some(false))|
    && Sorting.StrIncreasing(r.courseList) && (forall c :: c in r.courseList <==> c in StudentCodesOf(fused, None))
    && Sorting.StrIncreasing(r.englishCourseList) && (forall c :: c in r.englishCourseList <==> c in StudentCodesOf(fused, Some(true)))
    && Sorting.StrIncreasing(r.hungarianCourseList) && (forall c :: c in r.hungarianCourseList <==> c in StudentCodesOf(fused, Some(false)))
    && r.hungarianCategories == Sorting.Tally(Filter(withTopics, HungarianTopic), Category)
    && r.englishCategories == Sorting.Tally(Filter(withTopics, EnglishTopic), Category)
    && r.dlxlsRecords == dlxls && r.dlnepRecords == dlnep
  }

  /** The course loop of `get_fusion_summary`. */
  method CourseSets(fused: seq<Student>) returns (all: set<string>, english: set<string>, hungarian: set<string>)
    ensures all == StudentCodesOf(fused, None)
    ensures english == StudentCodesOf(fused, Some(true))
    ensures hungarian == StudentCodesOf(fused, Some(false))
  {
    all, english, hungarian := {}, {}, {};
    for i := 0 to |fused|
      invariant all == StudentCodesOf(fused[..i], None)
      invariant english == StudentCodesOf(fused[..i], Some(true))
      invariant hungarian == StudentCodesOf(fused[..i], Some(false))
    {
      assert fused[..i + 1][..i] == fused[..i];
      var cs := fused[i].courses;
      ghost var all0, english0, hungarian0 := all, english, hungarian;
      for j := 0 to |cs|
        invariant all == all0 + CodesOf(cs[..j], None)
        invariant english == english0 + CodesOf(cs[..j], Some(true))
        invariant hungarian == hungarian0 + CodesOf(cs[..j], Some(false))
      {
        assert cs[..j + 1][..j] == cs[..j];
        all := all + {cs[j].code};
        if cs[j].isEnglish {
          english := english + {cs[j].code};
        } else {
          hungarian := hungarian + {cs[j].code};
        }
      }
      assert cs[..|cs|] == cs;
    }
    assert fused[..|fused|] == fused;
  }

  /** The category loop of `get_fusion_summary`: each topic student counted under their category, by language. */
  method CategoryTallies(withTopics: seq<Student>) returns (hungarian: map<Option<string>, nat>, english: map<Option<string>, nat>)
    ensures hungarian == Sorting.Tally(Filter(withTopics, HungarianTopic), Category)
    ensures english == Sorting.Tally(Filter(withTopics, EnglishTopic), Category)
  {
    hungarian, english := map[], map[];
    for i := 0 to |withTopics|
      invariant hungarian == Sorting.Tally(Filter(withTopics[..i], HungarianTopic), Category)
      invariant english == Sorting.Tally(Filter(withTopics[..i], EnglishTopic), Category)
    {
      Sorting.FilterTallyStep(withTopics, i, HungarianTopic, Category);
      Sorting.FilterTallyStep(withTopics, i, EnglishTopic, Category);
      var category := withTopics[i].category;
      if withTopics[i].isEnglishTopic {
        english := english[category := (if category in english then english[category] else 0) + 1];
      } else {
        hungarian := hungarian[category := (if category in hungarian then hungarian[category] else 0) + 1];
      }
    }
    assert withTopics[..|withTopics|] == withTopics;
  }

  /** Every course code is English or Hungarian (a code can be both, in different enrollments). */
  lemma {:induction false} CodesOfSplit(cs: seq<Course>)
    ensures CodesOf(cs, None) == CodesOf(cs, Some(true)) + CodesOf(cs, Some(false))
  {
    if |cs| > 0 { CodesOfSplit(cs[..|cs| - 1]); }
  }

  lemma {:induction false} StudentCodesOfSplit(fused: seq<Student>)
    ensures StudentCodesOf(fused, None) == StudentCodesOf(fused, Some(true)) + StudentCodesOf(fused, Some(false))
  {
    if |fused| > 0 {
      StudentCodesOfSplit(fused[..|fused| - 1]);
      CodesOfSplit(fused[|fused| - 1].courses);
    }
  }

  /**
   * The summary's figures fit together: the English and Hungarian topic
   * counts partition the students with topics; each category tally adds up to
   * its count; the students with both are no more than either group; and the
   * course list is the English and Hungarian lists together.
   */
  lemma SummaryConsistent(r: FusionSummary, fused: seq<Student>, dlxls: nat, dlnep: nat)
    requires SummaryOf(r, fused, dlxls, dlnep)
    ensures r.withEnglishTopics + r.withHungarianTopics == r.withTopics <= r.totalStudents
    ensures r.withBoth <= r.withTopics && r.withBoth <= r.withEnrollments <= r.totalStudents
    ensures Sorting.SumOver(Sorting.TallyKeys(Filter(Filter(fused, HasTopic), HungarianTopic), Category),
                            r.hungarianCategories) == r.withHungarianTopics
    ensures Sorting.SumOver(Sorting.TallyKeys(Filter(Filter(fused, HasTopic), EnglishTopic), Category),
                            r.englishCategories) == r.withEnglishTopics
    ensures forall c :: c in r.courseList <==> c in r.englishCourseList || c in r.hungarianCourseList
  {
    var withTopics := Filter(fused, HasTopic);
    FilterPartition(withTopics, AnyStudent, EnglishTopic, HungarianTopic);
    FilterKeepsAll(withTopics, AnyStudent);
    FilterMono(fused, HasBoth, HasTopic);
    FilterMono(fused, HasBoth, HasEnrollments);
    FilterMono(fused, HasTopic, AnyStudent);
    FilterMono(fused, HasEnrollments, AnyStudent);
    FilterKeepsAll(fused, AnyStudent);
    Sorting.TallyTotal(Filter(withTopics, HungarianTopic), Category);
    Sorting.TallyTotal(Filter(withTopics, EnglishTopic), Category);
    StudentCodesOfSplit(fused);
  }

  predicate AnyStudent(s: Student) { true }
}
