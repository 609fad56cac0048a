// The ProjectLabAdmin loaders: the topic workbook (one row per student topic,
// on the worksheet whose name mentions "konzultáció") and the Neptun grade
// import workbooks (one file per course, the course code and language encoded
// in the file name). Both keep only records of the allowed courses.

module DataLoaders {
  import opened Text

  /** A spreadsheet row: column heading to the cell's text as `str(cell)` renders it (an empty cell reads "nan"). */
  type Row = map<string, string>

  datatype Sheet = Sheet(name: string, rows: seq<Row>)

  /** A workbook file with its file name and the rows of its first worksheet. */
  datatype ExcelFile = ExcelFile(name: string, rows: seq<Row>)

  /** One topic-workbook record; a cell reading "nan" becomes `None`. */
  datatype TopicRecord = TopicRecord(
    neptun: string, name: string, supervisor: Option<string>, category: Option<string>,
    title: Option<string>, courseCode: Option<string>, isEnglishTopic: bool, hasTopic: bool)

  /** One enrollment: a student row of a course's grade import file. */
  datatype Enrollment = Enrollment(
    neptun: string, name: string, courseCode: string, isEnglishCourse: bool, sourceFile: string,
    scheduleType: string, entry: string, partialResult: string)

  /** `str(row.get(column, '')).strip()`. */
  function Cell(row: Row, column: string): string
  {
    Strip(if column in row then row[column] else "")
  }

  function NanToNone(s: string): Option<string>
  {
    if s == "nan" then None else Some(s)
  }

  /** `CourseCodeValidator.is_valid_course`. */
  predicate IsValidCourse(allowed: set<string>, code: string)
  {
    code in allowed
  }

  /** A topic is English when its title, upper-cased, starts with "Z-ENG"; an empty title is not. */
  predicate IsEnglishTopic(title: string)
  {
    title != "" && "Z-ENG" <= Upper(title)
  }

  /** The English-topic rule looks only at the first five characters, ignoring their case. */
  lemma EnglishTopicPrefix(title: string)
    ensures IsEnglishTopic(title) <==> |title| >= 5 && Upper(title[..5]) == "Z-ENG"
    ensures forall rest :: IsEnglishTopic("z-eng" + rest) && IsEnglishTopic("Z-Eng" + rest)
  {
    if |title| >= 5 {
      assert Upper(title)[..5] == Upper(title[..5]);
    }
    forall rest ensures IsEnglishTopic("z-eng" + rest) && IsEnglishTopic("Z-Eng" + rest) {
      assert Upper("z-eng" + rest)[..5] == "Z-ENG";
      assert Upper("Z-Eng" + rest)[..5] == "Z-ENG";
    }
  }

  // ---------------------------------------------------------------------------
  // The topic workbook

  predicate IsConsultation(sheetName: string)
  {
    Contains(Lower(sheetName), "konzultáció")
  }

  /** `_find_consultation_sheet`: the first worksheet whose lower-cased name contains "konzultáció". */
  function FindConsultationSheet(sheets: seq<Sheet>): (r: Option<nat>)
    ensures r.Some? ==> r.value < |sheets| && IsConsultation(sheets[r.value].name)
    ensures r.Some? ==> forall j | 0 <= j < r.value :: !IsConsultation(sheets[j].name)
    ensures r.None? <==> forall j | 0 <= j < |sheets| :: !IsConsultation(sheets[j].name)
  {
    if |sheets| == 0 then None
    else if IsConsultation(sheets[0].name) then Some(0)
    else match FindConsultationSheet(sheets[1..])
      case None => None
      case Some(i) => Some(i + 1)
  }

  /** `_extract_dlxls_student_data`: no record for a row without a Neptun code. */
  function ExtractTopicRow(row: Row): Option<TopicRecord>
  {
    var neptun := Cell(row, "Neptun");
    var title := Cell(row, "Téma címe");
    if neptun == "" || neptun == "nan" then None
    else
      Some(TopicRecord(neptun, Cell(row, "Név"), NanToNone(Cell(row, "Konzulens")), NanToNone(Cell(row, "Kategória")),
                       NanToNone(title), NanToNone(Cell(row, "Tárgykód")), IsEnglishTopic(title),
                       title != "" && title != "nan"))
  }

  /**
   * A row yields no record exactly when its Neptun cell is empty or `nan`;
   * otherwise the record carries that code and the name, has a topic iff the
   * title is present and non-empty, is English only when it has a topic, and
   * holds no `nan` text.
   */
  lemma ExtractTopicRowFields(row: Row)
    ensures var r := ExtractTopicRow(row);
            && (r.None? <==> Cell(row, "Neptun") == "" || Cell(row, "Neptun") == "nan")
            && (r.Some? ==> r.value.neptun == Cell(row, "Neptun") && r.value.name == Cell(row, "Név"))
            && (r.Some? ==> (r.value.hasTopic <==> r.value.title.Some? && r.value.title.value != ""))
            && (r.Some? ==> (r.value.isEnglishTopic ==> r.value.hasTopic))
            && (r.Some? ==> r.value.supervisor != Some("nan") && r.value.category != Some("nan")
                            && r.value.title != Some("nan") && r.value.courseCode != Some("nan"))
  {
    assert Upper("nan")[0] == 'N';
  }

  /** A topic record the loader keeps: its course code is present, non-empty and allowed. */
  predicate AllowedTopic(allowed: set<string>, t: TopicRecord)
  {
    Truthy(t.courseCode) && IsValidCourse(allowed, t.courseCode.value)
  }

  /** What `DLXLSDataLoader.load_data` returns for a workbook (`None`: the file does not exist). */
  function TopicsLoaded(workbook: Option<seq<Sheet>>, allowed: set<string>): seq<TopicRecord>
  {
    if workbook.None? then []
    else match FindConsultationSheet(workbook.value)
      case None => []
      case Some(i) => Filter(Collect(workbook.value[i].rows, ExtractTopicRow), t => AllowedTopic(allowed, t))
  }

  method LoadTopicData(workbook: Option<seq<Sheet>>, allowed: set<string>) returns (records: seq<TopicRecord>)
    ensures records == TopicsLoaded(workbook, allowed)
  {
    if workbook.None? {
      return [];
    }
    var target := FindConsultationSheet(workbook.value);
    if target.None? {
      return [];
    }
    // `_process_dlxls_dataframe`; its own test for a non-empty Neptun code
    // never fails on a record, by `ExtractTopicRowFields`.
    var all := CollectPresent(workbook.value[target.value].rows, ExtractTopicRow);
    records := Filter(all, t => AllowedTopic(allowed, t));
  }

  /**
   * Every loaded topic record comes from a row of the consultation sheet and
   * has an allowed course; every such row's record is loaded.
   */
  lemma TopicsLoadedExactly(sheets: seq<Sheet>, allowed: set<string>)
    requires FindConsultationSheet(sheets).Some?
    ensures var rows := sheets[FindConsultationSheet(sheets).value].rows;
            forall t :: t in TopicsLoaded(Some(sheets), allowed) <==>
              AllowedTopic(allowed, t) && exists i | 0 <= i < |rows| :: ExtractTopicRow(rows[i]) == Some(t)
  {
    var rows := sheets[FindConsultationSheet(sheets).value].rows;
    var keep := t => AllowedTopic(allowed, t);
    var all := Collect(rows, ExtractTopicRow);
    var loaded := TopicsLoaded(Some(sheets), allowed);
    assert loaded == Filter(all, keep);
    CollectExactly(rows, ExtractTopicRow);
    FilterComplete(all, keep);
    forall t ensures t in loaded <==> AllowedTopic(allowed, t) && t in all {
      if t in loaded {
        assert keep(t);
      }
      if AllowedTopic(allowed, t) && t in all {
        assert keep(t);
      }
    }
  }

  // ---------------------------------------------------------------------------
  // File names of the grade import workbooks

  /** The end of the run of characters other than '_' starting at `i`. */
  predicate NotUnderscore(c: char) { c != '_' }

  predicate UpperAscii(c: char) { 'A' <= c <= 'Z' }

  /**
   * `jegyimport_([^_]+)_([^_]+)_`, ignoring case, matched at `p`: the two
   * groups. A greedy `[^_]+` followed by `_` has only one way to match.
   */
  function ImportNameAt(s: string, p: nat): (r: Option<(string, string)>)
    requires p <= |s|
    ensures r.Some? ==> r.value.0 != "" && r.value.1 != "" && '_' !in r.value.0 && '_' !in r.value.1
  {
    if |s| < p + 11 || Upper(s[p..p + 11]) != "JEGYIMPORT_" then None
    else
      var e1 := RunEnd(s, p + 11, NotUnderscore);
      if e1 == p + 11 || e1 == |s| then None
      else
        var e2 := RunEnd(s, e1 + 1, NotUnderscore);
        if e2 == e1 + 1 || e2 == |s| then None
        else
          Some((s[p + 11..e1], s[e1 + 1..e2]))
  }

  /** `re.search`: the leftmost position from `p` on where the file-name pattern matches. */
  function SearchImportName(s: string, p: nat): (r: Option<nat>)
    requires p <= |s|
    decreases |s| - p
    ensures r.Some? ==> p <= r.value <= |s| && ImportNameAt(s, r.value).Some?
    ensures r.Some? ==> forall q | p <= q < r.value :: ImportNameAt(s, q).None?
    ensures r.None? ==> forall q | p <= q <= |s| :: ImportNameAt(s, q).None?
  {
    if ImportNameAt(s, p).Some? then Some(p)
    else if p == |s| then None
    else SearchImportName(s, p + 1)
  }

  /** `BMEVI[A-Z]+\d+` matched at `p` of an upper-cased name: the end of the match. */
  function CourseCodeAt(u: string, p: nat): (r: Option<nat>)
    requires p <= |u|
    ensures r.Some? ==> p + 7 <= r.value <= |u|
  {
    if |u| < p + 5 || u[p..p + 5] != "BMEVI" then None
    else
      var l := RunEnd(u, p + 5, UpperAscii);
      if l == p + 5 then None
      else
        var d := RunEnd(u, l, IsDigit);
        if d == l then None
        else Some(d)
  }

  /** What `CourseCodeAt` matches has the shape of a course code. */
  lemma CourseCodeAtShape(u: string, p: nat)
    requires p <= |u| && CourseCodeAt(u, p).Some?
    ensures CourseCodeShape(u[p..CourseCodeAt(u, p).value])
  {
    var l := RunEnd(u, p + 5, UpperAscii);
    CourseCodeShapeOf(u, p, l, RunEnd(u, l, IsDigit));
  }

  /** A course code as the fallback pattern sees it: "BMEVI", capital letters, digits. */
  predicate CourseCodeShape(c: string)
  {
    "BMEVI" <= c && exists l | 5 < l < |c| :: AllUpperAscii(c[5..l]) && AllDigits(c[l..])
  }

  predicate AllUpperAscii(s: string) { forall k | 0 <= k < |s| :: UpperAscii(s[k]) }

  lemma CourseCodeShapeOf(u: string, p: nat, l: nat, d: nat)
    requires p + 5 < l < d <= |u| && u[p..p + 5] == "BMEVI"
    requires forall k | p + 5 <= k < l :: UpperAscii(u[k])
    requires forall k | l <= k < d :: IsDigit(u[k])
    ensures CourseCodeShape(u[p..d])
  {
    var c := u[p..d];
    assert c[..5] == u[p..p + 5];
    var letters, digits := c[5..l - p], c[l - p..];
    forall k | 0 <= k < |letters| ensures UpperAscii(letters[k]) {
      assert letters[k] == u[p + 5 + k];
    }
    forall k | 0 <= k < |digits| ensures IsDigit(digits[k]) {
      assert digits[k] == u[l + k];
    }
  }

  /** `re.search` for the fallback pattern: the leftmost position of the upper-cased name, from `p` on, where it matches. */
  function SearchCourseCode(u: string, p: nat): (r: Option<nat>)
    requires p <= |u|
    decreases |u| - p
    ensures r.Some? ==> p <= r.value <= |u| && CourseCodeAt(u, r.value).Some?
  {
    if CourseCodeAt(u, p).Some? then Some(p)
    else if p == |u| then None
    else SearchCourseCode(u, p + 1)
  }

  /** The pattern matches nowhere before the position the search finds, and nowhere if it finds none. */
  lemma {:induction false} SearchCourseCodeFirst(u: string, p: nat)
    requires p <= |u|
    decreases |u| - p
    ensures var r := SearchCourseCode(u, p);
            forall q | p <= q <= |u| && (r.None? || q < r.value) :: CourseCodeAt(u, q).None?
  {
    var r := SearchCourseCode(u, p);
    if CourseCodeAt(u, p).None? && p < |u| {
      assert r == SearchCourseCode(u, p + 1);
      SearchCourseCodeFirst(u, p + 1);
      forall q | p <= q <= |u| && (r.None? || q < r.value) ensures CourseCodeAt(u, q).None? {
        if q > p {
          assert p + 1 <= q;
        }
      }
    }
  }

  /**
   * `_extract_course_code_from_filename`: the first `BMEVI[A-Z]+\d+` of the
   * upper-cased name, or "UNKNOWN" exactly when there is none.
   */
  function CourseCodeFromFilename(filename: string): (code: string)
    ensures code == "UNKNOWN" || (CourseCodeShape(code) && Contains(Upper(filename), code))
    ensures code == "UNKNOWN" <==> forall q | 0 <= q <= |filename| :: CourseCodeAt(Upper(filename), q).None?
    ensures code != "UNKNOWN" ==>
              exists p | 0 <= p <= |filename| && CourseCodeAt(Upper(filename), p).Some? ::
                code == Upper(filename)[p..CourseCodeAt(Upper(filename), p).value]
                && forall q | 0 <= q < p :: CourseCodeAt(Upper(filename), q).None?
  {
    var u := Upper(filename);
    SearchCourseCodeFirst(u, 0);
    match SearchCourseCode(u, 0)
      case None => "UNKNOWN"
      case Some(p) =>
        var e := CourseCodeAt(u, p).value;
        CourseCodeAtShape(u, p);
        ContainsSlice(u, p, e);
        assert u[p..e][0] == 'B';
        u[p..e]
  }

  lemma {:induction false} ContainsSlice(s: string, i: nat, j: nat)
    requires i <= j <= |s|
    ensures Contains(s, s[i..j])
    decreases i
  {
    if i == 0 {
      assert s[..j] <= s;
    } else {
      ContainsSlice(s[1..], i - 1, j - 1);
      assert s[1..][i - 1..j - 1] == s[i..j];
    }
  }

  /**
   * `_extract_course_info_from_filename`: the upper-cased code group of the
   * file-name pattern, English iff the code starts with "BMEVI" and the
   * upper-cased type group with "A"; without a match, the fallback code and
   * Hungarian.
   */
  function CourseInfoFromFilename(filename: string): (r: (string, bool))
    ensures r.1 ==> "BMEVI" <= r.0
    ensures r.0 != ""
  {
    match SearchImportName(filename, 0)
      case Some(p) =>
        var groups := ImportNameAt(filename, p).value;
        var code, kind := Upper(groups.0), Upper(groups.1);
        if "BMEVI" <= code then (code, "A" <= kind) else (code, false)
      case None => (CourseCodeFromFilename(filename), false)
  }

  /** A run that ends where `p` first fails ends there. */
  lemma RunEndIs(s: string, i: nat, j: nat, p: char -> bool)
    requires i <= j < |s| && (forall k | i <= k < j :: p(s[k])) && !p(s[j])
    ensures RunEnd(s, i, p) == j
  {
  }

  /** The pattern matches at the start of a name built from it, with the two groups. */
  lemma ImportNameAtStart(code: string, kind: string, rest: string)
    requires code != "" && kind != "" && '_' !in code && '_' !in kind
    ensures ImportNameAt("jegyimport_" + code + "_" + kind + "_" + rest, 0) == Some((code, kind))
  {
    var s := "jegyimport_" + code + "_" + kind + "_" + rest;
    var e1, e2 := 11 + |code|, 12 + |code| + |kind|;
    assert Upper(s[0..11]) == "JEGYIMPORT_" by {
      assert s[0..11] == "jegyimport_";
    }
    assert s[11..e1] == code && s[e1] == '_';
    assert s[e1 + 1..e2] == kind && s[e2] == '_';
    RunEndIs(s, 11, e1, NotUnderscore);
    RunEndIs(s, e1 + 1, e2, NotUnderscore);
  }

  /** A name that starts with the pattern yields its code, upper-cased, and the language of its type. */
  lemma CourseInfoOfImportName(code: string, kind: string, rest: string)
    requires code != "" && kind != "" && '_' !in code && '_' !in kind
    ensures var r := CourseInfoFromFilename("jegyimport_" + code + "_" + kind + "_" + rest);
            r == (Upper(code), "BMEVI" <= Upper(code) && "A" <= Upper(kind))
  {
    var s := "jegyimport_" + code + "_" + kind + "_" + rest;
    ImportNameAtStart(code, kind, rest);
    assert SearchImportName(s, 0) == Some(0);
  }

  // ---------------------------------------------------------------------------
  // The grade import workbooks

  /** `_extract_dlnep_student_data`: no record for a row without a Neptun code. */
  function ExtractEnrollmentRow(row: Row, code: string, english: bool, filename: string): (r: Option<Enrollment>)
    ensures r.None? <==> Cell(row, "Neptun kód") == "" || Cell(row, "Neptun kód") == "nan"
    ensures r.Some? ==> r.value.neptun == Cell(row, "Neptun kód") && r.value.courseCode == code
                        && r.value.isEnglishCourse == english && r.value.sourceFile == filename
  {
    EnrollmentRowAt(row, Cell(row, "Neptun kód"), code, english, filename)
  }

  function EnrollmentRowAt(row: Row, neptun: string, code: string, english: bool, filename: string): (r: Option<Enrollment>)
    ensures r.None? <==> neptun == "" || neptun == "nan"
    ensures r.Some? ==> r.value.neptun == neptun && r.value.courseCode == code
                        && r.value.isEnglishCourse == english && r.value.sourceFile == filename
  {
    if neptun == "" || neptun == "nan" then None
    else Some(Enrollment(neptun, Cell(row, "Név"), code, english, filename,
                         Cell(row, "Órarend típus"), Cell(row, "Felvétel"), Cell(row, "Részeredmény")))
  }

  /** The enrollments of one file: none for an empty file, otherwise one per row with a Neptun code. */
  function FileEnrollments(file: ExcelFile): seq<Enrollment>
  {
    if |file.rows| == 0 then []
    else
      var info := CourseInfoFromFilename(file.name);
      Collect(file.rows, row => ExtractEnrollmentRow(row, info.0, info.1, file.name))
  }

  /** `_process_dlnep_file`. */
  method ProcessEnrollmentFile(file: ExcelFile) returns (records: seq<Enrollment>)
    ensures records == FileEnrollments(file)
  {
    if |file.rows| == 0 {
      return [];
    }
    var info := CourseInfoFromFilename(file.name);
    records := ExtractEnrollments(file.rows, info.0, info.1, file.name);
  }

  /** The loop over one file's rows. */
  method ExtractEnrollments(rows: seq<Row>, code: string, english: bool, filename: string) returns (records: seq<Enrollment>)
    ensures records == Collect(rows, row => ExtractEnrollmentRow(row, code, english, filename))
  {
    var extract := row => ExtractEnrollmentRow(row, code, english, filename);
    records := [];
    for i := 0 to |rows|
      invariant records == Collect(rows[..i], extract)
    {
      CollectSnoc(rows[..i], rows[i], extract);
      assert rows[..i + 1] == rows[..i] + [rows[i]];
      var record := extract(rows[i]);
      if record.Some? {
        records := records + [record.value];
      }
    }
    assert rows[..|rows|] == rows;
  }

  /** The enrollments of all files, file after file. */
  function AllEnrollments(files: seq<ExcelFile>): seq<Enrollment>
  {
    Flatten(files, FileEnrollments)
  }

  predicate AllowedEnrollment(allowed: set<string>, e: Enrollment)
  {
    e.courseCode != "" && IsValidCourse(allowed, e.courseCode)
  }

  /** What `DLNEPDataLoader.load_data` returns (`None`: the folder does not exist). */
  function EnrollmentsLoaded(folder: Option<seq<ExcelFile>>, allowed: set<string>): seq<Enrollment>
  {
    if folder.None? || |folder.value| == 0 then []
    else Filter(AllEnrollments(folder.value), e => AllowedEnrollment(allowed, e))
  }

  method LoadEnrollmentData(folder: Option<seq<ExcelFile>>, allowed: set<string>) returns (records: seq<Enrollment>)
    ensures records == EnrollmentsLoaded(folder, allowed)
  {
    if folder.None? || |folder.value| == 0 {
      return [];
    }
    var files := folder.value;
    var all := [];
    for i := 0 to |files|
      invariant all == AllEnrollments(files[..i])
    {
      FlattenStep(files, i, FileEnrollments);
      var some := ProcessEnrollmentFile(files[i]);
      all := all + some;
    }
    assert files[..|files|] == files;
    records := Filter(all, e => AllowedEnrollment(allowed, e));
  }

  /** Each enrollment of a file carries the code and language its file name gives. */
  lemma {:induction false} FileEnrollmentsInfo(file: ExcelFile)
    ensures forall e | e in FileEnrollments(file) ::
      e.sourceFile == file.name && (e.courseCode, e.isEnglishCourse) == CourseInfoFromFilename(file.name)
      && e.neptun != "" && e.neptun != "nan"
  {
    if |file.rows| > 0 {
      var info := CourseInfoFromFilename(file.name);
      CollectExactly(file.rows, row => ExtractEnrollmentRow(row, info.0, info.1, file.name));
    }
  }

  lemma AllEnrollmentsInfo(files: seq<ExcelFile>)
    ensures forall e | e in AllEnrollments(files) :: exists f | f in files ::
      e.sourceFile == f.name && (e.courseCode, e.isEnglishCourse) == CourseInfoFromFilename(f.name)
      && e.neptun != "" && e.neptun != "nan"
  {
    FlattenExactly(files, FileEnrollments);
    forall e | e in AllEnrollments(files) ensures exists f | f in files ::
      e.sourceFile == f.name && (e.courseCode, e.isEnglishCourse) == CourseInfoFromFilename(f.name)
      && e.neptun != "" && e.neptun != "nan"
    {
      var i :| 0 <= i < |files| && e in FileEnrollments(files[i]);
      FileEnrollmentsInfo(files[i]);
    }
  }

  /**
   * Every loaded enrollment is of an allowed course, has a Neptun code and
   * carries the course code and language of the file it was read from.
   */
  lemma EnrollmentsLoadedProperties(files: seq<ExcelFile>, allowed: set<string>)
    ensures forall e | e in EnrollmentsLoaded(Some(files), allowed) ::
      e.courseCode in allowed && e.neptun != "" && e.neptun != "nan"
      && exists f | f in files :: e.sourceFile == f.name && (e.courseCode, e.isEnglishCourse) == CourseInfoFromFilename(f.name)
  {
    AllEnrollmentsInfo(files);
  }

  /** The enrollment a row of `file` yields, with the course code and language of the file name. */
  function RowEnrollment(file: ExcelFile, row: Row): Option<Enrollment>
  {
    var info := CourseInfoFromFilename(file.name);
    ExtractEnrollmentRow(row, info.0, info.1, file.name)
  }

  lemma FileEnrollmentsExactly(file: ExcelFile)
    ensures forall e :: e in FileEnrollments(file) <==>
      exists k | 0 <= k < |file.rows| :: RowEnrollment(file, file.rows[k]) == Some(e)
  {
    if |file.rows| > 0 {
      var info := CourseInfoFromFilename(file.name);
      CollectExactly(file.rows, row => ExtractEnrollmentRow(row, info.0, info.1, file.name));
    }
  }

  /** The enrollments of all files are exactly the records their rows yield. */
  lemma AllEnrollmentsExactly(files: seq<ExcelFile>)
    ensures forall e :: e in AllEnrollments(files) <==>
      exists i, k | 0 <= i < |files| && 0 <= k < |files[i].rows| :: RowEnrollment(files[i], files[i].rows[k]) == Some(e)
  {
    FlattenExactly(files, FileEnrollments);
    forall e ensures e in AllEnrollments(files) <==>
      exists i, k | 0 <= i < |files| && 0 <= k < |files[i].rows| :: RowEnrollment(files[i], files[i].rows[k]) == Some(e)
    {
      if e in AllEnrollments(files) {
        var i :| 0 <= i < |files| && e in FileEnrollments(files[i]);
        FileEnrollmentsExactly(files[i]);
      }
      if i, k :| 0 <= i < |files| && 0 <= k < |files[i].rows| && RowEnrollment(files[i], files[i].rows[k]) == Some(e) {
        FileEnrollmentsExactly(files[i]);
      }
    }
  }

  /**
   * `DLNEPDataLoader.load_data` keeps exactly the records of the files' rows
   * that name an allowed course.
   */
  lemma EnrollmentsLoadedExactly(files: seq<ExcelFile>, allowed: set<string>)
    ensures forall e :: e in EnrollmentsLoaded(Some(files), allowed) <==>
      AllowedEnrollment(allowed, e)
      && exists i, k | 0 <= i < |files| && 0 <= k < |files[i].rows| :: RowEnrollment(files[i], files[i].rows[k]) == Some(e)
  {
    var all, keep := AllEnrollments(files), e => AllowedEnrollment(allowed, e);
    assert EnrollmentsLoaded(Some(files), allowed) == Filter(all, keep);
    AllEnrollmentsExactly(files);
    FilterComplete(all, keep);
    forall e ensures e in Filter(all, keep) <==> keep(e) && e in all {
    }
  }
}
