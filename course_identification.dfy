// Finding the enrolment course table in the Neptun page and reading its
// rows: which table is the course table, which header cell is which column,
// which rows are courses the supervisor teaches with a graded requirement,
// and which collected courses have every field the enrolment step needs.
// Tables, rows and cells are given by their text; a selection cell only by
// whether it holds the options menu.

module CourseIdentification {
  import opened Text

  const RequiredHeadings: seq<string> := ["Tárgykód", "Tárgy név", "Követelmény", "Oktatók", "Kijelölés"]
  const Supervisor: string := "Dr. Csorba Kristóf"
  const CodePrefix: string := "BMEVI"
  const GradedRequirement: string := "Évközi jegy"

  /** The required headings that occur in a table's text. */
  function HeadingsIn(text: string): seq<string>
  {
    Filter(RequiredHeadings, (h: string) => Contains(text, h))
  }

  /** `_is_course_table`: at least four of the five headings, the supervisor's name and a course code prefix. */
  predicate IsCourseTable(text: string)
  {
    |HeadingsIn(text)| >= 4 && Contains(text, Supervisor) && Contains(text, CodePrefix)
  }

  /** Equivalently: at most one of the five headings is missing. */
  lemma CourseTableMissesAtMostOne(text: string)
    ensures IsCourseTable(text)
        <==> |Filter(RequiredHeadings, (h: string) => !Contains(text, h))| <= 1
             && Contains(text, Supervisor) && Contains(text, CodePrefix)
  {
    FilterPartition(RequiredHeadings, (h: string) => true, (h: string) => Contains(text, h), (h: string) => !Contains(text, h));
    FilterKeepsAll(RequiredHeadings, (h: string) => true);
  }

  /** `find_course_table`: the first table, by position, that is the course table. */
  method FindCourseTable(tables: seq<string>) returns (r: Option<nat>)
    ensures r.Some? ==> r.value < |tables| && IsCourseTable(tables[r.value])
    ensures r.Some? ==> forall j | 0 <= j < r.value :: !IsCourseTable(tables[j])
    ensures r.None? ==> forall j | 0 <= j < |tables| :: !IsCourseTable(tables[j])
  {
    for i := 0 to |tables|
      invariant forall j | 0 <= j < i :: !IsCourseTable(tables[j])
    {
      if IsCourseTable(tables[i]) {
        return Some(i);
      }
    }
    return None;
  }

  /** The column a header cell names: the first keyword it contains, in this order. */
  function HeaderColumn(text: string): Option<string>
  {
    if Contains(text, "Tárgykód") then Some("course_code")
    else if Contains(text, "Tárgy név") then Some("course_name")
    else if Contains(text, "Követelmény") then Some("requirement")
    else if Contains(text, "Oktatók") then Some("teachers")
    else if Contains(text, "Kijelölés") then Some("selection")
    else None
  }

  /** The column dict after the header cells are read left to right, each naming cell setting its column. */
  function HeaderMap(cells: seq<string>): map<string, nat>
  {
    if |cells| == 0 then map[]
    else
      var m := HeaderMap(cells[..|cells| - 1]);
      match HeaderColumn(cells[|cells| - 1])
      case None => m
      case Some(k) => m[k := |cells| - 1]
  }

  /** A header row names the four required columns; the course name is optional. */
  predicate HasRequiredColumns(m: map<string, nat>)
  {
    "course_code" in m && "requirement" in m && "teachers" in m && "selection" in m
  }

  lemma HeaderMapSnoc(cells: seq<string>, c: string)
    ensures HeaderMap(cells + [c])
         == if HeaderColumn(c).Some? then HeaderMap(cells)[HeaderColumn(c).value := |cells|] else HeaderMap(cells)
  {
    assert (cells + [c])[..|cells|] == cells;
  }

  /** A column is in the dict exactly when some cell names it. */
  lemma {:induction false} HeaderMapKeys(cells: seq<string>)
    ensures forall k :: k in HeaderMap(cells) <==> exists i | 0 <= i < |cells| :: HeaderColumn(cells[i]) == Some(k)
  {
    if |cells| > 0 {
      var n := |cells| - 1;
      var front := cells[..n];
      HeaderMapKeys(front);
      forall k
        ensures k in HeaderMap(cells) <==> exists i | 0 <= i < |cells| :: HeaderColumn(cells[i]) == Some(k)
      {
        if k in HeaderMap(front) {
          var i :| 0 <= i < n && HeaderColumn(front[i]) == Some(k);
          assert HeaderColumn(cells[i]) == Some(k);
        }
        if exists i | 0 <= i < |cells| :: HeaderColumn(cells[i]) == Some(k) {
          var i :| 0 <= i < |cells| && HeaderColumn(cells[i]) == Some(k);
          if i < n {
            assert HeaderColumn(front[i]) == Some(k);
          }
        }
      }
    }
  }

  /** A column's index is that of the last cell naming it: a later cell overwrites an earlier one. */
  lemma {:induction false} HeaderMapLast(cells: seq<string>)
    ensures forall k | k in HeaderMap(cells) ::
              HeaderMap(cells)[k] < |cells| && HeaderColumn(cells[HeaderMap(cells)[k]]) == Some(k)
              && forall j | HeaderMap(cells)[k] < j < |cells| :: HeaderColumn(cells[j]) != Some(k)
  {
    if |cells| > 0 {
      var n := |cells| - 1;
      var front := cells[..n];
      HeaderMapLast(front);
      var m, m' := HeaderMap(front), HeaderMap(cells);
      forall k | k in m'
        ensures m'[k] < |cells| && HeaderColumn(cells[m'[k]]) == Some(k)
        ensures forall j | m'[k] < j < |cells| :: HeaderColumn(cells[j]) != Some(k)
      {
        if HeaderColumn(cells[n]) != Some(k) {
          assert k in m && m'[k] == m[k];
          assert HeaderColumn(front[m[k]]) == Some(k);
          assert forall j | m[k] < j < n :: cells[j] == front[j];
        }
      }
    }
  }

  /** `_extract_header_indices`: the column dict when it names the four required columns, else nothing. */
  method ExtractHeaderIndices(cellTexts: seq<string>) returns (r: Option<map<string, nat>>)
    ensures r.Some? <==> HasRequiredColumns(HeaderMap(cellTexts))
    ensures r.Some? ==> r.value == HeaderMap(cellTexts)
  {
    var headerIndices: map<string, nat> := map[];
    for idx := 0 to |cellTexts|
      invariant headerIndices == HeaderMap(cellTexts[..idx])
    {
      var text := cellTexts[idx];
      HeaderMapSnoc(cellTexts[..idx], text);
      assert cellTexts[..idx + 1] == cellTexts[..idx] + [text];
      if Contains(text, "Tárgykód") {
        headerIndices := headerIndices["course_code" := idx];
      } else if Contains(text, "Tárgy név") {
        headerIndices := headerIndices["course_name" := idx];
      } else if Contains(text, "Követelmény") {
        headerIndices := headerIndices["requirement" := idx];
      } else if Contains(text, "Oktatók") {
        headerIndices := headerIndices["teachers" := idx];
      } else if Contains(text, "Kijelölés") {
        headerIndices := headerIndices["selection" := idx];
      }
    }
    assert cellTexts[..|cellTexts|] == cellTexts;
    if "course_code" in headerIndices && "requirement" in headerIndices
       && "teachers" in headerIndices && "selection" in headerIndices {
      return Some(headerIndices);
    }
    return None;
  }

  /** A row `parse_header_row` accepts: five cells or more whose stripped texts name the required columns. */
  predicate IsHeaderRow(cells: seq<string>)
  {
    |cells| >= 5 && HasRequiredColumns(HeaderMap(StripEach(cells)))
  }

  /** One row of `parse_header_row`'s search: the column dict of a header row, else nothing. */
  method ReadHeaderRow(cells: seq<string>) returns (r: Option<map<string, nat>>)
    ensures r.Some? <==> IsHeaderRow(cells)
    ensures r.Some? ==> r.value == HeaderMap(StripEach(cells))
  {
    if |cells| < 5 {
      return None;
    }
    r := ExtractHeaderIndices(StripEach(cells));
  }

  /**
   * `parse_header_row`: among the first five rows, the first that is a
   * header row, with its column dict and index.
   */
  method ParseHeaderRow(rows: seq<seq<string>>) returns (r: Option<(map<string, nat>, nat)>)
    ensures r.Some? ==> r.value.1 < 5 && r.value.1 < |rows| && IsHeaderRow(rows[r.value.1])
                        && r.value.0 == HeaderMap(StripEach(rows[r.value.1]))
    ensures r.Some? ==> forall j | 0 <= j < r.value.1 :: !IsHeaderRow(rows[j])
    ensures r.None? ==> forall j | 0 <= j < 5 && j < |rows| :: !IsHeaderRow(rows[j])
  {
    var n := if |rows| < 5 then |rows| else 5;
    for rowIdx := 0 to n
      invariant forall j | 0 <= j < rowIdx :: !IsHeaderRow(rows[j])
    {
      var headerIndices := ReadHeaderRow(rows[rowIdx]);
      if headerIndices.Some? {
        return Some((headerIndices.value, rowIdx));
      }
    }
    return None;
  }

  /** `_is_valid_course`: a course code with the faculty prefix, a graded requirement, and the supervisor among the teachers. */
  function IsValidCourse(courseCode: string, requirement: string, teachers: string): (r: bool)
  {
    if !(CodePrefix <= courseCode) then false
    else if !Contains(requirement, GradedRequirement) then false
    else Contains(teachers, Supervisor)
  }

  /** A text containing a piece is at least as long as the piece. */
  lemma {:induction false} ContainsLength(s: string, sub: string)
    requires Contains(s, sub)
    ensures |s| >= |sub|
    decreases |s|
  {
    if !(sub <= s) {
      ContainsLength(s[1..], sub);
    }
  }

  /** A valid course has a code, a requirement and teachers, none of them empty. */
  lemma ValidCourseFieldsNonEmpty(courseCode: string, requirement: string, teachers: string)
    requires IsValidCourse(courseCode, requirement, teachers)
    ensures courseCode != "" && requirement != "" && teachers != ""
  {
    ContainsLength(requirement, GradedRequirement);
    ContainsLength(teachers, Supervisor);
  }

  /** A table cell: its text and whether it holds the options menu (the `contextcell` element). */
  datatype Cell = Cell(text: string, hasDropdown: bool)

  /** A course dict; a field a dict lacks is `None`, the menu element is kept only as present or not. */
  datatype CourseData = CourseData(
    courseCode: Option<string>, courseName: Option<string>, requirement: Option<string>,
    teachers: Option<string>, hasDropdown: bool, rowIndex: nat)

  /** Every column index of the dict lies inside the row. */
  predicate IndicesInside(cells: seq<Cell>, ix: map<string, nat>)
  {
    forall k | k in ix :: ix[k] < |cells|
  }

  /**
   * `_extract_course_from_row`: nothing for a row too short for the dict
   * (an empty dict fails on `max` and, like a missing required key, is
   * caught), for an invalid course, or without an options menu in the
   * selection cell; otherwise the stripped fields.
   */
  function CourseFromRow(cells: seq<Cell>, ix: map<string, nat>, rowIdx: nat): (r: Option<CourseData>)
    ensures r.Some? ==> r.value.rowIndex == rowIdx && r.value.hasDropdown
    ensures r.Some? ==> r.value.courseCode.Some? && r.value.requirement.Some? && r.value.teachers.Some?
                        && IsValidCourse(r.value.courseCode.value, r.value.requirement.value, r.value.teachers.value)
  {
    if |ix| == 0 || !IndicesInside(cells, ix) then None
    else if !("course_code" in ix && "requirement" in ix && "teachers" in ix) then None
    else
      var code := Strip(cells[ix["course_code"]].text);
      var name := if "course_name" in ix then Strip(cells[ix["course_name"]].text) else "";
      var requirement := Strip(cells[ix["requirement"]].text);
      var teachers := Strip(cells[ix["teachers"]].text);
      if !IsValidCourse(code, requirement, teachers) then None
      else if "selection" !in ix || !cells[ix["selection"]].hasDropdown then None
      else Some(CourseData(Some(code), Some(name), Some(requirement), Some(teachers), true, rowIdx))
  }

  /** The courses of the rows after the header row, in row order. */
  function CoursesOf(rows: seq<seq<Cell>>, ix: map<string, nat>, headerRowIdx: int): seq<CourseData>
  {
    if |rows| == 0 then []
    else
      var n := |rows| - 1;
      var c := if n <= headerRowIdx then None else CourseFromRow(rows[n], ix, n);
      CoursesOf(rows[..n], ix, headerRowIdx) + if c.Some? then [c.value] else []
  }

  /** `extract_courses_from_rows`: skips the rows up to the header row and keeps every row that is a course. */
  method ExtractCoursesFromRows(rows: seq<seq<Cell>>, ix: map<string, nat>, headerRowIdx: int)
    returns (courses: seq<CourseData>)
    ensures courses == CoursesOf(rows, ix, headerRowIdx)
  {
    courses := [];
    for rowIdx := 0 to |rows|
      invariant courses == CoursesOf(rows[..rowIdx], ix, headerRowIdx)
    {
      assert rows[..rowIdx + 1][..rowIdx] == rows[..rowIdx];
      if rowIdx <= headerRowIdx {
        continue;
      }
      var courseData := CourseFromRow(rows[rowIdx], ix, rowIdx);
      if courseData.Some? {
        courses := courses + [courseData.value];
      }
    }
    assert rows[..|rows|] == rows;
  }

  /** `_validate_course_data`: code, requirement, teachers and menu all present and truthy. */
  predicate ValidCourseData(c: CourseData)
  {
    Truthy(c.courseCode) && Truthy(c.requirement) && Truthy(c.teachers) && c.hasDropdown
  }

  /** `filter_valid_courses`: the valid courses, in order. */
  method FilterValidCourses(courses: seq<CourseData>) returns (valid: seq<CourseData>)
    ensures valid == Filter(courses, ValidCourseData)
    ensures forall c :: c in valid <==> c in courses && ValidCourseData(c)
  {
    valid := [];
    for i := 0 to |courses|
      invariant valid == Filter(courses[..i], ValidCourseData)
    {
      FilterSnoc(courses[..i], courses[i], ValidCourseData);
      assert courses[..i + 1] == courses[..i] + [courses[i]];
      if ValidCourseData(courses[i]) {
        valid := valid + [courses[i]];
      }
    }
    assert courses[..|courses|] == courses;
    FilterComplete(courses, ValidCourseData);
  }

  /** Every course read from the table passes the validator. */
  lemma {:induction false} ExtractedCoursesValid(rows: seq<seq<Cell>>, ix: map<string, nat>, headerRowIdx: int)
    ensures forall c | c in CoursesOf(rows, ix, headerRowIdx) :: ValidCourseData(c)
  {
    if |rows| > 0 {
      var n := |rows| - 1;
      ExtractedCoursesValid(rows[..n], ix, headerRowIdx);
      var c := if n <= headerRowIdx then None else CourseFromRow(rows[n], ix, n);
      if c.Some? {
        ValidCourseFieldsNonEmpty(c.value.courseCode.value, c.value.requirement.value, c.value.teachers.value);
      }
    }
  }

  /** So `filter_valid_courses` keeps the whole list `extract_courses_from_rows` returns. */
  lemma ValidatorKeepsExtracted(rows: seq<seq<Cell>>, ix: map<string, nat>, headerRowIdx: int)
    ensures Filter(CoursesOf(rows, ix, headerRowIdx), ValidCourseData) == CoursesOf(rows, ix, headerRowIdx)
  {
    ExtractedCoursesValid(rows, ix, headerRowIdx);
    FilterKeepsAll(CoursesOf(rows, ix, headerRowIdx), ValidCourseData);
  }
}
