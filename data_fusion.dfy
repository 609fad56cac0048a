// The data fusion engine: one record per student (keyed by Neptun code) with
// every course enrollment and the topic details, plus the course-coverage
// check and the statistics over a fused data set.

module DataFusion {
  import opened Text
  import Sorting
  import DL = DataLoaders

  /** One entry of a student's `enrolled_courses`. */
  datatype CourseInfo = CourseInfo(code: string, isEnglish: bool, scheduleType: string, entry: string, partialResult: string)

  /** A fused student record. */
  datatype FusedStudent = FusedStudent(
    neptun: string, name: string, courses: seq<CourseInfo>, hasTopic: bool,
    supervisor: Option<string>, category: Option<string>, title: Option<string>, isEnglishTopic: bool)

  function CourseOf(e: DL.Enrollment): CourseInfo
  {
    CourseInfo(e.courseCode, e.isEnglishCourse, e.scheduleType, e.entry, e.partialResult)
  }

  /** The `update` a topic record applies to an existing student. */
  function WithTopic(s: FusedStudent, t: DL.TopicRecord): FusedStudent
  {
    s.(hasTopic := t.hasTopic, supervisor := t.supervisor, category := t.category,
       title := t.title, isEnglishTopic := t.isEnglishTopic)
  }

  // ---------------------------------------------------------------------------
  // The fused record of one student, defined from the inputs

  function Codes(es: seq<DL.Enrollment>): (r: seq<string>)
    ensures |r| == |es| && forall i | 0 <= i < |es| :: r[i] == es[i].neptun
  {
    seq(|es|, i requires 0 <= i < |es| => es[i].neptun)
  }

  function TopicCodes(ts: seq<DL.TopicRecord>): (r: seq<string>)
    ensures |r| == |ts| && forall i | 0 <= i < |ts| :: r[i] == ts[i].neptun
  {
    seq(|ts|, i requires 0 <= i < |ts| => ts[i].neptun)
  }

  /** The student's first enrollment. */
  function FirstEnrollment(k: string, es: seq<DL.Enrollment>): (r: Option<DL.Enrollment>)
    ensures r.Some? ==> r.value in es && r.value.neptun == k
    ensures r.None? <==> k !in Codes(es)
  {
    if |es| == 0 then None
    else
      var front, last := es[..|es| - 1], es[|es| - 1];
      assert es == front + [last];
      assert Codes(es) == Codes(front) + [last.neptun];
      var f := FirstEnrollment(k, front);
      if f.Some? then f else if last.neptun == k then Some(last) else None
  }

  /** The student's first topic record. */
  function FirstTopic(k: string, ts: seq<DL.TopicRecord>): (r: Option<DL.TopicRecord>)
    ensures r.Some? ==> r.value in ts && r.value.neptun == k
    ensures r.None? <==> k !in TopicCodes(ts)
  {
    if |ts| == 0 then None
    else
      var front, last := ts[..|ts| - 1], ts[|ts| - 1];
      assert ts == front + [last];
      assert TopicCodes(ts) == TopicCodes(front) + [last.neptun];
      var f := FirstTopic(k, front);
      if f.Some? then f else if last.neptun == k then Some(last) else None
  }

  /** The student's last topic record. */
  function LastTopic(k: string, ts: seq<DL.TopicRecord>): (r: Option<DL.TopicRecord>)
    ensures r.Some? ==> r.value in ts && r.value.neptun == k
    ensures r.None? <==> k !in TopicCodes(ts)
  {
    if |ts| == 0 then None
    else
      var front, last := ts[..|ts| - 1], ts[|ts| - 1];
      assert ts == front + [last];
      assert TopicCodes(ts) == TopicCodes(front) + [last.neptun];
      if last.neptun == k then Some(last) else LastTopic(k, front)
  }

  /** The student's enrollments, in input order, as course entries. */
  function CoursesOf(k: string, es: seq<DL.Enrollment>): (r: seq<CourseInfo>)
    ensures |r| <= |es|
    ensures r == [] <== k !in Codes(es)
  {
    if |es| == 0 then []
    else
      var front, last := es[..|es| - 1], es[|es| - 1];
      assert Codes(es) == Codes(front) + [last.neptun];
      CoursesOf(k, front) + if last.neptun == k then [CourseOf(last)] else []
  }

  /**
   * What the fused record of student `k` should be: name from the first
   * enrollment (or, with none, the first topic record), every enrollment as a
   * course, and the topic fields of the last topic record.
   */
  function Expected(k: string, es: seq<DL.Enrollment>, ts: seq<DL.TopicRecord>): FusedStudent
  {
    var name := match FirstEnrollment(k, es)
      case Some(e) => e.name
      case None => if FirstTopic(k, ts).Some? then FirstTopic(k, ts).value.name else "";
    var base := FusedStudent(k, name, CoursesOf(k, es), false, None, None, None, false);
    match LastTopic(k, ts)
      case None => base
      case Some(t) => WithTopic(base, t)
  }

  /** The students in order of first appearance, enrollments scanned before topic records. */
  function StudentCodes(es: seq<DL.Enrollment>, ts: seq<DL.TopicRecord>): seq<string>
  {
    Sorting.Distinct(Codes(es) + TopicCodes(ts))
  }

  function Fused(es: seq<DL.Enrollment>, ts: seq<DL.TopicRecord>): (r: seq<FusedStudent>)
    ensures |r| == |StudentCodes(es, ts)|
  {
    var ks := StudentCodes(es, ts);
    seq(|ks|, i requires 0 <= i < |ks| => Expected(ks[i], es, ts))
  }

  // ---------------------------------------------------------------------------
  // The dictionary-building loops

  /** The dictionary after the enrollment loop has seen `es`. */
  ghost predicate EnrollState(keys: seq<string>, students: map<string, FusedStudent>, es: seq<DL.Enrollment>)
  {
    keys == Sorting.Distinct(Codes(es))
    && (forall k :: k in students <==> k in Codes(es))
    && (forall k | k in students :: students[k] == Expected(k, es, []))
  }

  /** The dictionary after the topic loop has seen `ts`. */
  ghost predicate TopicState(keys: seq<string>, students: map<string, FusedStudent>, es: seq<DL.Enrollment>, ts: seq<DL.TopicRecord>)
  {
    keys == StudentCodes(es, ts)
    && (forall k :: k in students <==> k in Codes(es) || k in TopicCodes(ts))
    && (forall k | k in students :: students[k] == Expected(k, es, ts))
  }

  lemma EnrollStep(keys: seq<string>, students: map<string, FusedStudent>, enrollments: seq<DL.Enrollment>, i: nat)
    requires i < |enrollments| && EnrollState(keys, students, enrollments[..i])
    ensures var e := enrollments[i];
            var k := e.neptun;
            var created := if k in students then students
                           else students[k := FusedStudent(k, e.name, [], false, None, None, None, false)];
            var updated := created[k := created[k].(courses := created[k].courses + [CourseOf(e)])];
            EnrollState(if k in students then keys else keys + [k], updated, enrollments[..i + 1])
  {
    var es, e := enrollments[..i], enrollments[i];
    var k := e.neptun;
    var es' := enrollments[..i + 1];
    assert es' == es + [e];
    assert es'[..|es|] == es;
    assert Codes(es') == Codes(es) + [k];
    Sorting.DistinctSnoc(Codes(es), k);
    var created := if k in students then students
                   else students[k := FusedStudent(k, e.name, [], false, None, None, None, false)];
    var updated := created[k := created[k].(courses := created[k].courses + [CourseOf(e)])];
    forall j | j in updated ensures updated[j] == Expected(j, es', []) {
      ExpectedEnrollSnoc(j, es, e);
    }
  }

  /** What one more enrollment does to the expected record of student `n`, before any topic. */
  lemma ExpectedEnrollSnoc(n: string, es: seq<DL.Enrollment>, e: DL.Enrollment)
    ensures n != e.neptun ==> Expected(n, es + [e], []) == Expected(n, es, [])
    ensures n == e.neptun && n in Codes(es) ==>
              Expected(n, es + [e], []) == Expected(n, es, []).(courses := Expected(n, es, []).courses + [CourseOf(e)])
    ensures n == e.neptun && n !in Codes(es) ==>
              Expected(n, es + [e], []) == FusedStudent(n, e.name, [CourseOf(e)], false, None, None, None, false)
  {
    var es' := es + [e];
    assert es'[..|es|] == es;
    assert FirstEnrollment(n, es') == if FirstEnrollment(n, es).Some? then FirstEnrollment(n, es)
                                      else if e.neptun == n then Some(e) else None;
    assert CoursesOf(n, es') == CoursesOf(n, es) + if e.neptun == n then [CourseOf(e)] else [];
  }

  lemma TopicStep(keys: seq<string>, students: map<string, FusedStudent>, es: seq<DL.Enrollment>,
                  topics: seq<DL.TopicRecord>, j: nat)
    requires j < |topics| && TopicState(keys, students, es, topics[..j])
    ensures var t := topics[j];
            var k := t.neptun;
            var updated := if k in students then students[k := WithTopic(students[k], t)]
                           else students[k := FusedStudent(k, t.name, [], t.hasTopic, t.supervisor, t.category,
                                                           t.title, t.isEnglishTopic)];
            TopicState(if k in students then keys else keys + [k], updated, es, topics[..j + 1])
  {
    var ts, t := topics[..j], topics[j];
    var k := t.neptun;
    var ts' := topics[..j + 1];
    assert ts' == ts + [t];
    assert ts'[..|ts|] == ts;
    assert TopicCodes(ts') == TopicCodes(ts) + [k];
    assert Codes(es) + TopicCodes(ts') == (Codes(es) + TopicCodes(ts)) + [k];
    Sorting.DistinctSnoc(Codes(es) + TopicCodes(ts), k);
    var updated := if k in students then students[k := WithTopic(students[k], t)]
                   else students[k := FusedStudent(k, t.name, [], t.hasTopic, t.supervisor, t.category,
                                                   t.title, t.isEnglishTopic)];
    forall n | n in updated ensures updated[n] == Expected(n, es, ts') {
      ExpectedTopicSnoc(n, es, ts, t);
    }
  }

  /** What one more topic record does to the expected record of student `n`. */
  lemma ExpectedTopicSnoc(n: string, es: seq<DL.Enrollment>, ts: seq<DL.TopicRecord>, t: DL.TopicRecord)
    ensures n != t.neptun ==> Expected(n, es, ts + [t]) == Expected(n, es, ts)
    ensures n == t.neptun && (n in Codes(es) || n in TopicCodes(ts)) ==>
              Expected(n, es, ts + [t]) == WithTopic(Expected(n, es, ts), t)
    ensures n == t.neptun && n !in Codes(es) && n !in TopicCodes(ts) ==>
              Expected(n, es, ts + [t]) == FusedStudent(n, t.name, [], t.hasTopic, t.supervisor, t.category,
                                                       t.title, t.isEnglishTopic)
  {
    var ts' := ts + [t];
    assert ts'[..|ts|] == ts;
    assert FirstTopic(n, ts') == if FirstTopic(n, ts).Some? then FirstTopic(n, ts) else if t.neptun == n then Some(t) else None;
    assert LastTopic(n, ts') == if t.neptun == n then Some(t) else LastTopic(n, ts);
  }

  /**
   * `DataFusionEngine.fuse_data`: the enrollment loop creates a student at
   * their first enrollment and appends every enrollment; the topic loop then
   * updates or creates students; the result is the dictionary's values in
   * insertion order.
   */
  method FuseData(topics: seq<DL.TopicRecord>, enrollments: seq<DL.Enrollment>) returns (fused: seq<FusedStudent>)
    ensures fused == Fused(enrollments, topics)
    ensures |topics| == 0 && |enrollments| == 0 ==> fused == []
  {
    if |topics| == 0 && |enrollments| == 0 {
      return [];
    }
    var keys, students := CollectEnrollments(enrollments);
    assert Codes(enrollments) + TopicCodes([]) == Codes(enrollments);
    keys, students := AddTopics(keys, students, enrollments, topics);
    Sorting.DistinctProperties(Codes(enrollments) + TopicCodes(topics));
    forall i | 0 <= i < |keys| ensures keys[i] in students {
      assert keys[i] in Codes(enrollments) + TopicCodes(topics);
    }
    fused := seq(|keys|, i requires 0 <= i < |keys| => students[keys[i]]);
  }

  /** The enrollment loop of `fuse_data`. */
  method CollectEnrollments(enrollments: seq<DL.Enrollment>) returns (keys: seq<string>, students: map<string, FusedStudent>)
    ensures EnrollState(keys, students, enrollments)
  {
    keys, students := [], map[];
    for i := 0 to |enrollments|
      invariant EnrollState(keys, students, enrollments[..i])
    {
      var e := enrollments[i];
      EnrollStep(keys, students, enrollments, i);
      var k := e.neptun;
      if k !in students {
        keys := keys + [k];
        students := students[k := FusedStudent(k, e.name, [], false, None, None, None, false)];
      }
      students := students[k := students[k].(courses := students[k].courses + [CourseOf(e)])];
    }
    assert enrollments[..|enrollments|] == enrollments;
  }

  /** The topic loop of `fuse_data`: update the student's topic fields, or add a student without courses. */
  method AddTopics(keys0: seq<string>, students0: map<string, FusedStudent>, enrollments: seq<DL.Enrollment>,
                   topics: seq<DL.TopicRecord>) returns (keys: seq<string>, students: map<string, FusedStudent>)
    requires TopicState(keys0, students0, enrollments, [])
    ensures TopicState(keys, students, enrollments, topics)
  {
    keys, students := keys0, students0;
    for j := 0 to |topics|
      invariant TopicState(keys, students, enrollments, topics[..j])
    {
      var t := topics[j];
      TopicStep(keys, students, enrollments, topics, j);
      var k := t.neptun;
      if k in students {
        students := students[k := WithTopic(students[k], t)];
      } else {
        keys, students := keys + [k], students[k := FusedStudent(k, t.name, [], t.hasTopic, t.supervisor, t.category,
                                                                 t.title, t.isEnglishTopic)];
      }
    }
    assert topics[..|topics|] == topics;
  }

  // ---------------------------------------------------------------------------
  // What the fused data set promises

  /**
   * One record per distinct Neptun code of either input, no code twice, and
   * every student of either input present.
   */
  lemma FusedOnePerStudent(es: seq<DL.Enrollment>, ts: seq<DL.TopicRecord>)
    ensures forall i, j | 0 <= i < j < |Fused(es, ts)| :: Fused(es, ts)[i].neptun != Fused(es, ts)[j].neptun
    ensures forall k :: (exists i | 0 <= i < |Fused(es, ts)| :: Fused(es, ts)[i].neptun == k)
                        <==> k in Codes(es) || k in TopicCodes(ts)
  {
    var ks := StudentCodes(es, ts);
    var r := Fused(es, ts);
    Sorting.DistinctProperties(Codes(es) + TopicCodes(ts));
    forall k | k in Codes(es) || k in TopicCodes(ts)
      ensures exists i | 0 <= i < |r| :: r[i].neptun == k
    {
      assert k in Codes(es) + TopicCodes(ts);
      var i :| 0 <= i < |ks| && ks[i] == k;
      assert r[i].neptun == k;
    }
    forall i | 0 <= i < |r| ensures r[i].neptun in Codes(es) + TopicCodes(ts) {
      assert r[i].neptun == ks[i];
    }
  }

  /**
   * Each student's courses are exactly their enrollments in input order; a
   * student with only topic records has none.
   */
  lemma FusedCourses(es: seq<DL.Enrollment>, ts: seq<DL.TopicRecord>)
    ensures forall s | s in Fused(es, ts) :: s.courses == CoursesOf(s.neptun, es)
    ensures forall s | s in Fused(es, ts) && s.neptun !in Codes(es) :: s.courses == []
  {
  }

  /** The topic fields are those of the student's last topic record, or empty without one. */
  lemma FusedTopic(es: seq<DL.Enrollment>, ts: seq<DL.TopicRecord>)
    ensures forall s | s in Fused(es, ts) ::
      match LastTopic(s.neptun, ts)
        case None => !s.hasTopic && s.supervisor.None? && s.category.None? && s.title.None? && !s.isEnglishTopic
        case Some(t) => s.hasTopic == t.hasTopic && s.supervisor == t.supervisor && s.category == t.category
                        && s.title == t.title && s.isEnglishTopic == t.isEnglishTopic
  {
  }

  /** The name comes from the first enrollment; topic records never overwrite it. */
  lemma FusedName(es: seq<DL.Enrollment>, ts: seq<DL.TopicRecord>)
    ensures forall s | s in Fused(es, ts) ::
      match FirstEnrollment(s.neptun, es)
        case Some(e) => s.name == e.name
        case None => FirstTopic(s.neptun, ts).Some? && s.name == FirstTopic(s.neptun, ts).value.name
  {
    var ks := StudentCodes(es, ts);
    Sorting.DistinctProperties(Codes(es) + TopicCodes(ts));
    forall s | s in Fused(es, ts) ensures FirstEnrollment(s.neptun, es).None? ==> FirstTopic(s.neptun, ts).Some? {
      var i :| 0 <= i < |ks| && Fused(es, ts)[i] == s;
      assert ks[i] in Codes(es) + TopicCodes(ts);
    }
  }

  /** The number of course entries over a list of students. */
  function CourseCount(fused: seq<FusedStudent>): nat
  {
    if |fused| == 0 then 0 else CourseCount(fused[..|fused| - 1]) + |fused[|fused| - 1].courses|
  }

  function CoursesOver(ks: seq<string>, es: seq<DL.Enrollment>): nat
  {
    if |ks| == 0 then 0 else CoursesOver(ks[..|ks| - 1], es) + |CoursesOf(ks[|ks| - 1], es)|
  }

  /** One more enrollment adds one course to each listed student with its code. */
  lemma {:induction false} CoursesOverSnoc(ks: seq<string>, es: seq<DL.Enrollment>, e: DL.Enrollment)
    ensures CoursesOver(ks, es + [e]) == CoursesOver(ks, es) + multiset(ks)[e.neptun]
  {
    var es' := es + [e];
    assert es'[..|es|] == es;
    if |ks| > 0 {
      var front, last := ks[..|ks| - 1], ks[|ks| - 1];
      CoursesOverSnoc(front, es, e);
      assert ks == front + [last];
      assert CoursesOf(last, es') == CoursesOf(last, es) + if e.neptun == last then [CourseOf(e)] else [];
      assert multiset(ks)[e.neptun] == multiset(front)[e.neptun] + if last == e.neptun then 1 else 0;
    }
  }

  /** Over distinct codes covering all enrollments, the course counts add up to the enrollments. */
  lemma {:induction false} CoursesOverAll(ks: seq<string>, es: seq<DL.Enrollment>)
    requires forall i, j | 0 <= i < j < |ks| :: ks[i] != ks[j]
    requires forall e | e in es :: e.neptun in ks
    ensures CoursesOver(ks, es) == |es|
  {
    if |es| == 0 {
      CoursesOverEmpty(ks, es);
    } else {
      var front, last := es[..|es| - 1], es[|es| - 1];
      assert es == front + [last];
      CoursesOverAll(ks, front);
      CoursesOverSnoc(ks, front, last);
      Sorting.DistinctOnce(ks);
      assert last.neptun in multiset(ks);
    }
  }

  lemma {:induction false} CoursesOverEmpty(ks: seq<string>, es: seq<DL.Enrollment>)
    requires |es| == 0
    ensures CoursesOver(ks, es) == 0
  {
    if |ks| > 0 { CoursesOverEmpty(ks[..|ks| - 1], es); }
  }

  lemma {:induction false} CourseCountIsCoursesOver(ks: seq<string>, es: seq<DL.Enrollment>, ts: seq<DL.TopicRecord>)
    ensures CourseCount(seq(|ks|, i requires 0 <= i < |ks| => Expected(ks[i], es, ts))) == CoursesOver(ks, es)
  {
    if |ks| > 0 {
      var front := ks[..|ks| - 1];
      CourseCountIsCoursesOver(front, es, ts);
      var all := seq(|ks|, i requires 0 <= i < |ks| => Expected(ks[i], es, ts));
      assert all[..|ks| - 1] == seq(|front|, i requires 0 <= i < |front| => Expected(front[i], es, ts));
    }
  }

  /** No enrollment is lost: the fused records hold exactly as many course entries as there are enrollments. */
  lemma FusedKeepsEveryEnrollment(es: seq<DL.Enrollment>, ts: seq<DL.TopicRecord>)
    ensures CourseCount(Fused(es, ts)) == |es|
  {
    var ks := StudentCodes(es, ts);
    Sorting.DistinctProperties(Codes(es) + TopicCodes(ts));
    forall e | e in es ensures e.neptun in ks {
      var i :| 0 <= i < |es| && es[i] == e;
      assert Codes(es)[i] == e.neptun;
      assert e.neptun in Codes(es) + TopicCodes(ts);
    }
    CourseCountIsCoursesOver(ks, es, ts);
    CoursesOverAll(ks, es);
  }

  // ---------------------------------------------------------------------------
  // Course coverage

  function TopicCourseCodes(topics: seq<DL.TopicRecord>): set<string>
  {
    set t | t in topics && Truthy(t.courseCode) :: t.courseCode.value
  }

  function EnrollmentCourseCodes(enrollments: seq<DL.Enrollment>): set<string>
  {
    set e | e in enrollments && e.courseCode != "" :: e.courseCode
  }

  /** `validate_course_coverage`: the allowed courses missing from the topic records and from the enrollments. */
  function MissingCourses(allowed: set<string>, topics: seq<DL.TopicRecord>, enrollments: seq<DL.Enrollment>)
    : (r: (set<string>, set<string>))
    ensures forall c :: c in r.0 <==> c in allowed && forall t | t in topics :: t.courseCode != Some(c) || c == ""
    ensures forall c :: c in r.1 <==> c in allowed && forall e | e in enrollments :: e.courseCode != c || c == ""
  {
    var r := (allowed - TopicCourseCodes(topics), allowed - EnrollmentCourseCodes(enrollments));
    assert forall c | c in allowed && c !in r.0 :: exists t | t in topics :: Truthy(t.courseCode) && t.courseCode.value == c;
    r
  }

  // ---------------------------------------------------------------------------
  // Statistics over a fused data set

  datatype FusionAnalysis = FusionAnalysis(
    total: nat, withTopics: nat, withEnrollments: nat, withBoth: nat,
    allCourses: set<string>, englishCourses: set<string>, hungarianCourses: set<string>,
    inEnglishCourses: nat)

  predicate HasTopic(s: FusedStudent) { s.hasTopic }

  predicate HasEnrollments(s: FusedStudent) { s.courses != [] }

  predicate HasBoth(s: FusedStudent) { s.hasTopic && s.courses != [] }

  predicate InEnglishCourse(s: FusedStudent) { exists c | c in s.courses :: c.isEnglish }

  predicate AnyCourse(c: CourseInfo) { true }

  predicate EnglishCourse(c: CourseInfo) { c.isEnglish }

  predicate HungarianCourse(c: CourseInfo) { !c.isEnglish }

  /** The non-empty codes of the courses satisfying `p`. */
  function CodesOf(cs: seq<CourseInfo>, p: CourseInfo -> bool): set<string>
  {
    if |cs| == 0 then {}
    else
      var c := cs[|cs| - 1];
      CodesOf(cs[..|cs| - 1], p) + if c.code != "" && p(c) then {c.code} else {}
  }

  /** The non-empty codes of all students' courses satisfying `p`. */
  function StudentCodesOf(fused: seq<FusedStudent>, p: CourseInfo -> bool): set<string>
  {
    if |fused| == 0 then {} else StudentCodesOf(fused[..|fused| - 1], p) + CodesOf(fused[|fused| - 1].courses, p)
  }

  /** `analyze_fusion_results`, the course sets built by a nested loop. */
  method AnalyzeFusionResults(fused: seq<FusedStudent>) returns (a: FusionAnalysis)
    ensures a.total == |fused|
    ensures a.withTopics == |Filter(fused, HasTopic)| && a.withEnrollments == |Filter(fused, HasEnrollments)|
    ensures a.withBoth == |Filter(fused, HasBoth)| && a.inEnglishCourses == |Filter(fused, InEnglishCourse)|
    ensures a.allCourses == StudentCodesOf(fused, AnyCourse)
    ensures a.englishCourses == StudentCodesOf(fused, EnglishCourse)
    ensures a.hungarianCourses == StudentCodesOf(fused, HungarianCourse)
  {
    var all, english, hungarian := {}, {}, {};
    for i := 0 to |fused|
      invariant all == StudentCodesOf(fused[..i], AnyCourse)
      invariant english == StudentCodesOf(fused[..i], EnglishCourse)
      invariant hungarian == StudentCodesOf(fused[..i], HungarianCourse)
    {
      assert fused[..i + 1][..i] == fused[..i];
      all, english, hungarian := AddCourseCodes(fused[i].courses, all, english, hungarian);
    }
    assert fused[..|fused|] == fused;
    a := FusionAnalysis(|fused|, |Filter(fused, HasTopic)|, |Filter(fused, HasEnrollments)|, |Filter(fused, HasBoth)|,
                        all, english, hungarian, |Filter(fused, InEnglishCourse)|);
  }

  /** The inner loop of `analyze_fusion_results` over one student's courses. */
  method AddCourseCodes(cs: seq<CourseInfo>, all0: set<string>, english0: set<string>, hungarian0: set<string>)
    returns (all: set<string>, english: set<string>, hungarian: set<string>)
    ensures all == all0 + CodesOf(cs, AnyCourse)
    ensures english == english0 + CodesOf(cs, EnglishCourse)
    ensures hungarian == hungarian0 + CodesOf(cs, HungarianCourse)
  {
    all, english, hungarian := all0, english0, hungarian0;
    for j := 0 to |cs|
      invariant all == all0 + CodesOf(cs[..j], AnyCourse)
      invariant english == english0 + CodesOf(cs[..j], EnglishCourse)
      invariant hungarian == hungarian0 + CodesOf(cs[..j], HungarianCourse)
    {
      assert cs[..j + 1][..j] == cs[..j];
      var c := cs[j];
      if c.code != "" {
        all := all + {c.code};
        if c.isEnglish {
          english := english + {c.code};
        } else {
          hungarian := hungarian + {c.code};
        }
      }
    }
    assert cs[..|cs|] == cs;
  }

  /** Every course code is English or Hungarian (a code can be both, in different enrollments). */
  lemma {:induction false} CodesOfSplit(cs: seq<CourseInfo>)
    ensures CodesOf(cs, AnyCourse) == CodesOf(cs, EnglishCourse) + CodesOf(cs, HungarianCourse)
  {
    if |cs| > 0 { CodesOfSplit(cs[..|cs| - 1]); }
  }

  lemma {:induction false} StudentCodesOfSplit(fused: seq<FusedStudent>)
    ensures StudentCodesOf(fused, AnyCourse) == StudentCodesOf(fused, EnglishCourse) + StudentCodesOf(fused, HungarianCourse)
  {
    if |fused| > 0 {
      StudentCodesOfSplit(fused[..|fused| - 1]);
      CodesOfSplit(fused[|fused| - 1].courses);
    }
  }

  lemma {:induction false} CodesOfMembers(cs: seq<CourseInfo>, p: CourseInfo -> bool)
    ensures forall code :: code in CodesOf(cs, p) <==> code != "" && exists j | 0 <= j < |cs| :: cs[j].code == code && p(cs[j])
  {
    if |cs| > 0 {
      var front := cs[..|cs| - 1];
      CodesOfMembers(front, p);
      forall code ensures code in CodesOf(cs, p) <==> code != "" && exists j | 0 <= j < |cs| :: cs[j].code == code && p(cs[j]) {
        if j :| 0 <= j < |cs| && cs[j].code == code && p(cs[j]) {
          if j < |front| { assert front[j] == cs[j]; }
        }
        if code in CodesOf(front, p) {
          var j :| 0 <= j < |front| && front[j].code == code && p(front[j]);
          assert cs[j] == front[j];
        }
      }
    }
  }

  /** A code is collected iff it is the non-empty code of some student's course satisfying `p`. */
  lemma {:induction false} StudentCodesOfMembers(fused: seq<FusedStudent>, p: CourseInfo -> bool)
    ensures forall code :: code in StudentCodesOf(fused, p) <==>
      exists i | 0 <= i < |fused| :: code in CodesOf(fused[i].courses, p)
  {
    if |fused| > 0 {
      var front, last := fused[..|fused| - 1], fused[|fused| - 1];
      StudentCodesOfMembers(front, p);
      assert StudentCodesOf(fused, p) == StudentCodesOf(front, p) + CodesOf(last.courses, p);
      forall code, i | 0 <= i < |fused| && code in CodesOf(fused[i].courses, p) ensures code in StudentCodesOf(fused, p) {
        if i < |front| { assert front[i] == fused[i]; }
      }
      forall code | code in StudentCodesOf(front, p) ensures exists i | 0 <= i < |fused| :: code in CodesOf(fused[i].courses, p) {
        var i :| 0 <= i < |front| && code in CodesOf(front[i].courses, p);
        assert fused[i] == front[i];
      }
    }
  }

  /**
   * The statistics are consistent: the students with both a topic and
   * enrollments are no more than either group, which are no more than all
   * students; the distinct courses are the English and Hungarian ones together,
   * and a code is English iff some student has an English enrollment with it.
   */
  lemma AnalysisConsistent(fused: seq<FusedStudent>)
    ensures |Filter(fused, HasBoth)| <= |Filter(fused, HasTopic)| <= |fused|
    ensures |Filter(fused, HasBoth)| <= |Filter(fused, HasEnrollments)| <= |fused|
    ensures StudentCodesOf(fused, AnyCourse) == StudentCodesOf(fused, EnglishCourse) + StudentCodesOf(fused, HungarianCourse)
    ensures forall code :: code in StudentCodesOf(fused, EnglishCourse) <==>
      exists i | 0 <= i < |fused| :: code != "" && exists j | 0 <= j < |fused[i].courses| ::
        fused[i].courses[j].code == code && fused[i].courses[j].isEnglish
  {
    FilterMono(fused, HasBoth, HasTopic);
    FilterMono(fused, HasBoth, HasEnrollments);
    StudentCodesOfSplit(fused);
    StudentCodesOfMembers(fused, EnglishCourse);
    forall i | 0 <= i < |fused| {
      CodesOfMembers(fused[i].courses, EnglishCourse);
    }
  }
}
