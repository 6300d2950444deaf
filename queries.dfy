/** The read queries of the routes: how query-string parameters choose a
    WHERE clause, the join of marks with students, and the page of newest
    students. */
module Queries {
  import opened Schema
  import opened Rows

  /** `LIMIT 10` of the student list. */
  const StudentPageSize: nat := 10

  /** JavaScript truthiness of a query-string value: absent and "" are falsy. */
  predicate Truthy(v: Option<string>) { v.Some? && v.value != "" }

  /** `column = ?` with `v` bound: an absent value is bound as NULL and equals nothing. */
  predicate BoundEquals(v: Option<string>, column: string) { v == Some(column) }

  /** The WHERE clause of a student query. */
  datatype StudentFilter =
    | ByClass(year: string, department: string, section: string)
    | ByYearDepartment(year: string, department: string)
    | AllStudents

  predicate StudentMatches(s: Student, f: StudentFilter)
  {
    match f
    case ByClass(y, d, sec) => s.year == y && s.department == d && s.section == sec
    case ByYearDepartment(y, d) => s.year == y && s.department == d
    case AllStudents => true
  }

  /** The WHERE clause of the subject list. */
  datatype SubjectFilter = SubjectsOf(year: string, department: string) | AllSubjects

  predicate SubjectMatches(s: Subject, f: SubjectFilter)
  {
    match f
    case SubjectsOf(y, d) => s.year == y && s.department == d
    case AllSubjects => true
  }

  /** The parameter check of the class roster: all three values must be truthy. */
  function RosterFilter(year: Option<string>, department: Option<string>, section: Option<string>)
    : (r: Result<StudentFilter, DbError>)
    ensures r.Ok? <==> Truthy(year) && Truthy(department) && Truthy(section)
    ensures r.Err? ==> r.error == MissingFilter
    ensures r.Ok? ==> forall s: Student :: StudentMatches(s, r.value) <==>
              Some(s.year) == year && Some(s.department) == department && Some(s.section) == section
  {
    if !Truthy(year) || !Truthy(department) || !Truthy(section) then Err(MissingFilter)
    else Ok(ByClass(year.value, department.value, section.value))
  }

  /** `ORDER BY created_at DESC LIMIT cap` over a table whose rows were inserted
      in time order: the last `cap` rows, newest first. */
  function NewestFirst(rows: seq<Student>, cap: nat): (r: seq<Student>)
    ensures |r| == Min(cap, |rows|)
  {
    var newest := Reverse(rows);
    newest[..Min(cap, |newest|)]
  }

  /** Position `k` of the page is the `k`-th newest row of the table. */
  lemma NewestFirstAt(rows: seq<Student>, cap: nat, k: int)
    requires 0 <= k < Min(cap, |rows|)
    ensures NewestFirst(rows, cap)[k] == rows[|rows| - 1 - k]
  {
  }

  /** The page holds min(cap, |rows|) rows of the table, strictly newest first,
      and every row left off the page is older than every row on it. */
  lemma NewestFirstPage(rows: seq<Student>, cap: nat)
    requires IncreasingBy(rows, StudentCreated)
    ensures |NewestFirst(rows, cap)| == Min(cap, |rows|)
    ensures forall x :: x in NewestFirst(rows, cap) ==> x in rows
    ensures forall i, j :: 0 <= i < j < |NewestFirst(rows, cap)| ==>
              NewestFirst(rows, cap)[i].createdAt > NewestFirst(rows, cap)[j].createdAt
    ensures forall x, y :: x in rows && x !in NewestFirst(rows, cap) && y in NewestFirst(rows, cap) ==>
              x.createdAt < y.createdAt
  {
    PageFromTable(rows, cap);
    PageDescending(rows, cap);
    PageIsTail(rows, cap);
    PageHoldsNewest(rows, cap);
  }

  lemma PageFromTable(rows: seq<Student>, cap: nat)
    ensures forall x :: x in NewestFirst(rows, cap) ==> x in rows
  {
    var page := NewestFirst(rows, cap);
    forall x | x in page ensures x in rows {
      var k :| 0 <= k < |page| && page[k] == x;
      NewestFirstAt(rows, cap, k);
    }
  }

  lemma PageDescending(rows: seq<Student>, cap: nat)
    requires IncreasingBy(rows, StudentCreated)
    ensures forall i, j :: 0 <= i < j < |NewestFirst(rows, cap)| ==>
              NewestFirst(rows, cap)[i].createdAt > NewestFirst(rows, cap)[j].createdAt
  {
    var n := |rows|;
    var page := NewestFirst(rows, cap);
    forall i, j | 0 <= i < j < |page| ensures page[i].createdAt > page[j].createdAt {
      NewestFirstAt(rows, cap, i);
      NewestFirstAt(rows, cap, j);
      assert StudentCreated(rows[n - 1 - j]) < StudentCreated(rows[n - 1 - i]);
    }
  }

  /** The page is the last min(cap, |rows|) rows of the table. */
  lemma PageIsTail(rows: seq<Student>, cap: nat)
    ensures forall a :: |rows| - |NewestFirst(rows, cap)| <= a < |rows| ==> rows[a] in NewestFirst(rows, cap)
  {
    var n := |rows|;
    var page := NewestFirst(rows, cap);
    forall a | n - |page| <= a < n ensures rows[a] in page {
      NewestFirstAt(rows, cap, n - 1 - a);
    }
  }

  lemma PageHoldsNewest(rows: seq<Student>, cap: nat)
    requires IncreasingBy(rows, StudentCreated)
    requires forall a :: |rows| - |NewestFirst(rows, cap)| <= a < |rows| ==> rows[a] in NewestFirst(rows, cap)
    ensures forall x, y :: x in rows && x !in NewestFirst(rows, cap) && y in NewestFirst(rows, cap) ==>
              x.createdAt < y.createdAt
  {
    var n := |rows|;
    var page := NewestFirst(rows, cap);
    forall x, y | x in rows && x !in page && y in page ensures x.createdAt < y.createdAt {
      var a :| 0 <= a < n && rows[a] == x;
      var b :| 0 <= b < |page| && page[b] == y;
      NewestFirstAt(rows, cap, b);
      assert a < n - |page|;
      assert StudentCreated(rows[a]) < StudentCreated(rows[n - 1 - b]);
    }
  }

  /** A mark together with the student row its `student_id` names. */
  datatype Joined = Joined(mark: Mark, student: Student)

  /** `marks m JOIN students s ON m.student_id = s.id`, for one mark. */
  function JoinMark(m: Mark, students: seq<Student>): (r: seq<Joined>)
    ensures forall j :: j in r <==> j.mark == m && j.student in students && j.student.id == m.studentId
  {
    if students == [] then []
    else
      var last := students[|students| - 1];
      assert students == students[..|students| - 1] + [last];
      JoinMark(m, students[..|students| - 1]) + (if last.id == m.studentId then [Joined(m, last)] else [])
  }

  /** `marks m JOIN students s ON m.student_id = s.id`: a mark whose student is
      missing contributes no row. */
  function Join(marks: seq<Mark>, students: seq<Student>): (r: seq<Joined>)
    ensures forall j :: j in r <==> j.mark in marks && j.student in students && j.student.id == j.mark.studentId
  {
    if marks == [] then []
    else
      var last := marks[|marks| - 1];
      assert marks == marks[..|marks| - 1] + [last];
      Join(marks[..|marks| - 1], students) + JoinMark(last, students)
  }

  /** The five bound parameters of GET /api/marks. */
  datatype MarksQuery = MarksQuery(
    assessmentType: Option<string>, year: Option<string>, department: Option<string>,
    section: Option<string>, subjectCode: Option<string>)

  predicate FetchMatches(j: Joined, q: MarksQuery)
  {
    BoundEquals(q.assessmentType, j.mark.assessmentType) && BoundEquals(q.year, j.mark.academicYear) &&
    BoundEquals(q.department, j.student.department) && BoundEquals(q.section, j.student.section) &&
    BoundEquals(q.subjectCode, j.mark.subjectCode)
  }

  /** GET /api/marks: the joined rows that match all five parameters; an absent
      parameter makes the result empty. */
  function FetchMarks(marks: seq<Mark>, students: seq<Student>, q: MarksQuery): (r: seq<Joined>)
    ensures forall j :: j in r <==>
      && j.mark in marks && j.student in students && j.student.id == j.mark.studentId
      && q.assessmentType == Some(j.mark.assessmentType) && q.year == Some(j.mark.academicYear)
      && q.department == Some(j.student.department) && q.section == Some(j.student.section)
      && q.subjectCode == Some(j.mark.subjectCode)
    ensures (|| q.assessmentType.None? || q.year.None? || q.department.None?
             || q.section.None? || q.subjectCode.None?) ==> r == []
  {
    var r := Select(Join(marks, students), FetchMatches, q);
    assert r != [] ==> r[0] in r;
    r
  }

  /** The section condition of the performance report. */
  datatype SectionScope = EverySection | OneSection(section: Option<string>)

  /** `section !== 'all'` adds `AND s.section = ?`; an absent section is not "all". */
  function ScopeOf(section: Option<string>): (r: SectionScope)
    ensures r.EverySection? <==> section == Some("all")
    ensures r.OneSection? ==> r.section == section
  {
    if section == Some("all") then EverySection else OneSection(section)
  }

  datatype ReportQuery = ReportQuery(
    assessmentType: Option<string>, year: Option<string>, department: Option<string>,
    scope: SectionScope, subjectCode: Option<string>)

  predicate ReportMatches(j: Joined, q: ReportQuery)
  {
    && BoundEquals(q.assessmentType, j.mark.assessmentType) && BoundEquals(q.year, j.mark.academicYear)
    && BoundEquals(q.department, j.student.department)
    && (match q.scope
        case EverySection => true
        case OneSection(s) => BoundEquals(s, j.student.section))
    && BoundEquals(q.subjectCode, j.mark.subjectCode)
  }

  /** The WHERE clause of the performance report, for mark `m` joined with student `s`. */
  predicate ReportSelects(m: Mark, s: Student, assessmentType: Option<string>, year: Option<string>,
                          department: Option<string>, section: Option<string>, subjectCode: Option<string>)
  {
    && s.id == m.studentId
    && assessmentType == Some(m.assessmentType) && year == Some(m.academicYear)
    && department == Some(s.department) && subjectCode == Some(m.subjectCode)
    && (section == Some("all") || section == Some(s.section))
  }

  /** The joined rows the performance report groups: "all" drops the section
      condition, any other section value (or none) must equal the student's. */
  function ReportRows(marks: seq<Mark>, students: seq<Student>, assessmentType: Option<string>,
                      year: Option<string>, department: Option<string>, section: Option<string>,
                      subjectCode: Option<string>): (r: seq<Joined>)
    ensures forall j :: j in r <==>
      j.mark in marks && j.student in students &&
      ReportSelects(j.mark, j.student, assessmentType, year, department, section, subjectCode)
  {
    Select(Join(marks, students), ReportMatches,
           ReportQuery(assessmentType, year, department, ScopeOf(section), subjectCode))
  }

  /** The marks the report counts: those with a student row meeting the WHERE clause. */
  ghost function ReportedMarks(marks: seq<Mark>, students: seq<Student>, assessmentType: Option<string>,
                               year: Option<string>, department: Option<string>, section: Option<string>,
                               subjectCode: Option<string>): set<Mark>
  {
    set m | m in marks &&
      (exists s :: s in students && ReportSelects(m, s, assessmentType, year, department, section, subjectCode))
  }

  function JoinedMark(j: Joined): Mark { j.mark }

  function JoinedMarkId(j: Joined): int { j.mark.id }

  /** Under unique student ids a mark joins one student if its `student_id`
      is in the table and none otherwise. */
  lemma {:induction false} JoinMarkAtMostOne(m: Mark, students: seq<Student>)
    requires DistinctBy(students, StudentId)
    ensures |JoinMark(m, students)| == if m.studentId in KeysOf(students, StudentId) then 1 else 0
  {
    if students == [] {
      assert KeysOf(students, StudentId) == {};
    } else {
      var n := |students|;
      var prefix := students[..n - 1];
      assert DistinctBy(prefix, StudentId) by {
        forall a, b | 0 <= a < b < |prefix| ensures StudentId(prefix[a]) != StudentId(prefix[b]) {
          assert prefix[a] == students[a] && prefix[b] == students[b];
        }
      }
      JoinMarkAtMostOne(m, prefix);
      KeysOfSnoc(students, StudentId);
      if students[n - 1].id == m.studentId {
        forall p | 0 <= p < n - 1 ensures StudentId(prefix[p]) != m.studentId {
          assert prefix[p] == students[p];
          assert StudentId(students[p]) != StudentId(students[n - 1]);
        }
        assert m.studentId !in KeysOf(prefix, StudentId);
      }
    }
  }

  /** The join rows carry only ids of the joined marks. */
  lemma JoinBelow(marks: seq<Mark>, students: seq<Student>, bound: int)
    requires AllBelow(marks, MarkId, bound)
    ensures AllBelow(Join(marks, students), JoinedMarkId, bound)
  {
    var r := Join(marks, students);
    forall i | 0 <= i < |r| ensures JoinedMarkId(r[i]) < bound {
      assert r[i] in r;
      var p :| 0 <= p < |marks| && marks[p] == r[i].mark;
    }
  }

  /** Over a table in id order with unique student ids, the join lists each
      mark at most once, in id order. */
  lemma {:induction false} JoinIncreasing(marks: seq<Mark>, students: seq<Student>)
    requires IncreasingBy(marks, MarkId) && DistinctBy(students, StudentId)
    ensures IncreasingBy(Join(marks, students), JoinedMarkId)
  {
    if marks != [] {
      var n := |marks|;
      var prefix := marks[..n - 1];
      var last := marks[n - 1];
      IncreasingPrefix(marks, MarkId);
      JoinIncreasing(prefix, students);
      JoinBelow(prefix, students, last.id);
      var added := JoinMark(last, students);
      JoinMarkAtMostOne(last, students);
      forall i | 0 <= i < |added| ensures JoinedMarkId(added[i]) == last.id {
        assert added[i] in added;
      }
      AppendAtMostOne(Join(prefix, students), added, JoinedMarkId, last.id);
    }
  }

  /** Rows with distinct mark ids hold distinct marks. */
  lemma DistinctMarks(r: seq<Joined>)
    requires IncreasingBy(r, JoinedMarkId)
    ensures DistinctBy(r, JoinedMark)
  {
    forall a, b | 0 <= a < b < |r| ensures JoinedMark(r[a]) != JoinedMark(r[b]) {
      assert JoinedMarkId(r[a]) < JoinedMarkId(r[b]);
    }
  }

  /** GET /api/marks lists each matching mark once. */
  lemma FetchMarksOnce(marks: seq<Mark>, students: seq<Student>, q: MarksQuery)
    requires IncreasingBy(marks, MarkId) && DistinctBy(students, StudentId)
    ensures DistinctBy(FetchMarks(marks, students, q), JoinedMark)
  {
    JoinIncreasing(marks, students);
    SelectIncreasing(Join(marks, students), FetchMatches, q, JoinedMarkId);
    DistinctMarks(FetchMarks(marks, students, q));
  }

  /** The report lists each counted mark exactly once: as many rows as marks it counts. */
  lemma ReportRowsOnce(marks: seq<Mark>, students: seq<Student>, assessmentType: Option<string>,
                       year: Option<string>, department: Option<string>, section: Option<string>,
                       subjectCode: Option<string>)
    requires IncreasingBy(marks, MarkId) && DistinctBy(students, StudentId)
    ensures DistinctBy(ReportRows(marks, students, assessmentType, year, department, section, subjectCode), JoinedMark)
    ensures |ReportRows(marks, students, assessmentType, year, department, section, subjectCode)| ==
            |ReportedMarks(marks, students, assessmentType, year, department, section, subjectCode)|
  {
    var r := ReportRows(marks, students, assessmentType, year, department, section, subjectCode);
    var counted := ReportedMarks(marks, students, assessmentType, year, department, section, subjectCode);
    JoinIncreasing(marks, students);
    SelectIncreasing(Join(marks, students), ReportMatches,
                     ReportQuery(assessmentType, year, department, ScopeOf(section), subjectCode), JoinedMarkId);
    DistinctMarks(r);
    DistinctKeysCount(r, JoinedMark);
    forall m | m in counted ensures m in KeysOf(r, JoinedMark) {
      var s :| s in students && ReportSelects(m, s, assessmentType, year, department, section, subjectCode);
      assert Joined(m, s) in r;
      var i :| 0 <= i < |r| && r[i] == Joined(m, s);
      assert JoinedMark(r[i]) == m;
    }
    forall m | m in KeysOf(r, JoinedMark) ensures m in counted {
      var i :| 0 <= i < |r| && JoinedMark(r[i]) == m;
      assert r[i] in r;
    }
    assert KeysOf(r, JoinedMark) == counted;
  }
}
