/** The SQLite database of the marks portal as one object: the three tables
    and the counters behind AUTOINCREMENT and CURRENT_TIMESTAMP, with one
    method per route of server.js. Each route is one atomic step. */
module Store {
  import opened Schema
  import opened Rows
  import opened Queries
  import opened Upsert
  import opened Report

  /** The response of GET /api/dashboard/stats. */
  datatype DashboardStats = DashboardStats(totalStudents: nat, totalSubjects: nat, totalMarksEntries: nat)

  class Database {
    var students: seq<Student>
    var subjects: seq<Subject>
    var marks: seq<Mark>
    var nextStudentId: int   // the AUTOINCREMENT counters: ids are never reused
    var nextSubjectId: int
    var nextMarkId: int
    var clock: nat           // CURRENT_TIMESTAMP as a counter that grows with every insert

    /** The constraints of the CREATE TABLE statements, plus rowid and time order. */
    ghost predicate Valid()
      reads this
    {
      && IncreasingBy(students, StudentId) && AllBelow(students, StudentId, nextStudentId)
      && IncreasingBy(students, StudentCreated) && AllBelow(students, StudentCreated, clock)
      && DistinctBy(students, RegNumber)
      && IncreasingBy(subjects, SubjectId) && AllBelow(subjects, SubjectId, nextSubjectId)
      && AllBelow(subjects, SubjectCreated, clock)
      && DistinctBy(subjects, SubjectKeyOf)
      && IncreasingBy(marks, MarkId) && AllBelow(marks, MarkId, nextMarkId)
      && AllBelow(marks, MarkCreated, clock)
      && DistinctBy(marks, MarkKeyOf)
    }

    /** A fresh database file after the three CREATE TABLE IF NOT EXISTS statements. */
    constructor ()
      ensures Valid()
      ensures students == [] && subjects == [] && marks == []
      ensures nextStudentId == 1 && nextSubjectId == 1 && nextMarkId == 1 && clock == 0
    {
      students, subjects, marks := [], [], [];
      nextStudentId, nextSubjectId, nextMarkId := 1, 1, 1;
      clock := 0;
    }

    /** POST /api/students: a missing field violates NOT NULL, a used
        registration number violates UNIQUE; otherwise one row is added and its
        new id returned. */
    method InsertStudent(input: StudentInput) returns (r: Result<int, DbError>)
      requires Valid()
      modifies this
      ensures Valid()
      ensures !input.Complete() ==> r == Err(NotNullViolation)
      ensures input.Complete() && input.regNumber.value in KeysOf(old(students), RegNumber) ==>
                r == Err(UniqueViolation)
      ensures r.Ok? <==> input.Complete() && input.regNumber.value !in KeysOf(old(students), RegNumber)
      ensures r.Err? ==> unchanged(this)
      ensures r.Ok? ==>
                && r.value == old(nextStudentId)
                && students == old(students) + [input.Row(r.value, old(clock))]
                && nextStudentId == old(nextStudentId) + 1 && clock == old(clock) + 1
                && subjects == old(subjects) && marks == old(marks)
                && nextSubjectId == old(nextSubjectId) && nextMarkId == old(nextMarkId)
    {
      if !input.Complete() {
        return Err(NotNullViolation);
      }
      if input.regNumber.value in KeysOf(students, RegNumber) {
        return Err(UniqueViolation);
      }
      var row := input.Row(nextStudentId, clock);
      AppendIncreasing(students, row, StudentId);
      AppendIncreasing(students, row, StudentCreated);
      AppendBelow(students, row, StudentId, nextStudentId, nextStudentId + 1);
      AppendBelow(students, row, StudentCreated, clock, clock + 1);
      AppendDistinct(students, row, RegNumber);
      r := Ok(nextStudentId);
      students := students + [row];
      nextStudentId := nextStudentId + 1;
      clock := clock + 1;
    }
    /** DELETE /api/students/:id: removes the row with that id, if any, and
        always reports success; marks of the student stay (no cascade). */
    method DeleteStudent(id: int)
      requires Valid()
      modifies this
      ensures Valid()
      ensures students == Drop(old(students), StudentId, id)
      ensures id !in KeysOf(old(students), StudentId) ==> students == old(students)
      ensures |students| == |old(students)| - (if id in KeysOf(old(students), StudentId) then 1 else 0)
      ensures subjects == old(subjects) && marks == old(marks)
      ensures nextStudentId == old(nextStudentId) && nextSubjectId == old(nextSubjectId)
      ensures nextMarkId == old(nextMarkId) && clock == old(clock)
    {
      var kept := Drop(students, StudentId, id);
      DropIncreasing(students, StudentId, id, StudentId);
      DropIncreasing(students, StudentId, id, StudentCreated);
      DropBelow(students, StudentId, id, StudentId, nextStudentId);
      DropBelow(students, StudentId, id, StudentCreated, clock);
      DropDistinct(students, StudentId, id, RegNumber);
      if id in KeysOf(students, StudentId) {
        IncreasingDistinct(students, StudentId);
        DropPresent(students, StudentId, id);
      } else {
        DropAbsent(students, StudentId, id);
      }
      students := kept;
    }

    /** POST /api/subjects: a missing field violates NOT NULL, a used
        (year, department, subject_code) violates UNIQUE; otherwise one row is
        added and its new id returned. */
    method InsertSubject(input: SubjectInput) returns (r: Result<int, DbError>)
      requires Valid()
      modifies this
      ensures Valid()
      ensures !input.Complete() ==> r == Err(NotNullViolation)
      ensures input.Complete() && input.Key() in KeysOf(old(subjects), SubjectKeyOf) ==> r == Err(UniqueViolation)
      ensures r.Ok? <==> input.Complete() && input.Key() !in KeysOf(old(subjects), SubjectKeyOf)
      ensures r.Err? ==> unchanged(this)
      ensures r.Ok? ==>
                && r.value == old(nextSubjectId)
                && subjects == old(subjects) + [input.Row(r.value, old(clock))]
                && nextSubjectId == old(nextSubjectId) + 1 && clock == old(clock) + 1
                && students == old(students) && marks == old(marks)
                && nextStudentId == old(nextStudentId) && nextMarkId == old(nextMarkId)
    {
      if !input.Complete() {
        return Err(NotNullViolation);
      }
      if input.Key() in KeysOf(subjects, SubjectKeyOf) {
        return Err(UniqueViolation);
      }
      var row := input.Row(nextSubjectId, clock);
      assert SubjectKeyOf(row) == input.Key();
      AppendIncreasing(subjects, row, SubjectId);
      AppendBelow(subjects, row, SubjectId, nextSubjectId, nextSubjectId + 1);
      AppendBelow(subjects, row, SubjectCreated, clock, clock + 1);
      AppendDistinct(subjects, row, SubjectKeyOf);
      r := Ok(nextSubjectId);
      subjects := subjects + [row];
      nextSubjectId := nextSubjectId + 1;
      clock := clock + 1;
    }

    /** DELETE /api/subjects/:id: removes the row with that id, if any, and
        always reports success; marks with that subject code stay. */
    method DeleteSubject(id: int)
      requires Valid()
      modifies this
      ensures Valid()
      ensures subjects == Drop(old(subjects), SubjectId, id)
      ensures id !in KeysOf(old(subjects), SubjectId) ==> subjects == old(subjects)
      ensures |subjects| == |old(subjects)| - (if id in KeysOf(old(subjects), SubjectId) then 1 else 0)
      ensures students == old(students) && marks == old(marks)
      ensures nextStudentId == old(nextStudentId) && nextSubjectId == old(nextSubjectId)
      ensures nextMarkId == old(nextMarkId) && clock == old(clock)
    {
      var kept := Drop(subjects, SubjectId, id);
      DropIncreasing(subjects, SubjectId, id, SubjectId);
      DropBelow(subjects, SubjectId, id, SubjectId, nextSubjectId);
      DropBelow(subjects, SubjectId, id, SubjectCreated, clock);
      DropDistinct(subjects, SubjectId, id, SubjectKeyOf);
      if id in KeysOf(subjects, SubjectId) {
        IncreasingDistinct(subjects, SubjectId);
        DropPresent(subjects, SubjectId, id);
      } else {
        DropAbsent(subjects, SubjectId, id);
      }
      subjects := kept;
    }

    /** One `stmt.run` of the prepared INSERT OR REPLACE: a complete record
        deletes the row holding its key and inserts a new row with a fresh id;
        a record with a missing field is not applied. */
    method UpsertMark(rec: MarkInput) returns (applied: bool)
      requires Valid()
      modifies this
      ensures Valid()
      ensures applied == rec.Complete()
      ensures !applied ==> unchanged(this)
      ensures applied ==>
                && marks == Drop(old(marks), MarkKeyOf, rec.Key()) + [rec.Row(old(nextMarkId), old(clock))]
                && nextMarkId == old(nextMarkId) + 1 && clock == old(clock) + 1
                && nextStudentId == old(nextStudentId) && nextSubjectId == old(nextSubjectId)
      ensures students == old(students) && subjects == old(subjects)
    {
      if !rec.Complete() {
        return false;
      }
      var row := rec.Row(nextMarkId, clock);
      var k := rec.Key();
      assert MarkKeyOf(row) == k && MarkDataOf(row) == rec.Data();
      var kept := Drop(marks, MarkKeyOf, k);
      DropIncreasing(marks, MarkKeyOf, k, MarkId);
      DropBelow(marks, MarkKeyOf, k, MarkId, nextMarkId);
      DropBelow(marks, MarkKeyOf, k, MarkCreated, clock);
      DropDistinct(marks, MarkKeyOf, k, MarkKeyOf);
      DropRemovesKey(marks, MarkKeyOf, k);
      AppendIncreasing(kept, row, MarkId);
      AppendBelow(kept, row, MarkId, nextMarkId, nextMarkId + 1);
      AppendBelow(kept, row, MarkCreated, clock, clock + 1);
      AppendDistinct(kept, row, MarkKeyOf);
      marks := kept + [row];
      nextMarkId := nextMarkId + 1;
      clock := clock + 1;
      applied := true;
    }

    /** POST /api/marks/bulk: the records are run one after another through the
        replacing insert. The keyed view ends as `ApplyRecords` describes, so
        the last complete record of every key wins, and rows whose key no
        complete record carries stay as they were. A body without a `marks`
        list is an error and changes nothing. */
    method BulkUpsert(records: Option<seq<MarkInput>>) returns (r: Result<(), DbError>)
      requires Valid()
      modifies this
      ensures Valid()
      ensures records.None? ==> r == Err(MissingMarksList) && unchanged(this)
      ensures records.Some? ==> r == Ok(())
      ensures records.Some? ==> MarkView(marks) == ApplyRecords(MarkView(old(marks)), records.value)
      ensures records.Some? ==>
                forall m :: m in old(marks) && (forall j :: 0 <= j < |records.value| ==> !Touches(records.value[j], MarkKeyOf(m)))
                  ==> m in marks
      ensures students == old(students) && subjects == old(subjects)
      ensures nextStudentId == old(nextStudentId) && nextSubjectId == old(nextSubjectId)
    {
      if records.None? {
        return Err(MissingMarksList);
      }
      var recs := records.value;
      for i := 0 to |recs|
        invariant Valid()
        invariant MarkView(marks) == ApplyRecords(MarkView(old(marks)), recs[..i])
        invariant forall m :: m in old(marks) && (forall j :: 0 <= j < i ==> !Touches(recs[j], MarkKeyOf(m)))
                    ==> m in marks
        invariant students == old(students) && subjects == old(subjects)
        invariant nextStudentId == old(nextStudentId) && nextSubjectId == old(nextSubjectId)
      {
        assert recs[..i + 1][..i] == recs[..i];
        ghost var before, id, now := marks, nextMarkId, clock;
        var applied := UpsertMark(recs[i]);
        if applied {
          UpsertRecordView(before, recs[i], id, now);
        }
        forall m | m in old(marks) && (forall j :: 0 <= j < i + 1 ==> !Touches(recs[j], MarkKeyOf(m)))
          ensures m in marks
        {
          assert !Touches(recs[i], MarkKeyOf(m));
          assert m in before;
        }
      }
      assert recs[..|recs|] == recs;
      r := Ok(());
    }

    /** GET /api/students: all three filters when year, department and section
        are all truthy, year and department when only those two are, no filter
        otherwise; then the newest ten matching rows, newest first. */
    method ListStudents(year: Option<string>, department: Option<string>, section: Option<string>)
      returns (filter: StudentFilter, rows: seq<Student>)
      requires Valid()
      ensures filter.ByClass? <==> Truthy(year) && Truthy(department) && Truthy(section)
      ensures filter.ByClass? ==> filter == ByClass(year.value, department.value, section.value)
      ensures filter.ByYearDepartment? <==> Truthy(year) && Truthy(department) && !Truthy(section)
      ensures filter.ByYearDepartment? ==> filter == ByYearDepartment(year.value, department.value)
      ensures filter.AllStudents? <==> !(Truthy(year) && Truthy(department))
      ensures forall s :: s in rows ==> s in students && StudentMatches(s, filter)
      ensures |rows| == Min(StudentPageSize, |Select(students, StudentMatches, filter)|)
      ensures forall i, j :: 0 <= i < j < |rows| ==> rows[i].createdAt > rows[j].createdAt
      ensures forall s, t :: s in students && StudentMatches(s, filter) && s !in rows && t in rows ==>
                s.createdAt < t.createdAt
    {
      filter := AllStudents;
      if Truthy(year) && Truthy(department) && Truthy(section) {
        filter := ByClass(year.value, department.value, section.value);
      } else if Truthy(year) && Truthy(department) {
        filter := ByYearDepartment(year.value, department.value);
      }
      var matching := Select(students, StudentMatches, filter);
      SelectIncreasing(students, StudentMatches, filter, StudentCreated);
      NewestFirstPage(matching, StudentPageSize);
      rows := NewestFirst(matching, StudentPageSize);
    }

    /** GET /api/subjects: filtered on year and department when both are
        truthy, otherwise every subject; no row cap. */
    method ListSubjects(year: Option<string>, department: Option<string>)
      returns (filter: SubjectFilter, rows: seq<Subject>)
      requires Valid()
      ensures filter.SubjectsOf? <==> Truthy(year) && Truthy(department)
      ensures filter.SubjectsOf? ==> filter == SubjectsOf(year.value, department.value)
      ensures forall s :: s in rows <==> s in subjects && SubjectMatches(s, filter)
      ensures filter.AllSubjects? ==> rows == subjects
      ensures IncreasingBy(rows, SubjectId)
    {
      filter := AllSubjects;
      if Truthy(year) && Truthy(department) {
        filter := SubjectsOf(year.value, department.value);
      }
      rows := Select(subjects, SubjectMatches, filter);
      SelectIncreasing(subjects, SubjectMatches, filter, SubjectId);
      if filter.AllSubjects? {
        SelectEverything(subjects, SubjectMatches, filter);
      }
    }

    /** GET /api/students/class: an error, without a query, unless year,
        department and section are all truthy; otherwise every student of that
        class, with no row cap. */
    function ClassRoster(year: Option<string>, department: Option<string>, section: Option<string>)
      : (r: Result<seq<Student>, DbError>)
      reads this
      requires Valid()
      ensures r.Err? <==> !Truthy(year) || !Truthy(department) || !Truthy(section)
      ensures r.Err? ==> r.error == MissingFilter
      ensures r.Ok? ==> forall s :: s in r.value <==>
                s in students && s.year == year.value && s.department == department.value &&
                s.section == section.value
      ensures r.Ok? ==> IncreasingBy(r.value, StudentId)
    {
      match RosterFilter(year, department, section)
      case Err(e) => Err(e)
      case Ok(f) =>
        SelectIncreasing(students, StudentMatches, f, StudentId);
        Ok(Select(students, StudentMatches, f))
    }

    /** GET /api/dashboard/stats: the size of each table. */
    function Stats(): (r: DashboardStats)
      reads this
      ensures r.totalStudents == |students| && r.totalSubjects == |subjects| && r.totalMarksEntries == |marks|
    {
      DashboardStats(|students|, |subjects|, |marks|)
    }

    /** GET /api/reports/performance: the matched marks grouped by category,
        the grand totals as the sum of the category rows, and the pass
        percentage, which is 0 when nothing matched. */
    method PerformanceReport(assessmentType: Option<string>, year: Option<string>, department: Option<string>,
                             section: Option<string>, subjectCode: Option<string>)
      returns (rep: PerformanceResponse)
      requires Valid()
      ensures rep.categoryStats ==
                GroupByCategory(ReportRows(marks, students, assessmentType, year, department, section, subjectCode))
      ensures rep.totals == SumStats(rep.categoryStats)
      ensures rep.totals == TallyAll(ReportRows(marks, students, assessmentType, year, department, section, subjectCode))
      ensures rep.totals.total == |ReportRows(marks, students, assessmentType, year, department, section, subjectCode)|
      ensures rep.totals.total ==
                |ReportedMarks(marks, students, assessmentType, year, department, section, subjectCode)|
      ensures Balanced(rep.totals)
      ensures rep.passPercentage.NoMarks? <==> rep.totals.total == 0
      ensures rep.passPercentage.Ratio? ==> rep.passPercentage == Ratio(rep.totals.pass, rep.totals.total)
    {
      var rows := ReportRows(marks, students, assessmentType, year, department, section, subjectCode);
      var stats := GroupByCategory(rows);
      GroupSums(rows);
      IncreasingDistinct(students, StudentId);
      ReportRowsOnce(marks, students, assessmentType, year, department, section, subjectCode);
      var totals := SumCategoryRows(stats);
      rep := PerformanceResponse(stats, totals, PassPercentage(totals));
    }
  }
}
