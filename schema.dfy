/** The three tables of the marks portal (server.js:21-61): their rows, the
    keys of their UNIQUE constraints, the request bodies that feed them, and
    the errors the routes report. */
module Schema {

  datatype Option<T> = None | Some(value: T)

  datatype Result<T, E> = Ok(value: T) | Err(error: E)

  /** The failures a route reports back to its caller. */
  datatype DbError =
    | NotNullViolation   // a NOT NULL column was bound to an absent value
    | UniqueViolation    // the row's UNIQUE key is already in the table
    | MissingFilter      // the class roster needs year, department and section
    | MissingMarksList   // the bulk body has no `marks` list to iterate

  /** A row of `students`; `id` is the AUTOINCREMENT rowid, `createdAt` the insertion time. */
  datatype Student = Student(
    id: int, regNumber: string, fullName: string, year: string,
    department: string, section: string, category: string, createdAt: nat)

  /** A row of `subjects`. */
  datatype Subject = Subject(
    id: int, year: string, department: string, semester: string,
    subjectCode: string, subjectName: string, createdAt: nat)

  /** A row of `marks`; `studentId` refers to `students.id`, but nothing enforces it. */
  datatype Mark = Mark(
    id: int, studentId: int, subjectCode: string, subjectName: string,
    assessmentType: string, marks: int, academicYear: string, createdAt: nat)

  /** UNIQUE(year, department, subject_code) of `subjects`. */
  datatype SubjectKey = SubjectKey(year: string, department: string, subjectCode: string)

  /** UNIQUE(student_id, subject_code, assessment_type, academic_year) of `marks`. */
  datatype MarkKey = MarkKey(studentId: int, subjectCode: string, assessmentType: string, academicYear: string)

  /** The columns of a mark that a replacing insert overwrites under the same key. */
  datatype MarkData = MarkData(subjectName: string, marks: int)

  function StudentId(s: Student): int { s.id }
  function RegNumber(s: Student): string { s.regNumber }
  function StudentCreated(s: Student): int { s.createdAt }

  function SubjectId(s: Subject): int { s.id }
  function SubjectKeyOf(s: Subject): SubjectKey { SubjectKey(s.year, s.department, s.subjectCode) }
  function SubjectCreated(s: Subject): int { s.createdAt }

  function MarkId(m: Mark): int { m.id }
  function MarkKeyOf(m: Mark): MarkKey { MarkKey(m.studentId, m.subjectCode, m.assessmentType, m.academicYear) }
  function MarkDataOf(m: Mark): MarkData { MarkData(m.subjectName, m.marks) }
  function MarkCreated(m: Mark): int { m.createdAt }

  /** The body of POST /api/students; a field the client left out is `None`. */
  datatype StudentInput = StudentInput(
    regNumber: Option<string>, fullName: Option<string>, year: Option<string>,
    department: Option<string>, section: Option<string>, category: Option<string>)
  {
    /** Every NOT NULL column receives a value. */
    predicate Complete() {
      regNumber.Some? && fullName.Some? && year.Some? &&
      department.Some? && section.Some? && category.Some?
    }

    function Row(id: int, now: nat): Student
      requires Complete()
    {
      Student(id, regNumber.value, fullName.value, year.value,
              department.value, section.value, category.value, now)
    }
  }

  /** The body of POST /api/subjects. */
  datatype SubjectInput = SubjectInput(
    year: Option<string>, department: Option<string>, semester: Option<string>,
    subjectCode: Option<string>, subjectName: Option<string>)
  {
    predicate Complete() {
      year.Some? && department.Some? && semester.Some? && subjectCode.Some? && subjectName.Some?
    }

    function Key(): SubjectKey
      requires Complete()
    {
      SubjectKey(year.value, department.value, subjectCode.value)
    }

    function Row(id: int, now: nat): Subject
      requires Complete()
    {
      Subject(id, year.value, department.value, semester.value,
              subjectCode.value, subjectName.value, now)
    }
  }

  /** One element of the `marks` list of POST /api/marks/bulk. */
  datatype MarkInput = MarkInput(
    studentId: Option<int>, subjectCode: Option<string>, subjectName: Option<string>,
    assessmentType: Option<string>, marks: Option<int>, academicYear: Option<string>)
  {
    predicate Complete() {
      studentId.Some? && subjectCode.Some? && subjectName.Some? &&
      assessmentType.Some? && marks.Some? && academicYear.Some?
    }

    function Key(): MarkKey
      requires Complete()
    {
      MarkKey(studentId.value, subjectCode.value, assessmentType.value, academicYear.value)
    }

    function Data(): MarkData
      requires Complete()
    {
      MarkData(subjectName.value, marks.value)
    }

    function Row(id: int, now: nat): Mark
      requires Complete()
    {
      Mark(id, studentId.value, subjectCode.value, subjectName.value,
           assessmentType.value, marks.value, academicYear.value, now)
    }
  }
}
