/**
 * The records shared by the whole application (src/types/Student.ts).
 */
module StudentTypes {

  datatype Option<T> = None | Some(value: T)

  /**
   * A JavaScript number as a grade: either NaN (what `parseFloat` yields for text
   * that does not start with a number) or a finite value.
   */
  datatype Grade = NaN | Num(value: real)

  datatype Student = Student(
    id: string,
    name: string,
    email: string,
    grade: Grade,
    course: string,
    enrollmentDate: string)

  /** `StudentFormData`: a student without its id. */
  datatype StudentFormData = StudentFormData(
    name: string,
    email: string,
    grade: Grade,
    course: string,
    enrollmentDate: string)

  /** The five record fields, by the names the source uses for them (`Key`). */
  datatype Field = NameField | EmailField | GradeField | CourseField | EnrollmentDateField
  {
    function Key(): string {
      match this
      case NameField => "name"
      case EmailField => "email"
      case GradeField => "grade"
      case CourseField => "course"
      case EnrollmentDateField => "enrollmentDate"
    }

    /** Position of the field in the order `validateStudent` checks the fields. */
    function Rank(): nat {
      match this
      case NameField => 0
      case EmailField => 1
      case GradeField => 2
      case CourseField => 3
      case EnrollmentDateField => 4
    }
  }

  /** The seven rules a record can break; `Message` is the exact text reported for each. */
  datatype Rule =
    | NameRequired | EmailRequired | EmailNotValid | GradeNotNumber | GradeOutOfRange
    | CourseRequired | EnrollmentDateNotValid
  {
    function Message(): string {
      match this
      case NameRequired => "Name is required"
      case EmailRequired => "Email is required"
      case EmailNotValid => "Email is not valid"
      case GradeNotNumber => "Grade must be a number"
      case GradeOutOfRange => "Grade must be between 0 and 100"
      case CourseRequired => "Course is required"
      case EnrollmentDateNotValid => "Enrollment date is not valid (use YYYY-MM-DD format)"
    }

    /** The field each rule is about. */
    function Subject(): Field {
      match this
      case NameRequired => NameField
      case EmailRequired | EmailNotValid => EmailField
      case GradeNotNumber | GradeOutOfRange => GradeField
      case CourseRequired => CourseField
      case EnrollmentDateNotValid => EnrollmentDateField
    }
  }

  /** `{ row, field, message }`; the message is that of the broken rule. */
  datatype ValidationError = ValidationError(row: int, field: Field, rule: Rule)
  {
    function message(): string {
      rule.Message()
    }
  }

  /** One rejected CSV row: its raw cells and every rule it broke. */
  datatype RowFailure = RowFailure(rowData: seq<string>, errors: seq<ValidationError>)

  datatype ImportResult = ImportResult(
    successful: seq<Student>,
    failed: seq<RowFailure>,
    totalRows: nat)

  datatype ToastVariant = Default | Destructive

  /** A toast notification as `toast({ title, description, variant })` raises it. */
  datatype Toast = Toast(title: string, description: string, variant: ToastVariant)

  /** A file chosen by the user: its name and its text as `FileReader.readAsText` decodes it. */
  datatype UploadedFile = UploadedFile(name: string, content: string)

  /** The form fields of a student record, in the order `validateStudent` checks them. */
  function FormDataOf(s: Student): (d: StudentFormData)
  {
    StudentFormData(s.name, s.email, s.grade, s.course, s.enrollmentDate)
  }

  /** `{ id, ...data }`: a record made of form data and an id. */
  function WithId(d: StudentFormData, id: string): (s: Student)
    ensures FormDataOf(s) == d && s.id == id
  {
    Student(id, d.name, d.email, d.grade, d.course, d.enrollmentDate)
  }
}
