/**
 * The add/edit dialog (src/components/StudentForm.tsx): the form fields of one record,
 * the per-field error messages shown beside them, and the submit path that validates
 * the fields with `validateStudent` before handing them on.
 */
module StudentForm {
  import opened Text
  import opened StudentTypes
  import opened Validation

  // ---------------------------------------------------------------------------
  // Field edits
  // ---------------------------------------------------------------------------

  /** `defaultFormData`; `today` is the date part of the clock when the module was loaded. */
  function DefaultFormData(today: string): (d: StudentFormData)
    ensures d.name == "" && d.email == "" && d.grade == Num(0.0) && d.course == ""
    ensures d.enrollmentDate == today
  {
    StudentFormData("", "", Num(0.0), "", today)
  }

  /** `parseFloat(value) || 0`: NaN (and zero) become 0, so the result is always a number. */
  function FormGrade(parsed: Grade): (g: Grade)
    ensures g.Num?
    ensures parsed.Num? ==> g == parsed
  {
    match parsed
    case NaN => Num(0.0)
    case Num(v) => Num(v)
  }

  /** `{ ...prev, [name]: name === 'grade' ? parseFloat(value) || 0 : value }`. */
  function SetField(d: StudentFormData, field: Field, value: string, parseFloat: string -> Grade): (r: StudentFormData)
    ensures r.name == (if field == NameField then value else d.name)
    ensures r.email == (if field == EmailField then value else d.email)
    ensures r.grade == (if field == GradeField then FormGrade(parseFloat(value)) else d.grade)
    ensures r.course == (if field == CourseField then value else d.course)
    ensures r.enrollmentDate == (if field == EnrollmentDateField then value else d.enrollmentDate)
  {
    match field
    case NameField => d.(name := value)
    case EmailField => d.(email := value)
    case GradeField => d.(grade := FormGrade(parseFloat(value)))
    case CourseField => d.(course := value)
    case EnrollmentDateField => d.(enrollmentDate := value)
  }

  /** An edit of one field leaves the other four as they were, and a second edit of the same field wins. */
  lemma SetFieldOverwrites(d: StudentFormData, field: Field, a: string, b: string, parseFloat: string -> Grade)
    ensures SetField(SetField(d, field, a, parseFloat), field, b, parseFloat) == SetField(d, field, b, parseFloat)
  {
  }

  // ---------------------------------------------------------------------------
  // Errors by field
  // ---------------------------------------------------------------------------

  /** The `errors` record after `errors[err.field] = err.message` for every error in turn. */
  function ErrorMap(errs: seq<ValidationError>): (m: map<Field, string>)
    ensures forall k :: 0 <= k < |errs| ==> errs[k].field in m
  {
    if errs == [] then map[]
    else ErrorMap(errs[..|errs| - 1])[errs[|errs| - 1].field := errs[|errs| - 1].message()]
  }

  /** The `validationErrors.forEach` of `validateForm` (lines 76-80). */
  method ErrorsByField(errs: seq<ValidationError>) returns (errors: map<Field, string>)
    ensures errors == ErrorMap(errs)
  {
    errors := map[];
    for i := 0 to |errs|
      invariant errors == ErrorMap(errs[..i])
    {
      assert errs[..i + 1][..i] == errs[..i];
      errors := errors[errs[i].field := errs[i].message()];
    }
    assert errs[..|errs|] == errs;
  }

  /** The keys of the map are exactly the fields some error is about. */
  lemma {:induction false} ErrorMapKeys(errs: seq<ValidationError>)
    ensures forall f :: f in ErrorMap(errs) <==> exists k :: 0 <= k < |errs| && errs[k].field == f
  {
    if errs != [] {
      var init := errs[..|errs| - 1];
      ErrorMapKeys(init);
      forall f | f in ErrorMap(errs) ensures exists k :: 0 <= k < |errs| && errs[k].field == f {
        if f != errs[|errs| - 1].field {
          assert f in ErrorMap(init);
          var k :| 0 <= k < |init| && init[k].field == f;
          assert errs[k] == init[k];
        }
      }
    }
  }

  /** With at most one error per field, each error's field maps to that error's message. */
  lemma {:induction false} ErrorMapMessages(errs: seq<ValidationError>)
    requires InFieldOrder(errs)
    ensures forall k :: 0 <= k < |errs| ==> ErrorMap(errs)[errs[k].field] == errs[k].message()
  {
    if errs != [] {
      var init := errs[..|errs| - 1];
      assert forall k :: 0 <= k < |init| ==> init[k] == errs[k];
      ErrorMapMessages(init);
      ErrorMapKeys(init);
      forall k | 0 <= k < |errs| ensures ErrorMap(errs)[errs[k].field] == errs[k].message() {
        if k < |init| {
          assert errs[k].field.Rank() < errs[|errs| - 1].field.Rank();
        }
      }
    }
  }

  /** Every key of the map of errors reported for `s` is the subject of a rule `s` breaks. */
  lemma ReportedKeys(s: Student, rowNum: int, errs: seq<ValidationError>)
    requires forall k :: 0 <= k < |errs| ==> ReportedFor(s, rowNum, errs[k])
    ensures forall f :: f in ErrorMap(errs) ==> exists rule: Rule :: rule.Subject() == f && Broken(s, rule)
  {
    ErrorMapKeys(errs);
    forall f | f in ErrorMap(errs) ensures exists rule: Rule :: rule.Subject() == f && Broken(s, rule) {
      var k :| 0 <= k < |errs| && errs[k].field == f;
      assert ReportedFor(s, rowNum, errs[k]);
    }
  }

  /** Every rule `s` breaks puts its message under its field. */
  lemma ReportedMessages(s: Student, rowNum: int, errs: seq<ValidationError>)
    requires forall rule :: ErrorOf(rowNum, rule) in errs <==> Broken(s, rule)
    requires InFieldOrder(errs)
    ensures forall rule :: Broken(s, rule) ==>
      rule.Subject() in ErrorMap(errs) && ErrorMap(errs)[rule.Subject()] == rule.Message()
  {
    ErrorMapMessages(errs);
    forall rule | Broken(s, rule)
      ensures rule.Subject() in ErrorMap(errs) && ErrorMap(errs)[rule.Subject()] == rule.Message()
    {
      var e := ErrorOf(rowNum, rule);
      assert e in errs;
      var k :| 0 <= k < |errs| && errs[k] == e;
    }
  }

  /**
   * The form's error record for `s`: a field has an entry exactly when `s` breaks a
   * rule about it, and the entry is the message of that rule.
   */
  lemma FormErrorsSpec(s: Student)
    ensures forall f :: f in ErrorMap(ValidateStudent(s, 0)) <==> exists rule: Rule :: rule.Subject() == f && Broken(s, rule)
    ensures forall rule :: Broken(s, rule) ==> ErrorMap(ValidateStudent(s, 0))[rule.Subject()] == rule.Message()
  {
    var errs := ValidateStudent(s, 0);
    ValidateStudentReports(s, 0);
    ValidateStudentOrder(s, 0);
    ReportedKeys(s, 0, errs);
    ReportedMessages(s, 0, errs);
  }

  // ---------------------------------------------------------------------------
  // The dialog state
  // ---------------------------------------------------------------------------

  /** `student?.id || 'new'`. */
  function TempId(student: Option<Student>): (id: string)
    ensures id != ""
    ensures student.Some? && student.value.id != "" ==> id == student.value.id
  {
    if student.Some? && student.value.id != "" then student.value.id else "new"
  }

  /** The state of a `StudentForm`; `defaults` is `defaultFormData`. */
  class Form {
    const defaults: StudentFormData
    var student: Option<Student>
    var formData: StudentFormData
    var formErrors: map<Field, string>

    constructor(today: string)
      ensures defaults == DefaultFormData(today)
      ensures student == None && formData == defaults && formErrors == map[]
    {
      defaults := DefaultFormData(today);
      student := None;
      formData := DefaultFormData(today);
      formErrors := map[];
    }

    /** The `useEffect` on `[student, open]`: load the record's fields, or the defaults. */
    method Load(s: Option<Student>)
      modifies this
      ensures student == s && formErrors == map[]
      ensures formData == if s.Some? then FormDataOf(s.value) else defaults
    {
      student := s;
      if s.Some? {
        formData := StudentFormData(s.value.name, s.value.email, s.value.grade, s.value.course,
                                    s.value.enrollmentDate);
      } else {
        formData := defaults;
      }
      formErrors := map[];
    }

    /** `handleChange` for the input named `field`. */
    method HandleChange(field: Field, value: string, parseFloat: string -> Grade)
      modifies this
      ensures formData == SetField(old(formData), field, value, parseFloat)
      ensures field in old(formErrors) && old(formErrors)[field] != "" ==> formErrors == old(formErrors)[field := ""]
      ensures !(field in old(formErrors) && old(formErrors)[field] != "") ==> formErrors == old(formErrors)
      ensures student == old(student)
    {
      formData := SetField(formData, field, value, parseFloat);
      if field in formErrors && formErrors[field] != "" {
        formErrors := formErrors[field := ""];
      }
    }

    /** `validateForm`: record the errors by field; true exactly when there are none. */
    method ValidateForm() returns (valid: bool)
      modifies this
      ensures formErrors == ErrorMap(ValidateStudent(WithId(formData, TempId(student)), 0))
      ensures valid <==> MeetsAllRules(WithId(formData, TempId(student)))
      ensures formData == old(formData) && student == old(student)
    {
      var tempStudent := WithId(formData, TempId(student));
      var validationErrors := ValidateStudentSteps(tempStudent, 0);
      var errors := ErrorsByField(validationErrors);
      formErrors := errors;
      ValidateStudentEmpty(tempStudent, 0);
      valid := |validationErrors| == 0;
    }

    /**
     * `handleSubmit`: returns the argument of `onSubmit` when it is called, and the
     * toast raised.
     */
    method HandleSubmit() returns (submitted: Option<StudentFormData>, toast: Toast)
      modifies this
      ensures submitted.Some? <==> MeetsAllRules(WithId(formData, TempId(student)))
      ensures submitted.Some? ==> submitted.value == formData && toast.variant == Default
      ensures submitted.None? ==> toast == Toast("Validation Error", "Please fix the errors in the form.", Destructive)
      ensures formErrors == ErrorMap(ValidateStudent(WithId(formData, TempId(student)), 0))
      ensures formData == old(formData) && student == old(student)
    {
      var valid := ValidateForm();
      if valid {
        submitted := Some(formData);
        toast := Toast(
          if student.Some? then "Student Updated" else "Student Created",
          formData.name + " has been " + (if student.Some? then "updated" else "added") + " successfully.",
          Default);
      } else {
        submitted := None;
        toast := Toast("Validation Error", "Please fix the errors in the form.", Destructive);
      }
    }
  }
}
