/**
 * Per-record validation (src/utils/validation.ts): five independent field checks in
 * a fixed order with fixed messages, the e-mail shape predicate and the
 * `YYYY-MM-DD` calendar-date predicate.
 */
module Validation {
  import opened Text
  import opened StudentTypes

  /** The errors name strictly increasing fields, so no field is reported twice. */
  predicate InFieldOrder(errs: seq<ValidationError>) {
    forall i, j :: 0 <= i < j < |errs| ==> errs[i].field.Rank() < errs[j].field.Rank()
  }

  /** The five field constraints of a valid student record. */
  predicate MeetsAllRules(s: Student) {
    && !Blank(s.name)
    && !Blank(s.email) && IsValidEmail(s.email)
    && s.grade.Num? && 0.0 <= s.grade.value <= 100.0
    && !Blank(s.course)
    && (s.enrollmentDate == "" || IsValidDate(s.enrollmentDate))
  }

  /** The seven rules in the order `validateStudent` checks them. */
  const Rules: seq<Rule> :=
    [NameRequired, EmailRequired, EmailNotValid, GradeNotNumber, GradeOutOfRange,
     CourseRequired, EnrollmentDateNotValid]

  /**
   * Whether record `s` breaks `rule`. The second e-mail rule and the second grade
   * rule sit in the `else` branch of the first one, so each of them needs the first
   * one to hold; a missing enrollment date breaks no rule.
   */
  predicate Broken(s: Student, rule: Rule) {
    match rule
    case NameRequired => Blank(s.name)
    case EmailRequired => Blank(s.email)
    case EmailNotValid => !Blank(s.email) && !IsValidEmail(s.email)
    case GradeNotNumber => s.grade.NaN?
    case GradeOutOfRange => s.grade.Num? && (s.grade.value < 0.0 || s.grade.value > 100.0)
    case CourseRequired => Blank(s.course)
    case EnrollmentDateNotValid => s.enrollmentDate != "" && !IsValidDate(s.enrollmentDate)
  }

  /** The error `rule` produces for row `rowNum`. */
  function ErrorOf(rowNum: int, rule: Rule): (e: ValidationError)
    ensures e.row == rowNum && e.rule == rule && e.field == rule.Subject()
  {
    ValidationError(rowNum, rule.Subject(), rule)
  }

  /** The position of `rule` in `Rules`. */
  function RuleIndex(rule: Rule): (i: nat)
    ensures i < |Rules| && Rules[i] == rule
    ensures forall j :: 0 <= j < |Rules| && Rules[j] == rule ==> j == i
  {
    match rule
    case NameRequired => 0
    case EmailRequired => 1
    case EmailNotValid => 2
    case GradeNotNumber => 3
    case GradeOutOfRange => 4
    case CourseRequired => 5
    case EnrollmentDateNotValid => 6
  }

  /** The error `rule` adds to the list: one when `s` breaks it, none otherwise. */
  function ErrorIf(s: Student, rowNum: int, rule: Rule): seq<ValidationError> {
    if Broken(s, rule) then [ErrorOf(rowNum, rule)] else []
  }

  /** One `errors.push` per broken rule among `Rules[i..]`, in checking order. */
  function ErrorsFrom(s: Student, rowNum: int, i: nat): seq<ValidationError>
    decreases |Rules| - i
  {
    if i >= |Rules| then []
    else ErrorIf(s, rowNum, Rules[i]) + ErrorsFrom(s, rowNum, i + 1)
  }

  /** `validateStudent(student, rowNum)`: the errors of the broken rules, in checking order. */
  function ValidateStudent(s: Student, rowNum: int): seq<ValidationError> {
    ErrorsFrom(s, rowNum, 0)
  }

  /** The errors from rule `i` on: that rule's, if it is broken, then those of the later rules. */
  lemma ErrorsFromStep(s: Student, rowNum: int, i: nat)
    requires i < |Rules|
    ensures ErrorsFrom(s, rowNum, i) == ErrorIf(s, rowNum, Rules[i]) + ErrorsFrom(s, rowNum, i + 1)
  {
  }

  /** The name rule and the two e-mail rules come first. */
  lemma NameAndEmailErrors(s: Student, rowNum: int)
    ensures ValidateStudent(s, rowNum)
      == ErrorIf(s, rowNum, NameRequired) + (ErrorIf(s, rowNum, EmailRequired) + ErrorIf(s, rowNum, EmailNotValid))
       + ErrorsFrom(s, rowNum, 3)
  {
    ErrorsFromStep(s, rowNum, 0);
    ErrorsFromStep(s, rowNum, 1);
    ErrorsFromStep(s, rowNum, 2);
    Regroup(ErrorIf(s, rowNum, NameRequired), ErrorIf(s, rowNum, EmailRequired), ErrorIf(s, rowNum, EmailNotValid),
      ErrorsFrom(s, rowNum, 3));
  }

  lemma Regroup(a: seq<ValidationError>, b: seq<ValidationError>, c: seq<ValidationError>, d: seq<ValidationError>)
    ensures a + (b + (c + d)) == a + (b + c) + d
  {
  }

  /** Then the two grade rules. */
  lemma GradeErrors(s: Student, rowNum: int, acc: seq<ValidationError>)
    ensures acc + ErrorIf(s, rowNum, GradeNotNumber) + ErrorIf(s, rowNum, GradeOutOfRange) + ErrorsFrom(s, rowNum, 5)
      == acc + ErrorsFrom(s, rowNum, 3)
  {
    ErrorsFromStep(s, rowNum, 3);
    ErrorsFromStep(s, rowNum, 4);
  }

  /** Then the course rule and the enrollment-date rule, the last ones. */
  lemma CourseAndDateErrors(s: Student, rowNum: int, acc: seq<ValidationError>)
    ensures acc + ErrorIf(s, rowNum, CourseRequired) + ErrorIf(s, rowNum, EnrollmentDateNotValid)
      == acc + ErrorsFrom(s, rowNum, 5)
  {
    ErrorsFromStep(s, rowNum, 5);
    ErrorsFromStep(s, rowNum, 6);
    assert ErrorsFrom(s, rowNum, 7) == [];
  }

  /** `validateStudent`'s errors, field by field: name, e-mail, grade, course, enrollment date. */
  lemma ValidateStudentSections(s: Student, rowNum: int)
    ensures ValidateStudent(s, rowNum)
      == ErrorIf(s, rowNum, NameRequired)
       + (ErrorIf(s, rowNum, EmailRequired) + ErrorIf(s, rowNum, EmailNotValid))
       + (ErrorIf(s, rowNum, GradeNotNumber) + ErrorIf(s, rowNum, GradeOutOfRange))
       + ErrorIf(s, rowNum, CourseRequired)
       + ErrorIf(s, rowNum, EnrollmentDateNotValid)
  {
    var name := ErrorIf(s, rowNum, NameRequired);
    var email := ErrorIf(s, rowNum, EmailRequired) + ErrorIf(s, rowNum, EmailNotValid);
    var grade := ErrorIf(s, rowNum, GradeNotNumber) + ErrorIf(s, rowNum, GradeOutOfRange);
    NameAndEmailErrors(s, rowNum);
    GradeErrors(s, rowNum, name + email);
    CourseAndDateErrors(s, rowNum, name + email + grade);
  }

  /** The name block of `validateStudent`. */
  method CheckName(student: Student, rowNum: int, errors: seq<ValidationError>) returns (r: seq<ValidationError>)
    ensures r == errors + ErrorIf(student, rowNum, NameRequired)
  {
    r := errors;
    if Blank(student.name) {
      r := r + [ErrorOf(rowNum, NameRequired)];
    }
  }

  /** The e-mail block: "required" for a blank address, else "not valid" for one the pattern rejects. */
  method CheckEmail(student: Student, rowNum: int, errors: seq<ValidationError>) returns (r: seq<ValidationError>)
    ensures r == errors + (ErrorIf(student, rowNum, EmailRequired) + ErrorIf(student, rowNum, EmailNotValid))
  {
    r := errors;
    if Blank(student.email) {
      r := r + [ErrorOf(rowNum, EmailRequired)];
    } else if !IsValidEmail(student.email) {
      r := r + [ErrorOf(rowNum, EmailNotValid)];
    }
  }

  /** The grade block: "must be a number" for NaN, else the range error outside 0..100. */
  method CheckGrade(student: Student, rowNum: int, errors: seq<ValidationError>) returns (r: seq<ValidationError>)
    ensures r == errors + (ErrorIf(student, rowNum, GradeNotNumber) + ErrorIf(student, rowNum, GradeOutOfRange))
  {
    r := errors;
    if student.grade.NaN? {
      r := r + [ErrorOf(rowNum, GradeNotNumber)];
    } else if student.grade.value < 0.0 || student.grade.value > 100.0 {
      r := r + [ErrorOf(rowNum, GradeOutOfRange)];
    }
  }

  /** The course block. */
  method CheckCourse(student: Student, rowNum: int, errors: seq<ValidationError>) returns (r: seq<ValidationError>)
    ensures r == errors + ErrorIf(student, rowNum, CourseRequired)
  {
    r := errors;
    if Blank(student.course) {
      r := r + [ErrorOf(rowNum, CourseRequired)];
    }
  }

  /** The enrollment-date block: only a non-empty date is checked. */
  method CheckEnrollmentDate(student: Student, rowNum: int, errors: seq<ValidationError>) returns (r: seq<ValidationError>)
    ensures r == errors + ErrorIf(student, rowNum, EnrollmentDateNotValid)
  {
    r := errors;
    if student.enrollmentDate != "" && !IsValidDate(student.enrollmentDate) {
      r := r + [ErrorOf(rowNum, EnrollmentDateNotValid)];
    }
  }

  /**
   * `validateStudent` as it runs: the five blocks in turn, each pushing onto `errors`
   * the error of the check it fails, if any.
   */
  method ValidateStudentSteps(student: Student, rowNum: int) returns (errors: seq<ValidationError>)
    ensures errors == ValidateStudent(student, rowNum)
  {
    errors := [];
    errors := CheckName(student, rowNum, errors);
    errors := CheckEmail(student, rowNum, errors);
    errors := CheckGrade(student, rowNum, errors);
    errors := CheckCourse(student, rowNum, errors);
    errors := CheckEnrollmentDate(student, rowNum, errors);
    ValidateStudentSections(student, rowNum);
    assert [] + ErrorIf(student, rowNum, NameRequired) == ErrorIf(student, rowNum, NameRequired);
  }

  /**
   * Every reported error names the given row and a rule the record breaks, and each
   * rule's error is reported exactly when the record breaks that rule.
   */
  lemma ValidateStudentReports(s: Student, rowNum: int)
    ensures forall k :: 0 <= k < |ValidateStudent(s, rowNum)| ==> ReportedFor(s, rowNum, ValidateStudent(s, rowNum)[k])
    ensures forall rule :: ErrorOf(rowNum, rule) in ValidateStudent(s, rowNum) <==> Broken(s, rule)
  {
    ErrorsFromShape(s, rowNum, 0);
    forall rule ensures ErrorOf(rowNum, rule) in ErrorsFrom(s, rowNum, 0) <==> Broken(s, rule) {
      ErrorsFromMember(s, rowNum, 0, rule);
    }
  }

  /** `e` is the error of a rule that record `s` breaks, reported for row `rowNum`. */
  predicate ReportedFor(s: Student, rowNum: int, e: ValidationError) {
    e.row == rowNum && e.field == e.rule.Subject() && Broken(s, e.rule)
  }

  /** Every reported error is the error of a broken rule, for the given row. */
  lemma {:induction false} ErrorsFromShape(s: Student, rowNum: int, i: nat)
    ensures forall k :: 0 <= k < |ErrorsFrom(s, rowNum, i)| ==> ReportedFor(s, rowNum, ErrorsFrom(s, rowNum, i)[k])
    decreases |Rules| - i
  {
    if i < |Rules| {
      ErrorsFromShape(s, rowNum, i + 1);
      ErrorsFromStep(s, rowNum, i);
      var head, tail := ErrorIf(s, rowNum, Rules[i]), ErrorsFrom(s, rowNum, i + 1);
      assert forall k :: 0 <= k < |head| ==> ReportedFor(s, rowNum, head[k]);
      ReportedConcat(s, rowNum, head, tail);
    }
  }

  lemma ReportedConcat(s: Student, rowNum: int, a: seq<ValidationError>, b: seq<ValidationError>)
    requires forall k :: 0 <= k < |a| ==> ReportedFor(s, rowNum, a[k])
    requires forall k :: 0 <= k < |b| ==> ReportedFor(s, rowNum, b[k])
    ensures forall k :: 0 <= k < |a + b| ==> ReportedFor(s, rowNum, (a + b)[k])
  {
    forall k | 0 <= k < |a + b| ensures ReportedFor(s, rowNum, (a + b)[k]) {
      if k < |a| {
        assert (a + b)[k] == a[k];
      } else {
        assert (a + b)[k] == b[k - |a|];
      }
    }
  }

  /** A rule at or after position `i` is reported exactly when it is broken. */
  lemma {:induction false} ErrorsFromMember(s: Student, rowNum: int, i: nat, rule: Rule)
    ensures ErrorOf(rowNum, rule) in ErrorsFrom(s, rowNum, i) <==> i <= RuleIndex(rule) && Broken(s, rule)
    decreases |Rules| - i
  {
    if i < |Rules| {
      ErrorsFromMember(s, rowNum, i + 1, rule);
    }
  }

  /** No error from position `i` on exactly when no rule from there on is broken. */
  lemma {:induction false} ErrorsFromEmpty(s: Student, rowNum: int, i: nat)
    ensures ErrorsFrom(s, rowNum, i) == [] <==> forall j :: i <= j < |Rules| ==> !Broken(s, Rules[j])
    decreases |Rules| - i
  {
    if i < |Rules| {
      ErrorsFromEmpty(s, rowNum, i + 1);
      ErrorsFromStep(s, rowNum, i);
      var head, tail := ErrorIf(s, rowNum, Rules[i]), ErrorsFrom(s, rowNum, i + 1);
      assert |head + tail| == |head| + |tail|;
      assert head == [] <==> !Broken(s, Rules[i]);
      assert (forall j :: i <= j < |Rules| ==> !Broken(s, Rules[j]))
        <==> !Broken(s, Rules[i]) && forall j :: i + 1 <= j < |Rules| ==> !Broken(s, Rules[j]);
    }
  }

  /** `Rules` lists the fields in non-decreasing rank, and two rules on one field are never both broken. */
  predicate RulesInOrder(s: Student) {
    forall i, j :: 0 <= i < j < |Rules| ==>
      && Rules[i].Subject().Rank() <= Rules[j].Subject().Rank()
      && (Rules[i].Subject() == Rules[j].Subject() ==> !(Broken(s, Rules[i]) && Broken(s, Rules[j])))
  }

  /** Every error is about a field of rank at least `lo`. */
  predicate FieldsFrom(errs: seq<ValidationError>, lo: nat) {
    forall k :: 0 <= k < |errs| ==> lo <= errs[k].field.Rank()
  }

  lemma {:induction false} ErrorsFromOrder(s: Student, rowNum: int, i: nat)
    requires RulesInOrder(s)
    ensures InFieldOrder(ErrorsFrom(s, rowNum, i))
    decreases |Rules| - i
  {
    if i < |Rules| {
      ErrorsFromOrder(s, rowNum, i + 1);
      if Broken(s, Rules[i]) {
        var m := Rules[i].Subject().Rank();
        forall j | i + 1 <= j < |Rules| && Broken(s, Rules[j]) ensures m < Rules[j].Subject().Rank() {
          RankInjective(Rules[i].Subject(), Rules[j].Subject());
        }
        ErrorsFromAbove(s, rowNum, i + 1, m);
        PrependInOrder(ErrorOf(rowNum, Rules[i]), ErrorsFrom(s, rowNum, i + 1), m);
      }
    }
  }

  /** When every broken rule from position `i` on is about a field ranked above `m`, so is every error. */
  lemma {:induction false} ErrorsFromAbove(s: Student, rowNum: int, i: nat, m: nat)
    requires forall j :: i <= j < |Rules| && Broken(s, Rules[j]) ==> m < Rules[j].Subject().Rank()
    ensures FieldsFrom(ErrorsFrom(s, rowNum, i), m + 1)
    decreases |Rules| - i
  {
    if i < |Rules| {
      ErrorsFromAbove(s, rowNum, i + 1, m);
    }
  }

  lemma RankInjective(f: Field, g: Field)
    ensures f.Rank() == g.Rank() ==> f == g
  {
  }

  lemma PrependInOrder(e: ValidationError, rest: seq<ValidationError>, m: nat)
    requires e.field.Rank() == m && FieldsFrom(rest, m + 1) && InFieldOrder(rest)
    ensures InFieldOrder([e] + rest)
  {
  }

  /** The errors come field by field in the order name, email, grade, course, enrollment date. */
  lemma ValidateStudentOrder(s: Student, rowNum: int)
    ensures InFieldOrder(ValidateStudent(s, rowNum))
  {
    assert RulesInOrder(s);
    ErrorsFromOrder(s, rowNum, 0);
  }

  /** A record has no error exactly when it meets all five rules; the row number plays no part. */
  lemma ValidateStudentEmpty(s: Student, rowNum: int)
    ensures ValidateStudent(s, rowNum) == [] <==> MeetsAllRules(s)
  {
    ErrorsFromEmpty(s, rowNum, 0);
    assert (forall k :: 0 <= k < |Rules| ==> !Broken(s, Rules[k])) <==>
      !Broken(s, Rules[0]) && !Broken(s, Rules[1]) && !Broken(s, Rules[2]) && !Broken(s, Rules[3])
        && !Broken(s, Rules[4]) && !Broken(s, Rules[5]) && !Broken(s, Rules[6]);
  }

  /** Strictly increasing field ranks leave room for at most one error per field. */
  lemma {:induction false} InFieldOrderAtMostFive(errs: seq<ValidationError>, lo: nat)
    requires lo <= 5 && InFieldOrder(errs) && FieldsFrom(errs, lo)
    ensures |errs| <= 5 - lo
  {
    if errs != [] {
      assert errs[0].field.Rank() <= 4;
      assert FieldsFrom(errs[1..], errs[0].field.Rank() + 1);
      InFieldOrderAtMostFive(errs[1..], errs[0].field.Rank() + 1);
    }
  }

  /** At most one error per field, so at most five in all. */
  lemma ValidateStudentAtMostFive(s: Student, rowNum: int)
    ensures |ValidateStudent(s, rowNum)| <= 5
  {
    ValidateStudentOrder(s, rowNum);
    InFieldOrderAtMostFive(ValidateStudent(s, rowNum), 0);
  }

  // ---------------------------------------------------------------------------
  // E-mail: the pattern ^[^\s@]+@[^\s@]+\.[^\s@]+$
  // ---------------------------------------------------------------------------

  /** Every character is matched by `[^\s@]`. */
  predicate NoSpaceOrAt(s: string) {
    forall k :: 0 <= k < |s| ==> !IsSpace(s[k]) && s[k] != '@'
  }

  /**
   * The pattern read as it is written: a non-empty run of `[^\s@]`, an `@`, a
   * non-empty run, a `.`, and a non-empty run, covering the whole string.
   */
  predicate MatchesEmailPattern(s: string) {
    exists i, j | 0 < i < |s| && 0 < j < |s| ::
      i + 1 < j && j + 1 < |s| && s[i] == '@' && s[j] == '.'
      && NoSpaceOrAt(s[..i]) && NoSpaceOrAt(s[i + 1..j]) && NoSpaceOrAt(s[j + 1..])
  }

  /**
   * The states of a left-to-right matcher for the pattern: nothing read yet; inside
   * the local part; right after the `@`; inside the domain with no usable `.` yet;
   * right after a `.` that has domain text before it; and past such a `.` followed
   * by at least one character (the only accepting state).
   */
  datatype EmailState = Start | InLocal | AfterAt | InDomain | AfterDot | Complete

  /** One step of the matcher; `None` when no continuation can match. */
  function EmailStep(q: EmailState, c: char): Option<EmailState> {
    if IsSpace(c) then None
    else match q
      case Start => if c == '@' then None else Some(InLocal)
      case InLocal => Some(if c == '@' then AfterAt else InLocal)
      case AfterAt => if c == '@' then None else Some(InDomain)
      case InDomain => if c == '@' then None else Some(if c == '.' then AfterDot else InDomain)
      case AfterDot => if c == '@' then None else Some(Complete)
      case Complete => if c == '@' then None else Some(Complete)
  }

  function EmailScan(s: string, q: EmailState): bool {
    if s == [] then q == Complete
    else match EmailStep(q, s[0])
      case None => false
      case Some(next) => EmailScan(s[1..], next)
  }

  /** `isValidEmail`: `/^[^\s@]+@[^\s@]+\.[^\s@]+$/.test(email)`, as a matcher run. */
  predicate IsValidEmail(s: string) {
    EmailScan(s, Start)
  }

  /** Some `.` at a position in `lo .. |s| - 2`, so that text follows it. */
  predicate DotFrom(s: string, lo: nat) {
    exists j :: lo <= j < |s| - 1 && s[j] == '.'
  }

  /** What may follow the `@`: a run of `[^\s@]` with a `.` that is neither first nor last. */
  predicate DomainPart(d: string) {
    NoSpaceOrAt(d) && DotFrom(d, 1)
  }

  /** The rest of the input that each state accepts. */
  predicate Accepted(q: EmailState, s: string) {
    match q
    case Complete => NoSpaceOrAt(s)
    case AfterDot => s != [] && NoSpaceOrAt(s)
    case InDomain => NoSpaceOrAt(s) && DotFrom(s, 0)
    case AfterAt => DomainPart(s)
    case InLocal => exists i :: 0 <= i < |s| && s[i] == '@' && NoSpaceOrAt(s[..i]) && DomainPart(s[i + 1..])
    case Start => exists i :: 1 <= i < |s| && s[i] == '@' && NoSpaceOrAt(s[..i]) && DomainPart(s[i + 1..])
  }

  lemma NoSpaceOrAtCons(s: string)
    requires s != []
    ensures NoSpaceOrAt(s) <==> !IsSpace(s[0]) && s[0] != '@' && NoSpaceOrAt(s[1..])
  {
    assert forall k :: 1 <= k < |s| ==> s[k] == s[1..][k - 1];
  }

  lemma DotFromCons(s: string, lo: nat)
    requires s != []
    ensures DotFrom(s, lo + 1) <==> DotFrom(s[1..], lo)
  {
    if DotFrom(s, lo + 1) {
      var j :| lo + 1 <= j < |s| - 1 && s[j] == '.';
      assert s[1..][j - 1] == '.';
    }
    if DotFrom(s[1..], lo) {
      var j :| lo <= j < |s[1..]| - 1 && s[1..][j] == '.';
      assert s[j + 1] == '.';
    }
  }

  /** Shifting the `@` search of the local part by one character. */
  lemma LocalCons(s: string, lo: nat)
    requires s != [] && !IsSpace(s[0]) && s[0] != '@'
    ensures (exists i :: lo + 1 <= i < |s| && s[i] == '@' && NoSpaceOrAt(s[..i]) && DomainPart(s[i + 1..]))
      <==> (exists i :: lo <= i < |s| - 1 && s[1..][i] == '@' && NoSpaceOrAt(s[1..][..i]) && DomainPart(s[1..][i + 1..]))
  {
    var t := s[1..];
    forall i | lo + 1 <= i < |s|
      ensures (s[i] == '@' && NoSpaceOrAt(s[..i]) && DomainPart(s[i + 1..]))
        <==> (t[i - 1] == '@' && NoSpaceOrAt(t[..i - 1]) && DomainPart(t[i..]))
    {
      assert s[..i][1..] == t[..i - 1];
      NoSpaceOrAtCons(s[..i]);
      assert s[i + 1..] == t[i..];
    }
    if exists i :: lo <= i < |s| - 1 && t[i] == '@' && NoSpaceOrAt(t[..i]) && DomainPart(t[i + 1..]) {
      var i :| lo <= i < |s| - 1 && t[i] == '@' && NoSpaceOrAt(t[..i]) && DomainPart(t[i + 1..]);
      assert s[i + 1] == '@' && NoSpaceOrAt(s[..i + 1]) && DomainPart(s[i + 2..]);
    }
  }

  /** Each state of the matcher accepts exactly the rest of the input its reading describes. */
  lemma {:induction false} EmailScanAccepts(s: string, q: EmailState)
    ensures EmailScan(s, q) <==> Accepted(q, s)
  {
    if s == [] {
      assert !DotFrom(s, 0) && !DotFrom(s, 1);
    } else {
      var step := EmailStep(q, s[0]);
      if step.Some? {
        EmailScanAccepts(s[1..], step.value);
      }
      AcceptedStep(q, s);
    }
  }

  /** What a state accepts is what its successor on the first character accepts of the rest. */
  lemma AcceptedStep(q: EmailState, s: string)
    requires s != []
    ensures Accepted(q, s) <==> EmailStep(q, s[0]).Some? && Accepted(EmailStep(q, s[0]).value, s[1..])
  {
    NoSpaceOrAtCons(s);
    match q
    case Complete =>
    case AfterDot =>
    case InDomain => InDomainStep(s);
    case AfterAt => DotFromCons(s, 0);
    case InLocal => InLocalStep(s);
    case Start => StartStep(s);
  }

  lemma InDomainStep(s: string)
    requires s != []
    ensures Accepted(InDomain, s) <==> EmailStep(InDomain, s[0]).Some? && Accepted(EmailStep(InDomain, s[0]).value, s[1..])
  {
    NoSpaceOrAtCons(s);
    DotFromCons(s, 0);
    var c, t := s[0], s[1..];
    if c == '.' && t != [] {
      assert s[0] == '.' && 0 < |s| - 1;
    }
    if c != '.' {
      assert DotFrom(s, 0) <==> DotFrom(s, 1);
    }
  }

  lemma InLocalStep(s: string)
    requires s != []
    ensures Accepted(InLocal, s) <==> EmailStep(InLocal, s[0]).Some? && Accepted(EmailStep(InLocal, s[0]).value, s[1..])
  {
    var c, t := s[0], s[1..];
    if c == '@' {
      forall i | 0 < i < |s| ensures !NoSpaceOrAt(s[..i]) {
        assert s[..i][0] == '@';
      }
      assert s[..0] == [] && s[1..] == t;
      assert Accepted(InLocal, s) <==> DomainPart(t);
    } else if !IsSpace(c) {
      LocalCons(s, 0);
      if Accepted(InLocal, s) {
        var i :| 0 <= i < |s| && s[i] == '@' && NoSpaceOrAt(s[..i]) && DomainPart(s[i + 1..]);
        assert i != 0;
      }
    } else {
      forall i | 0 < i < |s| ensures !NoSpaceOrAt(s[..i]) {
        assert s[..i][0] == c;
      }
      assert !Accepted(InLocal, s);
    }
  }

  lemma StartStep(s: string)
    requires s != []
    ensures Accepted(Start, s) <==> EmailStep(Start, s[0]).Some? && Accepted(EmailStep(Start, s[0]).value, s[1..])
  {
    var c := s[0];
    if !IsSpace(c) && c != '@' {
      LocalCons(s, 0);
    } else {
      forall i | 1 <= i < |s| ensures !NoSpaceOrAt(s[..i]) {
        assert s[..i][0] == c;
      }
    }
  }

  /** A run of `[^\s@]` around a `.` is a run on each side. */
  lemma NoSpaceOrAtAround(d: string, j: nat)
    requires j < |d| && d[j] == '.'
    ensures NoSpaceOrAt(d) <==> NoSpaceOrAt(d[..j]) && NoSpaceOrAt(d[j + 1..])
  {
    assert forall k :: 0 <= k < j ==> d[..j][k] == d[k];
    assert forall k :: j < k < |d| ==> d[j + 1..][k - j - 1] == d[k];
  }

  /** The matcher accepts exactly the strings the pattern describes. */
  lemma EmailMatcherIffPattern(s: string)
    ensures IsValidEmail(s) <==> MatchesEmailPattern(s)
  {
    EmailScanAccepts(s, Start);
    if MatchesEmailPattern(s) {
      PatternAccepted(s);
    }
    if Accepted(Start, s) {
      AcceptedPattern(s);
    }
  }

  lemma PatternAccepted(s: string)
    requires MatchesEmailPattern(s)
    ensures Accepted(Start, s)
  {
    var i, j :| 0 < i < |s| && 0 < j < |s| && i + 1 < j && j + 1 < |s| && s[i] == '@' && s[j] == '.'
      && NoSpaceOrAt(s[..i]) && NoSpaceOrAt(s[i + 1..j]) && NoSpaceOrAt(s[j + 1..]);
    var d := s[i + 1..];
    var jd := j - i - 1;
    assert d[jd] == '.' && d[..jd] == s[i + 1..j] && d[jd + 1..] == s[j + 1..];
    NoSpaceOrAtAround(d, jd);
    assert DotFrom(d, 1);
  }

  lemma AcceptedPattern(s: string)
    requires Accepted(Start, s)
    ensures MatchesEmailPattern(s)
  {
    var i :| 1 <= i < |s| && s[i] == '@' && NoSpaceOrAt(s[..i]) && DomainPart(s[i + 1..]);
    var d := s[i + 1..];
    var jd :| 1 <= jd < |d| - 1 && d[jd] == '.';
    var j := i + 1 + jd;
    assert d[..jd] == s[i + 1..j] && d[jd + 1..] == s[j + 1..];
    NoSpaceOrAtAround(d, jd);
    assert s[j] == '.' && i + 1 < j && j + 1 < |s|;
    assert NoSpaceOrAt(s[i + 1..j]) && NoSpaceOrAt(s[j + 1..]);
  }

  lemma {:induction false} OccurrencesConcat(a: string, b: string, c: char)
    ensures Occurrences(a + b, c) == Occurrences(a, c) + Occurrences(b, c)
  {
    if a != [] {
      assert (a + b)[1..] == a[1..] + b;
      OccurrencesConcat(a[1..], b, c);
    } else {
      assert a + b == b;
    }
  }

  lemma {:induction false} NoOccurrences(s: string, c: char)
    requires forall k :: 0 <= k < |s| ==> s[k] != c
    ensures Occurrences(s, c) == 0
  {
    if s != [] {
      NoOccurrences(s[1..], c);
    }
  }

  /** No character of `s` is whitespace. */
  predicate NoSpace(s: string) {
    forall k :: 0 <= k < |s| ==> !IsSpace(s[k])
  }

  lemma NoSpaceConcat(a: string, b: string)
    requires NoSpace(a) && NoSpace(b)
    ensures NoSpace(a + b)
  {
    assert forall k :: |a| <= k < |a + b| ==> (a + b)[k] == b[k - |a|];
  }

  /** A run of `[^\s@]` has no whitespace and no `@`. */
  lemma RunFacts(s: string)
    requires NoSpaceOrAt(s)
    ensures NoSpace(s) && Occurrences(s, '@') == 0
  {
    NoOccurrences(s, '@');
  }

  /**
   * What an accepted address looks like: no whitespace, exactly one `@`, which is
   * neither first nor last, and after it a `.` that is neither right after the `@`
   * nor the last character.
   */
  lemma ValidEmailShape(s: string)
    requires IsValidEmail(s)
    ensures NoSpace(s)
    ensures Occurrences(s, '@') == 1
    ensures exists i, j :: 0 < i && i + 1 < j < |s| - 1 && s[i] == '@' && s[j] == '.'
  {
    EmailMatcherIffPattern(s);
    var i, j :| 0 < i < |s| && 0 < j < |s| && i + 1 < j && j + 1 < |s| && s[i] == '@' && s[j] == '.'
      && NoSpaceOrAt(s[..i]) && NoSpaceOrAt(s[i + 1..j]) && NoSpaceOrAt(s[j + 1..]);
    SplitAddress(s, i, j);
    PartsShape(s[..i], s[i + 1..j], s[j + 1..]);
  }

  /** Cutting an address at its `@` and its `.` and gluing the pieces back gives the address. */
  lemma SplitAddress(s: string, i: nat, j: nat)
    requires i < j < |s| && s[i] == '@' && s[j] == '.'
    ensures s == s[..i] + "@" + s[i + 1..j] + "." + s[j + 1..]
  {
    assert s == s[..i] + s[i..j] + s[j..];
    assert s[i..j] == "@" + s[i + 1..j];
    assert s[j..] == "." + s[j + 1..];
  }

  /** Three runs of `[^\s@]` joined by `@` and `.` have no whitespace and exactly one `@`. */
  lemma PartsShape(a: string, b: string, c: string)
    requires NoSpaceOrAt(a) && NoSpaceOrAt(b) && NoSpaceOrAt(c)
    ensures NoSpace(a + "@" + b + "." + c) && Occurrences(a + "@" + b + "." + c, '@') == 1
  {
    RunFacts(a);
    RunFacts(b);
    RunFacts(c);
    NoSpaceConcat(a, "@");
    NoSpaceConcat(a + "@", b);
    NoSpaceConcat(a + "@" + b, ".");
    NoSpaceConcat(a + "@" + b + ".", c);
    OccurrencesConcat(a, "@", '@');
    OccurrencesConcat(a + "@", b, '@');
    OccurrencesConcat(a + "@" + b, ".", '@');
    OccurrencesConcat(a + "@" + b + ".", c, '@');
  }

  /** Conversely, three non-empty runs of `[^\s@]` joined by `@` and `.` form an accepted address. */
  lemma EmailFromParts(local: string, host: string, tld: string)
    requires local != [] && host != [] && tld != []
    requires NoSpaceOrAt(local) && NoSpaceOrAt(host) && NoSpaceOrAt(tld)
    ensures IsValidEmail(local + "@" + host + "." + tld)
  {
    var s := local + "@" + host + "." + tld;
    var i, j := |local|, |local| + 1 + |host|;
    assert s[..i] == local;
    assert s[i + 1..j] == host;
    assert s[j + 1..] == tld;
    assert s[i] == '@' && s[j] == '.';
    EmailMatcherIffPattern(s);
  }

  // ---------------------------------------------------------------------------
  // Dates: the pattern ^\d{4}-\d{2}-\d{2}$ and the round trip through `Date`
  // ---------------------------------------------------------------------------

  predicate IsDigit(c: char) {
    '0' <= c <= '9'
  }

  function DigitValue(c: char): (n: nat)
    requires IsDigit(c)
    ensures n < 10 && DigitChar(n) == c
  {
    c as int - '0' as int
  }

  /** `/^\d{4}-\d{2}-\d{2}$/`. */
  predicate HasDateShape(s: string) {
    && |s| == 10
    && IsDigit(s[0]) && IsDigit(s[1]) && IsDigit(s[2]) && IsDigit(s[3])
    && s[4] == '-'
    && IsDigit(s[5]) && IsDigit(s[6])
    && s[7] == '-'
    && IsDigit(s[8]) && IsDigit(s[9])
  }

  function YearOf(s: string): (y: nat)
    requires HasDateShape(s)
    ensures y <= 9999
  {
    1000 * DigitValue(s[0]) + 100 * DigitValue(s[1]) + 10 * DigitValue(s[2]) + DigitValue(s[3])
  }

  function MonthOf(s: string): (m: nat)
    requires HasDateShape(s)
    ensures m <= 99
  {
    10 * DigitValue(s[5]) + DigitValue(s[6])
  }

  function DayOf(s: string): (d: nat)
    requires HasDateShape(s)
    ensures d <= 99
  {
    10 * DigitValue(s[8]) + DigitValue(s[9])
  }

  /** The proleptic Gregorian leap-year rule that `Date` uses. */
  predicate IsLeapYear(y: int) {
    y % 4 == 0 && (y % 100 != 0 || y % 400 == 0)
  }

  function DaysInMonth(y: int, m: int): (n: nat)
    requires 1 <= m <= 12
    ensures 28 <= n <= 31
  {
    if m == 2 then (if IsLeapYear(y) then 29 else 28)
    else if m == 4 || m == 6 || m == 9 || m == 11 then 30
    else 31
  }

  /** A day of the Gregorian calendar with a four-digit year. */
  predicate IsRealDate(y: int, m: int, d: int) {
    0 <= y <= 9999 && 1 <= m <= 12 && 1 <= d <= DaysInMonth(y, m)
  }

  /**
   * `isValidDate`: the string has the `YYYY-MM-DD` shape and names a real day. For
   * such a string, `new Date(s).toISOString().slice(0, 10)` gives back `s` exactly
   * (see `ValidDateRoundTrip`); for a month or day out of range the timestamp is
   * NaN or lands on a different day, so the comparison fails.
   */
  predicate IsValidDate(s: string) {
    HasDateShape(s) && IsRealDate(YearOf(s), MonthOf(s), DayOf(s))
  }

  function Pad2(n: nat): (r: string)
    requires n < 100
    ensures |r| == 2
  {
    [DigitChar(n / 10), DigitChar(n % 10)]
  }

  function Pad4(n: nat): (r: string)
    requires n < 10000
    ensures |r| == 4
  {
    [DigitChar(n / 1000), DigitChar(n / 100 % 10), DigitChar(n / 10 % 10), DigitChar(n % 10)]
  }

  /** The first ten characters of `toISOString()` for a day: "YYYY-MM-DD". */
  function IsoDate(y: nat, m: nat, d: nat): (r: string)
    requires y < 10000 && m < 100 && d < 100
    ensures |r| == 10
  {
    Pad4(y) + "-" + Pad2(m) + "-" + Pad2(d)
  }

  lemma DigitCharValue(n: nat)
    requires n < 10
    ensures IsDigit(DigitChar(n)) && DigitValue(DigitChar(n)) == n
  {
  }

  /** Two digits written out by `Pad2` are the digits they came from. */
  lemma Pad2Digits(a: nat, b: nat)
    requires a < 10 && b < 10
    ensures Pad2(10 * a + b) == [DigitChar(a), DigitChar(b)]
  {
    assert (10 * a + b) / 10 == a && (10 * a + b) % 10 == b;
  }

  lemma Pad4Digits(a: nat, b: nat, c: nat, d: nat)
    requires a < 10 && b < 10 && c < 10 && d < 10
    ensures Pad4(1000 * a + 100 * b + 10 * c + d) == [DigitChar(a), DigitChar(b), DigitChar(c), DigitChar(d)]
  {
    var n := 1000 * a + 100 * b + 10 * c + d;
    assert n / 10 == 100 * a + 10 * b + c && n % 10 == d;
    assert n / 100 == 10 * a + b && n / 100 % 10 == b;
    assert n / 1000 == a;
    assert n / 10 % 10 == c;
  }

  /** An accepted date string is the ISO rendering of the day it names. */
  lemma ValidDateRoundTrip(s: string)
    requires IsValidDate(s)
    ensures IsoDate(YearOf(s), MonthOf(s), DayOf(s)) == s
  {
    Pad4Digits(DigitValue(s[0]), DigitValue(s[1]), DigitValue(s[2]), DigitValue(s[3]));
    Pad2Digits(DigitValue(s[5]), DigitValue(s[6]));
    Pad2Digits(DigitValue(s[8]), DigitValue(s[9]));
    assert s == [s[0], s[1], s[2], s[3]] + "-" + [s[5], s[6]] + "-" + [s[8], s[9]];
  }

  /** The four decimal digits of a year below 10000. */
  lemma YearDigits(y: nat)
    requires y < 10000
    ensures y / 1000 < 10 && y / 100 % 10 < 10 && y / 10 % 10 < 10 && y % 10 < 10
    ensures y == 1000 * (y / 1000) + 100 * (y / 100 % 10) + 10 * (y / 10 % 10) + y % 10
  {
    assert y == 10 * (y / 10) + y % 10;
    assert y / 10 == 10 * (y / 100) + y / 10 % 10;
    assert y / 100 == 10 * (y / 1000) + y / 100 % 10;
  }

  /** Every real day with a four-digit year renders to an accepted string naming that same day. */
  lemma IsoDateIsValid(y: nat, m: nat, d: nat)
    requires IsRealDate(y, m, d)
    ensures IsValidDate(IsoDate(y, m, d))
    ensures YearOf(IsoDate(y, m, d)) == y && MonthOf(IsoDate(y, m, d)) == m && DayOf(IsoDate(y, m, d)) == d
  {
    var r := IsoDate(y, m, d);
    YearDigits(y);
    var y0, y1, y2, y3 := y / 1000, y / 100 % 10, y / 10 % 10, y % 10;
    var m0, m1, d0, d1 := m / 10, m % 10, d / 10, d % 10;
    assert m == 10 * m0 + m1 && d == 10 * d0 + d1;
    DigitCharValue(y0);
    DigitCharValue(y1);
    DigitCharValue(y2);
    DigitCharValue(y3);
    DigitCharValue(m0);
    DigitCharValue(m1);
    DigitCharValue(d0);
    DigitCharValue(d1);
    assert r == [DigitChar(y0), DigitChar(y1), DigitChar(y2), DigitChar(y3), '-',
                 DigitChar(m0), DigitChar(m1), '-', DigitChar(d0), DigitChar(d1)];
  }

  // ---------------------------------------------------------------------------
  // Worked examples
  // ---------------------------------------------------------------------------

  /** A string without `@` is never an accepted address. */
  lemma NoAtNotEmail(s: string)
    requires forall k :: 0 <= k < |s| ==> s[k] != '@'
    ensures !IsValidEmail(s)
  {
    if IsValidEmail(s) {
      ValidEmailShape(s);
      NoOccurrences(s, '@');
    }
  }

  lemma EmailExamples()
    ensures IsValidEmail("jane@example.com")
    ensures !IsValidEmail("bad-email")
  {
    EmailFromParts("jane", "example", "com");
    assert "jane" + "@" + "example" + "." + "com" == "jane@example.com";
    NoAtNotEmail("bad-email");
  }

  lemma DateExamples()
    ensures IsValidDate("2024-01-15") && IsValidDate("2024-02-29")
    ensures !IsValidDate("2023-02-29") && !IsValidDate("2024-13-40") && !IsValidDate("2024-1-15")
  {
  }

  /**
   * The record with an empty name, e-mail `bad-email`, grade 150, an empty course and
   * date `2024-13-40`: what the row `,bad-email,150,,2024-13-40` becomes at clock 0
   * (`CsvParser.BadRowFromCsv`).
   */
  const BadRow := Student("temp-0-0", "", "bad-email", Num(150.0), "", "2024-13-40")

  lemma BadRowBreaks()
    ensures Broken(BadRow, NameRequired) && !Broken(BadRow, EmailRequired) && Broken(BadRow, EmailNotValid)
    ensures !Broken(BadRow, GradeNotNumber) && Broken(BadRow, GradeOutOfRange)
    ensures Broken(BadRow, CourseRequired) && Broken(BadRow, EnrollmentDateNotValid)
  {
    EmailExamples();
    assert !IsValidDate("2024-13-40");
    assert Blank("") && !Blank("bad-email");
  }

  /** That record breaks five rules, reported in checking order. */
  lemma ValidateStudentExample()
    ensures var errs := ValidateStudent(BadRow, 2);
      && errs == [ErrorOf(2, NameRequired), ErrorOf(2, EmailNotValid), ErrorOf(2, GradeOutOfRange),
                  ErrorOf(2, CourseRequired), ErrorOf(2, EnrollmentDateNotValid)]
      && errs[1].message() == "Email is not valid"
  {
    BadRowBreaks();
    BreaksAllButTwo(BadRow, 2);
  }

  lemma BreaksAllButTwo(s: Student, rowNum: int)
    requires Broken(s, NameRequired) && !Broken(s, EmailRequired) && Broken(s, EmailNotValid)
    requires !Broken(s, GradeNotNumber) && Broken(s, GradeOutOfRange)
    requires Broken(s, CourseRequired) && Broken(s, EnrollmentDateNotValid)
    ensures ValidateStudent(s, rowNum) == [ErrorOf(rowNum, NameRequired), ErrorOf(rowNum, EmailNotValid),
      ErrorOf(rowNum, GradeOutOfRange), ErrorOf(rowNum, CourseRequired), ErrorOf(rowNum, EnrollmentDateNotValid)]
  {
    assert ErrorsFrom(s, rowNum, 4) == [ErrorOf(rowNum, GradeOutOfRange), ErrorOf(rowNum, CourseRequired), ErrorOf(rowNum, EnrollmentDateNotValid)];
  }
}
