/**
 * app/models.py: the `GradeSubmission` request model, whose validation
 * accepts a JSON object with string `student_id` and `subject` and an
 * integer `grade` in [0, 100], and the two response models.
 */
module Models {
  import opened Wrappers

  /** A value of the submitted JSON object, as far as validation tells them apart. */
  datatype JsonValue =
    | JString(s: string)
    | JInt(n: int)
    | JOther      // null, a boolean, a float, an array or an object

  /** One entry of the validation error list: where (`loc`) and what (`msg`). */
  datatype ErrorDetail = ErrorDetail(loc: seq<string>, msg: string)

  /** A validated submission: exactly the three declared fields. */
  datatype GradeSubmission = GradeSubmission(studentId: string, subject: string, grade: int)

  /** The statistics of one subject, as returned by the subject route. */
  datatype SubjectGrades = SubjectGrades(subject: string, studentCount: int, averageGrade: real, medianGrade: real)

  /** The grades and average of one student, as returned by the student route. */
  datatype StudentGrades = StudentGrades(studentId: string, grades: map<string, int>, averageGrade: real)

  const StudentIdField := "student_id"
  const SubjectField := "subject"
  const GradeField := "grade"
  const DeclaredFields: set<string> := {StudentIdField, SubjectField, GradeField}

  const MinGrade := 0
  const MaxGrade := 100

  const MissingMessage := "Field required"
  const NotStringMessage := "Input should be a valid string"
  const NotIntegerMessage := "Input should be a valid integer"
  const TooLowMessage := "Input should be greater than or equal to 0"
  const TooHighMessage := "Input should be less than or equal to 100"

  /** The range constraint `Field(..., ge=0, le=100)`, both bounds inclusive. */
  predicate ValidGrade(g: int)
  {
    MinGrade <= g <= MaxGrade
  }

  predicate IsStringAt(body: map<string, JsonValue>, name: string)
  {
    name in body && body[name].JString?
  }

  predicate IsIntAt(body: map<string, JsonValue>, name: string)
  {
    name in body && body[name].JInt?
  }

  /** A required `str` field. */
  function ValidateString(body: map<string, JsonValue>, name: string): (r: Result<string, ErrorDetail>)
    ensures r.Success? <==> IsStringAt(body, name)
    ensures r.Success? ==> r.value == body[name].s
    ensures r.Failure? ==> r.error.loc == [name]
    ensures r.Failure? ==> r.error.msg == (if name in body then NotStringMessage else MissingMessage)
  {
    if name !in body then Failure(ErrorDetail([name], MissingMessage))
    else match body[name]
      case JString(s) => Success(s)
      case _ => Failure(ErrorDetail([name], NotStringMessage))
  }

  /** The required `int` field `grade` with its bounds. */
  function ValidateGrade(body: map<string, JsonValue>): (r: Result<int, ErrorDetail>)
    ensures r.Success? <==> IsIntAt(body, GradeField) && ValidGrade(body[GradeField].n)
    ensures r.Success? ==> r.value == body[GradeField].n
    ensures r.Failure? ==> r.error.loc == [GradeField]
    ensures GradeField !in body ==> r == Failure(ErrorDetail([GradeField], MissingMessage))
    ensures GradeField in body && !body[GradeField].JInt? ==> r == Failure(ErrorDetail([GradeField], NotIntegerMessage))
    ensures IsIntAt(body, GradeField) && body[GradeField].n > MaxGrade ==> r.Failure? && r.error.msg == TooHighMessage
    ensures IsIntAt(body, GradeField) && body[GradeField].n < MinGrade ==> r.Failure? && r.error.msg == TooLowMessage
  {
    if GradeField !in body then Failure(ErrorDetail([GradeField], MissingMessage))
    else match body[GradeField]
      case JInt(n) =>
        if n < MinGrade then Failure(ErrorDetail([GradeField], TooLowMessage))
        else if n > MaxGrade then Failure(ErrorDetail([GradeField], TooHighMessage))
        else Success(n)
      case _ => Failure(ErrorDetail([GradeField], NotIntegerMessage))
  }

  function ErrorsOf<T>(r: Result<T, ErrorDetail>): seq<ErrorDetail>
  {
    if r.Failure? then [r.error] else []
  }

  /** Field-level predicate for an acceptable submission body. */
  predicate Acceptable(body: map<string, JsonValue>)
  {
    && IsStringAt(body, StudentIdField)
    && IsStringAt(body, SubjectField)
    && IsIntAt(body, GradeField)
    && ValidGrade(body[GradeField].n)
  }

  /**
   * `GradeSubmission(**body)`: either the validated submission or the list
   * of every violated field, in declaration order.
   */
  function Validate(body: map<string, JsonValue>): (r: Result<GradeSubmission, seq<ErrorDetail>>)
    ensures r.Success? <==> Acceptable(body)
    ensures r.Success? ==> r.value == GradeSubmission(body[StudentIdField].s, body[SubjectField].s, body[GradeField].n)
    ensures r.Failure? ==> r.error != []
    ensures r.Failure? ==> forall e :: e in r.error ==> |e.loc| == 1 && e.loc[0] in DeclaredFields
    ensures r.Failure? ==> (ErrorDetail([GradeField], TooHighMessage) in r.error <==> IsIntAt(body, GradeField) && body[GradeField].n > MaxGrade)
    ensures r.Failure? ==> (ErrorDetail([GradeField], TooLowMessage) in r.error <==> IsIntAt(body, GradeField) && body[GradeField].n < MinGrade)
  {
    var studentId := ValidateString(body, StudentIdField);
    var subject := ValidateString(body, SubjectField);
    var grade := ValidateGrade(body);
    if studentId.Success? && subject.Success? && grade.Success? then
      Success(GradeSubmission(studentId.value, subject.value, grade.value))
    else
      Failure(ErrorsOf(studentId) + ErrorsOf(subject) + ErrorsOf(grade))
  }

  /** Whether some error of the list is located at field `name`. */
  predicate ReportedAt(errors: seq<ErrorDetail>, name: string)
  {
    exists e :: e in errors && e.loc == [name]
  }

  /**
   * A rejected body is reported field by field: there is an error located
   * at a declared field exactly when that field is invalid, no field is
   * reported twice, and each error is the one that field's check gives.
   */
  lemma EachInvalidFieldReported(body: map<string, JsonValue>)
    requires Validate(body).Failure?
    ensures ReportedAt(Validate(body).error, StudentIdField) <==> !IsStringAt(body, StudentIdField)
    ensures ReportedAt(Validate(body).error, SubjectField) <==> !IsStringAt(body, SubjectField)
    ensures ReportedAt(Validate(body).error, GradeField)
            <==> !(IsIntAt(body, GradeField) && ValidGrade(body[GradeField].n))
    ensures var errors := Validate(body).error;
      forall i, j :: 0 <= i < j < |errors| ==> errors[i].loc != errors[j].loc
    ensures forall e :: e in Validate(body).error ==>
      || (ValidateString(body, StudentIdField).Failure? && e == ValidateString(body, StudentIdField).error)
      || (ValidateString(body, SubjectField).Failure? && e == ValidateString(body, SubjectField).error)
      || (ValidateGrade(body).Failure? && e == ValidateGrade(body).error)
  {
    var studentId := ValidateString(body, StudentIdField);
    var subject := ValidateString(body, SubjectField);
    var grade := ValidateGrade(body);
    var errors := Validate(body).error;
    assert errors == ErrorsOf(studentId) + ErrorsOf(subject) + ErrorsOf(grade);
    if studentId.Failure? {
      assert studentId.error in errors;
    }
    if subject.Failure? {
      assert subject.error in errors;
    }
    if grade.Failure? {
      assert grade.error in errors;
    }
  }

  /**
   * A grade above 100 with well-formed identifiers yields exactly one error,
   * located at `grade`, saying the value must be at most 100.
   */
  lemma GradeAboveMaximumRejected(body: map<string, JsonValue>)
    requires IsStringAt(body, StudentIdField) && IsStringAt(body, SubjectField)
    requires IsIntAt(body, GradeField) && body[GradeField].n > MaxGrade
    ensures Validate(body).Failure? && Validate(body).error == [ErrorDetail([GradeField], TooHighMessage)]
  {
    assert ErrorsOf(ValidateString(body, StudentIdField)) == [];
    assert ErrorsOf(ValidateString(body, SubjectField)) == [];
    assert ErrorsOf(ValidateGrade(body)) == [ErrorDetail([GradeField], TooHighMessage)];
  }

  /** The symmetric case: a negative grade yields exactly one error at `grade`. */
  lemma GradeBelowMinimumRejected(body: map<string, JsonValue>)
    requires IsStringAt(body, StudentIdField) && IsStringAt(body, SubjectField)
    requires IsIntAt(body, GradeField) && body[GradeField].n < MinGrade
    ensures Validate(body).Failure? && Validate(body).error == [ErrorDetail([GradeField], TooLowMessage)]
  {
    assert ErrorsOf(ValidateString(body, StudentIdField)) == [];
    assert ErrorsOf(ValidateString(body, SubjectField)) == [];
    assert ErrorsOf(ValidateGrade(body)) == [ErrorDetail([GradeField], TooLowMessage)];
  }

  /**
   * Fields other than the three declared ones neither change the outcome
   * nor reach the validated submission.
   */
  lemma ExtraFieldIgnored(body: map<string, JsonValue>, name: string, value: JsonValue)
    requires name !in DeclaredFields
    ensures Validate(body[name := value]) == Validate(body)
  {
    assert forall f :: f in DeclaredFields ==> (f in body[name := value] <==> f in body);
    assert forall f :: f in DeclaredFields && f in body ==> body[name := value][f] == body[f];
  }

  /** The two empty strings are valid identifiers: no non-empty constraint is imposed. */
  lemma EmptyIdentifiersAccepted(body: map<string, JsonValue>, g: int)
    requires body == map[StudentIdField := JString(""), SubjectField := JString(""), GradeField := JInt(g)]
    requires ValidGrade(g)
    ensures Validate(body) == Success(GradeSubmission("", "", g))
  {
  }
}
