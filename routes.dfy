/**
 * app/routes.py without the web framework: each handler takes what the
 * request carries and returns a status and a body. The two query handlers
 * index the service's dict without checking for an "error" entry; on an
 * error dict that lookup raises a KeyError, which the model returns as
 * the outcome `KeyErrorRaised` rather than as a response.
 */
module Routes {
  import opened Wrappers
  import opened Models
  import opened Services

  datatype Body =
    | Message(message: string)
    | ValidationErrors(errors: seq<ErrorDetail>)
    | SubjectBody(subjectGrades: SubjectGrades)
    | StudentBody(studentGrades: StudentGrades)

  datatype Response = Response(status: int, body: Body)

  /** A handler either returns a response or raises a KeyError for a missing dict key. */
  datatype Outcome = Completed(response: Response) | KeyErrorRaised(key: string)

  const WelcomeMessage := "Welcome to the Student Grading System!"
  const SubmittedMessage := "Grade submitted successfully"

  /** `GET /` */
  function Home(): (r: Response)
    ensures r.status == 200 && r.body == Message(WelcomeMessage)
  {
    Response(200, Message(WelcomeMessage))
  }

  /**
   * `POST /grades/submit`: an invalid body is answered with 400 and the
   * validation errors and never reaches the service; a valid one is handed
   * to the service once and answered with 201, whatever the service returns.
   */
  method SubmitGrade(service: GradeService, body: map<string, JsonValue>, fault: Option<string>) returns (r: Response)
    modifies service
    ensures Validate(body).Failure? ==> r == Response(400, ValidationErrors(Validate(body).error))
    ensures Validate(body).Failure? ==> service.records == old(service.records)
    ensures Validate(body).Success? ==> r == Response(201, Message(SubmittedMessage))
    ensures Validate(body).Success? && fault.Some? ==> service.records == old(service.records)
    ensures Validate(body).Success? && fault.None? ==>
      var submission := Validate(body).value;
      service.records == Upserted(old(service.records), submission.studentId, submission.subject, submission.grade)
  {
    var validated := Validate(body);
    if validated.Failure? {
      return Response(400, ValidationErrors(validated.error));
    }
    var discarded := service.SubmitGrade(validated.value, fault);
    r := Response(201, Message(SubmittedMessage));
  }

  /**
   * `GET /grades/subject/<subject>`: the service's statistics as a
   * `SubjectGrades` with status 200, `students_count` renamed to
   * `student_count`. An error dict makes the handler raise on that key.
   */
  function GetGradesBySubject(service: GradeService, subject: string, fault: Option<string>): (o: Outcome)
    reads service
    ensures fault.None? ==> (o.Completed? <==> exists i :: 0 <= i < |service.records| && service.records[i].subject == subject)
    ensures o.KeyErrorRaised? <==> Services.GetGradesBySubject(service.records, subject, fault).Error?
    ensures o.KeyErrorRaised? ==> o.key == "students_count"
    ensures o.Completed? ==>
      var stats := Services.GetGradesBySubject(service.records, subject, fault).value;
      o.response == Response(200, SubjectBody(SubjectGrades(subject, stats.studentsCount, stats.averageGrade, stats.medianGrade)))
  {
    match Services.GetGradesBySubject(service.records, subject, fault)
    case Ok(stats) =>
      Completed(Response(200, SubjectBody(SubjectGrades(subject, stats.studentsCount, stats.averageGrade, stats.medianGrade))))
    case Error(_) => KeyErrorRaised("students_count")
  }

  /**
   * `GET /grades/student/<student_id>`: the path's `student_id` with the
   * service's grade dict and average, status 200. An error dict makes the
   * handler raise on the key `grades`.
   */
  function GetGradesByStudent(service: GradeService, studentId: string, fault: Option<string>): (o: Outcome)
    reads service
    ensures fault.None? ==> (o.Completed? <==> exists i :: 0 <= i < |service.records| && service.records[i].studentId == studentId)
    ensures o.KeyErrorRaised? <==> Services.GetGradesByStudent(service.records, studentId, fault).Error?
    ensures o.KeyErrorRaised? ==> o.key == "grades"
    ensures o.Completed? ==>
      var data := Services.GetGradesByStudent(service.records, studentId, fault).value;
      o.response == Response(200, StudentBody(StudentGrades(studentId, data.grades, data.averageGrade)))
  {
    match Services.GetGradesByStudent(service.records, studentId, fault)
    case Ok(data) => Completed(Response(200, StudentBody(StudentGrades(studentId, data.grades, data.averageGrade))))
    case Error(_) => KeyErrorRaised("grades")
  }

  /** A grade of 105 is answered with 400 and one error at `grade` saying it must be at most 100. */
  lemma InvalidGradeExample(id: string)
    ensures var body := map[StudentIdField := JString(id), SubjectField := JString("Math"),
                            GradeField := JInt(105), "is_test_data" := JOther];
      Validate(body).Failure? && Validate(body).error == [ErrorDetail([GradeField], TooHighMessage)]
  {
    var body := map[StudentIdField := JString(id), SubjectField := JString("Math"), GradeField := JInt(105), "is_test_data" := JOther];
    GradeAboveMaximumRejected(body);
  }

  /**
   * Submitting {s1, Math, 95} with the extra flag `is_test_data` to an
   * empty collection is answered with 201, and reading the student back
   * through the student handler then gives 200 with {Math: 95} and 95.
   */
  method SubmitThenReadScenario() returns (submitted: Response, read: Outcome)
    ensures submitted == Response(201, Message(SubmittedMessage))
    ensures read == Completed(Response(200, StudentBody(StudentGrades("s1", map["Math" := 95], 95.0))))
  {
    var service := new GradeService([]);
    var body := map[StudentIdField := JString("s1"), SubjectField := JString("Math"), GradeField := JInt(95),
                    "is_test_data" := JOther];
    assert Acceptable(body);
    assert Validate(body) == Success(GradeSubmission("s1", "Math", 95));
    submitted := SubmitGrade(service, body, None);
    assert service.records == [GradeRecord("s1", "Math", 95)];
    read := GetGradesByStudent(service, "s1", None);
    assert service.records[..0] == [];
    assert StudentGradeMap(service.records, "s1") == map["Math" := 95];
    assert SubjectOrder(service.records, "s1") == ["Math"];
  }
}
