# Student grading system: a Dafny model of the grade service

This project models the core of a small grade-tracking web API. Clients submit a
student's grade for a subject, then ask for statistics per subject (record count,
mean, median) or per student (each subject's grade, mean).

The model has five modules:

- `Wrappers`: `Option` and `Result`.
- `Statistics`: the arithmetic the service does on grade lists. It covers `sum`,
  an ascending sort, the mean and the median split at `len // 2`, plus an
  order-free sum of a map's values. Means and medians are exact `real`s.
- `Models` (app/models.py): validating a submitted JSON object into a
  `GradeSubmission`, and the two response models `SubjectGrades` and `StudentGrades`.
- `Services` (app/services.py): the class `GradeService`, whose field `records`
  (a sequence in insertion order) stands for the `grades` collection.
  - `SubmitGrade` upserts. It sets the grade on the first record matching
    (student, subject); when none matches, it appends a new record.
  - `GetGradesBySubject` and `GetGradesByStudent` are pure functions of the
    records. Each returns its statistics or an error string.
- `Routes` (app/routes.py): the four handlers, without the web framework.

The model follows the code, including in places where it behaves differently
from what a client of such a service would expect:

- Identifiers are not required to be non-empty. The code declares only `str`
  fields, so empty strings are accepted (`Models.EmptyIdentifiersAccepted`).
- A not-found result does not become a 404, and a storage failure does not reach
  the client. The query handlers index the error dict, which raises a `KeyError`
  (in the model, `KeyErrorRaised`). The submit handler drops the service's error
  and still answers 201.
- Nothing enforces one record per (student, subject). The collection can
  hold duplicates when records are inserted directly. With duplicates, the upsert
  changes the FIRST matching record, but the student dict keeps the LAST one. So a
  submission can fail to show up when the student is read back
  (`Services.DuplicateKeysHideSubmission`). With unique keys it always shows up
  (`Services.SubmitThenQueryStudent`).

A store call that fails is modelled as the parameter `fault: Option<string>`:
`Some(text)` when the driver raises an error with message `text`, `None` when the
call succeeds.

## Model

| member | source | states |
|---|---|---|
| `Statistics.Mean` | app/services.py:38 | `sum / len` times the number of grades gives back their sum |
| `Statistics.Median` | app/services.py:39-45 | the median is half the sum of the sorted grades at positions `(len - 1) // 2` and `len // 2`, which are the same position for an odd count |
| `Statistics.MiddleOf` | app/services.py:40-45 | on a list, the `len // 2` split gives half the sum of the elements at `(len - 1) // 2` and `len // 2` |
| `Statistics.SortAscending` | app/services.py:39 | `sorted(grade_list)` is ascending and a permutation (same multiset) of the grades |
| `Statistics.SortedUnique` | app/services.py:39 | two ascending lists with the same multiset are equal, so the sorted list is determined by the grades alone |
| `Statistics.MeanBounds` | app/services.py:38 | `sum / len` lies between the smallest and the largest grade |
| `Statistics.MedianBounds` | app/services.py:39-45 | the median lies between the smallest and the largest grade |
| `Statistics.MedianSplitsHalves` | app/services.py:39-45 | at least half of the grades are at most the median and at least half are at least it, for odd and even counts |
| `Statistics.OrderIndependent` | app/services.py:38-45 | mean and median depend only on the multiset of grades, not on their order |
| `Statistics.UniformMeanMedian` | app/services.py:38-45 | when every grade equals v, mean and median are v |
| `Statistics.EvenMedianExample` | app/services.py:42-43 | grades [90, 85] have median 87.5, the mean of the two middle grades |
| `Statistics.SumInOrderIsMapSum` | app/services.py:70 | summing a dict's values in key order visits `len(dict)` values and gives the order-free sum of the map |
| `Models.ValidateString` | app/models.py:13-14 | a required `str` field succeeds exactly when present as a string, carrying it unchanged; otherwise one error located at that field, "Field required" when it is missing and "Input should be a valid string" when it is not a string |
| `Models.ValidateGrade` | app/models.py:15 | `grade` succeeds exactly when an integer in [0, 100]; otherwise one error at `grade`: "Field required" when missing, "Input should be a valid integer" when not an integer, "Input should be less than or equal to 100" above 100, and "Input should be greater than or equal to 0" below 0 |
| `Models.Validate` | app/models.py:4-15 | accepted iff both ids are strings and the grade is an integer with 0 <= grade <= 100; fields carried unchanged; otherwise a non-empty error list whose locations are declared fields, with the bound messages present iff the bound is violated |
| `Models.EachInvalidFieldReported` | app/models.py:4-15 | a rejected body has an error located at `student_id`, `subject` or `grade` exactly when that field is invalid; no field is reported twice; each error is the one that field's check (`ValidateString`, `ValidateGrade`) gives |
| `Models.GradeAboveMaximumRejected` | app/models.py:15 | with valid ids, a grade above 100 yields exactly one error, at `grade`, with the "less than or equal to 100" message |
| `Models.GradeBelowMinimumRejected` | app/models.py:15 | with valid ids, a negative grade yields exactly one error, at `grade`, with the "greater than or equal to 0" message |
| `Models.ExtraFieldIgnored` | app/models.py:13-15 | adding an undeclared field such as `is_test_data` does not change the validation result |
| `Models.EmptyIdentifiersAccepted` | app/models.py:13-14 | empty `student_id` and `subject` are accepted: no non-empty constraint |
| `Services.FindRecord` | app/services.py:14-15 | the upsert filter matches the returned position and no earlier one; `None` exactly when no record has the key |
| `Services.Upserted` | app/services.py:14-18 | the first matching record gets the new grade and nothing else changes; with no match, the old records followed by one new record |
| `Services.GradeService.SubmitGrade` | app/services.py:8-20 | on success the collection becomes the upsert of the old one and no error is returned; on a store failure "Failed to submit grade: …" is returned and, by the model's assumption that a failed call wrote nothing, the collection is unchanged |
| `Services.UpsertStoresGrade` | app/services.py:14-18 | after the upsert the first record with the key holds the grade; the length grows by one iff no record matched |
| `Services.UpsertIdempotent` | app/services.py:14-18 | the same submission twice leaves the collection as once |
| `Services.UpsertLastWriteWins` | app/services.py:14-18 | a second submission for the key overwrites the first: the result equals submitting only the second |
| `Services.UpsertKeepsKeysUnique` | app/services.py:14-18 | the upsert never creates a second record for a key |
| `Services.GradesOfSubject` | app/services.py:32-33 | as many grades as records whose subject matches, each from such a record; no deduplication by student |
| `Services.GradesOfOneRecord` | app/services.py:32-33 | one record contributes its own grade exactly when its subject matches, and nothing otherwise; with `GradesOfSubjectAppend` this fixes the list in collection order |
| `Services.GradesOfSubjectAppend` | app/services.py:32-33 | the grades of two concatenated collections are the grades of the first followed by those of the second |
| `Services.GradesOfSubjectCounts` | app/services.py:32-33 | each grade occurs in the list exactly as often as there are records for the subject holding it |
| `Services.GetGradesBySubject` | app/services.py:23-55 | not-found error "No grades found for the subject '…'" exactly when no record has the subject; `students_count` is the number of matching records; `average_grade` and `median_grade` are `Statistics.Mean` and `Statistics.Median` of the matching grades; store failure gives "Failed to retrieve grades for subject: …" |
| `Services.SubjectAverageMeaning` | app/services.py:38 | the average is the sum of the matching grades divided by their count and lies between their minimum and maximum |
| `Services.SubjectMedianMeaning` | app/services.py:39-45 | the reply's median is `Statistics.Median` of the matching grades (for [80, 90], 85), lies between their minimum and maximum, and splits them into halves |
| `Services.SubjectStatsIgnoreOrder` | app/services.py:32-45 | the subject's statistics do not depend on the order of the records in the collection |
| `Services.UniformSubject` | app/services.py:32-52 | N matching records all holding v give count N, average v and median v |
| `Services.SubjectExample` | tests/test_routs.py:87-102 | three records of 80 in "YYY" give count 3, average 80, median 80 |
| `Services.StudentGradeMap` | app/services.py:64-65 | the dict's keys are exactly the subjects of the student's records |
| `Services.SubjectOrder` | app/services.py:65 | the dict's iteration order lists each of those subjects once |
| `Services.LastRecordWins` | app/services.py:65 | for a duplicated subject, the dict holds the grade of the student's last record for it |
| `Services.GetGradesByStudent` | app/services.py:58-78 | not-found error "No grades found for student '…'" exactly when the student has no record; the dict is `StudentGradeMap` of the records, so its keys are the student's subjects and each value is the grade of the last record for it (`LastRecordWins`); the average is the sum of the map's values over its size; store failure gives "Failed to retrieve grades for student: …" |
| `Services.SubmitThenQueryStudent` | app/services.py:14-70 | with at most one record per key, a submitted grade is read back by the student query |
| `Services.DuplicateKeysHideSubmission` | app/services.py:14-65 | with two records for one key, the upsert updates the first but the student query reports the second |
| `Services.StudentExample` | tests/test_routs.py:58-79 | records Math 90 and Science 85 give the dict {Math: 90, Science: 85} and average 87.5 |
| `Routes.Home` | app/routes.py:10-15 | `GET /` is always 200 with "Welcome to the Student Grading System!" |
| `Routes.SubmitGrade` | app/routes.py:18-41 | an invalid body gives 400 with the validation errors and leaves the collection unchanged; a valid one is upserted once and gives 201 "Grade submitted successfully", also when the store fails (then the collection is assumed unchanged) |
| `Routes.GetGradesBySubject` | app/routes.py:44-65 | 200 with `student_count` taken from `students_count` and average and median passed through, exactly when the subject has records; otherwise a KeyError on `students_count` |
| `Routes.GetGradesByStudent` | app/routes.py:68-86 | 200 with the path's `student_id` and the service's grades and average, exactly when the student has records; otherwise a KeyError on `grades` |
| `Routes.SubmitThenReadScenario` | tests/test_routs.py:14-30 | submitting {s1, Math, 95} with `is_test_data` to an empty collection answers 201; the stored grade is then read back through the student handler (not `find_one`), which answers 200 with {Math: 95} and average 95 |
| `Routes.InvalidGradeExample` | tests/test_routs.py:33-50 | a grade of 105 gives one error at `grade` with "Input should be less than or equal to 100" |

## Left out

- The web framework: `Blueprint`, `jsonify`, `request`, `create_app` (app/__init__.py). Handlers take the parsed body or path value and return a status and a body.
- JSON parsing: a malformed body, or a body that is not an object, is not modelled. The request body is a map from field names to values.
- How the framework turns the handlers' `KeyError` into a response (a 500 page). The model stops at `KeyErrorRaised`.
- MongoDB: the per-call connection (`get_db`, app/db.py), `_id`, and the extra fields the tests store (`is_test_data`). The collection is a sequence of (student, subject, grade) records.
- Storage failures: a failure is one `fault` parameter per call. Driver behaviour, and failures in the middle of iterating a cursor, are not simulated.
- Services.GradeService.SubmitGrade: assumes a failed `update_one` changed nothing. MongoDB gives no such promise. A `PyMongoError` can be raised after the server has applied the update, for example on a write-concern error or on a network error after the write (also during the driver's automatic retry). In those cases the real collection holds the upserted record, while the model's is unchanged. `Routes.SubmitGrade` inherits this assumption.
- Which record `update_one` picks: the model assumes the first matching record in insertion order.
- The order in which `find` returns records: the model assumes insertion order, although MongoDB promises no order without a sort. The student dict's key order (`Services.SubjectOrder`) and which duplicate wins (`Services.LastRecordWins`, `Services.DuplicateKeysHideSubmission`) depend on this. The subject statistics do not (`Services.SubjectStatsIgnoreOrder`).
- Concurrent submissions: the model is sequential.
- Test housekeeping: the fixtures and `delete_many` in tests/conftest.py.
- Float formatting and IEEE rounding: averages and medians are exact `real`s, so 80 and 80.0 are the same value.
- Models.ValidateGrade: does not model pydantic's lax coercion. A string such as "95", a float such as 95.0, or a boolean given for `grade` is treated as a type error, although pydantic accepts some of them.
- Models.Validate: reports only `loc` and `msg` of each error, not pydantic's `type`, `input`, `ctx` and `url`. The text for a missing field is pydantic's "Field required", and a non-string identifier gets its "Input should be a valid string". For every non-integer `grade` the model uses the bare "Input should be a valid integer". Pydantic uses that text only for values such as null, arrays and objects. The model does not reproduce "Input should be a valid integer, unable to parse string as an integer" (an unparsable string) or "Input should be a valid integer, got a number with a fractional part" (a fractional float). The only text the tests check is the upper-bound message.
