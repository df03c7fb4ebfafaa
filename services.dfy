/**
 * app/services.py: `GradeService`, which upserts grade records into the
 * `grades` collection and computes per-subject and per-student statistics
 * from the records it finds there.
 *
 * The collection is a sequence of records in its natural (insertion)
 * order. It may hold several records with the same (student, subject)
 * key, because records can be inserted without going through the upsert.
 * A failing store call is the parameter `fault`: `Some(text)` when the
 * driver raises an error whose text is `text`, `None` when it succeeds.
 */
module Services {
  import opened Wrappers
  import opened Statistics
  import opened Models

  datatype GradeRecord = GradeRecord(studentId: string, subject: string, grade: int)

  /** What a service call returns: the result dict, or a dict with a single "error" entry. */
  datatype Reply<+T> = Ok(value: T) | Error(error: string)

  /** The dict returned by `get_grades_by_subject`. */
  datatype SubjectStats = SubjectStats(subject: string, studentsCount: nat, averageGrade: real, medianGrade: real)

  /** The dict returned by `get_grades_by_student`. */
  datatype StudentStats = StudentStats(studentId: string, grades: map<string, int>, averageGrade: real)

  const SubmitFailedPrefix := "Failed to submit grade: "
  const SubjectFailedPrefix := "Failed to retrieve grades for subject: "
  const StudentFailedPrefix := "Failed to retrieve grades for student: "

  function SubjectNotFound(subject: string): string
  {
    "No grades found for the subject '" + subject + "'"
  }

  function StudentNotFound(studentId: string): string
  {
    "No grades found for student '" + studentId + "'"
  }

  /** The upsert filter `{"student_id": studentId, "subject": subject}`. */
  predicate HasKey(r: GradeRecord, studentId: string, subject: string)
  {
    r.studentId == studentId && r.subject == subject
  }

  // ---------------------------------------------------------------------
  // submit_grade: update_one(filter, {"$set": {"grade": g}}, upsert=True)
  // ---------------------------------------------------------------------

  /** The position of the first record that the filter matches, if any. */
  function FindRecord(rs: seq<GradeRecord>, studentId: string, subject: string): (r: Option<nat>)
    ensures r.Some? ==> r.value < |rs| && HasKey(rs[r.value], studentId, subject)
    ensures r.Some? ==> forall j :: 0 <= j < r.value ==> !HasKey(rs[j], studentId, subject)
    ensures r.None? <==> forall j :: 0 <= j < |rs| ==> !HasKey(rs[j], studentId, subject)
  {
    if rs == [] then None
    else if HasKey(rs[0], studentId, subject) then Some(0)
    else match FindRecord(rs[1..], studentId, subject)
      case Some(i) => Some(i + 1)
      case None => None
  }

  /**
   * The collection after the upsert: the first matching record gets the new
   * grade; when nothing matches, a new record is appended.
   */
  function Upserted(rs: seq<GradeRecord>, studentId: string, subject: string, grade: int): (r: seq<GradeRecord>)
    ensures match FindRecord(rs, studentId, subject)
      case Some(i) => r == rs[i := rs[i].(grade := grade)]
      case None => r == rs + [GradeRecord(studentId, subject, grade)]
  {
    if rs == [] then [GradeRecord(studentId, subject, grade)]
    else if HasKey(rs[0], studentId, subject) then [rs[0].(grade := grade)] + rs[1..]
    else [rs[0]] + Upserted(rs[1..], studentId, subject, grade)
  }

  class GradeService {
    /** The `grades` collection. */
    var records: seq<GradeRecord>

    constructor (initial: seq<GradeRecord>)
      ensures records == initial
    {
      records := initial;
    }

    /** Upserts the submitted grade; returns the error text when the store call fails. */
    method SubmitGrade(submission: GradeSubmission, fault: Option<string>) returns (error: Option<string>)
      modifies this
      ensures fault.Some? ==> error == Some(SubmitFailedPrefix + fault.value) && records == old(records)
      ensures fault.None? ==> error.None?
      ensures fault.None? ==> records == Upserted(old(records), submission.studentId, submission.subject, submission.grade)
    {
      if fault.Some? {
        return Some(SubmitFailedPrefix + fault.value);
      }
      match FindRecord(records, submission.studentId, submission.subject) {
        case Some(i) =>
          records := records[i := records[i].(grade := submission.grade)];
        case None =>
          records := records + [GradeRecord(submission.studentId, submission.subject, submission.grade)];
      }
      error := None;
    }
  }

  /** After the upsert the first record with the key holds the new grade; one record is added iff none matched. */
  lemma {:induction false} UpsertStoresGrade(rs: seq<GradeRecord>, studentId: string, subject: string, grade: int)
    ensures var r := Upserted(rs, studentId, subject, grade);
      && FindRecord(r, studentId, subject).Some?
      && r[FindRecord(r, studentId, subject).value].grade == grade
      && |r| == if FindRecord(rs, studentId, subject).Some? then |rs| else |rs| + 1
  {
    if rs != [] && !HasKey(rs[0], studentId, subject) {
      var r := Upserted(rs, studentId, subject, grade);
      assert r[1..] == Upserted(rs[1..], studentId, subject, grade);
      UpsertStoresGrade(rs[1..], studentId, subject, grade);
    }
  }

  /** Submitting the same triple twice leaves the collection as submitting it once. */
  lemma {:induction false} UpsertIdempotent(rs: seq<GradeRecord>, studentId: string, subject: string, grade: int)
    ensures Upserted(Upserted(rs, studentId, subject, grade), studentId, subject, grade)
         == Upserted(rs, studentId, subject, grade)
  {
    if rs != [] && !HasKey(rs[0], studentId, subject) {
      var once := Upserted(rs, studentId, subject, grade);
      assert once[1..] == Upserted(rs[1..], studentId, subject, grade);
      UpsertIdempotent(rs[1..], studentId, subject, grade);
    }
  }

  /** A later submission for the same key overwrites the earlier one: last write wins. */
  lemma {:induction false} UpsertLastWriteWins(rs: seq<GradeRecord>, studentId: string, subject: string, first: int, second: int)
    ensures Upserted(Upserted(rs, studentId, subject, first), studentId, subject, second)
         == Upserted(rs, studentId, subject, second)
  {
    if rs != [] && !HasKey(rs[0], studentId, subject) {
      var once := Upserted(rs, studentId, subject, first);
      assert once[1..] == Upserted(rs[1..], studentId, subject, first);
      UpsertLastWriteWins(rs[1..], studentId, subject, first, second);
    }
  }

  /** At most one record per (student, subject) key. */
  ghost predicate UniqueKeys(rs: seq<GradeRecord>)
  {
    forall i, j :: 0 <= i < j < |rs| ==> !HasKey(rs[j], rs[i].studentId, rs[i].subject)
  }

  /** The upsert never creates a second record for a key. */
  lemma UpsertKeepsKeysUnique(rs: seq<GradeRecord>, studentId: string, subject: string, grade: int)
    requires UniqueKeys(rs)
    ensures UniqueKeys(Upserted(rs, studentId, subject, grade))
  {
    var r := Upserted(rs, studentId, subject, grade);
    if FindRecord(rs, studentId, subject).None? {
      assert forall i :: 0 <= i < |rs| ==> r[i] == rs[i];
      assert r[|rs|] == GradeRecord(studentId, subject, grade);
    }
  }

  // ---------------------------------------------------------------------
  // get_grades_by_subject
  // ---------------------------------------------------------------------

  /** The positions of the records whose subject is `subject`. */
  ghost function SubjectIndices(rs: seq<GradeRecord>, subject: string): set<nat>
  {
    set i: nat | i < |rs| && rs[i].subject == subject
  }

  lemma SubjectIndicesSplit(rs: seq<GradeRecord>, subject: string)
    requires rs != []
    ensures var n := |rs| - 1;
      SubjectIndices(rs, subject)
        == SubjectIndices(rs[..n], subject) + (if rs[n].subject == subject then {n} else {})
  {
  }

  /** `[g['grade'] for g in find({"subject": subject})]`, in the collection's order. */
  function GradesOfSubject(rs: seq<GradeRecord>, subject: string): (g: seq<int>)
    ensures |g| == |SubjectIndices(rs, subject)|
    ensures forall x :: x in g ==> exists i :: 0 <= i < |rs| && rs[i].subject == subject && rs[i].grade == x
  {
    if rs == [] then []
    else
      var n := |rs| - 1;
      var front := GradesOfSubject(rs[..n], subject);
      SubjectIndicesSplit(rs, subject);
      assert n !in SubjectIndices(rs[..n], subject);
      assert forall i :: 0 <= i < n ==> rs[..n][i] == rs[i];
      front + (if rs[n].subject == subject then [rs[n].grade] else [])
  }

  /** A single record contributes its own grade exactly when its subject matches. */
  lemma GradesOfOneRecord(r: GradeRecord, subject: string)
    ensures GradesOfSubject([r], subject) == if r.subject == subject then [r.grade] else []
  {
    assert [r][..0] == [];
  }

  /** The positions of the records for `subject` that hold grade `x`. */
  ghost function GradeIndices(rs: seq<GradeRecord>, subject: string, x: int): set<nat>
  {
    set i: nat | i < |rs| && rs[i].subject == subject && rs[i].grade == x
  }

  /**
   * Each grade occurs in the subject's list exactly as often as there are
   * records for the subject holding it: every matching record contributes
   * its own grade, once.
   */
  lemma {:induction false} GradesOfSubjectCounts(rs: seq<GradeRecord>, subject: string, x: int)
    ensures multiset(GradesOfSubject(rs, subject))[x] == |GradeIndices(rs, subject, x)|
  {
    if rs != [] {
      var n := |rs| - 1;
      var last := if rs[n].subject == subject then [rs[n].grade] else [];
      assert GradesOfSubject(rs, subject) == GradesOfSubject(rs[..n], subject) + last;
      GradesOfSubjectCounts(rs[..n], subject, x);
      GradeIndicesSplit(rs, subject, x);
      assert multiset(last)[x] == if rs[n].subject == subject && rs[n].grade == x then 1 else 0;
    }
  }

  lemma GradeIndicesSplit(rs: seq<GradeRecord>, subject: string, x: int)
    requires rs != []
    ensures var n := |rs| - 1;
      |GradeIndices(rs, subject, x)|
        == |GradeIndices(rs[..n], subject, x)| + (if rs[n].subject == subject && rs[n].grade == x then 1 else 0)
  {
    var n := |rs| - 1;
    assert forall i :: 0 <= i < n ==> rs[..n][i] == rs[i];
    assert n !in GradeIndices(rs[..n], subject, x);
    assert GradeIndices(rs, subject, x)
      == GradeIndices(rs[..n], subject, x) + (if rs[n].subject == subject && rs[n].grade == x then {n} else {});
  }

  /**
   * Count, mean and median of the grades recorded for `subject`; the
   * not-found error when there are none.
   */
  function GetGradesBySubject(rs: seq<GradeRecord>, subject: string, fault: Option<string>): (r: Reply<SubjectStats>)
    ensures fault.Some? ==> r == Error(SubjectFailedPrefix + fault.value)
    ensures fault.None? ==> (r.Error? <==> forall i :: 0 <= i < |rs| ==> rs[i].subject != subject)
    ensures fault.None? && r.Error? ==> r.error == SubjectNotFound(subject)
    ensures r.Ok? ==> r.value.subject == subject
    ensures r.Ok? ==> r.value.studentsCount == |SubjectIndices(rs, subject)|
    ensures r.Ok? ==> GradesOfSubject(rs, subject) != []
    ensures r.Ok? ==> r.value.averageGrade == Mean(GradesOfSubject(rs, subject))
    ensures r.Ok? ==> r.value.medianGrade == Median(GradesOfSubject(rs, subject))
  {
    if fault.Some? then Error(SubjectFailedPrefix + fault.value)
    else
      var grades := GradesOfSubject(rs, subject);
      if grades == [] then
        assert forall i :: 0 <= i < |rs| ==> rs[i].subject != subject by {
          forall i | 0 <= i < |rs|
            ensures rs[i].subject != subject
          {
            assert i !in SubjectIndices(rs, subject);
          }
        }
        Error(SubjectNotFound(subject))
      else
        assert grades[0] in grades;
        Ok(SubjectStats(subject, |grades|, Mean(grades), Median(grades)))
  }

  /**
   * The average is the sum of the matching grades divided by their count,
   * and lies between the smallest and largest of them.
   */
  lemma SubjectAverageMeaning(rs: seq<GradeRecord>, subject: string)
    requires GetGradesBySubject(rs, subject, None).Ok?
    ensures var g := GradesOfSubject(rs, subject);
      var stats := GetGradesBySubject(rs, subject, None).value;
      && g != []
      && stats.averageGrade == Sum(g) as real / stats.studentsCount as real
      && Minimum(g) as real <= stats.averageGrade <= Maximum(g) as real
  {
    var g := GradesOfSubject(rs, subject);
    var stats := GetGradesBySubject(rs, subject, None).value;
    assert stats == SubjectStats(subject, |g|, Mean(g), Median(g));
    MeanBounds(g);
    assert stats.averageGrade == Mean(g) && stats.studentsCount == |g|;
  }

  /**
   * The median is that of the matching grades: it lies between the
   * smallest and largest of them and leaves at least half of them on
   * either side of it.
   */
  lemma SubjectMedianMeaning(rs: seq<GradeRecord>, subject: string)
    requires GetGradesBySubject(rs, subject, None).Ok?
    ensures var g := GradesOfSubject(rs, subject);
      var median := GetGradesBySubject(rs, subject, None).value.medianGrade;
      && g != []
      && median == Median(g)
      && Minimum(g) as real <= median <= Maximum(g) as real
      && 2 * CountAtMost(g, median) >= |g|
      && 2 * CountAtLeast(g, median) >= |g|
  {
    var g := GradesOfSubject(rs, subject);
    assert GetGradesBySubject(rs, subject, None).value.medianGrade == Median(g);
    MedianBounds(g);
    MedianSplitsHalves(g);
  }

  lemma {:induction false} GradesOfSubjectAppend(a: seq<GradeRecord>, b: seq<GradeRecord>, subject: string)
    ensures GradesOfSubject(a + b, subject) == GradesOfSubject(a, subject) + GradesOfSubject(b, subject)
    decreases |b|
  {
    if b == [] {
      assert a + b == a;
    } else {
      var n := |b| - 1;
      assert (a + b)[..|a + b| - 1] == a + b[..n];
      assert (a + b)[|a + b| - 1] == b[n];
      GradesOfSubjectAppend(a, b[..n], subject);
    }
  }

  lemma {:induction false} GradesOfSubjectPermutation(rs1: seq<GradeRecord>, rs2: seq<GradeRecord>, subject: string)
    requires multiset(rs1) == multiset(rs2)
    ensures multiset(GradesOfSubject(rs1, subject)) == multiset(GradesOfSubject(rs2, subject))
    decreases |rs1|
  {
    if rs1 == [] {
      assert |rs2| == |multiset(rs2)| == 0;
    } else {
      var n := |rs1| - 1;
      var x := rs1[n];
      assert rs1 == rs1[..n] + [x];
      assert multiset(rs1) == multiset(rs1[..n]) + multiset{x};
      assert x in multiset(rs2);
      var j :| 0 <= j < |rs2| && rs2[j] == x;
      var rest := rs2[..j] + rs2[j + 1..];
      assert rs2 == rs2[..j] + [x] + rs2[j + 1..];
      assert multiset(rs2) == multiset(rs2[..j]) + multiset{x} + multiset(rs2[j + 1..]);
      assert multiset(rest) == multiset(rs2[..j]) + multiset(rs2[j + 1..]);
      assert multiset(rs1[..n]) == multiset(rs1) - multiset{x};
      assert multiset(rest) == multiset(rs2) - multiset{x};
      GradesOfSubjectPermutation(rs1[..n], rest, subject);
      GradesOfSubjectAppend(rs2[..j], rs2[j + 1..], subject);
      GradesOfSubjectAppend(rs2[..j] + [x], rs2[j + 1..], subject);
      GradesOfSubjectAppend(rs2[..j], [x], subject);
      GradesOfSubjectAppend(rs1[..n], [x], subject);
    }
  }

  /** The statistics of a subject do not depend on the order of the records in the collection. */
  lemma SubjectStatsIgnoreOrder(rs1: seq<GradeRecord>, rs2: seq<GradeRecord>, subject: string, fault: Option<string>)
    requires multiset(rs1) == multiset(rs2)
    ensures GetGradesBySubject(rs1, subject, fault) == GetGradesBySubject(rs2, subject, fault)
  {
    var g1 := GradesOfSubject(rs1, subject);
    var g2 := GradesOfSubject(rs2, subject);
    GradesOfSubjectPermutation(rs1, rs2, subject);
    assert |g1| == |multiset(g1)| == |multiset(g2)| == |g2|;
    if g1 != [] {
      OrderIndependent(g1, g2);
    }
  }

  /** N matching records all holding `v` give count N, average v and median v. */
  lemma UniformSubject(rs: seq<GradeRecord>, subject: string, v: int)
    requires exists i :: 0 <= i < |rs| && rs[i].subject == subject
    requires forall i :: 0 <= i < |rs| && rs[i].subject == subject ==> rs[i].grade == v
    ensures GetGradesBySubject(rs, subject, None)
         == Ok(SubjectStats(subject, |SubjectIndices(rs, subject)|, v as real, v as real))
  {
    var g := GradesOfSubject(rs, subject);
    var i :| 0 <= i < |rs| && rs[i].subject == subject;
    assert i in SubjectIndices(rs, subject);
    UniformMeanMedian(g, v);
  }

  // ---------------------------------------------------------------------
  // get_grades_by_student
  // ---------------------------------------------------------------------

  /** The subjects of the student's records. */
  ghost function SubjectsOf(rs: seq<GradeRecord>, studentId: string): set<string>
  {
    set i | 0 <= i < |rs| && rs[i].studentId == studentId :: rs[i].subject
  }

  lemma SubjectsOfSplit(rs: seq<GradeRecord>, studentId: string)
    requires rs != []
    ensures var n := |rs| - 1;
      SubjectsOf(rs, studentId)
        == SubjectsOf(rs[..n], studentId) + (if rs[n].studentId == studentId then {rs[n].subject} else {})
  {
    var n := |rs| - 1;
    forall k | k in SubjectsOf(rs, studentId)
      ensures k in SubjectsOf(rs[..n], studentId) + (if rs[n].studentId == studentId then {rs[n].subject} else {})
    {
      var i :| 0 <= i < |rs| && rs[i].studentId == studentId && rs[i].subject == k;
      if i < n {
        assert rs[..n][i] == rs[i];
      }
    }
    forall k | k in SubjectsOf(rs[..n], studentId)
      ensures k in SubjectsOf(rs, studentId)
    {
      var i :| 0 <= i < n && rs[..n][i].studentId == studentId && rs[..n][i].subject == k;
      assert rs[i] == rs[..n][i];
    }
  }

  /** `{g['subject']: g['grade'] for g in find({"student_id": studentId})}`. */
  function StudentGradeMap(rs: seq<GradeRecord>, studentId: string): (m: map<string, int>)
    ensures m.Keys == SubjectsOf(rs, studentId)
  {
    if rs == [] then map[]
    else
      var n := |rs| - 1;
      var front := StudentGradeMap(rs[..n], studentId);
      SubjectsOfSplit(rs, studentId);
      if rs[n].studentId == studentId then front[rs[n].subject := rs[n].grade] else front
  }

  /** The keys of that dict in iteration order: each subject where it was first inserted. */
  function SubjectOrder(rs: seq<GradeRecord>, studentId: string): (keys: seq<string>)
    ensures Distinct(keys)
    ensures forall k :: k in keys <==> k in SubjectsOf(rs, studentId)
  {
    if rs == [] then []
    else
      var n := |rs| - 1;
      var front := SubjectOrder(rs[..n], studentId);
      SubjectsOfSplit(rs, studentId);
      if rs[n].studentId == studentId && rs[n].subject !in front then front + [rs[n].subject] else front
  }

  /** No later record of the student has the same subject as record `i`. */
  ghost predicate IsLastFor(rs: seq<GradeRecord>, studentId: string, i: nat)
    requires i < |rs|
  {
    forall j :: i < j < |rs| ==> !HasKey(rs[j], studentId, rs[i].subject)
  }

  /** For a subject the student has several records for, the dict holds the last one's grade. */
  lemma {:induction false} LastRecordWins(rs: seq<GradeRecord>, studentId: string, i: nat)
    requires i < |rs| && rs[i].studentId == studentId && IsLastFor(rs, studentId, i)
    ensures rs[i].subject in StudentGradeMap(rs, studentId)
    ensures StudentGradeMap(rs, studentId)[rs[i].subject] == rs[i].grade
  {
    var n := |rs| - 1;
    if i < n {
      var front := rs[..n];
      assert front[i] == rs[i];
      assert IsLastFor(front, studentId, i) by {
        forall j | i < j < |front|
          ensures !HasKey(front[j], studentId, front[i].subject)
        {
          assert front[j] == rs[j];
        }
      }
      assert !HasKey(rs[n], studentId, rs[i].subject);
      LastRecordWins(front, studentId, i);
    }
  }

  /**
   * The student's subjects mapped to their grades and the mean of that
   * map's values; the not-found error when the student has no records.
   */
  function GetGradesByStudent(rs: seq<GradeRecord>, studentId: string, fault: Option<string>): (r: Reply<StudentStats>)
    ensures fault.Some? ==> r == Error(StudentFailedPrefix + fault.value)
    ensures fault.None? ==> (r.Error? <==> forall i :: 0 <= i < |rs| ==> rs[i].studentId != studentId)
    ensures fault.None? && r.Error? ==> r.error == StudentNotFound(studentId)
    ensures r.Ok? ==> r.value.studentId == studentId
    ensures r.Ok? ==> r.value.grades == StudentGradeMap(rs, studentId)
    ensures r.Ok? ==> r.value.grades.Keys == SubjectsOf(rs, studentId)
    ensures r.Ok? ==> r.value.grades != map[]
    ensures r.Ok? ==> r.value.averageGrade == MapSum(r.value.grades) as real / |r.value.grades| as real
  {
    if fault.Some? then Error(StudentFailedPrefix + fault.value)
    else
      var grades := StudentGradeMap(rs, studentId);
      if grades == map[] then
        assert forall i :: 0 <= i < |rs| ==> rs[i].studentId != studentId by {
          forall i | 0 <= i < |rs|
            ensures rs[i].studentId != studentId
          {
            assert rs[i].subject !in SubjectsOf(rs, studentId);
          }
        }
        Error(StudentNotFound(studentId))
      else
        var keys := SubjectOrder(rs, studentId);
        SumInOrderIsMapSum(keys, grades);
        Ok(StudentStats(studentId, grades, SumInOrder(keys, grades) as real / |grades| as real))
  }

  /**
   * With at most one record per key, a submission is read back by the
   * student query: the dict maps the subject to the submitted grade.
   */
  lemma SubmitThenQueryStudent(rs: seq<GradeRecord>, studentId: string, subject: string, grade: int)
    requires UniqueKeys(rs)
    ensures var r := GetGradesByStudent(Upserted(rs, studentId, subject, grade), studentId, None);
      r.Ok? && subject in r.value.grades && r.value.grades[subject] == grade
  {
    var u := Upserted(rs, studentId, subject, grade);
    UpsertStoresGrade(rs, studentId, subject, grade);
    UpsertKeepsKeysUnique(rs, studentId, subject, grade);
    var i := FindRecord(u, studentId, subject).value;
    UniqueIsLast(u, i);
    LastRecordWins(u, studentId, i);
  }

  /** With at most one record per key, every record is the last one for its key. */
  lemma UniqueIsLast(rs: seq<GradeRecord>, i: nat)
    requires UniqueKeys(rs) && i < |rs|
    ensures IsLastFor(rs, rs[i].studentId, i)
  {
  }

  /**
   * With two records for one key, the upsert changes the first while the
   * student query reports the last: the submitted grade is not read back.
   */
  lemma DuplicateKeysHideSubmission()
    ensures var rs := [GradeRecord("s1", "Math", 50), GradeRecord("s1", "Math", 60)];
      var r := GetGradesByStudent(Upserted(rs, "s1", "Math", 90), "s1", None);
      r.Ok? && r.value.grades["Math"] == 60
  {
    var rs := [GradeRecord("s1", "Math", 50), GradeRecord("s1", "Math", 60)];
    var u := Upserted(rs, "s1", "Math", 90);
    assert u == [GradeRecord("s1", "Math", 90), GradeRecord("s1", "Math", 60)];
    LastRecordWins(u, "s1", 1);
  }

  /** The student example: {Math: 90, Science: 85} averages 87.5. */
  lemma StudentExample(id: string)
    ensures var rs := [GradeRecord(id, "Math", 90), GradeRecord(id, "Science", 85)];
      GetGradesByStudent(rs, id, None) == Ok(StudentStats(id, map["Math" := 90, "Science" := 85], 87.5))
  {
    var rs := [GradeRecord(id, "Math", 90), GradeRecord(id, "Science", 85)];
    assert rs[..1] == [GradeRecord(id, "Math", 90)];
    assert rs[..1][..0] == [];
    assert StudentGradeMap(rs[..1], id) == map["Math" := 90];
    assert StudentGradeMap(rs, id) == map["Math" := 90, "Science" := 85];
    assert SubjectOrder(rs[..1], id) == ["Math"];
    assert SubjectOrder(rs, id) == ["Math", "Science"];
    assert ["Math", "Science"][1..] == ["Science"];
  }

  /** The subject example: three records of 80 in one subject give count 3, average 80 and median 80. */
  lemma SubjectExample(a: string, b: string, c: string)
    ensures var rs := [GradeRecord(a, "YYY", 80), GradeRecord(b, "YYY", 80), GradeRecord(c, "YYY", 80)];
      GetGradesBySubject(rs, "YYY", None) == Ok(SubjectStats("YYY", 3, 80.0, 80.0))
  {
    var rs := [GradeRecord(a, "YYY", 80), GradeRecord(b, "YYY", 80), GradeRecord(c, "YYY", 80)];
    assert rs[..2] == [GradeRecord(a, "YYY", 80), GradeRecord(b, "YYY", 80)];
    assert rs[..2][..1] == [GradeRecord(a, "YYY", 80)];
    assert rs[..2][..1][..0] == [];
    assert GradesOfSubject(rs[..2][..1], "YYY") == [80];
    assert GradesOfSubject(rs[..2], "YYY") == [80, 80];
    assert GradesOfSubject(rs, "YYY") == [80, 80, 80];
    UniformSubject(rs, "YYY", 80);
  }
}
