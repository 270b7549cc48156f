// Assignments and their submissions (server/models/assignmentModel.js): the
// COALESCE update, delete, the submission upsert with late detection, grading,
// and the list of submissions waiting for a grade.

module AssignmentModel {
  import opened Wrappers

  datatype Assignment = Assignment(
    id: nat, title: string, description: Option<string>, instructions: Option<string>,
    lessonId: nat, courseId: nat, dueDate: Option<int>, maxScore: Option<int>, isPublished: bool,
    fileRequirements: Option<string>, updatedAt: int)

  /** A row of `assignment_submissions`; a `studentId` of None is a NULL column. */
  datatype Submission = Submission(
    id: nat, assignmentId: nat, studentId: Option<nat>, text: Option<string>, fileUrl: Option<string>,
    status: string, isLate: Option<bool>, score: Option<real>, feedback: Option<string>,
    gradedBy: Option<int>, submittedAt: int, gradedAt: Option<int>)

  /** The arguments of `create`; None is an argument left undefined, which takes the default. */
  datatype NewAssignment = NewAssignment(
    title: string, description: Option<string>, instructions: Option<string>, lessonId: nat, courseId: nat,
    dueDate: Option<int>, maxScore: Option<int>, isPublished: Option<bool>, fileRequirements: Option<string>)

  /** The row `create` inserts: max_score 100 and is_published false unless given. */
  function NewRow(n: NewAssignment, id: nat, now: int): (a: Assignment)
    ensures a.id == id && a.title == n.title && a.lessonId == n.lessonId && a.courseId == n.courseId
    ensures a.maxScore == (if n.maxScore.Some? then n.maxScore else Some(100))
    ensures a.isPublished == (n.isPublished == Some(true))
  {
    Assignment(id, n.title, n.description, n.instructions, n.lessonId, n.courseId, n.dueDate,
      Some(n.maxScore.GetOr(100)), n.isPublished.GetOr(false), n.fileRequirements, now)
  }

  function FindById(rows: seq<Assignment>, id: nat): (r: Option<Assignment>)
    ensures r.Some? ==> r.value in rows && r.value.id == id
    ensures r.None? <==> forall a :: a in rows ==> a.id != id
  {
    if rows == [] then None
    else if rows[0].id == id then Some(rows[0])
    else FindById(rows[1..], id)
  }

  // ---------------------------------------------------------------------------
  // update and delete

  /** The arguments of `update`; None is undefined or null, which COALESCE keeps. */
  datatype AssignmentUpdates = AssignmentUpdates(
    title: Option<string>, description: Option<string>, dueDate: Option<int>, maxScore: Option<int>,
    isPublished: Option<bool>, fileRequirements: Option<string>)

  const NoUpdates := AssignmentUpdates(None, None, None, None, None, None)

  function Pick<T>(given: Option<T>, stored: T): T
  {
    if given.Some? then given.value else stored
  }

  /** `SET col = COALESCE($k, col), ..., updated_at = CURRENT_TIMESTAMP`. */
  function Merged(a: Assignment, u: AssignmentUpdates, now: int): (r: Assignment)
    ensures r.id == a.id && r.lessonId == a.lessonId && r.courseId == a.courseId && r.instructions == a.instructions
    ensures r.updatedAt == now
  {
    a.(title := Pick(u.title, a.title),
       description := if u.description.Some? then u.description else a.description,
       dueDate := if u.dueDate.Some? then u.dueDate else a.dueDate,
       maxScore := if u.maxScore.Some? then u.maxScore else a.maxScore,
       isPublished := Pick(u.isPublished, a.isPublished),
       fileRequirements := if u.fileRequirements.Some? then u.fileRequirements else a.fileRequirements,
       updatedAt := now)
  }

  /** Every given field is written, every missing one kept; applying the same update twice is applying it once. */
  lemma MergeFacts(a: Assignment, u: AssignmentUpdates, now: int)
    ensures Merged(a, NoUpdates, now) == a.(updatedAt := now)
    ensures u.title.Some? ==> Merged(a, u, now).title == u.title.value
    ensures u.dueDate.Some? ==> Merged(a, u, now).dueDate == u.dueDate
    ensures u.isPublished.Some? ==> Merged(a, u, now).isPublished == u.isPublished.value
    ensures Merged(Merged(a, u, now), u, now) == Merged(a, u, now)
  {
  }

  /** `update`: the matching row merged; the other rows kept. */
  function UpdatedRows(rows: seq<Assignment>, id: nat, u: AssignmentUpdates, now: int): (r: seq<Assignment>)
    ensures |r| == |rows|
    ensures forall i :: 0 <= i < |rows| ==> r[i] == (if rows[i].id == id then Merged(rows[i], u, now) else rows[i])
  {
    seq(|rows|, i requires 0 <= i < |rows| => if rows[i].id == id then Merged(rows[i], u, now) else rows[i])
  }

  function WithoutAssignment(rows: seq<Assignment>, id: nat): (r: seq<Assignment>)
    ensures forall a :: a in r <==> a in rows && a.id != id
    ensures |r| <= |rows|
  {
    if rows == [] then []
    else (if rows[0].id == id then [] else [rows[0]]) + WithoutAssignment(rows[1..], id)
  }

  /** `DELETE FROM submissions WHERE assignment_id = $1`: the rows of that table are kept by assignment id. */
  function WithoutLegacy(legacy: seq<nat>, id: nat): (r: seq<nat>)
    ensures forall x :: x in r <==> x in legacy && x != id
  {
    if legacy == [] then []
    else (if legacy[0] == id then [] else [legacy[0]]) + WithoutLegacy(legacy[1..], id)
  }

  // ---------------------------------------------------------------------------
  // Submissions

  /**
   * `is_late = dueDate && now > dueDate`: null without a due date, otherwise whether the
   * due date has passed.
   */
  function Late(dueDate: Option<int>, now: int): (r: Option<bool>)
    ensures r.Some? <==> dueDate.Some?
    ensures r == Some(true) <==> dueDate.Some? && now > dueDate.value
  {
    if dueDate.None? then None else Some(now > dueDate.value)
  }

  /** `WHERE assignment_id = $1 AND student_id = $2`: a NULL student matches no row. */
  predicate Matches(s: Submission, assignmentId: nat, studentId: Option<nat>)
  {
    s.assignmentId == assignmentId && studentId.Some? && s.studentId == studentId
  }

  function FindSubmission(rows: seq<Submission>, assignmentId: nat, studentId: Option<nat>): (r: Option<Submission>)
    ensures r.Some? ==> r.value in rows && Matches(r.value, assignmentId, studentId)
    ensures r.None? <==> forall s :: s in rows ==> !Matches(s, assignmentId, studentId)
  {
    if rows == [] then None
    else if Matches(rows[0], assignmentId, studentId) then Some(rows[0])
    else FindSubmission(rows[1..], assignmentId, studentId)
  }

  /** At most one row per (assignment, student) among rows that name a student. */
  predicate OnePerStudent(rows: seq<Submission>)
  {
    forall i, j :: 0 <= i < j < |rows| ==> !Matches(rows[j], rows[i].assignmentId, rows[i].studentId)
  }

  predicate UniqueSubmissionIds(rows: seq<Submission>)
  {
    forall i, j :: 0 <= i < j < |rows| ==> rows[i].id != rows[j].id
  }

  /** The resubmission `UPDATE`: text, file, time, status 'submitted' and lateness; score and feedback stay. */
  function Resubmitted(s: Submission, text: Option<string>, fileUrl: Option<string>, late: Option<bool>, now: int): (r: Submission)
    ensures r.status == "submitted" && r.text == text && r.fileUrl == fileUrl && r.isLate == late
    ensures r.id == s.id && r.assignmentId == s.assignmentId && r.studentId == s.studentId
    ensures r.score == s.score && r.feedback == s.feedback && r.gradedBy == s.gradedBy
  {
    s.(text := text, fileUrl := fileUrl, submittedAt := now, status := "submitted", isLate := late)
  }

  datatype Submitted = Submitted(rows: seq<Submission>, submission: Submission, isNew: bool)

  /**
   * `submitAssignment`: an unknown assignment throws; an existing row for the pair is
   * updated in place (`isNew` false), otherwise a row is inserted (`isNew` true).
   */
  function AfterSubmit(assignments: seq<Assignment>, rows: seq<Submission>, nextId: nat, assignmentId: nat,
                       studentId: Option<nat>, text: Option<string>, fileUrl: Option<string>, now: int): (r: Result<Submitted>)
    ensures FindById(assignments, assignmentId).None? <==> r == Fail("Assignment not found")
    ensures r.Ok? ==>
      r.value.submission.status == "submitted" && r.value.submission.assignmentId == assignmentId &&
      r.value.submission.studentId == studentId && r.value.submission.text == text && r.value.submission.fileUrl == fileUrl &&
      r.value.submission.isLate == Late(FindById(assignments, assignmentId).value.dueDate, now) &&
      r.value.submission in r.value.rows
    ensures r.Ok? ==> (r.value.isNew <==> FindSubmission(rows, assignmentId, studentId).None?)
    ensures r.Ok? && r.value.isNew ==> r.value.rows == rows + [r.value.submission] && r.value.submission.id == nextId
    ensures r.Ok? && !r.value.isNew ==> |r.value.rows| == |rows| && r.value.submission.id == FindSubmission(rows, assignmentId, studentId).value.id
    ensures r.Ok? && !r.value.isNew ==> forall k :: 0 <= k < |rows| ==>
      r.value.rows[k] == if Matches(rows[k], assignmentId, studentId) then Resubmitted(rows[k], text, fileUrl, r.value.submission.isLate, now) else rows[k]
  {
    var found := FindById(assignments, assignmentId);
    if found.None? then Fail("Assignment not found")
    else
      var late := Late(found.value.dueDate, now);
      var existing := FindSubmission(rows, assignmentId, studentId);
      if existing.Some? then
        var updated := seq(|rows|, i requires 0 <= i < |rows| =>
          if Matches(rows[i], assignmentId, studentId) then Resubmitted(rows[i], text, fileUrl, late, now) else rows[i]);
        var s := Resubmitted(existing.value, text, fileUrl, late, now);
        assert s in updated by {
          var k :| 0 <= k < |rows| && rows[k] == existing.value;
          assert updated[k] == s;
        }
        Ok(Submitted(updated, s, false))
      else
        var s := Submission(nextId, assignmentId, studentId, text, fileUrl, "submitted", late, None, None, None, now, None);
        Ok(Submitted(rows + [s], s, true))
  }

  /** The upsert keeps one row per (assignment, student) and keeps the keys unique. */
  lemma SubmitKeepsOnePerStudent(assignments: seq<Assignment>, rows: seq<Submission>, nextId: nat, assignmentId: nat,
                                 studentId: Option<nat>, text: Option<string>, fileUrl: Option<string>, now: int)
    requires OnePerStudent(rows) && UniqueSubmissionIds(rows)
    requires forall i :: 0 <= i < |rows| ==> rows[i].id < nextId
    ensures var r := AfterSubmit(assignments, rows, nextId, assignmentId, studentId, text, fileUrl, now);
      r.Ok? ==> OnePerStudent(r.value.rows) && UniqueSubmissionIds(r.value.rows)
  {
    var r := AfterSubmit(assignments, rows, nextId, assignmentId, studentId, text, fileUrl, now);
    if r.Ok? && r.value.isNew {
      var rs := r.value.rows;
      forall i, j | 0 <= i < j < |rs|
        ensures !Matches(rs[j], rs[i].assignmentId, rs[i].studentId)
      {
        if j == |rows| {
          assert rs[i] in rows;
        }
      }
    } else if r.Ok? {
      var rs := r.value.rows;
      assert forall k :: 0 <= k < |rs| ==>
        rs[k].id == rows[k].id && rs[k].assignmentId == rows[k].assignmentId && rs[k].studentId == rows[k].studentId;
    }
  }

  /** A student who submits twice gets the first row back, updated, and no second row. */
  lemma SubmitTwice(assignments: seq<Assignment>, rows: seq<Submission>, nextId: nat, assignmentId: nat,
                    studentId: nat, text: Option<string>, fileUrl: Option<string>, now: int, later: int)
    requires AfterSubmit(assignments, rows, nextId, assignmentId, Some(studentId), text, fileUrl, now).Ok?
    ensures var first := AfterSubmit(assignments, rows, nextId, assignmentId, Some(studentId), text, fileUrl, now).value;
      var second := AfterSubmit(assignments, first.rows, nextId + 1, assignmentId, Some(studentId), text, fileUrl, later);
      second.Ok? && !second.value.isNew && |second.value.rows| == |first.rows| &&
      second.value.submission.id == first.submission.id
  {
    var first := AfterSubmit(assignments, rows, nextId, assignmentId, Some(studentId), text, fileUrl, now).value;
    assert Matches(first.submission, assignmentId, Some(studentId));
    FirstMatchKept(rows, first.rows, assignmentId, Some(studentId), first.submission);
  }

  /** After the upsert, the first row that matches the pair is the one the upsert returned. */
  lemma {:induction false} FirstMatchKept(rows: seq<Submission>, after: seq<Submission>, assignmentId: nat,
                                          studentId: Option<nat>, s: Submission)
    requires Matches(s, assignmentId, studentId)
    requires
      (FindSubmission(rows, assignmentId, studentId).None? && after == rows + [s]) ||
      (FindSubmission(rows, assignmentId, studentId).Some? && s.id == FindSubmission(rows, assignmentId, studentId).value.id &&
       |after| == |rows| &&
       forall i :: 0 <= i < |rows| ==>
         (after[i].id == rows[i].id && (Matches(after[i], assignmentId, studentId) <==> Matches(rows[i], assignmentId, studentId))))
    ensures FindSubmission(after, assignmentId, studentId).Some?
    ensures FindSubmission(after, assignmentId, studentId).value.id == s.id
  {
    if rows == [] {
      assert after == [s];
    } else if FindSubmission(rows, assignmentId, studentId).None? {
      assert after[1..] == rows[1..] + [s];
      FirstMatchKept(rows[1..], after[1..], assignmentId, studentId, s);
    } else if Matches(rows[0], assignmentId, studentId) {
      assert Matches(after[0], assignmentId, studentId);
    } else {
      assert !Matches(after[0], assignmentId, studentId);
      FirstMatchKept(rows[1..], after[1..], assignmentId, studentId, s);
    }
  }

  /** Without a student id no existing row is ever found, so every call inserts a new row. */
  lemma NullStudentAlwaysInserts(assignments: seq<Assignment>, rows: seq<Submission>, nextId: nat, assignmentId: nat,
                                 text: Option<string>, fileUrl: Option<string>, now: int)
    requires FindById(assignments, assignmentId).Some?
    ensures var r := AfterSubmit(assignments, rows, nextId, assignmentId, None, text, fileUrl, now);
      r.Ok? && r.value.isNew && |r.value.rows| == |rows| + 1
  {
  }

  /** `gradeSubmission`: score, feedback, grader, time and status 'graded'. */
  function Graded(s: Submission, score: real, feedback: Option<string>, gradedBy: int, now: int): (r: Submission)
    ensures r.status == "graded" && r.score == Some(score) && r.feedback == feedback && r.gradedBy == Some(gradedBy)
    ensures r.id == s.id && r.assignmentId == s.assignmentId && r.studentId == s.studentId && r.text == s.text
  {
    s.(score := Some(score), feedback := feedback, gradedBy := Some(gradedBy), gradedAt := Some(now), status := "graded")
  }

  function GradedRows(rows: seq<Submission>, id: nat, score: real, feedback: Option<string>, gradedBy: int, now: int)
    : (r: seq<Submission>)
    ensures |r| == |rows|
    ensures forall i :: 0 <= i < |rows| ==> r[i] == (if rows[i].id == id then Graded(rows[i], score, feedback, gradedBy, now) else rows[i])
  {
    seq(|rows|, i requires 0 <= i < |rows| =>
      if rows[i].id == id then Graded(rows[i], score, feedback, gradedBy, now) else rows[i])
  }

  /** Grading rewrites no key column, so one row per student, unique ids and the id bound survive it. */
  lemma GradingKeepsKeys(rows: seq<Submission>, id: nat, score: real, feedback: Option<string>, gradedBy: int, now: int, bound: nat)
    requires OnePerStudent(rows) && UniqueSubmissionIds(rows) && forall i :: 0 <= i < |rows| ==> rows[i].id < bound
    ensures var r := GradedRows(rows, id, score, feedback, gradedBy, now);
      OnePerStudent(r) && UniqueSubmissionIds(r) && forall i :: 0 <= i < |r| ==> r[i].id < bound
  {
    var r := GradedRows(rows, id, score, feedback, gradedBy, now);
    forall i, j | 0 <= i < j < |r|
      ensures !Matches(r[j], r[i].assignmentId, r[i].studentId) && r[i].id != r[j].id
    {
      assert !Matches(rows[j], rows[i].assignmentId, rows[i].studentId);
    }
  }

  /** `UPDATE assignment_submissions ... WHERE id = $1 RETURNING *`: the row with the key, whatever its student. */
  function FindRowById(rows: seq<Submission>, id: nat): (r: Option<Submission>)
    ensures r.Some? ==> r.value in rows && r.value.id == id
    ensures r.None? <==> forall s :: s in rows ==> s.id != id
  {
    if rows == [] then None
    else if rows[0].id == id then Some(rows[0])
    else FindRowById(rows[1..], id)
  }

  /**
   * `getSubmissionById`: the inner `JOIN users u ON s.student_id = u.id` drops a row whose
   * student is NULL, so only a row with the key and a student is found.
   */
  function FindSubmissionById(rows: seq<Submission>, id: nat): (r: Option<Submission>)
    ensures r.Some? ==> r.value in rows && r.value.id == id && r.value.studentId.Some?
    ensures r.None? <==> forall s :: s in rows ==> s.id != id || s.studentId.None?
  {
    if rows == [] then None
    else if rows[0].id == id && rows[0].studentId.Some? then Some(rows[0])
    else FindSubmissionById(rows[1..], id)
  }

  /** With unique keys, the joined lookup finds the keyed row exactly when that row names a student. */
  lemma {:induction false} JoinedLookupAgrees(rows: seq<Submission>, id: nat)
    requires UniqueSubmissionIds(rows)
    ensures FindSubmissionById(rows, id) ==
      (if FindRowById(rows, id).Some? && FindRowById(rows, id).value.studentId.Some? then FindRowById(rows, id) else None)
  {
    if rows != [] && rows[0].id != id {
      assert UniqueSubmissionIds(rows[1..]) by {
        forall i, j | 0 <= i < j < |rows[1..]| ensures rows[1..][i].id != rows[1..][j].id {
          assert rows[1..][i] == rows[i + 1] && rows[1..][j] == rows[j + 1];
        }
      }
      JoinedLookupAgrees(rows[1..], id);
    } else if rows != [] && rows[0].studentId.None? {
      assert forall s :: s in rows[1..] ==> s.id != id by {
        forall s | s in rows[1..] ensures s.id != id {
          var j :| 0 <= j < |rows[1..]| && rows[1..][j] == s;
          assert rows[j + 1] == s;
        }
      }
    }
  }

  /**
   * `getPendingSubmissions`: rows whose status is 'submitted', joined to their student (the
   * inner join drops a NULL student) and to their assignment's course (`courseOf`), restricted
   * to one course when a truthy course id is given.
   */
  function Pending(rows: seq<Submission>, courseOf: map<nat, nat>, courseId: nat): (r: seq<Submission>)
    ensures forall s :: s in r <==>
      s in rows && s.status == "submitted" && s.studentId.Some? && s.assignmentId in courseOf &&
      (courseId == 0 || courseOf[s.assignmentId] == courseId)
    ensures |r| <= |rows|
  {
    if rows == [] then []
    else
      var s := rows[0];
      (if s.status == "submitted" && s.studentId.Some? && s.assignmentId in courseOf && (courseId == 0 || courseOf[s.assignmentId] == courseId)
       then [s] else []) + Pending(rows[1..], courseOf, courseId)
  }

  /**
   * The submission life cycle submitted -> graded -> submitted: grading takes a row off the
   * pending list, and resubmitting puts it back (when it names a student) with its old score still attached.
   */
  lemma GradeThenResubmit(s: Submission, score: real, feedback: Option<string>, gradedBy: int, now: int,
                          text: Option<string>, fileUrl: Option<string>, late: Option<bool>, later: int,
                          courseOf: map<nat, nat>)
    requires s.assignmentId in courseOf
    ensures Pending([Graded(s, score, feedback, gradedBy, now)], courseOf, 0) == []
    ensures var again := Resubmitted(Graded(s, score, feedback, gradedBy, now), text, fileUrl, late, later);
      Pending([again], courseOf, 0) == (if s.studentId.Some? then [again] else []) && again.score == Some(score)
  {
  }

  // ---------------------------------------------------------------------------
  // The store

  class AssignmentStore {
    var assignments: seq<Assignment>
    var submissions: seq<Submission>
    /** The `submissions` table, which `delete` clears: only its assignment ids are modelled. */
    var legacy: seq<nat>
    var nextId: nat
    var nextSubmissionId: nat

    ghost predicate Valid()
      reads this
    {
      OnePerStudent(submissions) && UniqueSubmissionIds(submissions) &&
      (forall i :: 0 <= i < |submissions| ==> submissions[i].id < nextSubmissionId) &&
      (forall i :: 0 <= i < |assignments| ==> assignments[i].id < nextId)
    }

    constructor ()
      ensures Valid() && assignments == [] && submissions == [] && legacy == []
    {
      assignments, submissions, legacy := [], [], [];
      nextId, nextSubmissionId := 0, 0;
    }

    /** `create`: inserts the new row with its defaults and returns it. */
    method Create(n: NewAssignment, now: int) returns (a: Assignment)
      requires Valid()
      modifies this
      ensures Valid()
      ensures a == NewRow(n, old(nextId), now) && assignments == old(assignments) + [a]
      ensures submissions == old(submissions) && legacy == old(legacy) && nextId == old(nextId) + 1
      ensures nextSubmissionId == old(nextSubmissionId)
    {
      a := NewRow(n, nextId, now);
      assignments := assignments + [a];
      nextId := nextId + 1;
    }

    /** `update`: `rows[0]`, undefined (None) for an unknown key. */
    method Update(id: nat, u: AssignmentUpdates, now: int) returns (r: Option<Assignment>)
      requires Valid()
      modifies this
      ensures Valid()
      ensures assignments == UpdatedRows(old(assignments), id, u, now)
      ensures r == (if FindById(old(assignments), id).Some? then Some(Merged(FindById(old(assignments), id).value, u, now)) else None)
      ensures submissions == old(submissions) && legacy == old(legacy) && nextId == old(nextId)
      ensures nextSubmissionId == old(nextSubmissionId)
    {
      var found := FindById(assignments, id);
      assignments := UpdatedRows(assignments, id, u, now);
      r := if found.Some? then Some(Merged(found.value, u, now)) else None;
    }

    /**
     * `delete`: clears the assignment's rows from the `submissions` table, then deletes the
     * assignment. Its rows in `assignment_submissions`, the table submissions are written
     * to, are left in place.
     */
    method Delete(id: nat) returns (r: Option<Assignment>)
      requires Valid()
      modifies this
      ensures Valid()
      ensures legacy == WithoutLegacy(old(legacy), id)
      ensures assignments == WithoutAssignment(old(assignments), id)
      ensures r == FindById(old(assignments), id)
      ensures submissions == old(submissions)
      ensures nextId == old(nextId) && nextSubmissionId == old(nextSubmissionId)
    {
      legacy := WithoutLegacy(legacy, id);
      r := FindById(assignments, id);
      assignments := WithoutAssignment(assignments, id);
    }

    /** `submitAssignment`: the upsert of `AfterSubmit`; an unknown assignment throws and changes nothing. */
    method SubmitAssignment(assignmentId: nat, studentId: Option<nat>, text: Option<string>, fileUrl: Option<string>, now: int)
      returns (r: Result<(Submission, bool)>)
      requires Valid()
      modifies this
      ensures Valid()
      ensures var spec := AfterSubmit(old(assignments), old(submissions), old(nextSubmissionId), assignmentId, studentId, text, fileUrl, now);
        (spec.Fail? ==> r == Fail(spec.message) && submissions == old(submissions)) &&
        (spec.Ok? ==> r == Ok((spec.value.submission, spec.value.isNew)) && submissions == spec.value.rows)
      ensures assignments == old(assignments) && legacy == old(legacy) && nextId == old(nextId)
    {
      SubmitKeepsOnePerStudent(assignments, submissions, nextSubmissionId, assignmentId, studentId, text, fileUrl, now);
      var spec := AfterSubmit(assignments, submissions, nextSubmissionId, assignmentId, studentId, text, fileUrl, now);
      if spec.Fail? {
        return Fail(spec.message);
      }
      submissions := spec.value.rows;
      if spec.value.isNew {
        nextSubmissionId := nextSubmissionId + 1;
      }
      r := Ok((spec.value.submission, spec.value.isNew));
    }

    /** `gradeSubmission`: `rows[0]`, undefined (None) for an unknown key. */
    method GradeSubmission(id: nat, score: real, feedback: Option<string>, gradedBy: int, now: int)
      returns (r: Option<Submission>)
      requires Valid()
      modifies this
      ensures Valid()
      ensures submissions == GradedRows(old(submissions), id, score, feedback, gradedBy, now)
      ensures r == (if FindRowById(old(submissions), id).Some?
                    then Some(Graded(FindRowById(old(submissions), id).value, score, feedback, gradedBy, now)) else None)
      ensures assignments == old(assignments) && legacy == old(legacy) && nextId == old(nextId)
      ensures nextSubmissionId == old(nextSubmissionId)
    {
      var found := FindRowById(submissions, id);
      GradingKeepsKeys(submissions, id, score, feedback, gradedBy, now, nextSubmissionId);
      submissions := GradedRows(submissions, id, score, feedback, gradedBy, now);
      r := if found.Some? then Some(Graded(found.value, score, feedback, gradedBy, now)) else None;
    }
  }
}
