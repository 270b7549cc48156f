// The assignment handlers (server/controllers/assignmentController.js): who may
// create, see, change and grade assignments, the submission guards, and the
// published-only filter for students.

module AssignmentController {
  import opened Wrappers
  import opened Http
  import Strings
  import CourseModel
  import EnrollmentModel
  import LessonModel
  import opened AssignmentModel

  /** What the handlers read through lesson -> module -> course: the course and its instructor. */
  datatype Owner = Owner(courseId: nat, instructorId: int)

  datatype Answer = Answer(status: Status, assignments: seq<Assignment>)

  /** The request body of `createAssignment`; `fileRequirements` is the JSON text the handler builds. */
  datatype AssignmentBody = AssignmentBody(
    title: string, description: Option<string>, instructions: Option<string>, lessonId: nat,
    dueDate: Option<int>, maxScore: Option<int>, isPublished: Option<bool>, fileRequirements: string)

  /**
   * `createAssignment`: a title and a lesson id (0 when missing) are required, the lesson
   * must exist (`owner` is None otherwise), and only an admin or the course's instructor
   * may add to it. The new row takes the course of the lesson's module.
   */
  function CreateAssignment(user: Option<User>, b: AssignmentBody, owner: Option<Owner>,
                            rows: seq<Assignment>, nextId: nat, now: int): (r: Answer)
    ensures b.title == "" || b.lessonId == 0 ==> r.status == BAD_REQUEST
    ensures b.title != "" && b.lessonId != 0 && owner.None? ==> r.status == NOT_FOUND
    ensures r.status == CREATED <==>
      b.title != "" && b.lessonId != 0 && owner.Some? && AdminOrOwner(user, owner.value.instructorId)
    ensures r.status != CREATED ==> r.assignments == rows
    ensures r.status == CREATED ==>
      |r.assignments| == |rows| + 1 && r.assignments[..|rows|] == rows &&
      var a := r.assignments[|rows|];
      a.id == nextId && a.courseId == owner.value.courseId && a.lessonId == b.lessonId &&
      a.maxScore == Some(b.maxScore.GetOr(100)) && a.isPublished == (b.isPublished == Some(true))
  {
    if b.title == "" || b.lessonId == 0 then Answer(BAD_REQUEST, rows)
    else if owner.None? then Answer(NOT_FOUND, rows)
    else if !AdminOrOwner(user, owner.value.instructorId) then Answer(FORBIDDEN, rows)
    else
      var n := NewAssignment(b.title, b.description, b.instructions, b.lessonId, owner.value.courseId,
        b.dueDate, Some(b.maxScore.GetOr(100)), Some(b.isPublished.GetOr(false)), Some(b.fileRequirements));
      Answer(CREATED, rows + [NewRow(n, nextId, now)])
  }

  /**
   * `getAssignmentById`: an id that does not parse is 400, an unknown one 404; an
   * unpublished assignment is shown to anyone whose role is admin or instructor, and to
   * the course's instructor.
   */
  function ViewAssignment(user: Option<User>, idParses: bool, a: Option<Assignment>, owner: Owner): (r: Status)
    ensures !idParses ==> r == BAD_REQUEST
    ensures idParses && a.None? ==> r == NOT_FOUND
    ensures r == OK <==>
      idParses && a.Some? && (a.value.isPublished || (user.Some? && (user.value.role in {"admin", "instructor"} || user.value.id == owner.instructorId)))
    ensures r in {OK, BAD_REQUEST, FORBIDDEN, NOT_FOUND}
  {
    if !idParses then BAD_REQUEST
    else if a.None? then NOT_FOUND
    else if !a.value.isPublished && !(user.Some? && (IsAdmin(user.value) || user.value.role == "instructor"))
      && !AdminOrOwner(user, owner.instructorId) then FORBIDDEN
    else OK
  }

  /** Any instructor sees an unpublished assignment, also of a course that is not theirs. */
  lemma AnyInstructorSeesUnpublished(a: Assignment, owner: Owner, id: int)
    requires !a.isPublished && id != owner.instructorId
    ensures ViewAssignment(Some(User(id, "instructor")), true, Some(a), owner) == OK
    ensures ViewAssignment(Some(User(id, "student")), true, Some(a), owner) == FORBIDDEN
  {
  }

  /**
   * The guard of update, delete, publish, unpublish, statistics and the submission list:
   * an unknown assignment is 404, then only the admin or the course's instructor passes.
   */
  function OwnerGuard(user: Option<User>, a: Option<Assignment>, owner: Owner): (r: Option<Status>)
    ensures a.None? ==> r == Some(NOT_FOUND)
    ensures r.None? <==> a.Some? && AdminOrOwner(user, owner.instructorId)
    ensures r.Some? ==> r.value in {NOT_FOUND, FORBIDDEN}
  {
    if a.None? then Some(NOT_FOUND)
    else if !AdminOrOwner(user, owner.instructorId) then Some(FORBIDDEN)
    else None
  }

  /** `updateAssignment`: the COALESCE update of the model once the guard passes. */
  function UpdateAssignment(user: Option<User>, id: nat, u: AssignmentUpdates, owner: Owner,
                            rows: seq<Assignment>, now: int): (r: Answer)
    ensures r.status == OK <==> FindById(rows, id).Some? && AdminOrOwner(user, owner.instructorId)
    ensures r.status == OK ==> r.assignments == UpdatedRows(rows, id, u, now)
    ensures r.status != OK ==> r.assignments == rows
  {
    match OwnerGuard(user, FindById(rows, id), owner)
    case Some(s) => Answer(s, rows)
    case None => Answer(OK, UpdatedRows(rows, id, u, now))
  }

  /** `deleteAssignment`: the model's delete once the guard passes. */
  function DeleteAssignment(user: Option<User>, id: nat, owner: Owner, rows: seq<Assignment>): (r: Answer)
    ensures r.status == OK <==> FindById(rows, id).Some? && AdminOrOwner(user, owner.instructorId)
    ensures r.status == OK ==> r.assignments == WithoutAssignment(rows, id) && FindById(r.assignments, id).None?
    ensures r.status != OK ==> r.assignments == rows
  {
    match OwnerGuard(user, FindById(rows, id), owner)
    case Some(s) => Answer(s, rows)
    case None => Answer(OK, WithoutAssignment(rows, id))
  }

  /**
   * `publishAssignment`, `unpublishAssignment` and `getAssignmentStatistics` call
   * `publish`, `unpublish` and `getAssignmentStatistics`, which AssignmentModel does not
   * define: past the guard the call throws and the answer is 500, with nothing written.
   */
  function GuardedMissingCall(user: Option<User>, a: Option<Assignment>, owner: Owner): (r: Status)
    ensures r != OK
    ensures r == SERVER_ERROR <==> a.Some? && AdminOrOwner(user, owner.instructorId)
  {
    match OwnerGuard(user, a, owner)
    case Some(s) => s
    case None => SERVER_ERROR
  }

  // ---------------------------------------------------------------------------
  // submitAssignment

  /**
   * The checks of `submitAssignment` before the model is called: unknown 404, unpublished
   * 403, no 'active' enrollment in the course 403, then the text and file requirements of
   * the assignment's `submission_type`.
   */
  function SubmitGuard(userId: nat, a: Option<Assignment>, owner: Owner, enrollments: seq<EnrollmentModel.Enrollment>,
                       submissionType: Option<string>, content: Option<string>, fileUrl: Option<string>): (r: Option<Status>)
    ensures a.None? ==> r == Some(NOT_FOUND)
    ensures a.Some? && !a.value.isPublished ==> r == Some(FORBIDDEN)
    ensures a.Some? && a.value.isPublished && !LessonModel.IsUserEnrolledInCourse(enrollments, userId, owner.courseId) ==>
      r == Some(FORBIDDEN)
    ensures r.None? <==>
      a.Some? && a.value.isPublished && LessonModel.IsUserEnrolledInCourse(enrollments, userId, owner.courseId) &&
      !(submissionType == Some("text") && (content.None? || content == Some(""))) &&
      !(submissionType == Some("file") && (fileUrl.None? || fileUrl == Some("")))
  {
    if a.None? then Some(NOT_FOUND)
    else if !a.value.isPublished then Some(FORBIDDEN)
    else if !LessonModel.IsUserEnrolledInCourse(enrollments, userId, owner.courseId) then Some(FORBIDDEN)
    else if submissionType == Some("text") && (content.None? || content == Some("")) then Some(BAD_REQUEST)
    else if submissionType == Some("file") && (fileUrl.None? || fileUrl == Some("")) then Some(BAD_REQUEST)
    else None
  }

  datatype SubmissionAnswer = SubmissionAnswer(status: Status, rows: seq<Submission>)

  /**
   * `submitAssignment` as written. The model is called with `user_id` and `file_urls`, keys
   * it does not read, so it sees no student and no file. A new submission then reads
   * `course.instructor_id`, but no `course` is bound in the handler, so the call throws.
   */
  function SubmitAsWritten(userId: nat, id: nat, assignments: seq<Assignment>, owner: Owner,
                           enrollments: seq<EnrollmentModel.Enrollment>, submissionType: Option<string>,
                           content: Option<string>, fileUrl: Option<string>,
                           rows: seq<Submission>, nextId: nat, now: int): (r: SubmissionAnswer)
    ensures SubmitGuard(userId, FindById(assignments, id), owner, enrollments, submissionType, content, fileUrl).Some? ==>
      r.rows == rows
  {
    match SubmitGuard(userId, FindById(assignments, id), owner, enrollments, submissionType, content, fileUrl)
    case Some(s) => SubmissionAnswer(s, rows)
    case None =>
      match AfterSubmit(assignments, rows, nextId, id, None, content, None, now)
      case Fail(_) => SubmissionAnswer(SERVER_ERROR, rows)
      case Ok(done) => SubmissionAnswer(if done.isNew then SERVER_ERROR else OK, done.rows)
  }

  /** As written, every submission that passes the checks is answered 500, and the stored row names no student and no file. */
  lemma SubmitAsWrittenFails(userId: nat, id: nat, assignments: seq<Assignment>, owner: Owner,
                             enrollments: seq<EnrollmentModel.Enrollment>, submissionType: Option<string>,
                             content: Option<string>, fileUrl: Option<string>,
                             rows: seq<Submission>, nextId: nat, now: int)
    requires SubmitGuard(userId, FindById(assignments, id), owner, enrollments, submissionType, content, fileUrl).None?
    ensures var r := SubmitAsWritten(userId, id, assignments, owner, enrollments, submissionType, content, fileUrl, rows, nextId, now);
      r.status == SERVER_ERROR && |r.rows| == |rows| + 1 &&
      r.rows[|rows|].studentId.None? && r.rows[|rows|].fileUrl.None?
  {
    NullStudentAlwaysInserts(assignments, rows, nextId, id, content, None, now);
  }

  /**
   * `submitAssignment` with the model's own keys (`student_id`, `file_url`) and the course
   * bound: past the checks the upsert runs and the answer is 200.
   */
  function SubmitAssignment(userId: nat, id: nat, assignments: seq<Assignment>, owner: Owner,
                            enrollments: seq<EnrollmentModel.Enrollment>, submissionType: Option<string>,
                            content: Option<string>, fileUrl: Option<string>,
                            rows: seq<Submission>, nextId: nat, now: int): (r: SubmissionAnswer)
    ensures r.status == OK <==>
      SubmitGuard(userId, FindById(assignments, id), owner, enrollments, submissionType, content, fileUrl).None?
    ensures r.status != OK ==> r.rows == rows
    ensures r.status == OK ==> r.rows == AfterSubmit(assignments, rows, nextId, id, Some(userId), content, fileUrl, now).value.rows
  {
    match SubmitGuard(userId, FindById(assignments, id), owner, enrollments, submissionType, content, fileUrl)
    case Some(s) => SubmissionAnswer(s, rows)
    case None =>
      var done := AfterSubmit(assignments, rows, nextId, id, Some(userId), content, fileUrl, now);
      SubmissionAnswer(OK, done.value.rows)
  }

  /** With the intended call, the table keeps one row per (assignment, student), and that row is the student's. */
  lemma SubmitKeepsOneRowPerStudent(userId: nat, id: nat, assignments: seq<Assignment>, owner: Owner,
                                    enrollments: seq<EnrollmentModel.Enrollment>, submissionType: Option<string>,
                                    content: Option<string>, fileUrl: Option<string>,
                                    rows: seq<Submission>, nextId: nat, now: int)
    requires OnePerStudent(rows) && UniqueSubmissionIds(rows)
    requires forall i :: 0 <= i < |rows| ==> rows[i].id < nextId
    ensures var r := SubmitAssignment(userId, id, assignments, owner, enrollments, submissionType, content, fileUrl, rows, nextId, now);
      OnePerStudent(r.rows) && UniqueSubmissionIds(r.rows) &&
      (r.status == OK ==> FindSubmission(r.rows, id, Some(userId)).Some?)
  {
    SubmitKeepsOnePerStudent(assignments, rows, nextId, id, Some(userId), content, fileUrl, now);
    var r := SubmitAssignment(userId, id, assignments, owner, enrollments, submissionType, content, fileUrl, rows, nextId, now);
    if r.status == OK {
      var done := AfterSubmit(assignments, rows, nextId, id, Some(userId), content, fileUrl, now).value;
      assert Matches(done.submission, id, Some(userId));
    }
  }

  /** The controller's own lateness test, `due_date && new Date(due_date) < now`, agrees with the model's. */
  lemma LatenessAgrees(dueDate: Option<int>, now: int)
    ensures (dueDate.Some? && dueDate.value < now) <==> Late(dueDate, now) == Some(true)
  {
  }

  // ---------------------------------------------------------------------------
  // gradeSubmission

  /**
   * The checks of `gradeSubmission`: a grade is required, the submission must exist, only
   * the admin or the course's instructor may grade, and the grade must lie in
   * [0, max_score]; a NULL max_score compares as 0.
   */
  function GradeGuard(user: Option<User>, grade: Option<real>, s: Option<Submission>, a: Assignment, owner: Owner)
    : (r: Option<Status>)
    ensures grade.None? ==> r == Some(BAD_REQUEST)
    ensures grade.Some? && s.None? ==> r == Some(NOT_FOUND)
    ensures grade.Some? && s.Some? && !AdminOrOwner(user, owner.instructorId) ==> r == Some(FORBIDDEN)
    ensures r.None? <==>
      grade.Some? && s.Some? && AdminOrOwner(user, owner.instructorId) &&
      0.0 <= grade.value <= a.maxScore.GetOr(0) as real
  {
    if grade.None? then Some(BAD_REQUEST)
    else if s.None? then Some(NOT_FOUND)
    else if !AdminOrOwner(user, owner.instructorId) then Some(FORBIDDEN)
    else if grade.value < 0.0 || grade.value > a.maxScore.GetOr(0) as real then Some(BAD_REQUEST)
    else None
  }

  /**
   * `gradeSubmission` as written: the grade is written, then the graded-notification call
   * receives no `submission_id` (the handler passes `user_id`, `assignment_id`, `grade` and
   * `assignment_title`), finds no submission and throws, so the answer is 500.
   */
  function GradeAsWritten(user: User, id: nat, grade: Option<real>, feedback: Option<string>, a: Assignment, owner: Owner,
                          rows: seq<Submission>, now: int): (r: SubmissionAnswer)
    ensures GradeGuard(Some(user), grade, FindSubmissionById(rows, id), a, owner).Some? ==> r.rows == rows
  {
    match GradeGuard(Some(user), grade, FindSubmissionById(rows, id), a, owner)
    case Some(s) => SubmissionAnswer(s, rows)
    case None => SubmissionAnswer(SERVER_ERROR, GradedRows(rows, id, grade.value, feedback, user.id, now))
  }

  /** As written, a grade that passes every check is stored and yet answered 500. */
  lemma GradeStoredButFails(user: User, id: nat, grade: real, feedback: Option<string>, a: Assignment, owner: Owner,
                            rows: seq<Submission>, now: int)
    requires GradeGuard(Some(user), Some(grade), FindSubmissionById(rows, id), a, owner).None?
    ensures var r := GradeAsWritten(user, id, Some(grade), feedback, a, owner, rows, now);
      r.status == SERVER_ERROR &&
      FindSubmissionById(r.rows, id).Some? && FindSubmissionById(r.rows, id).value.status == "graded"
  {
    var r := GradeAsWritten(user, id, Some(grade), feedback, a, owner, rows, now);
    var s := FindSubmissionById(rows, id).value;
    var k :| 0 <= k < |rows| && rows[k] == s;
    assert r.rows[k].id == id;
    GradedFound(rows, id, grade, feedback, user.id, now);
  }

  /** Every row with the graded key is graded afterwards, so the first one found is. */
  lemma {:induction false} GradedFound(rows: seq<Submission>, id: nat, score: real, feedback: Option<string>, grader: int, now: int)
    requires FindSubmissionById(rows, id).Some?
    ensures FindSubmissionById(GradedRows(rows, id, score, feedback, grader, now), id).Some?
    ensures FindSubmissionById(GradedRows(rows, id, score, feedback, grader, now), id).value.status == "graded"
  {
    var g := GradedRows(rows, id, score, feedback, grader, now);
    if !(rows[0].id == id && rows[0].studentId.Some?) {
      assert g[1..] == GradedRows(rows[1..], id, score, feedback, grader, now);
      GradedFound(rows[1..], id, score, feedback, grader, now);
    }
  }

  /** `gradeSubmission` with the notification given the submission's key: 200 once the checks pass. */
  function GradeSubmission(user: User, id: nat, grade: Option<real>, feedback: Option<string>, a: Assignment, owner: Owner,
                           rows: seq<Submission>, now: int): (r: SubmissionAnswer)
    ensures r.status == OK <==> GradeGuard(Some(user), grade, FindSubmissionById(rows, id), a, owner).None?
    ensures r.status != OK ==> r.rows == rows
    ensures r.status == OK ==> r.rows == GradedRows(rows, id, grade.value, feedback, user.id, now)
    ensures r.status == OK ==> 0.0 <= grade.value <= a.maxScore.GetOr(0) as real
  {
    match GradeGuard(Some(user), grade, FindSubmissionById(rows, id), a, owner)
    case Some(s) => SubmissionAnswer(s, rows)
    case None => SubmissionAnswer(OK, GradedRows(rows, id, grade.value, feedback, user.id, now))
  }

  /**
   * A row without a student, such as the as-written submit stores, is invisible to grading:
   * the joined lookup finds nothing, so grading its key answers 404 and writes nothing.
   */
  lemma NullStudentRowNotGraded(user: User, rows: seq<Submission>, k: nat, grade: real, feedback: Option<string>,
                                a: Assignment, owner: Owner, now: int)
    requires UniqueSubmissionIds(rows) && k < |rows| && rows[k].studentId.None?
    ensures GradeSubmission(user, rows[k].id, Some(grade), feedback, a, owner, rows, now) == SubmissionAnswer(NOT_FOUND, rows)
    ensures GradeAsWritten(user, rows[k].id, Some(grade), feedback, a, owner, rows, now) == SubmissionAnswer(NOT_FOUND, rows)
  {
    assert FindSubmissionById(rows, rows[k].id).None? by {
      forall s | s in rows ensures s.id != rows[k].id || s.studentId.None? {
        var j :| 0 <= j < |rows| && rows[j] == s;
        assert j != k ==> rows[j].id != rows[k].id;
      }
    }
  }

  // ---------------------------------------------------------------------------
  // Listings

  /**
   * `getSubmissionsByUser`: `String(user_id) !== String(req.user.id)` refuses anyone but the
   * user named in the route, unless an admin.
   */
  function ListUserSubmissions(user: User, routeUserId: string): (r: Status)
    ensures r == OK <==> SelfOrAdmin(user, routeUserId)
    ensures r != OK ==> r == FORBIDDEN
  {
    if routeUserId != Strings.IntString(user.id) && !IsAdmin(user) then FORBIDDEN else OK
  }

  /** `assignments.filter(a => a.is_published)`. */
  function PublishedOnly(list: seq<Assignment>): (r: seq<Assignment>)
    ensures forall a :: a in r <==> a in list && a.isPublished
    ensures |r| <= |list|
  {
    if list == [] then []
    else (if list[0].isPublished then [list[0]] else []) + PublishedOnly(list[1..])
  }

  datatype Listing = Listing(status: Status, assignments: seq<Assignment>)

  /** `getAssignmentsByCourse`: the whole list for the admin and the course's instructor, the published ones for everyone else. */
  function CourseAssignments(user: Option<User>, course: Option<CourseModel.Course>, list: seq<Assignment>): (r: Listing)
    ensures course.None? ==> r.status == NOT_FOUND
    ensures course.Some? ==> r.status == OK
    ensures course.Some? && AdminOrOwner(user, course.value.instructorId) ==> r.assignments == list
    ensures course.Some? && !AdminOrOwner(user, course.value.instructorId) ==>
      forall a :: a in r.assignments <==> a in list && a.isPublished
  {
    if course.None? then Listing(NOT_FOUND, [])
    else if AdminOrOwner(user, course.value.instructorId) then Listing(OK, list)
    else Listing(OK, PublishedOnly(list))
  }

  datatype PendingList = PendingList(status: Status, submissions: seq<Submission>)

  /**
   * `getPendingSubmissions`: an unknown course is 404, then only the admin or its
   * instructor; the list holds the course's submissions whose status is 'submitted' and
   * which name a student.
   */
  function PendingSubmissions(user: Option<User>, courseId: nat, course: Option<CourseModel.Course>,
                              rows: seq<Submission>, courseOf: map<nat, nat>): (r: PendingList)
    ensures course.None? ==> r.status == NOT_FOUND
    ensures r.status == OK <==> course.Some? && AdminOrOwner(user, course.value.instructorId)
    ensures r.status == OK && courseId != 0 ==>
      forall s :: s in r.submissions <==>
        s in rows && s.status == "submitted" && s.studentId.Some? && s.assignmentId in courseOf && courseOf[s.assignmentId] == courseId
    ensures r.status != OK ==> r.submissions == []
  {
    if course.None? then PendingList(NOT_FOUND, [])
    else if !AdminOrOwner(user, course.value.instructorId) then PendingList(FORBIDDEN, [])
    else PendingList(OK, Pending(rows, courseOf, courseId))
  }
}
