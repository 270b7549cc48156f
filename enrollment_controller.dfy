// The enrollment handlers (server/controllers/enrollmentController.js): the guard
// chain of enrolling, who may see, change or delete an enrollment, and the
// progress cascade that follows a completed lesson.

module EnrollmentController {
  import opened Wrappers
  import opened Http
  import Percent
  import CourseModel
  import LessonModel
  import Ordering
  import opened EnrollmentModel

  // ---------------------------------------------------------------------------
  // enrollInCourse

  /** The status, the message, the enrollment in the body, and the table afterwards. */
  datatype Enrolled = Enrolled(status: Status, message: string, enrollment: Option<Enrollment>, rows: seq<Enrollment>)

  /**
   * `enrollInCourse`. `courseId` is `req.body.course_id`, 0 standing for a missing or falsy
   * value; `course` is what `findById` answers for it. The notification a new enrollment
   * sends is not part of the table.
   */
  function EnrollInCourse(userId: nat, courseId: nat, course: Option<CourseModel.Course>,
                          rows: seq<Enrollment>, nextId: nat): (r: Enrolled)
    ensures courseId == 0 ==> r.status == BAD_REQUEST && r.message == "Course ID is required"
    ensures courseId != 0 && course.None? ==> r.status == NOT_FOUND
    ensures courseId != 0 && course.Some? && !course.value.isPublished ==>
      r.status == BAD_REQUEST && r.message == "Cannot enroll in unpublished course"
    ensures courseId != 0 && course.Some? && course.value.isPublished && course.value.status != "approved" ==>
      r.status == BAD_REQUEST && r.message == "Cannot enroll in course that is not approved"
    ensures (courseId != 0 && course.Some? && course.value.isPublished && course.value.status == "approved" &&
             IsEnrolled(rows, userId, courseId)) ==>
      r.status == BAD_REQUEST && r.enrollment == FindByUserAndCourse(rows, userId, courseId)
    ensures r.status == CREATED <==>
      courseId != 0 && course.Some? && course.value.isPublished && course.value.status == "approved" &&
      !IsEnrolled(rows, userId, courseId)
    ensures r.status != CREATED ==> r.rows == rows
    ensures r.status == CREATED ==>
      r.enrollment == Some(Enrollment(nextId, userId, courseId, "active", 0, None)) && r.rows == rows + [r.enrollment.value]
  {
    if courseId == 0 then Enrolled(BAD_REQUEST, "Course ID is required", None, rows)
    else if course.None? then Enrolled(NOT_FOUND, "Course not found", None, rows)
    else if !course.value.isPublished then Enrolled(BAD_REQUEST, "Cannot enroll in unpublished course", None, rows)
    else if course.value.status != "approved" then
      Enrolled(BAD_REQUEST, "Cannot enroll in course that is not approved", None, rows)
    else
      var existing := FindByUserAndCourse(rows, userId, courseId);
      if existing.Some? then Enrolled(BAD_REQUEST, "Already enrolled in this course", existing, rows)
      else
        var (rows', e) := AfterCreate(rows, nextId, userId, courseId);
        Enrolled(CREATED, "Successfully enrolled in course", Some(e), rows')
  }

  /** Enrolling keeps one row per (user, course), and a second request for the same pair is refused. */
  lemma EnrollTwice(userId: nat, courseId: nat, course: Option<CourseModel.Course>, rows: seq<Enrollment>, nextId: nat)
    requires OnePerPair(rows)
    ensures OnePerPair(EnrollInCourse(userId, courseId, course, rows, nextId).rows)
    ensures var r := EnrollInCourse(userId, courseId, course, rows, nextId);
      r.status == CREATED ==>
        EnrollInCourse(userId, courseId, course, r.rows, nextId + 1) ==
        Enrolled(BAD_REQUEST, "Already enrolled in this course", r.enrollment, r.rows)
  {
    var r := EnrollInCourse(userId, courseId, course, rows, nextId);
    CreateKeepsOnePerPair(rows, nextId, userId, courseId);
    if r.status == CREATED {
      FindAfterAppend(rows, r.enrollment.value, userId, courseId);
    }
  }

  // ---------------------------------------------------------------------------
  // Who may read an enrollment

  /**
   * What `findWithCourseDetails` joins: the enrolled user (`e.user_id`) and the course's
   * instructor. The statement selects `e.*` and the instructor's name, not `c.instructor_id`,
   * so the row the handler reads carries the instructor only in the corrected statement.
   */
  datatype Details = Details(userId: nat, instructorId: int)

  /**
   * `getEnrollmentById` as written: `enrollment.instructor_id` is undefined, so
   * `isInstructor` never holds and only the admin or the enrolled user may read it.
   */
  function ViewEnrollment(user: Option<User>, details: Option<Details>): (r: Status)
    ensures details.None? ==> r == NOT_FOUND
    ensures r == OK <==> details.Some? && user.Some? && (IsAdmin(user.value) || user.value.id == details.value.userId)
    ensures r in {OK, FORBIDDEN, NOT_FOUND}
  {
    if details.None? then NOT_FOUND
    else if user.Some? && (IsAdmin(user.value) || user.value.id == details.value.userId) then OK
    else FORBIDDEN
  }

  /** `getEnrollmentById` with `c.instructor_id` selected: the admin, the course's instructor or the enrolled user. */
  function ViewEnrollmentFixed(user: Option<User>, details: Option<Details>): (r: Status)
    ensures details.None? ==> r == NOT_FOUND
    ensures r == OK <==>
      details.Some? && user.Some? && (IsAdmin(user.value) || user.value.id == details.value.instructorId || user.value.id == details.value.userId)
    ensures r in {OK, FORBIDDEN, NOT_FOUND}
  {
    if details.None? then NOT_FOUND
    else if AdminOrOwner(user, details.value.instructorId) || (user.Some? && user.value.id == details.value.userId) then OK
    else FORBIDDEN
  }

  /**
   * The course's instructor, not an admin and not enrolled, is refused the enrollment as
   * written and admitted by the corrected statement; everyone else is answered alike.
   */
  lemma InstructorRefusedEnrollment(user: User, d: Details)
    requires user.id == d.instructorId && user.id != d.userId && user.role != "admin"
    ensures ViewEnrollment(Some(user), Some(d)) == FORBIDDEN
    ensures ViewEnrollmentFixed(Some(user), Some(d)) == OK
    ensures forall u: Option<User> :: (u.None? || u.value.id != d.instructorId || IsAdmin(u.value) || u.value.id == d.userId) ==>
      ViewEnrollment(u, Some(d)) == ViewEnrollmentFixed(u, Some(d))
  {
  }

  /** `getEnrollmentsByCourse`: an unknown course is 404; then only the admin or its instructor. */
  function ViewCourseEnrollments(user: Option<User>, course: Option<CourseModel.Course>): (r: Status)
    ensures course.None? ==> r == NOT_FOUND
    ensures r == OK <==> course.Some? && user.Some? && (IsAdmin(user.value) || user.value.id == course.value.instructorId)
    ensures r in {OK, FORBIDDEN, NOT_FOUND}
  {
    if course.None? then NOT_FOUND
    else if AdminOrOwner(user, course.value.instructorId) then OK
    else FORBIDDEN
  }

  /**
   * A student enrolled in a course may read the enrollment but not the course's list, and
   * another student may read neither.
   */
  lemma EnrolledStudentSeesOwnRowOnly(user: User, other: User, course: CourseModel.Course)
    requires user.role == "student" && user.id >= 0 && user.id != course.instructorId
    requires other.role == "student" && other.id != user.id
    ensures ViewEnrollment(Some(user), Some(Details(user.id, course.instructorId))) == OK
    ensures ViewCourseEnrollments(Some(user), Some(course)) == FORBIDDEN
    ensures ViewEnrollment(Some(other), Some(Details(user.id, course.instructorId))) == FORBIDDEN
  {
  }

  /** `getCourseProgress`: answered only when a row for the pair exists, whatever its status. */
  function CourseProgressAccess(userId: nat, courseId: nat, rows: seq<Enrollment>): (r: Status)
    ensures r == OK <==> exists e :: e in rows && e.userId == userId && e.courseId == courseId
    ensures r != OK ==> r == NOT_FOUND
  {
    if FindByUserAndCourse(rows, userId, courseId).None? then NOT_FOUND else OK
  }

  /** `getRecentEnrollments` and `getEnrollmentStatistics`: admins only. */
  function AdminOnly(user: Option<User>): (r: Status)
    ensures r == OK <==> user.Some? && user.value.role == "admin"
    ensures r != OK ==> r == FORBIDDEN
  {
    if user.Some? && IsAdmin(user.value) then OK else FORBIDDEN
  }

  /** `getEnrollmentsForInstructor` and `getInstructorStats`: instructors and admins. */
  function InstructorOrAdmin(user: Option<User>): (r: Status)
    ensures r == OK <==> user.Some? && user.value.role in {"admin", "instructor"}
    ensures r != OK ==> r == FORBIDDEN
  {
    if user.Some? && (IsAdmin(user.value) || user.value.role == "instructor") then OK else FORBIDDEN
  }

  /** Whoever may see the admin dashboard may also see the instructor dashboard, but not the other way round. */
  lemma AdminOnlyNarrower(user: Option<User>)
    ensures AdminOnly(user) == OK ==> InstructorOrAdmin(user) == OK
    ensures AdminOnly(Some(User(1, "instructor"))) == FORBIDDEN && InstructorOrAdmin(Some(User(1, "instructor"))) == OK
  {
  }

  // ---------------------------------------------------------------------------
  // Changing and deleting an enrollment

  datatype Changed = Changed(status: Status, enrollment: Option<Enrollment>, rows: seq<Enrollment>)

  /**
   * `updateProgress`: a progress value is required (None is undefined or null), the row must
   * exist, and only the enrolled user may change it. The value is written as given.
   */
  function UpdateProgress(userId: int, id: nat, progress: Option<int>, rows: seq<Enrollment>): (r: Changed)
    ensures progress.None? ==> r.status == BAD_REQUEST
    ensures progress.Some? && FindById(rows, id).None? ==> r.status == NOT_FOUND
    ensures r.status == OK <==> progress.Some? && FindById(rows, id).Some? && FindById(rows, id).value.userId == userId
    ensures r.status != OK ==> r.rows == rows
    ensures r.status == OK ==>
      r.rows == UpdatedWhere(rows, id, e => WithProgress(e, progress.value)) &&
      r.enrollment == Some(WithProgress(FindById(rows, id).value, progress.value))
  {
    if progress.None? then Changed(BAD_REQUEST, None, rows)
    else
      var found := FindById(rows, id);
      if found.None? then Changed(NOT_FOUND, None, rows)
      else if found.value.userId != userId then Changed(FORBIDDEN, None, rows)
      else Changed(OK, Some(WithProgress(found.value, progress.value)), UpdatedWhere(rows, id, e => WithProgress(e, progress.value)))
  }

  /** Admins are refused too, and nothing bounds the value: the owner may write 250, or -1. */
  lemma ProgressUnchecked(admin: User, e: Enrollment, p: int)
    requires IsAdmin(admin) && admin.id != e.userId
    ensures UpdateProgress(admin.id, e.id, Some(p), [e]).status == FORBIDDEN
    ensures UpdateProgress(e.userId, e.id, Some(p), [e]).status == OK
    ensures UpdateProgress(e.userId, e.id, Some(p), [e]).rows == [e.(progress := p)]
  {
    var r := UpdateProgress(e.userId, e.id, Some(p), [e]);
    assert r.rows[0] == e.(progress := p);
  }

  /** `unenrollFromCourse`: the enrolled user or an admin deletes the row. */
  function Unenroll(user: User, id: nat, rows: seq<Enrollment>): (r: Changed)
    ensures FindById(rows, id).None? ==> r.status == NOT_FOUND
    ensures r.status == OK <==> FindById(rows, id).Some? && (FindById(rows, id).value.userId == user.id || IsAdmin(user))
    ensures r.status != OK ==> r.rows == rows
    ensures r.status == OK ==> r.rows == WithoutId(rows, id) && r.enrollment.None?
  {
    var found := FindById(rows, id);
    if found.None? then Changed(NOT_FOUND, None, rows)
    else if found.value.userId != user.id && !IsAdmin(user) then Changed(FORBIDDEN, None, rows)
    else Changed(OK, None, WithoutId(rows, id))
  }

  /** After a successful unenroll the key is gone and the other rows are kept. */
  lemma UnenrollRemovesOnlyThatRow(user: User, id: nat, rows: seq<Enrollment>)
    ensures var r := Unenroll(user, id, rows);
      r.status == OK ==> FindById(r.rows, id).None? && forall e :: e in rows && e.id != id ==> e in r.rows
  {
  }

  // ---------------------------------------------------------------------------
  // markLessonCompleted

  /**
   * What the call `LessonModel.markLessonCompleted(...)` may give: it throws (LessonModel
   * defines `markCompleted` but no `markLessonCompleted`, so as written it always throws),
   * it gives nothing, or it gives a row whose `course_id` may be absent.
   */
  datatype LessonStep = Threw | NoRow | Row(courseId: Option<nat>)

  /** The two keys the cascade reads from the course progress object. */
  datatype ProgressKeys = ProgressKeys(enrollmentId: Option<nat>, progress: Option<int>)

  /**
   * `getCourseProgress` answers `totalLessons`, `completedLessons` and `progressPercentage`,
   * so `enrollment_id` and `progress` are both undefined.
   */
  function KeysOf(p: LessonModel.CourseProgress): (k: ProgressKeys)
    ensures k.enrollmentId.None? && k.progress.None?
  {
    ProgressKeys(None, None)
  }

  /** The enrollment writes the cascade issues: a progress write and a completion. */
  datatype Writes = Writes(progress: Option<(nat, Option<int>)>, complete: Option<nat>)

  /**
   * The cascade as written: with a truthy enrollment id it writes the progress, and it marks
   * the enrollment completed when the progress is exactly 100.
   */
  function Cascade(k: ProgressKeys): (w: Writes)
    ensures w.complete.Some? ==> w.progress == Some((w.complete.value, Some(100)))
    ensures w.progress.Some? <==> k.enrollmentId.Some? && k.enrollmentId.value != 0
    ensures w.complete.Some? <==> w.progress.Some? && k.progress == Some(100)
  {
    if k.enrollmentId.Some? && k.enrollmentId.value != 0 then
      var id := k.enrollmentId.value;
      Writes(Some((id, k.progress)), if k.progress == Some(100) then Some(id) else None)
    else Writes(None, None)
  }

  datatype Completion = Completion(status: Status, writes: Writes)

  /**
   * `markLessonCompleted` as written: a throw is 500, no row is 404, and otherwise the course
   * progress of `result.course_id` is read and the cascade runs on its keys.
   */
  function MarkLessonCompleted(step: LessonStep, lessons: seq<LessonModel.LessonRow>,
                               progress: seq<LessonModel.Progress>, modulesOf: map<nat, set<nat>>, userId: nat): (r: Completion)
    ensures step.Threw? ==> r.status == SERVER_ERROR
    ensures step.NoRow? ==> r.status == NOT_FOUND
    ensures step.Row? ==> r.status == OK
  {
    match step
    case Threw => Completion(SERVER_ERROR, Writes(None, None))
    case NoRow => Completion(NOT_FOUND, Writes(None, None))
    case Row(courseId) =>
      var modules := if courseId.Some? && courseId.value in modulesOf then modulesOf[courseId.value] else {};
      var cp := LessonModel.GetCourseProgress(lessons, progress, modules, userId);
      Completion(OK, Cascade(KeysOf(cp)))
  }

  /** Whatever the lesson step answers, the enrollment is never written: the cascade cannot run. */
  lemma CascadeNeverWrites(step: LessonStep, lessons: seq<LessonModel.LessonRow>,
                           progress: seq<LessonModel.Progress>, modulesOf: map<nat, set<nat>>, userId: nat)
    ensures MarkLessonCompleted(step, lessons, progress, modulesOf, userId).writes == Writes(None, None)
  {
  }

  /**
   * The cascade as intended, on the keys `getCourseProgress` does answer: write the rounded
   * percentage to the enrollment, then mark it completed when it reads 100.
   */
  function CascadeRows(rows: seq<Enrollment>, id: nat, cp: LessonModel.CourseProgress, now: int): (r: seq<Enrollment>)
    ensures |r| == |rows|
    ensures forall i :: 0 <= i < |rows| && rows[i].id != id ==> r[i] == rows[i]
    ensures forall i :: 0 <= i < |rows| && rows[i].id == id ==>
      r[i].progress == cp.progressPercentage &&
      (r[i].status == "completed" <==> cp.progressPercentage == 100 || rows[i].status == "completed")
  {
    var written := UpdatedWhere(rows, id, e => WithProgress(e, cp.progressPercentage));
    if cp.progressPercentage == 100 then UpdatedWhere(written, id, e => Completed(e, now)) else written
  }

  /**
   * The intended cascade run against the enrollment table: the two writes in order, the
   * second only at 100 per cent.
   */
  method CompleteCascade(store: EnrollmentStore, id: nat, cp: LessonModel.CourseProgress, now: int)
    requires store.Valid()
    modifies store
    ensures store.Valid()
    ensures store.enrollments == CascadeRows(old(store.enrollments), id, cp, now)
    ensures store.nextId == old(store.nextId)
  {
    var _ := store.UpdateProgress(id, cp.progressPercentage);
    if cp.progressPercentage == 100 {
      var _ := store.MarkCompleted(id, now);
    }
  }

  /**
   * With the intended cascade, an enrollment is marked completed once every lesson of the
   * course is, and only once at least 199 of every 200 of them are.
   */
  lemma CascadeCompletesFinishedCourse(rows: seq<Enrollment>, e: Enrollment, lessons: seq<LessonModel.LessonRow>,
                                       progress: seq<LessonModel.Progress>, modules: set<nat>, now: int)
    requires e in rows && e.status != "completed"
    requires Ordering.UniqueIds(lessons) && LessonModel.OnePerPair(progress)
    ensures var cp := LessonModel.GetCourseProgress(lessons, progress, modules, e.userId);
      cp.totalLessons > 0 && cp.completedLessons == cp.totalLessons ==>
        FindById(CascadeRows(rows, e.id, cp, now), e.id).Some? &&
        FindById(CascadeRows(rows, e.id, cp, now), e.id).value.status == "completed"
    ensures var cp := LessonModel.GetCourseProgress(lessons, progress, modules, e.userId);
      cp.progressPercentage == 100 ==> cp.totalLessons > 0 && 199 * cp.totalLessons <= 200 * cp.completedLessons
  {
    var cp := LessonModel.GetCourseProgress(lessons, progress, modules, e.userId);
    LessonModel.CourseProgressBounds(lessons, progress, modules, e.userId);
    CascadeFindsRow(rows, e, cp, now);
  }

  /** After the cascade the enrollment is still found, and it is completed when the percentage read 100. */
  lemma CascadeFindsRow(rows: seq<Enrollment>, e: Enrollment, cp: LessonModel.CourseProgress, now: int)
    requires e in rows
    ensures FindById(CascadeRows(rows, e.id, cp, now), e.id).Some?
    ensures cp.progressPercentage == 100 ==> FindById(CascadeRows(rows, e.id, cp, now), e.id).value.status == "completed"
  {
    var r := CascadeRows(rows, e.id, cp, now);
    var found := FindById(r, e.id);
    assert found.Some? by {
      var i :| 0 <= i < |rows| && rows[i] == e;
      assert r[i].id == e.id;
    }
    var j :| 0 <= j < |r| && r[j] == found.value;
    assert rows[j].id == e.id;
  }

  /** The percentage can read 100 with one lesson outstanding, so the intended cascade completes early. */
  lemma CascadeCompletesEarly(rows: seq<Enrollment>, id: nat, now: int)
    ensures var cp := LessonModel.CourseProgress(200, 199, Percent.Percentage(199, 200));
      cp.progressPercentage == 100 &&
      forall i :: 0 <= i < |rows| && rows[i].id == id ==> CascadeRows(rows, id, cp, now)[i].status == "completed"
  {
    LessonModel.OneOutstandingReadsHundred();
  }
}
