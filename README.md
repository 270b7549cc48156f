# LMS backend core, modelled in Dafny

This project models the domain logic of a learning-management backend written
for Node.js with Express and PostgreSQL (`server/`). The system serves courses
made of modules and lessons. It also handles quizzes and assignments, enrollments
with progress tracking, reviews with helpful marks, notifications, user accounts
with roles, and file uploads. The model drops the SQL and HTTP plumbing and keeps
the decisions and state changes beneath it:

- **Quiz grading.** The controller's grader in `submitQuizAttempt` works over
  option-id sets. The model's grader in `submitAttempt` works over one correct
  answer per question and rounds the percentage.
- **Ordered children.** Lessons in a module, modules in a course, and questions and
  options in a quiz each keep an order. The model covers append at the next index,
  delete with compaction of the later siblings, and move-with-shift reorder. Each
  of these is a loop proved against a specification function. Permutation and
  contiguity invariants are proved once in `Ordering`.
- **Progress and completion.** This covers the lesson-completion upsert, the
  rounded course-progress percentage, enrollment completion and the two different
  "enrolled" predicates.
- **Lifecycle state machines.** Course approval and resubmission, the
  one-submission-per-student upsert with its late flag and grading, and the review
  helpful-mark toggle.
- **Access control.** Every endpoint is a guard chain. Each is modelled as a
  function from the requester and a snapshot of the tables to a status code and the
  resulting tables.
- **Validators and small record functions.** The upload extension/MIME filter, the
  public-id derivation, the bearer-header split, the password and name rules, SQL
  placeholder numbering, the error-to-status mapping, the validation-detail field
  map, the user-response projection and the notification text mapping.

Each database table is a `seq` of rows, or a `map` keyed by id. The models that
change tables in place are classes: `LessonModel.LessonStore`,
`ModuleModel.ModuleStore`, `EnrollmentModel.EnrollmentStore`,
`AssignmentModel.AssignmentStore`, `ReviewModel.ReviewStore`,
`NotificationModel.NotificationStore`, `UserModel.UserStore`,
`CourseModel.CourseStore` and `QuizModel.QuizStore`. Their methods state the
whole new state through pure functions of the old state, and lemmas prove
properties of those functions.

Some calls have no definition in the model files they target, such as
`findByIdWithQuestions`, `markLessonCompleted`, `reorderLessons`, `reorderModules`
and `hasUserMarkedReviewAsHelpful`. These are modelled as calls that throw, so the
surrounding handler answers 500. A JavaScript object literal that defines a key
twice keeps the later definition: only the effective `addQuestion`,
`updateQuestion` and `deleteQuestion` are modelled. The clock (`Date.now()`,
`CURRENT_TIMESTAMP`) is an integer parameter `now`. `Math.round(a / b * 100)` for
`a, b >= 0` is modelled on rationals as `(200 * a + b) / (2 * b)`; the server computes
it in doubles, and "Left out" names the cases where the two differ.

The model follows the code as written, also where the code's documentation says
otherwise. Where the code defeats its own evident intent, "Findings" below records
it. Each finding has a member that models the code as written and a corrected member
with the intended property proved. Some of them break a handler outright: a review
can never be created, and a system notification always goes to every user.

## Model

| member | source | states |
|---|---|---|
| AssignmentController.CreateAssignment | server/controllers/assignmentController.js:12-72 | `createAssignment`: a title and a lesson id (0 when missing) are required, the lesson must exist (`owner` is None otherwise), and only an admin or the course's instructor may add to it. The new row takes the course of the lesson's module. |
| AssignmentController.ViewAssignment | server/controllers/assignmentController.js:75-120 | `getAssignmentById`: an id that does not parse is 400, an unknown one 404; an unpublished assignment is shown to anyone whose role is admin or instructor, and to the course's instructor. |
| AssignmentController.AnyInstructorSeesUnpublished | server/controllers/assignmentController.js:97-104 | Any instructor sees an unpublished assignment, also of a course that is not theirs. |
| AssignmentController.OwnerGuard | server/controllers/assignmentController.js:168-246 | The guard of update, delete, publish, unpublish, statistics and the submission list: an unknown assignment is 404, then only the admin or the course's instructor passes. |
| AssignmentController.UpdateAssignment | server/controllers/assignmentController.js:168-211 | `updateAssignment`: the COALESCE update of the model once the guard passes. |
| AssignmentController.DeleteAssignment | server/controllers/assignmentController.js:214-246 | 200 exactly when the assignment exists and the caller is an admin or its instructor; then the row is gone and nothing else changes, otherwise the table is untouched. |
| AssignmentController.GuardedMissingCall | server/controllers/assignmentController.js:471-588 | `publishAssignment`, `unpublishAssignment` and `getAssignmentStatistics` call `publish`, `unpublish` and `getAssignmentStatistics`, which AssignmentModel does not define: past the guard the call throws and the answer is 500, with nothing written. |
| AssignmentController.SubmitGuard | server/controllers/assignmentController.js:249-290 | The checks of `submitAssignment` before the model is called: unknown 404, unpublished 403, no 'active' enrollment in the course 403, then the text and file requirements of the assignment's `submission_type`. |
| AssignmentController.SubmitAsWritten | server/controllers/assignmentController.js:249-315 | `submitAssignment` as written. The model is called with `user_id` and `file_urls`, keys it does not read, so it sees no student and no file. A new submission then reads `course.instructor_id`, but no `course` is bound in the handler, so the call throws. |
| AssignmentController.SubmitAsWrittenFails | server/controllers/assignmentController.js:291-305 | As written, every submission that passes the checks is answered 500, and the stored row names no student and no file. |
| AssignmentController.SubmitAssignment | server/controllers/assignmentController.js:249-315 | `submitAssignment` with the model's own keys (`student_id`, `file_url`) and the course bound: past the checks the upsert runs and the answer is 200. |
| AssignmentController.SubmitKeepsOneRowPerStudent | server/models/assignmentModel.js:115-163 | With the intended call, the table keeps one row per (assignment, student), and that row is the student's. |
| AssignmentController.LatenessAgrees | server/controllers/assignmentController.js:285-286 | The controller's own lateness test, `due_date && new Date(due_date) < now`, agrees with the model's. |
| AssignmentController.GradeGuard | server/controllers/assignmentController.js:318-360 | The checks of `gradeSubmission`: a grade is required, the submission must exist, only the admin or the course's instructor may grade, and the grade must lie in [0, max_score]; a NULL max_score compares as 0. |
| AssignmentController.GradeAsWritten | server/controllers/assignmentController.js:318-374 | `gradeSubmission` as written: the grade is written, then the graded-notification call receives no `submission_id` (the handler passes `user_id`, `assignment_id`, `grade` and `assignment_title`), finds no submission and throws, so the answer is 500. |
| AssignmentController.GradeStoredButFails | server/controllers/assignmentController.js:318-374 | As written, a grade that passes every check is stored and yet answered 500. |
| AssignmentController.GradedFound | server/models/assignmentModel.js:166-203 | Every row with the graded key is graded afterwards, so the first one found is. |
| AssignmentController.GradeSubmission | server/controllers/assignmentController.js:318-374 | `gradeSubmission` with the notification given the submission's key: 200 once the checks pass. |
| AssignmentController.NullStudentRowNotGraded | server/models/assignmentModel.js:186-203 | A row without a student, such as the as-written submit stores, is invisible to grading: the joined lookup finds nothing, so grading its key answers 404 and writes nothing. |
| AssignmentController.ListUserSubmissions | server/controllers/assignmentController.js:417-438 | `getSubmissionsByUser`: `String(user_id) !== String(req.user.id)` refuses anyone but the user named in the route, unless an admin. |
| AssignmentController.PublishedOnly | server/controllers/assignmentController.js:795 | Keeps exactly the published assignments, in their order. |
| AssignmentController.CourseAssignments | server/controllers/assignmentController.js:773-807 | `getAssignmentsByCourse`: the whole list for the admin and the course's instructor, the published ones for everyone else. |
| AssignmentController.PendingSubmissions | server/controllers/assignmentController.js:441-468 | `getPendingSubmissions`: an unknown course is 404, then only the admin or its instructor; the list holds the course's submissions whose status is 'submitted' and which name a student. |
| AssignmentModel.NewRow | server/models/assignmentModel.js:5-18 | The row `create` inserts: max_score 100 and is_published false unless given. |
| AssignmentModel.FindById | server/models/assignmentModel.js:21-36 | The row found has the key asked for and is in the table; nothing is found exactly when no row has that key. |
| AssignmentModel.Merged | server/models/assignmentModel.js:73-86 | A merged row keeps its id, lesson, course and instructions, and its updated_at becomes the time of the update. |
| AssignmentModel.MergeFacts | server/models/assignmentModel.js:73-86 | Every given field is written, every missing one kept; applying the same update twice is applying it once. |
| AssignmentModel.UpdatedRows | server/models/assignmentModel.js:70-91 | Same number of rows; the row with the key is merged, every other row is unchanged. |
| AssignmentModel.WithoutAssignment | server/models/assignmentModel.js:103-106 | `DELETE FROM assignments WHERE id = $1`: exactly the rows with another key remain. |
| AssignmentModel.WithoutLegacy | server/models/assignmentModel.js:97-100 | `DELETE FROM submissions WHERE assignment_id = $1`: the rows of that table are kept by assignment id. |
| AssignmentModel.Late | server/models/assignmentModel.js:124-126 | `is_late = dueDate && now > dueDate`: null without a due date, otherwise whether the due date has passed. |
| AssignmentModel.FindSubmission | server/models/assignmentModel.js:128-134 | The existing-submission lookup for an (assignment, student) pair: the row found matches the pair; nothing is found exactly when no row does (a NULL student matches no row). |
| AssignmentModel.Resubmitted | server/models/assignmentModel.js:136-147 | The resubmission `UPDATE`: text, file, time, status 'submitted' and lateness; score and feedback stay. |
| AssignmentModel.AfterSubmit | server/models/assignmentModel.js:115-163 | `submitAssignment`: an unknown assignment throws; an existing row for the pair is updated in place, with every row that is not the pair's kept as it was; otherwise a row is inserted under the next id. |
| AssignmentModel.SubmitKeepsOnePerStudent | server/models/assignmentModel.js:115-163 | The upsert keeps one row per (assignment, student) and keeps the keys unique. |
| AssignmentModel.SubmitTwice | server/models/assignmentModel.js:115-163 | A student who submits twice gets the first row back, updated, and no second row. |
| AssignmentModel.FirstMatchKept | server/models/assignmentModel.js:115-163 | After the upsert, the first row that matches the pair is the one the upsert returned. |
| AssignmentModel.NullStudentAlwaysInserts | server/models/assignmentModel.js:128-158 | Without a student id no existing row is ever found, so every call inserts a new row. |
| AssignmentModel.Graded | server/models/assignmentModel.js:166-183 | `gradeSubmission`: score, feedback, grader, time and status 'graded'. |
| AssignmentModel.GradedRows | server/models/assignmentModel.js:166-183 | The grading UPDATE over the table: the row with the key is graded, every other row is kept, and the table keeps its length. |
| AssignmentModel.FindRowById | server/models/assignmentModel.js:166-183 | `UPDATE assignment_submissions ... WHERE id = $1 RETURNING *`: the row with the key, whatever its student. |
| AssignmentModel.FindSubmissionById | server/models/assignmentModel.js:186-203 | The submission found has the key asked for and names a student; nothing is found exactly when every row with the key has a NULL student, which the inner join with users drops. |
| AssignmentModel.JoinedLookupAgrees | server/models/assignmentModel.js:166-203 | With unique keys, the joined lookup finds the keyed row exactly when that row names a student. |
| AssignmentModel.Pending | server/models/assignmentModel.js:271-300 | `getPendingSubmissions`: rows whose status is 'submitted', joined to their student (the inner join drops a NULL student) and to their assignment's course (`courseOf`), restricted to one course when a truthy course id is given. |
| AssignmentModel.GradeThenResubmit | server/models/assignmentModel.js:115-183 | The submission life cycle submitted -> graded -> submitted: grading takes a row off the pending list, and resubmitting puts it back (when it names a student) with its old score still attached. |
| AssignmentModel.AssignmentStore.constructor | server/models/assignmentModel.js:1-5 | An empty database: no assignments and no submissions in either table. |
| AssignmentModel.AssignmentStore.Create | server/models/assignmentModel.js:5-18 | Appends exactly the new row under the next id, leaves submissions untouched and keeps the store's invariant. |
| AssignmentModel.AssignmentStore.Update | server/models/assignmentModel.js:70-91 | Only the row with the key is merged; the merged row is returned, or nothing for an unknown key; submissions untouched. |
| AssignmentModel.AssignmentStore.Delete | server/models/assignmentModel.js:94-112 | `delete`: clears the assignment's rows from the `submissions` table, then deletes the assignment. Its rows in `assignment_submissions`, the table submissions are written to, are left in place. |
| AssignmentModel.AssignmentStore.SubmitAssignment | server/models/assignmentModel.js:115-163 | `submitAssignment`: the upsert of `AfterSubmit`; an unknown assignment throws and changes nothing. |
| AssignmentModel.AssignmentStore.GradeSubmission | server/models/assignmentModel.js:166-183 | Only the submission with the key gets the score, feedback, grader and time; it is returned, or nothing for an unknown key; assignments untouched. |
| Auth.TokenOf | server/middleware/auth.js:19-23 | The token is the second space-separated word of the header; a header without one, or with an empty one, carries no token. |
| Auth.TokenAfterAnyScheme | server/middleware/auth.js:19 | The token is the word after the first space, whatever precedes it: the 'Bearer' scheme of section 2.1 of RFC 6750 is never checked. |
| Auth.NoTokenCases | server/middleware/auth.js:19-23 | A header that is the scheme alone, or has two spaces before the token, carries no token. |
| Auth.TokenFailure | server/middleware/auth.js:34-43 | The catch block: the verifier's own errors become AuthErrors, any other error passes through. |
| Auth.Authenticate | server/middleware/auth.js:11-44 | `authenticateToken`, with the token verifier as a parameter: a missing header, a missing token and a rejected token are refused; a token naming no user gives NotFoundError; otherwise the stored user becomes the requester. |
| Auth.SchemeIgnored | server/middleware/auth.js:19-33 | Any scheme word works as well as 'Bearer': two headers with the same token authenticate alike. |
| Auth.RefusalsAreUnauthorized | server/middleware/auth.js:11-44 | Every refusal answers 401 through the error middleware, except an unknown user (404) and an error of the verifier other than its two named kinds, which keeps its own status. |
| Auth.AuthorizeRoles | server/middleware/auth.js:47-57 | `authorizeRoles(...roles)`: 403 unless a requester is present and their role is listed. |
| Auth.RoleGates | server/middleware/auth.js:60-61 | The admin gate admits exactly admins; the instructor gate admits instructors and admins, and no one else. |
| Auth.IsAdminGate | server/middleware/admin.js:9-26 | `isAdmin`: AuthError without a requester, ForbiddenError for any role but 'admin'. |
| Auth.RoleList | server/middleware/admin.js:36-38 | A single role string becomes the one-element list; a list is kept as it is. |
| Auth.HasRole | server/middleware/admin.js:32-62 | `hasRole(roles)`: AuthError without a requester, ForbiddenError for an empty role, and ForbiddenError naming the role when the list is non-empty and does not hold it. |
| Auth.HasRoleForms | server/middleware/admin.js:32-62 | A single role behaves as the one-element list, the empty list (the default) admits anyone with a role, and the empty role admits no one. |
| Auth.AdminGatesAgree | server/middleware/admin.js:9-62 | `hasRole('admin')`, `isAdmin` and `authorizeAdmin` admit the same requesters. |
| Auth.GateRefusalStatus | server/middleware/admin.js:12-19 | Every refusal of `isAdmin` and `hasRole` answers 401 without a requester and 403 with one. |
| CourseController.GetAllCourses | server/controllers/courseController.js:67-128 | The filter logic of `getAllCourses`. Query values are strings; `publishedOnly` defaults to "true". The filters object is passed to `findAll` under the key `filters`, which `findAll` does not read, so its argument carries the search term alone. |
| CourseController.ListingIgnoresFilters | server/controllers/courseController.js:118-125 | Whatever the requester and the query, the `findAll` statement of `getAllCourses` has no WHERE condition: the forced published-and-approved filter never reaches the query, and an anonymous visitor is listed unpublished and unapproved courses too. |
| CourseController.AnonymousListingUnfiltered | server/controllers/courseController.js:108-125 | An anonymous listing asks for published, approved courses, and still gets no condition. |
| CourseController.FlatListingArgs | server/controllers/courseController.js:187-190 | The intended call: the filters spread as flat keys, as `getPendingCourses` does. A listing for anyone but an admin or instructor then filters on is_published and is_approved. |
| CourseController.PiecesHaveColumns | server/models/courseModel.js:129-170 | A listing given is_published or is_approved puts a condition on that column into the statement. |
| CourseController.FlatListingFiltersVisitors | server/controllers/courseController.js:108-115 | With the flat keys, a visitor who is not staff is only listed published, approved courses. |
| CourseController.CreateCourse | server/controllers/courseController.js:246-337 | `createCourse`: 400 for a blank required field or a category outside the list; the model's `create` then decides between 201 and 500 (its error message). The admin notification that follows may fail without changing the answer. |
| CourseController.CreatedTitleTrimmed | server/controllers/courseController.js:299 | The stored title has no white space at either end. |
| CourseController.AdminCannotCreateCourse | server/models/courseModel.js:18-27 | Only a user whose role is 'instructor' can create a course; for an admin the model throws and the answer is 500. |
| CourseController.OwnerGuard | server/controllers/courseController.js:345-360 | `userRole !== 'admin' && course.instructor_id !== userId` refuses; a missing course is 404 first. |
| CourseController.UpdateCourse | server/controllers/courseController.js:340-387 | `updateCourse`: guard, category check, then the model's update of the whole body with its text fields trimmed. Nothing filters the body, so the owner may also write status, is_approved, is_published and rejection_reason. |
| CourseController.SetPublished | server/controllers/courseController.js:440-505 | `publishCourse` / `unpublishCourse`: guard, then write is_published; the approval status is not consulted. |
| CourseController.GuardedMissingCall | server/controllers/courseController.js:390-422 | `deleteCourse`, `getCourseAnalytics` and `createAnnouncement`: guard, then a call to a method CourseModel does not define (`delete`, `getAnalytics`, `createAnnouncement`), which throws, so every request that passes the guard ends in 500. |
| CourseController.ApproveCourse | server/controllers/courseController.js:508-585 | `approveCourse`: 404 for an unknown course, 400 unless it is pending, then 'approve' or 'reject' write the status and flags; any other action is 400 with no write. |
| CourseController.ResubmitCourse | server/controllers/courseController.js:714-751 | `resubmitCourse`: only the course's own instructor (an admin is refused too), and only from 'rejected'; the course goes back to 'pending' with the rejection reason cleared. |
| CourseController.UpdateCourseFixed | server/controllers/courseController.js:340-387 | `updateCourse` as intended: the same checks and answers, but the body no longer reaches status, is_approved, is_published or rejection_reason, which only the approval, resubmission and publishing handlers write. |
| CourseController.SelfApproval | server/controllers/courseController.js:340-387 | As written, the owning instructor approves and publishes their own course through `updateCourse`, from any status, without the admin-only approval. |
| CourseController.UpdateBreaksConsistency | server/controllers/courseController.js:340-387 | As written, an update of the status alone leaves is_approved out of step with it. |
| CourseController.LifecycleKeepsApprovalConsistent | server/controllers/courseController.js:340-751 | Every step of the life cycle keeps is_approved in step with the status: a new course, approval, rejection, resubmission, publishing, unpublishing and the corrected update. |
| CourseController.ApprovedOnlyFromPending | server/controllers/courseController.js:340-751 | Approval is the only way into 'approved', and only from 'pending': resubmission, publishing and the corrected update never move a course into 'approved'. |
| CourseController.PendingCanBePublished | server/controllers/courseController.js:440-471 | Publishing does not look at the approval status: a pending course can be published by its instructor. |
| CourseModel.CreateError | server/models/courseModel.js:11-32 | The first check of `create` that fails, in source order: the required fields, then the instructor (a row of `users` with role 'instructor'), then the level. |
| CourseModel.CategoryId | server/models/courseModel.js:35-44 | The category id `create` stores: the category whose name matches case-insensitively, or null. |
| CourseModel.NewRow | server/models/courseModel.js:46-68 | The row `create` inserts: status 'pending', unapproved and unpublished whatever status the caller passed, an empty description stored as null. |
| CourseModel.CountIgnoresPublished | server/models/courseModel.js:111-314 | `findAll` filters on is_published whenever the key is given, `count` never does: the two disagree on every listing that passes is_published. |
| CourseModel.Finish | server/models/courseModel.js:172-195 | The search term, then LIMIT and OFFSET, as both builders append them. |
| CourseModel.FindAllConditions | server/models/courseModel.js:125-164 | Condition k (from 0) names the k-th filter findAll tests and present, numbered k+1, with that filter's value at position k; the next free index is one past them. |
| CourseModel.FindAllQuery | server/models/courseModel.js:111-205 | `findAll`'s statement: condition k (from 0) is the k-th present filter and uses `$<k+1>`, whose value is the filter's; the search term takes the next index, LIMIT and OFFSET the last two, so the highest placeholder is the number of values. |
| CourseModel.CountConditions | server/models/courseModel.js:252-286 | The same numbering for count's filters, which test status by truthiness and have no is_published. |
| CourseModel.CountQuery | server/models/courseModel.js:247-314 | One numbered condition per filter given, each with its own value, the search term numbered last, and no paging. |
| CourseModel.NothingToWriteIffNoChanges | server/models/courseModel.js:331-336 | `update` writes nothing (and returns the stored row) exactly when no key is defined. |
| CourseModel.UpdateStatement | server/models/courseModel.js:338-350 | The SET clause numbers the written values `$2, $3, ...` in key order and ends with updated_at. |
| CourseModel.UpdatedCourse | server/models/courseModel.js:344-352 | The row after the UPDATE: every defined field written, every other kept, updated_at set. The `category` key names no column of the modelled row. |
| CourseModel.CourseStore.FindById | server/models/courseModel.js:207-222 | Some row exactly when the key is stored, and then the stored row. |
| CourseModel.CourseStore.Create | server/models/courseModel.js:11-108 | `create`: the checks in order, then a new row that is always pending, unapproved and unpublished whatever status the caller passed. `users` is the users table (id to role), `categories` maps lower-cased category names to ids. |
| CourseModel.CourseStore.Update | server/models/courseModel.js:317-358 | `update`: an unknown course or a category outside the allowed list throws; with no defined key the stored row comes back unchanged; otherwise the defined keys are written. |
| EnrollmentController.EnrollInCourse | server/controllers/enrollmentController.js:9-56 | `enrollInCourse`. `courseId` is `req.body.course_id`, 0 standing for a missing or falsy value; `course` is what `findById` answers for it. The notification a new enrollment sends is not part of the table. |
| EnrollmentController.EnrollTwice | server/controllers/enrollmentController.js:34-37 | Enrolling keeps one row per (user, course), and a second request for the same pair is refused. |
| EnrollmentController.ViewEnrollment | server/controllers/enrollmentController.js:91-116 | `getEnrollmentById` as written: `enrollment.instructor_id` is undefined, so `isInstructor` never holds and only the admin or the enrolled user may read it. |
| EnrollmentController.ViewEnrollmentFixed | server/controllers/enrollmentController.js:91-116 | `getEnrollmentById` with `c.instructor_id` selected: the admin, the course's instructor or the enrolled user. |
| EnrollmentController.InstructorRefusedEnrollment | server/models/enrollmentModel.js:184-200 | The course's instructor, not an admin and not enrolled, is refused the enrollment as written and admitted by the corrected statement; everyone else is answered alike. |
| EnrollmentController.ViewCourseEnrollments | server/controllers/enrollmentController.js:119-162 | `getEnrollmentsByCourse`: an unknown course is 404; then only the admin or its instructor. |
| EnrollmentController.EnrolledStudentSeesOwnRowOnly | server/controllers/enrollmentController.js:91-137 | A student enrolled in a course may read the enrollment but not the course's list, and another student may read neither. |
| EnrollmentController.CourseProgressAccess | server/controllers/enrollmentController.js:235-255 | `getCourseProgress`: answered only when a row for the pair exists, whatever its status. |
| EnrollmentController.AdminOnly | server/controllers/enrollmentController.js:288-327 | `getRecentEnrollments` and `getEnrollmentStatistics`: admins only. |
| EnrollmentController.InstructorOrAdmin | server/controllers/enrollmentController.js:330-389 | `getEnrollmentsForInstructor` and `getInstructorStats`: instructors and admins. |
| EnrollmentController.AdminOnlyNarrower | server/controllers/enrollmentController.js:293-341 | Whoever may see the admin dashboard may also see the instructor dashboard, but not the other way round. |
| EnrollmentController.UpdateProgress | server/controllers/enrollmentController.js:165-196 | `updateProgress`: a progress value is required (None is undefined or null), the row must exist, and only the enrolled user may change it. The value is written as given. |
| EnrollmentController.ProgressUnchecked | server/controllers/enrollmentController.js:172-189 | Admins are refused too, and nothing bounds the value: the owner may write 250, or -1. |
| EnrollmentController.Unenroll | server/controllers/enrollmentController.js:258-285 | `unenrollFromCourse`: the enrolled user or an admin deletes the row. |
| EnrollmentController.UnenrollRemovesOnlyThatRow | server/controllers/enrollmentController.js:258-285 | After a successful unenroll the key is gone and the other rows are kept. |
| EnrollmentController.KeysOf | server/models/lessonModel.js:288-292 | `getCourseProgress` answers `totalLessons`, `completedLessons` and `progressPercentage`, so `enrollment_id` and `progress` are both undefined. |
| EnrollmentController.Cascade | server/controllers/enrollmentController.js:214-222 | The cascade as written: with a truthy enrollment id it writes the progress, and it marks the enrollment completed when the progress is exactly 100. |
| EnrollmentController.MarkLessonCompleted | server/controllers/enrollmentController.js:199-232 | `markLessonCompleted` as written: a throw is 500, no row is 404, and otherwise the course progress of `result.course_id` is read and the cascade runs on its keys. |
| EnrollmentController.CascadeNeverWrites | server/controllers/enrollmentController.js:211-222 | Whatever the lesson step answers, the enrollment is never written: the cascade cannot run. |
| EnrollmentController.CascadeRows | server/controllers/enrollmentController.js:214-222 | The cascade as intended, on the keys `getCourseProgress` does answer: write the rounded percentage to the enrollment, then mark it completed when it reads 100. |
| EnrollmentController.CompleteCascade | server/controllers/enrollmentController.js:214-222 | The intended cascade run against the enrollment table: the two writes in order, the second only at 100 per cent. |
| EnrollmentController.CascadeCompletesFinishedCourse | server/models/lessonModel.js:283-286 | With the intended cascade, an enrollment is marked completed once every lesson of the course is, and only once at least 199 of every 200 of them are. |
| EnrollmentController.CascadeFindsRow | server/models/lessonModel.js:283-286 | After the cascade the enrollment is still found, and it is completed when the percentage read 100. |
| EnrollmentController.CascadeCompletesEarly | server/models/lessonModel.js:283-286 | The percentage can read 100 with one lesson outstanding, so the intended cascade completes early. |
| EnrollmentModel.FindByUserAndCourse | server/models/enrollmentModel.js:42-52 | The row found is the pair's; nothing is found exactly when no row has that user and course. |
| EnrollmentModel.IsEnrolledAnyStatus | server/models/enrollmentModel.js:174-181 | Any row for the pair counts as enrolled, whatever its status. |
| EnrollmentModel.CreateKeepsOnePerPair | server/models/enrollmentModel.js:5-22 | `create` keeps one row per pair: it returns the existing row instead of inserting a second. |
| EnrollmentModel.CreateIdempotent | server/models/enrollmentModel.js:5-22 | Enrolling twice is enrolling once: the second call returns the first call's row and changes nothing. |
| EnrollmentModel.UpdatedWhere | server/models/enrollmentModel.js:94-132 | `UPDATE enrollments SET ... WHERE id = $1`: `f` applied to the row with that key. |
| EnrollmentModel.FindById | server/models/enrollmentModel.js:25-39 | The row found has the key asked for; nothing is found exactly when no row has it. |
| EnrollmentModel.WithProgress | server/models/enrollmentModel.js:94-104 | The progress is the new one and every other column is as before. |
| EnrollmentModel.WithStatus | server/models/enrollmentModel.js:122-132 | The status is the new one and every other column is as before. |
| EnrollmentModel.Completed | server/models/enrollmentModel.js:107-119 | The row becomes 'completed' at 100 per cent with the completion time set; id, user and course kept. |
| EnrollmentModel.ProgressAfterCompletion | server/models/enrollmentModel.js:94-119 | A later progress update leaves a completed row completed but moves its progress away from 100. |
| EnrollmentModel.WithoutId | server/models/enrollmentModel.js:135-145 | Exactly the rows whose id differs from the key survive a delete. |
| EnrollmentModel.BucketsPartition | server/models/enrollmentModel.js:368-374 | The buckets are disjoint and cover 0..100; progress outside it falls in none. |
| EnrollmentModel.BucketCountsAddUp | server/models/enrollmentModel.js:368-405 | With every progress in 0..100, the four counts add up to the number of rows. |
| EnrollmentModel.EnrollmentStore.Create | server/models/enrollmentModel.js:5-22 | `create`: the existing row for the pair, or a new row with the column defaults. |
| EnrollmentModel.EnrollmentStore.UpdateProgress | server/models/enrollmentModel.js:94-104 | `updateProgress`: writes the progress column only; an unknown key gives no row. |
| EnrollmentModel.EnrollmentStore.MarkCompleted | server/models/enrollmentModel.js:107-119 | `markCompleted`: status 'completed', progress 100, completed_at now. |
| EnrollmentModel.EnrollmentStore.UpdateStatus | server/models/enrollmentModel.js:122-132 | Only the row with the key gets the new status; it is returned, or nothing for an unknown key. |
| EnrollmentModel.EnrollmentStore.Delete | server/models/enrollmentModel.js:135-145 | The row with the key is returned and removed, every other row kept; nothing for an unknown key. |
| EnrollmentModel.WithoutIdSubsequence | server/models/enrollmentModel.js:135-145 | Deleting by key keeps the other rows in order, so keys and pairs stay unique. |
| Errors.AuthError | server/middleware/errorHandler.js:27-33 | `new AuthError(message)`: 401, 'Authentication required' when no message is given. |
| Errors.NotFoundError | server/middleware/errorHandler.js:35-41 | `new NotFoundError(message)`: 404, 'Resource not found' when no message is given. |
| Errors.ForbiddenError | server/middleware/errorHandler.js:43-49 | `new ForbiddenError(message)`: 403, 'Forbidden' when no message is given. |
| Errors.ValidationThrown | server/middleware/errorHandler.js:5-15 | A `ValidationError` whose `errors` object holds `count` string values, as `validateRequest` builds it. |
| Errors.ValidationError.constructor | server/middleware/errorHandler.js:6-11 | A new ValidationError: the given message or 'Validation failed', status 422 (section 11.2 of RFC 4918), and no field messages. |
| Errors.ValidationError.AddValidationError | server/middleware/errorHandler.js:13-15 | `addValidationError`: sets the field's message, replacing an earlier one for the same field. |
| Errors.ValidationError.AsThrown | server/middleware/errorHandler.js:5-15 | The error as the middleware sees it: one string value per field. The middleware reads only `val.message` of each value, which a string lacks whatever it says, so the field messages are not carried and each value is an empty `Text`. |
| Errors.MessageAsWritten | server/middleware/errorHandler.js:103 | `val.message` as written: a string value has no `message` property. |
| Errors.MessageIntended | server/middleware/errorHandler.js:103 | The message a field value evidently stands for: the string itself, or the object's `message`. |
| Errors.ArrayText | server/middleware/errorHandler.js:103-109 | `String(array)`: the items joined with ',', undefined items as the empty string. |
| Errors.FieldMessages | server/middleware/errorHandler.js:103 | The `.message` of each value of the `errors` object, read by the given rule. |
| Errors.Handle | server/middleware/errorHandler.js:82-112 | `errorHandler`, with the rule for reading a field value as a parameter: a CastError becomes a 404 'Resource not found', code 11000 a 422 'Duplicate field value entered', and a ValidationError a 422 whose message is the field messages as an array; then the status is the error's status code or 500, and the text its message or 'Server Error'. |
| Errors.ErrorHandler | server/middleware/errorHandler.js:82-112 | The response the handler sends, with field messages read the way the code reads them (see Findings). |
| Errors.ApiErrorsKeepStatus | server/middleware/errorHandler.js:82-112 | The thrown API errors keep their own status and message. |
| Errors.ValidationMessagesLost | server/middleware/errorHandler.js:102-109 | As written, a validation failure loses its field messages: with one field the answer reads 'Server Error', with more only the commas between the undefined messages remain. |
| Errors.ErrorHandlerFixed | server/middleware/errorHandler.js:82-112 | The same handler with each field's message read from its string value. |
| Errors.FixedKeepsFieldMessages | server/middleware/errorHandler.js:102-109 | Read as intended, every field message of a validation failure reaches the answer. |
| Errors.NotFound | server/middleware/errorHandler.js:114-116 | A 404 whose message names the requested URL. |
| Errors.HandleRateLimitError | server/middleware/errorHandler.js:118-126 | `handleRateLimitError`: 429 Too Many Requests (section 4 of RFC 6585) of type 'RateLimitError'. |
| Http.SelfOrAdminById | server/controllers/assignmentController.js:426 | For a route id that prints a number, the text comparison is the comparison of the numbers; "07" never names user 7. |
| LessonController.InferContentType | server/controllers/lessonController.js:31-39 | The content type `createLesson` settles on: an explicit (truthy) one wins; otherwise a video URL makes it 'video', else text content makes it 'text', else the given value stays. |
| LessonController.LessonArguments | server/controllers/lessonController.js:41-49 | The arguments `createLesson` hands to `LessonModel.create`: no order_index, so the lesson is appended. |
| LessonController.InferredTypeStoresContent | server/models/lessonModel.js:18-35 | With the inferred type, a request that names only a video URL stores a video lesson with that URL, and one that names only content stores a text lesson with that content; an explicit 'text' type drops the URL. |
| LessonController.CreateLesson | server/controllers/lessonController.js:11-64 | `createLesson`. `moduleId` is `parseInt(req.body.module_id)`, 0 standing for 0 or NaN; `courseTitle` is what the notification's course lookup finds. The checks are a title and a module id (400) and an existing module (404); nobody's role or ownership is checked. The notification is not guarded: when it fails the handler answers 500 although the lesson is already written. |
| LessonController.AnyoneCreatesLessons | server/controllers/lessonController.js:11-59 | Any requester with a title and an existing module adds a lesson: a student included. |
| LessonController.ViewLesson | server/controllers/lessonController.js:89-131 | `getLessonById`: 404 for an unknown lesson, 500 when its module or course cannot be found (the handler reads a field of null). An unpublished course is open only to a logged-in requester who is its instructor or an admin (403). In a published course a free lesson is open to everyone; any other lesson needs a login (401) and an active enrollment, the instructor or an admin (403). |
| LessonController.CompletedStudentLockedOut | server/models/lessonModel.js:299-311 | A student whose enrollment is 'completed' is locked out of the course's non-free lessons, while an 'active' one gets in. |
| LessonController.OwnerStatus | server/controllers/lessonController.js:143-155 | The guard `updateLesson` and `deleteLesson` share: 404 for an unknown lesson, 500 when its module or course cannot be found, 403 unless the requester is an admin or the course's instructor. |
| LessonController.UpdateArguments | server/controllers/lessonController.js:158-163 | The changes `updateLesson` passes on: title and content as given, no content type, and order_index and duration only when truthy, so a 0 for either is dropped. |
| LessonController.ZeroIsIgnored | server/controllers/lessonController.js:161-162 | Moving a lesson to position 0, or clearing its duration, through `updateLesson` leaves the row as it was. |
| LessonController.UpdateLesson | server/controllers/lessonController.js:134-170 | `updateLesson`: the shared guard decides the status; only when it passes is the lesson changed, with the filtered arguments; a refusal writes nothing. |
| LessonController.DeleteLesson | server/controllers/lessonController.js:173-203 | `deleteLesson`: the shared guard decides the status; only when it passes is the lesson removed; a refusal writes nothing. |
| LessonController.WritesNeedOwnerOrAdmin | server/controllers/lessonController.js:153-154 | A requester who is neither an admin nor the course's instructor never changes or removes a lesson. |
| LessonController.ReorderLessons | server/controllers/lessonController.js:206-241 | `reorderLessons`: 404 for an unknown module, 500 when its course cannot be found, 403 unless an admin or the course's instructor, and only then 400 unless `lesson_orders` is an array. The call that follows, `LessonModel.reorderLessons`, is not defined by the model, so an allowed request ends in the handler's 500. |
| LessonController.ReorderChecksRightsFirst | server/controllers/lessonController.js:224-231 | Authorization comes before the array check: a stranger with a malformed body hears 403, not 400. |
| LessonController.MarkLessonCompleted | server/controllers/lessonController.js:244-277 | `markLessonCompleted` (the lesson handler): 404 for an unknown lesson, 500 when its module cannot be found, 403 without an active enrollment in the module's course. The call that follows, `LessonModel.markLessonCompleted`, is not defined by the model, so an enrolled requester gets 500 and no progress row is written. |
| LessonController.CourseProgressView | server/controllers/lessonController.js:301-326 | `getCourseProgress` (the lesson handler): 404 for an unknown course, 403 without an active enrollment, then the progress. |
| LessonController.ShownProgressBounded | server/controllers/lessonController.js:301-326 | The progress an enrolled student is shown lies in 0..100. |
| LessonModel.NewLessonData | server/models/lessonModel.js:18-35 | The columns `create` writes: a video URL only for a 'video' lesson that has one, otherwise the text content when there is any; content_type defaults to 'text', a zero duration is stored as null, is_free defaults to false, and the lesson is always published. |
| LessonModel.NewLessonOneKindOfContent | server/models/lessonModel.js:18-27 | A lesson never carries both a video URL and text content. |
| LessonModel.LessonUpdateEntries | server/models/lessonModel.js:71-82 | The entry list `update` builds: the defined fields, then updated_at written inline. |
| LessonModel.UpdatedLesson | server/models/lessonModel.js:71-101 | The row after `update`: each defined field is written, the others kept. The text goes to a column named `content`, assumed to exist beside the content_text that `create` fills. |
| LessonModel.EditedTextNotShown | server/models/lessonModel.js:7-101 | As written, `update` sends the text to the `content` column, which `create` never fills, so editing a lesson's text never changes the content_text it was created with. |
| LessonModel.UpdatedLessonFixed | server/models/lessonModel.js:71-101 | `update` as intended: the text goes to content_text, the column `create` fills, and every other column is written as before. |
| LessonModel.EditedTextShown | server/models/lessonModel.js:7-101 | With the corrected update, a text edit is the text the lesson then carries. |
| LessonModel.UpdateNeverEmpty | server/models/lessonModel.js:80-83 | updated_at is always in the list, so `update` never takes its "no fields" early return. |
| LessonModel.MarkedExactlyOne | server/models/lessonModel.js:226-257 | Afterwards exactly one row for the pair exists, and it is completed; no other row changes. |
| LessonModel.MarkedIdempotent | server/models/lessonModel.js:226-257 | Marking twice is marking once, at the later time. |
| LessonModel.GetCourseProgress | server/models/lessonModel.js:260-296 | `getCourseProgress`: the two counts and `total > 0 ? Math.round(completed / total * 100) : 0`. |
| LessonModel.TotalIsIdCount | server/models/lessonModel.js:263-270 | With unique keys, the lesson count is the number of distinct lesson ids. |
| LessonModel.CompletedIsIdCount | server/models/lessonModel.js:273-281 | With one row per pair, the completed count is the number of distinct completed lessons. |
| LessonModel.CourseProgressBounds | server/models/lessonModel.js:283-286 | With unique lesson keys and one progress row per pair, the course progress lies in 0..100, and it is 100 when every lesson of the course is completed. |
| LessonModel.OneOutstandingReadsHundred | server/models/lessonModel.js:283-286 | 199 of 200 lessons completed already reads as 100 per cent. |
| LessonModel.EnrolledIffActiveRow | server/models/lessonModel.js:299-311 | Enrolled here means an 'active' row exists for the pair. |
| LessonModel.CompletedEnrollmentDisagrees | server/models/lessonModel.js:299-311 | A completed enrollment counts as enrolled for the enrollment model but not for the lesson model. |
| LessonModel.LessonStore.Create | server/models/lessonModel.js:7-42 | `create`: an omitted order_index takes the next index in the module (0 for the first). |
| LessonModel.LessonStore.Update | server/models/lessonModel.js:71-101 | Only the row with the key is rewritten with the given fields; it is returned, or nothing for an unknown key; progress untouched. |
| LessonModel.LessonStore.Delete | server/models/lessonModel.js:104-128 | `delete`: an unknown lesson gives null; otherwise the later lessons of its module move up. |
| LessonModel.LessonStore.Reorder | server/models/lessonModel.js:131-181 | `reorder`: an unknown lesson throws 'Lesson not found'; an unchanged index returns the lesson untouched; otherwise the siblings in between shift and the lesson takes the index. |
| LessonModel.LessonStore.MarkCompleted | server/models/lessonModel.js:226-257 | `markCompleted`: the upsert; the row returned is the pair's completed row. |
| ModuleController.CreateModule | server/controllers/moduleController.js:9-65 | `createModule`. `courseId` is `req.body.course_id`, 0 standing for a missing or falsy value; `course` is what `findById` answers for it. The checks run in source order and the row is the one `ModuleStore.Create` inserts for the trimmed title. |
| ModuleController.CreatedTitleTrimmed | server/controllers/moduleController.js:15-42 | A created module's title is a non-empty slice of the given title with no white space at either end. |
| ModuleController.CreatedNotices | server/controllers/moduleController.js:49-58 | The notices that follow a created module: `createCourseContentUpdateNotification` for 'new_module' with the new module's id and the trimmed title. When it fails, the failure is swallowed: no notices, and the creation still answers 201. |
| ModuleController.ViewModule | server/controllers/moduleController.js:90-118 | `getModuleById`: 404 for an unknown module; a course that cannot be found makes `course.is_published` throw (500); a module of an unpublished course is shown only to a requester whose role is admin or instructor, or who is the course's instructor. |
| ModuleController.AnyInstructorSeesUnpublished | server/controllers/moduleController.js:106-111 | The visibility check is by role: any instructor sees the modules of another instructor's unpublished course. |
| ModuleController.OfCourse | server/models/moduleModel.js:29-39 | The modules of one course, as `findByCourse` selects them (the ordering is not modelled). |
| ModuleController.ModulesByCourse | server/controllers/moduleController.js:68-87 | `getModulesByCourse`: 404 exactly when the course is unknown; otherwise 200 with exactly the modules of that course. |
| ModuleController.ListingIgnoresPublication | server/controllers/moduleController.js:68-118 | The listing asks for no requester at all: the modules of an unpublished course are listed to anyone, although the same module viewed on its own is hidden from a student. |
| ModuleController.OwnerStatus | server/controllers/moduleController.js:127-142 | The guard `updateModule` and `deleteModule` share: 404 for an unknown module, 500 when its course is missing (`course.instructor_id` throws), 403 unless an admin or the course's instructor. |
| ModuleController.UpdateModule | server/controllers/moduleController.js:121-152 | `updateModule`: once the guard passes, the body's title, description and order_index go to `update`. |
| ModuleController.DeleteModule | server/controllers/moduleController.js:155-185 | `deleteModule`: once the guard passes, the module is removed and its later siblings move up. |
| ModuleController.WritesNeedOwnerOrAdmin | server/controllers/moduleController.js:137-175 | Only an admin or the course's instructor ever changes or removes a module, and a student who does not own the course never does. |
| ModuleController.ReorderModules | server/controllers/moduleController.js:188-223 | `reorderModules`: 400 unless `module_order` is an array (checked before anything else), 404 for an unknown course, 403 unless an admin or the course's instructor. The call that follows, `ModuleModel.reorderModules`, is not defined by the model, so an allowed request ends in the handler's 500. |
| ModuleController.ReorderNeverSucceeds | server/controllers/moduleController.js:188-223 | No reorder request succeeds, and a missing array is reported even to a requester with no rights. |
| ModuleModel.ModuleUpdateEntries | server/models/moduleModel.js:55-64 | The entry list `update` builds: the defined fields among title/description/order_index, then updated_at. |
| ModuleModel.ModuleUpdateStatement | server/models/moduleModel.js:55-79 | The statement `update` sends: the list is never empty (so the early return for "no fields" is unreachable), it names exactly the defined fields plus updated_at, and each placeholder `$k` stands for the value at position `k - 2`. |
| ModuleModel.UpdatedModule | server/models/moduleModel.js:55-83 | The row after `update`: each defined field is written, the others kept. |
| ModuleModel.ModuleStore.Create | server/models/moduleModel.js:5-26 | `create`: an omitted order_index takes the next index in the course (0 for the first). |
| ModuleModel.ModuleStore.Update | server/models/moduleModel.js:55-83 | Only the row with the key is rewritten with the given fields; it is returned, or nothing for an unknown key. |
| ModuleModel.ModuleStore.Delete | server/models/moduleModel.js:86-110 | `delete`: an unknown module gives null; otherwise the later modules of its course move up. |
| ModuleModel.ModuleStore.Reorder | server/models/moduleModel.js:113-163 | `reorder`: an unknown module throws 'Module not found'; an unchanged index returns the module untouched; otherwise the modules in between shift and the module takes the index. |
| NotificationController.ListNotifications | server/controllers/notificationController.js:7-25 | `getUserNotifications`: the query's page, type and is_read are handed over under names `findByUser` does not read, so the answer is always the requester's unread rows. |
| NotificationController.ListIgnoresQuery | server/controllers/notificationController.js:9-18 | Whatever page, type or read filter the query asks for, the listing is the same. |
| NotificationController.OwnedStatus | server/controllers/notificationController.js:28-50 | The check shared by view, mark-as-read and delete: 404 for an unknown row, 403 for someone else's. |
| NotificationController.NoAdminOverride | server/controllers/notificationController.js:41-42 | An admin gets no exception: another user's notification is 403 to everyone. |
| NotificationController.MarkRead | server/controllers/notificationController.js:53-78 | `markAsRead`: the owner's row becomes read; anything else changes nothing. |
| NotificationController.DeleteOne | server/controllers/notificationController.js:96-121 | `deleteNotification`: the owner's row is removed; anything else changes nothing. |
| NotificationController.DeleteSparesOthers | server/controllers/notificationController.js:96-121 | A user can only ever remove their own rows: every other user's notifications survive a delete request. |
| NotificationController.MarkAllRead | server/controllers/notificationController.js:81-93 | `markAllAsRead`, `deleteAllNotifications` and `getUnreadCount` act on the requester's rows only. |
| NotificationController.DeleteAll | server/controllers/notificationController.js:124-136 | `deleteAllNotifications`: 200, and exactly the requester's rows are gone while every other row remains. |
| NotificationController.UnreadCount | server/controllers/notificationController.js:139-151 | `getUnreadCount`: the count equals the length of the requester's default (unread) listing. |
| NotificationController.SystemNotificationAsWritten | server/controllers/notificationController.js:154-181 | `createSystemNotification` as written: 400 without a title or message, 403 for a non-admin, then 201. The body's `roles` is passed under that name, while the model reads `role`, which therefore takes its default null. |
| NotificationController.SystemNotificationReachesEveryone | server/controllers/notificationController.js:170-174 | As written, a system notice goes to every user whatever `roles` the request names. |
| NotificationController.SystemNotificationByRole | server/controllers/notificationController.js:154-181 | `createSystemNotification` with the body's `roles` handed over as `role`. |
| NotificationController.CourseAnnouncement | server/controllers/notificationController.js:184-221 | `createCourseAnnouncement`: 400 without a title or message, 404 for an unknown course, 403 unless an admin or the course's instructor, then 201 with one announcement per enrollment of the course. |
| NotificationModel.CreateResult | server/models/notificationModel.js:5-23 | `create`: refused before any insert when a required field is falsy, else the inserted row. |
| NotificationModel.BulkDraft | server/models/notificationModel.js:41-49 | The object `createBulk` builds for each input: its fields, with a missing related id as null and a missing read flag as false. |
| NotificationModel.InsertedPrefix | server/models/notificationModel.js:41-52 | How many inputs `createBulk` inserts before reaching one that `create` refuses. |
| NotificationModel.Numbered | server/models/notificationModel.js:41-52 | One row per draft; each complete draft becomes the row a single create would give under its own id. |
| NotificationModel.BulkResult | server/models/notificationModel.js:26-57 | `createBulk`: [] for no input; refused before any insert when some input lacks a title or a message; otherwise one `create` per input, in order, failing at the first input whose type is missing. |
| NotificationModel.BulkWritten | server/models/notificationModel.js:26-57 | The rows `createBulk` leaves inserted, including those inserted before a failing `create`. |
| NotificationModel.BulkPartialInsert | server/models/notificationModel.js:33-52 | The text check runs over every input first, but the type is only checked by each `create`: an input without a type after a complete one fails the bulk call with the complete one already inserted. |
| NotificationModel.FindById | server/models/notificationModel.js:60-70 | The row found has the key asked for; nothing is found exactly when no row has it. |
| NotificationModel.FindByUser | server/models/notificationModel.js:73-90 | `findByUser`: the user's rows, only the unread ones unless `includeRead` is set. |
| NotificationModel.CountUnread | server/models/notificationModel.js:145-155 | `countUnread`: `COUNT(*) ... WHERE user_id = $1 AND is_read = false`. |
| NotificationModel.CountIsUnreadListing | server/models/notificationModel.js:73-155 | The unread count is the length of the default listing. |
| NotificationModel.MarkedRead | server/models/notificationModel.js:93-103 | Same number of rows; only the row with the key becomes read. |
| NotificationModel.MarkedAllRead | server/models/notificationModel.js:106-116 | The table after `UPDATE ... SET is_read = true WHERE user_id = $1 AND is_read = false`. |
| NotificationModel.NewlyRead | server/models/notificationModel.js:106-116 | The rows `markAllAsRead` returns: the user's formerly unread rows, now read. |
| NotificationModel.MarkAllReadClears | server/models/notificationModel.js:106-116 | After `markAllAsRead` the user has nothing unread. |
| NotificationModel.MarkAllReadSparesOthers | server/models/notificationModel.js:106-116 | `markAllAsRead` leaves every other user's rows and unread count as they were. |
| NotificationModel.MarkOneReadCount | server/models/notificationModel.js:93-155 | Marking one row read lowers its owner's unread count by one if it was unread, and leaves every other count alone. |
| NotificationModel.Kept | server/models/notificationModel.js:119-142 | Exactly the rows the rule keeps survive. |
| NotificationModel.WithoutId | server/models/notificationModel.js:119-129 | Exactly the rows whose id differs from the key survive. |
| NotificationModel.WithoutUser | server/models/notificationModel.js:132-142 | Exactly the rows of other users survive. |
| NotificationModel.EnrolledUsers | server/models/notificationModel.js:161-164 | The user ids of `SELECT user_id FROM enrollments WHERE course_id = $1`, any status. |
| NotificationModel.ContentNotice | server/models/notificationModel.js:299-330 | The `update_type` switch of `createCourseContentUpdateNotification`. |
| NotificationModel.Broadcast | server/models/notificationModel.js:177-189 | The same notice for each of `users`, with type `kind`, unread. |
| NotificationModel.ContentUpdateDrafts | server/models/notificationModel.js:269-345 | The drafts `createCourseContentUpdateNotification` hands to `createBulk`: refused without a course id (0 is falsy) or an update type, [] when nobody is enrolled, 'Course not found' when the course row is missing, else one 'course_update' draft per enrollment. |
| NotificationModel.ContentUpdateOnePerEnrolled | server/models/notificationModel.js:269-345 | A content update creates exactly one unread 'course_update' notification per enrollment of the course. |
| NotificationModel.AnnouncementDrafts | server/models/notificationModel.js:158-194 | The drafts of `createCourseAnnouncement`: 'Course not found' when the course row is missing (even with nobody enrolled), else one 'Announcement: <title>' draft per enrollment. |
| NotificationModel.SystemTargets | server/models/notificationModel.js:381-392 | The users `createSystemNotification` targets: those of `role` when it is truthy, else every user. |
| NotificationModel.SystemDrafts | server/models/notificationModel.js:381-407 | One 'system' draft per targeted user, in the order of the users, with no related id. |
| NotificationModel.NotificationStore.Create | server/models/notificationModel.js:5-23 | A complete draft is appended under the next id and returned; an incomplete one is refused and the table is unchanged. |
| NotificationModel.NotificationStore.CreateBulk | server/models/notificationModel.js:26-57 | `createBulk`: the text check over every input, then one `create` per input. |
| NotificationModel.NotificationStore.MarkAsRead | server/models/notificationModel.js:93-103 | Only the row with the key becomes read; it is returned, or nothing for an unknown key. |
| NotificationModel.NotificationStore.MarkAllAsRead | server/models/notificationModel.js:106-116 | `markAllAsRead`: every unread row of the user becomes read; those rows are returned. |
| NotificationModel.NotificationStore.Delete | server/models/notificationModel.js:119-129 | The row with the key is returned and removed, every other row kept. |
| NotificationModel.NotificationStore.DeleteAllForUser | server/models/notificationModel.js:132-142 | The user's rows are returned and removed; every other user's rows are kept. |
| NotificationModel.WithoutKeepsOrder | server/models/notificationModel.js:119-142 | Removing rows keeps the rest in order, so their keys stay distinct. |
| Ordering.MaxOrder | server/models/quizModel.js:201-205 | `SELECT MAX(order) ... WHERE parent = $1`: None when the parent has no rows. |
| Ordering.ShiftRange | server/models/lessonModel.js:149-163 | `UPDATE ... SET order = order + delta WHERE parent = $1 AND lo <= order [AND order <= hi]`. |
| Ordering.Place | server/models/lessonModel.js:167-169 | The loop yields the table where only the row with the key takes the new position. |
| Ordering.Remove | server/models/lessonModel.js:111-114 | The loop yields the table without the rows carrying the key, the others in order. |
| Ordering.WithoutUnique | server/models/lessonModel.js:111-114 | Under a unique key, deleting by key removes exactly the row holding it. |
| Ordering.AppendKeepsContiguous | server/models/lessonModel.js:9-16 | Appending at one past the maximum (or at `base` under an empty parent) keeps the positions contiguous. |
| Ordering.ReorderedAt | server/models/lessonModel.js:131-175 | The row-level effect of a reorder, as a function of each row's old position. |
| Ordering.ReorderKeepsContiguous | server/models/lessonModel.js:131-181 | Reordering to a position inside the range keeps the positions under the parent contiguous, leaves other parents' rows untouched, and keeps the relative order of every other sibling. |
| Ordering.DeletedAt | server/models/lessonModel.js:104-124 | After a delete, the rows before the deleted one are kept and the later siblings close the gap by one. |
| Ordering.DeleteKeepsContiguous | server/models/lessonModel.js:104-128 | Deleting a row keeps its former siblings contiguous (one fewer of them), removes exactly that row, and leaves other parents' rows untouched. |
| Ordering.DeleteKeepsRelativeOrder | server/models/lessonModel.js:104-128 | Deleting a row keeps the relative order of its remaining siblings. |
| Ordering.NextPosition | server/models/quizModel.js:206 | The quiz tables' rule `max ? max + 1 : 1`: a maximum of 0 is falsy but 0 + 1 is 1 anyway. |
| Ordering.NextIndex | server/models/lessonModel.js:10-16 | The lesson and module tables' rule `COALESCE(MAX(order_index), -1) + 1`. |
| Ordering.DeleteAndCompact | server/models/lessonModel.js:104-124 | Delete with compaction as two statements: the `DELETE`, then the shift of the later siblings. |
| Ordering.MoveAndShift | server/models/lessonModel.js:131-175 | Move with shift as two statements: the shift of the siblings in range, then the move itself. |
| Ordering.SameShapeKeepsContiguous | server/models/lessonModel.js:71-101 | Changing only the other columns of rows keeps every parent's positions as they were. |
| Ordering.AppendKeepsAllContiguous | server/models/lessonModel.js:7-42 | Appending at one past its parent's maximum keeps every parent contiguous. |
| Ordering.DeleteKeepsAllContiguous | server/models/lessonModel.js:104-128 | Deleting with compaction keeps every parent contiguous. |
| Ordering.CompactedOtherParent | server/models/lessonModel.js:117-121 | Compaction under one parent leaves another parent's rows and count as they were. |
| Ordering.RemoveChildren | server/models/quizModel.js:257-260 | The loop yields the table without the parent's rows, the others in order. |
| Ordering.WithoutParentRows | server/models/quizModel.js:257-260 | Deleting every row of one parent removes exactly those rows: what is left is the other rows, in their order. |
| Ordering.WithoutParentKeepsAllContiguous | server/models/quizModel.js:257-260 | Deleting every row of one parent keeps the keys unique and every parent contiguous. |
| Ordering.ChildrenInOrderSpec | server/models/lessonModel.js:45-55 | A parent's rows read in position order: all of them, each once, sorted. |
| Ordering.AppendKeepsWellFormed | server/models/lessonModel.js:7-42 | Appending a fresh key at the next position keeps the table well formed. |
| Ordering.DeleteKeepsWellFormed | server/models/lessonModel.js:104-128 | Delete with compaction keeps the table well formed. |
| Ordering.WithoutParentKeepsWellFormed | server/models/quizModel.js:244-280 | Deleting every row of a parent keeps the table well formed. |
| Ordering.SameShapeKeepsWellFormed | server/models/lessonModel.js:71-101 | Rewriting other columns in place keeps the table well formed. |
| Ordering.DeleteKeepsIdsBelow | server/models/lessonModel.js:104-128 | Delete with compaction keeps keys unique and below the next serial value. |
| Ordering.ReorderKeepsIdsBelow | server/models/lessonModel.js:131-181 | A reorder moves positions only, so keys stay unique and below the next serial value. |
| Percent.Rounded | server/models/lessonModel.js:283-286 | The percentage rounded half up; 0..100 for a part within the whole, and 100 for the whole. |
| Percent.RoundedUnique | server/models/lessonModel.js:283-286 | The rounded value is unique: there is exactly one nearest integer, halves upward. |
| Percent.Percentage | server/models/quizModel.js:422 | The percentage the server reports: the rounded ratio, or 0 when there is nothing to count. |
| Percent.RoundedMonotone | server/models/lessonModel.js:283-286 | More of the same whole never gives a smaller rounded percentage. |
| Percent.AllButOneRoundsToHundred | server/models/lessonModel.js:283-286 | Rounding reaches 100 before the whole is done: with 200 or more items, all but one of them already rounds to 100. |
| Percent.AllButOneBelowHundred | server/models/lessonModel.js:283-286 | Below 200 items, an outstanding item keeps the percentage under 100. |
| QuizController.CorrectOptions | server/controllers/quizController.js:758 | The ids of exactly the correct options, in option order. |
| QuizController.QuestionMapKeys | server/controllers/quizController.js:753-760 | The keys of `questionMap` are the quiz's question ids. |
| QuizController.QuestionMapLast | server/controllers/quizController.js:753-760 | For an id that several questions share, the last of them is the one in `questionMap`. |
| QuizController.SameSizeAllCorrectIsSetEquality | server/controllers/quizController.js:772-777 | Equal size plus inclusion is set equality: there is no partial credit, and repeated ids collapse. |
| QuizController.CreditMeansRight | server/controllers/quizController.js:766-791 | An answer earns its question's full points exactly when it is right, and nothing otherwise: there is no partial credit. |
| QuizController.Grade | server/controllers/quizController.js:748-792 | The loops compute the total points, the earned points and the correct count that the reference definitions give. |
| QuizController.IgnoredAnswers | server/controllers/quizController.js:766-791 | An answer to a question that is not in the quiz, or of another question type, earns nothing. |
| QuizController.EarnedOnlyAnswered | server/controllers/quizController.js:763-792 | Only the questions that some answer names affect the earned points. |
| QuizController.EarnedNonNegative | server/controllers/quizController.js:763-792 | Every credit is 0 or the question's points, so with non-negative points it is never negative. |
| QuizController.DistinctAnswersWithinTotal | server/controllers/quizController.js:748-795 | When the answers name pairwise different questions and points are non-negative, the earned points never exceed the total, so the percentage stays within 0..100. |
| QuizController.RepeatedAnswerCreditedTwice | server/controllers/quizController.js:763-792 | The loop runs over the answers, not the questions: the same right answer submitted twice is credited twice. |
| QuizController.DoubleCreditCase | server/controllers/quizController.js:763-796 | One five-point true/false question answered right twice: 10 points earned out of 5, 200 percent. |
| QuizController.FirstAnswer | server/models/quizModel.js:393 | The answer found names the question and is one of the answers; nothing is found exactly when no answer names it. |
| QuizController.EarnedOnceWithinTotal | server/controllers/quizController.js:748-796 | Graded once per question, the earned points lie within 0..total whatever the answers repeat. |
| QuizController.Percentage | server/controllers/quizController.js:795 | `percentageScore`: earned / total * 100, or 0 for a quiz without points. |
| QuizController.PassedIffCrossMultiplied | server/controllers/quizController.js:795-796 | `isPassed`, compared without division: 100 * earned >= passing_score * total. |
| QuizController.HalfRightCase | server/controllers/quizController.js:795-796 | Two five-point questions, one right, pass mark 60: 50 percent, not passed. |
| QuizController.SubmitQuizAttempt | server/controllers/quizController.js:713-838 | `submitQuizAttempt`. `answers` is None when the body has no array; `enrolled` is the lesson model's active-enrollment check; `questions` is what `findByIdWithQuestions` returns, None when that call throws (QuizModel defines no such method, so as written it always throws); `completes` says whether the lesson-completion call returns (LessonModel defines no `markLessonCompleted`, so as written it throws). |
| QuizController.DoubleCreditThroughHandler | server/controllers/quizController.js:745-796 | The double credit is latent: the handler reaches the scoring loop only once `findByIdWithQuestions` returns. As written that call throws and the answer is a 500 with no attempt; given the questions, the repeated answer is recorded at 200 percent. |
| QuizController.PublishQuiz | server/controllers/quizController.js:946-991 | `publishQuiz`. `instructorId` is the owning course's instructor; `questions` is what `findByIdWithQuestions` returns, None when that call throws. |
| QuizModel.MergedQuiz | server/models/quizModel.js:136-156 | The quiz row after `update`: each given field replaces the stored one, and updated_at is refreshed. |
| QuizModel.EmptyQuizUpdate | server/models/quizModel.js:136-156 | An update with nothing given changes only updated_at. |
| QuizModel.QuizUpdateIdempotent | server/models/quizModel.js:136-156 | Applying the same update twice is the same as applying it once. |
| QuizModel.QuizUpdatesCompose | server/models/quizModel.js:136-156 | A later update overrides an earlier one field by field. |
| QuizModel.MergedQuestion | server/models/quizModel.js:223-241 | A question after `updateQuestion`: each given field replaces the stored one, the others are kept, and the correct answer is never touched. |
| QuizModel.MergedOption | server/models/quizModel.js:308-325 | An option after `updateOption`: each given field replaces the stored one, the others are kept. |
| QuizModel.UpdatedRows | server/models/quizModel.js:223-325 | The rows after `UPDATE ... SET data = merge(data) WHERE id = $1`: positions do not move. |
| QuizModel.FirstAnswer | server/models/quizModel.js:393 | `answers.find(a => a.question_id === id)`: the first answer to the question, if any. |
| QuizModel.FirstAnswerIsEarliest | server/models/quizModel.js:393 | The answer found is the earliest one to that question. |
| QuizModel.FirstAnswerIgnoresLater | server/models/quizModel.js:393 | Answers after the first one to a question are never consulted. |
| QuizModel.Grade | server/models/quizModel.js:395-418 | The graded entry of one question: strict equality with correct_answer, all or nothing. |
| QuizModel.UnansweredQuestion | server/models/quizModel.js:409-418 | A question nobody answered is recorded with a null answer, as wrong, for no points. |
| QuizModel.GradeCorrectIff | server/models/quizModel.js:393-418 | A question is right iff an answer to it exists and the first such answer equals correct_answer. |
| QuizModel.Graded | server/models/quizModel.js:391-419 | One graded entry per question of the quiz, in the order the questions are read. |
| QuizModel.GradeAttempt | server/models/quizModel.js:387-419 | The grading loop: totals accumulate over every question, answered or not. |
| QuizModel.EarnedWithinPossible | server/models/quizModel.js:401-408 | With non-negative points, each entry earns between nothing and everything it offers. |
| QuizModel.AllRightEarnsAll | server/models/quizModel.js:387-419 | Every question answered right earns every point. |
| QuizModel.ScoreWithinTotal | server/models/quizModel.js:387-419 | Score within total: with non-negative points, 0 <= score <= total, whatever the answers. |
| QuizModel.LaterAnswersIgnored | server/models/quizModel.js:391-419 | Repeats cannot double-count: once every question has an answer, further answers (repeats included) change nothing in the grading. |
| QuizModel.Percentage | server/models/quizModel.js:422 | 0 when there are no points; otherwise the rounded percentage, within 0..100 and 100 for a full score. |
| QuizModel.PercentageBounds | server/models/quizModel.js:387-423 | With non-negative points the stored percentage lies in 0..100, and a clean sheet scores 100. |
| QuizModel.NoQuestionsScoresZero | server/models/quizModel.js:422-423 | An attempt at a quiz without questions scores 0 and passes only a passing score of 0 or less. |
| QuizModel.AttemptsNotOfMembers | server/models/quizModel.js:161-165 | `DELETE FROM quiz_attempts WHERE quiz_id = $1` removes exactly that quiz's attempts. |
| QuizModel.WithoutParentsMembers | server/models/quizModel.js:167-183 | What survives: exactly the rows whose parent is none of `parents`. |
| QuizModel.QuizStore.Update | server/models/quizModel.js:136-156 | `update`: COALESCE merge; an unknown quiz gives no row and no change. |
| QuizModel.QuizStore.Publish | server/models/quizModel.js:583-598 | `publish`: is_published true, published_at and updated_at set to now. |
| QuizModel.QuizStore.Unpublish | server/models/quizModel.js:601-615 | `unpublish`: is_published false and updated_at set to now; published_at is kept. |
| QuizModel.QuizStore.Delete | server/models/quizModel.js:159-195 | `delete`: the quiz's attempts, then the options of each of its questions, then its questions, then the quiz itself. The cascade runs even when the quiz is missing. |
| QuizModel.QuizStore.AddQuestion | server/models/quizModel.js:198-220 | `addQuestion`: the next position in the quiz (1 for the first), points defaulting to 1. |
| QuizModel.QuizStore.AddOption | server/models/quizModel.js:283-305 | `addOption`: the next position under the question, is_correct defaulting to false. |
| QuizModel.QuizStore.UpdateQuestion | server/models/quizModel.js:223-241 | `updateQuestion`: COALESCE merge of text, type and points; positions do not move. |
| QuizModel.QuizStore.UpdateOption | server/models/quizModel.js:308-325 | `updateOption`: COALESCE merge of text and is_correct; positions do not move. |
| QuizModel.QuizStore.DeleteQuestion | server/models/quizModel.js:244-280 | `deleteQuestion`: an unknown question gives null and changes nothing; otherwise its options are deleted, then the question, then the later questions of the quiz move up. |
| QuizModel.QuizStore.DeleteOption | server/models/quizModel.js:328-358 | `deleteOption`: an unknown option gives null and changes nothing; otherwise it is deleted and the later options of its question move up. |
| QuizModel.QuizStore.SubmitAttempt | server/models/quizModel.js:378-444 | `submitAttempt`: an unknown quiz throws; otherwise the quiz's questions are graded in question_order and one attempt row is stored with the rounded percentage as its score. |
| RequestValidation.FieldOf | server/middleware/validation.js:23 | A one-element path names the field itself. |
| RequestValidation.RemoveQuotes | server/middleware/validation.js:24 | `message.replace(/"/g, '')`: every double quote removed, everything else kept in order. |
| RequestValidation.RemoveQuotesKeeps | server/middleware/validation.js:24 | Removing the quotes keeps every other character. |
| RequestValidation.ErrorMapUnquoted | server/middleware/validation.js:20-26 | No message in the map has a double quote left. |
| RequestValidation.ErrorMapKeys | server/middleware/validation.js:22-26 | The map has a key for exactly the fields some detail names. |
| RequestValidation.LastDetailWins | server/middleware/validation.js:22-26 | For a field named more than once, the message of its last detail is the one kept. |
| RequestValidation.ValidateRequest | server/middleware/validation.js:10-37 | `validateRequest(schema, source)` on one request, given the schema's verdict: on success the validated value replaces the request part; on failure a fresh ValidationError carries one entry per failing field, built detail by detail. |
| RequestValidation.CourseSchemaDisagreesWithModel | server/middleware/validation.js:43-44 | The course schema and the course model disagree: no category the schema accepts is one the model accepts, and the model's level 'all' is refused by the schema. |
| RequestValidation.PublishActionDetails | server/middleware/validation.js:50-55 | publishStatusSchema: the action must be 'publish' or 'unpublish'. The engine tests the allowed values before the string type, and with every error collected an empty action fails both: the custom message first, then the engine's own empty-string message. |
| RequestValidation.EmptyActionEntry | server/middleware/validation.js:10-30 | An empty action is reported with the engine's message, which comes last and so replaces the custom one. |
| RequestValidation.TextFieldDetails | server/middleware/validation.js:59-68 | A required string field with length bounds and custom messages: missing, empty (the engine's own message, which quotes the field name), too short, too long. |
| RequestValidation.AnnouncementDetails | server/middleware/validation.js:58-69 | announcementSchema: every failing field is reported, the title's before the message's. |
| RequestValidation.UnquoteLabel | server/middleware/validation.js:24 | The engine's own messages quote the field name; the map holds them with the quotes gone. |
| RequestValidation.EmptyFieldEntry | server/middleware/validation.js:19-26 | An empty required field is reported under its own name, with the engine's message unquoted. |
| RequestValidation.AnnouncementKeys | server/middleware/validation.js:58-69 | A rejected announcement reports exactly its failing fields, each under its own name. |
| ReviewController.EligibilityField | server/controllers/reviewController.js:20-21 | Reading a property of the eligibility object: `canReview` is there, any other key, such as `can_review`, is undefined (None). |
| ReviewController.CreateReviewAsWritten | server/controllers/reviewController.js:7-39 | `createReview` as written: 404 for an unknown course, then 403 unless `canReview.can_review` is truthy, then `create({ user_id, course_id, content })`, where `create` reads `review_text`, so the stored text is null. |
| ReviewController.CreateAlwaysRefused | server/controllers/reviewController.js:20-23 | As written, every create on an existing course is refused with 403, eligible or not. |
| ReviewController.CreateReview | server/controllers/reviewController.js:7-39 | `createReview` with the property the model returns (`canReview`) and the body's text passed as `review_text`: 201 exactly for an existing course and an eligible user. |
| ReviewController.CreateReviewOncePerCourse | server/models/reviewModel.js:5-36 | The corrected create keeps one review per (user, course): the second attempt is refused. |
| ReviewController.CourseReviewsAsWritten | server/controllers/reviewController.js:42-72 | `getCourseReviews` as written: 404 for an unknown course; otherwise the reviews are fetched and the answer names `statistics`, which is not bound, so the handler answers 500. |
| ReviewController.CourseReviewsAlwaysFail | server/controllers/reviewController.js:63-67 | As written, listing the reviews of an existing course never succeeds. |
| ReviewController.OfCourse | server/models/reviewModel.js:82 | Exactly the reviews of the course, each as often as in the table. |
| ReviewController.CourseReviews | server/controllers/reviewController.js:42-72 | `getCourseReviews` with the answer built from what was fetched and the query's `sort_by` and `sort_order` handed to `findByCourse` under the names it reads. |
| ReviewController.ViewReview | server/controllers/reviewController.js:75-91 | 200 with the review under the key exactly when it exists, otherwise 404; the table is never changed. |
| ReviewController.FeaturedList | server/controllers/reviewController.js:209-228 | `getFeaturedReviews`: 404 for an unknown course, else the featured list with `limit` 3 by default. |
| ReviewController.Eligible | server/controllers/reviewController.js:231-250 | The `canUserReviewCourse` handler: 404 for an unknown course, else 200 with the eligibility object. |
| ReviewController.UpdateReview | server/controllers/reviewController.js:94-122 | `updateReview`: 404 for an unknown review, 403 unless the requester wrote it (no admin override), then the COALESCE update of its text. |
| ReviewController.OnlyAuthorUpdates | server/controllers/reviewController.js:108-109 | An admin who did not write a review cannot change it, and nobody can change its author or course. |
| ReviewController.DeleteReview | server/controllers/reviewController.js:125-153 | `deleteReview`: 404 for an unknown review, 403 unless the author or an admin, then the row is removed. |
| ReviewController.DeleteThenNotFound | server/controllers/reviewController.js:125-153 | Deleting twice: the second request answers 404 even for the author or an admin. |
| ReviewController.MarkReviewAsHelpful | server/controllers/reviewController.js:156-182 | `markReviewAsHelpful`: 404 for an unknown review; otherwise the handler calls `hasUserMarkedReviewAsHelpful`, which the review model does not define, and answers 500. |
| ReviewController.ByAuthor | server/models/reviewModel.js:94-109 | `WHERE r.user_id = $1` with the route's text read as an integer: the reviews by that author. |
| ReviewController.UserReviews | server/controllers/reviewController.js:185-206 | `getUserReviews`: only the user named in the route, compared as text, or an admin; 403 otherwise. `findByUser` binds the route text to an integer parameter, so text the database cannot read as an integer throws and the answer is 500. |
| ReviewController.OwnReviewsOnly | server/controllers/reviewController.js:185-206 | A non-admin whose id fits 32 bits lists reviews only under their own id, and then gets exactly the reviews they wrote. |
| ReviewController.AdminRouteTextReadAsInteger | server/controllers/reviewController.js:185-206 | An admin asking for "007" gets user 7's reviews, and asking for "abc" is answered 500. |
| ReviewModel.FindById | server/models/reviewModel.js:39-53 | The review found has the key asked for; nothing is found exactly when no review has it. |
| ReviewModel.FindByUserAndCourse | server/models/reviewModel.js:56-66 | A review of the pair when one exists, and nothing only when none does. |
| ReviewModel.CreateRow | server/models/reviewModel.js:5-36 | `create`: refused when the user has no enrollment row for the course, whatever its status, then when the pair already has a review; otherwise the inserted row, with `helpful_count` at its column default 0. |
| ReviewModel.CreateKeepsOnePerPair | server/models/reviewModel.js:5-36 | A successful create keeps one review per pair, and the same request made again is refused. |
| ReviewModel.CanUserReviewCourse | server/models/reviewModel.js:257-283 | `canUserReviewCourse`: not_enrolled first, then already_reviewed with the review's id. |
| ReviewModel.EligibleIffCreates | server/models/reviewModel.js:5-283 | The eligibility check and `create` agree: eligible exactly when the create would succeed. |
| ReviewModel.Rewritten | server/models/reviewModel.js:126-131 | `SET review_text = COALESCE($2, review_text), updated_at = CURRENT_TIMESTAMP`. |
| ReviewModel.RewriteIdempotent | server/models/reviewModel.js:126-131 | Rewriting with the same text twice stores what rewriting once stores. |
| ReviewModel.UpdateResult | server/models/reviewModel.js:112-141 | `update`: 'Review not found' for an unknown key, else the rewritten row. |
| ReviewModel.WithoutId | server/models/reviewModel.js:158-160 | Exactly the rows whose id differs from the key survive. |
| ReviewModel.Unmarked | server/models/reviewModel.js:182-185 | The rows left after `DELETE FROM review_helpful WHERE review_id = $1 AND user_id = $2`. |
| ReviewModel.Bump | server/models/reviewModel.js:188-209 | The review with its helpful count moved by the given amount and every other field kept. |
| ReviewModel.Toggle | server/models/reviewModel.js:172-218 | `markAsHelpful`: a user who already marked the review loses the mark and the count drops by one (`marked: false`); otherwise the mark is inserted and the count rises by one (`marked: true`). The returned review is the updated row, if there is one. |
| ReviewModel.ToggleKeepsCounts | server/models/reviewModel.js:172-218 | A toggle keeps every review's count equal to its number of markers. |
| ReviewModel.ToggleTwice | server/models/reviewModel.js:172-218 | Toggling twice restores the reviews exactly; the marks come back as the same set of rows (unmark-then-mark moves the mark to the end of the table), and the two calls report opposite `marked` values. |
| ReviewModel.SortColumn | server/models/reviewModel.js:72-75 | The column interpolated into `ORDER BY r.${sortBy}`: created_at unless one of the two allowed columns. |
| ReviewModel.SortOrder | server/models/reviewModel.js:73-76 | The direction interpolated after the column: the caller's own text when its upper case is ASC or DESC (so 'asc' stays 'asc'), else DESC. |
| ReviewModel.SortSanitised | server/models/reviewModel.js:72-83 | Sanitising is idempotent, and what reaches the query text is one of the two columns and a direction of three or four letters; the long s (U+017F) passes the case-insensitive check, so 'deſc' is kept as it is. |
| ReviewModel.FeaturableRows | server/models/reviewModel.js:245 | Exactly the reviews of the course whose text is present and longer than ten characters. |
| ReviewModel.Sorted | server/models/reviewModel.js:246 | The same reviews, each as often, ordered by helpful count and then creation time, both descending. |
| ReviewModel.FeaturedReviews | server/models/reviewModel.js:239-254 | `getFeaturedReviews`: the featurable reviews in featured order, at most `limit` of them. |
| ReviewModel.FeaturedAreTheTop | server/models/reviewModel.js:239-254 | Nothing left out of the featured list ranks ahead of something in it. |
| ReviewModel.ReviewStore.Create | server/models/reviewModel.js:5-36 | Appends the row the pure create gives, or leaves the table unchanged on refusal; helpful marks untouched. |
| ReviewModel.ReviewStore.Update | server/models/reviewModel.js:112-141 | `update`: COALESCE the text and stamp `updated_at`, or throw 'Review not found'. |
| ReviewModel.ReviewStore.Delete | server/models/reviewModel.js:144-169 | The row with the key is returned and removed, every other row kept; helpful marks untouched. |
| ReviewModel.ReviewStore.MarkAsHelpful | server/models/reviewModel.js:172-218 | `markAsHelpful`, on a review that exists (the handler looks it up first). |
| Sql.Defined | server/models/courseModel.js:331-332 | `Object.entries(...).filter(([_, value]) => value !== undefined)`, where `None` is undefined. |
| Sql.DefinedMembers | server/models/courseModel.js:331-332 | The defined entries are exactly the given fields with a value, in the same order. |
| Sql.DefinedEmpty | server/models/courseModel.js:331-336 | No entry survives the filter exactly when every field is undefined. |
| Sql.SetClause | server/models/lessonModel.js:84-86 | `entries.map(([field, _], index) => inline ? 'field = CURRENT_TIMESTAMP' : 'field = $' + (index + 2))`. |
| Sql.Values | server/models/lessonModel.js:88-90 | The values passed after the key: those of the bound entries, in order. |
| Sql.PlaceholdersMatchValues | server/models/lessonModel.js:84-95 | When only the last entry may be inline, the placeholders are `$2, $3, ...` in entry order, the value at position `k` is the one placeholder `$<k + 2>` stands for, and any entry past the values is the inline timestamp. |
| Sql.PgInteger | server/models/reviewModel.js:94-104 | How PostgreSQL reads a text parameter bound where an `integer` is expected (`WHERE r.user_id = $1`): white space around it, an optional sign, then one or more decimal digits whose value fits 32 bits; anything else is an error the query throws (None). |
| Sql.PgReadsPrinted | server/controllers/reviewController.js:192-199 | PostgreSQL reads back every 32-bit number that `String(n)` prints and refuses a wider one, so the text comparison and the integer parameter agree on every 32-bit id. |
| Sql.PgReadsLeadingZeros | server/models/reviewModel.js:94-104 | Leading zeros still name the number. |
| Sql.PgReadsPadded | server/models/reviewModel.js:94-104 | Surrounding blanks are skipped. |
| Sql.PgRefusesText | server/models/reviewModel.js:94-104 | Text that is not a number is an error. |
| Strings.TrimEmptyIffBlank | server/controllers/moduleController.js:15 | `s.trim()` is empty exactly when `s` holds nothing but white space. |
| Strings.SplitFirst | server/routes/UploadRoutes.js:184-186 | The first piece of `s.split(c)` is the text before the first `c`. |
| Strings.SplitLast | server/routes/UploadRoutes.js:184-186 | The last piece of `s.split(c)` (what `pop()` returns) is the text after the last `c`. |
| Strings.NatStringInjective | server/controllers/assignmentController.js:426 | Different numbers print differently, so comparing `String(a)` with `String(b)` compares `a` with `b`. |
| UploadFilter.BaseName | server/middleware/upload.js:80 | A slash-free suffix of the path. |
| UploadFilter.ExtName | server/middleware/upload.js:48 | `path.extname(p)` on a path without a trailing '/': the last segment from its last dot, or empty when the segment has no dot, starts with its only dot, or is '..'. |
| UploadFilter.ExtNameOfStem | server/middleware/upload.js:48 | A name made of a stem, a dot and a dot-free suffix has that suffix, dot included, as its extension. |
| UploadFilter.DotFileHasNoExtension | server/middleware/upload.js:48 | A dot-file with no other dot (`.env`) has no extension. |
| UploadFilter.Lookup | server/middleware/upload.js:52-57 | The entry found is one of the table's and carries the extension asked for; one is found exactly when some entry carries it. |
| UploadFilter.MimesOf | server/middleware/upload.js:52-57 | Some types are found exactly when the extension is a key of the allowed table. |
| UploadFilter.TableSingletons | server/middleware/upload.js:7-42 | Every extension in the table carries exactly one MIME type. |
| UploadFilter.JpegFacts | server/middleware/upload.js:7-42 | '.jpg' and '.jpeg' both map to 'image/jpeg'. |
| UploadFilter.ShortNotKey | server/middleware/upload.js:7-42 | Every key is at least three characters long, so no shorter extension (the empty one included) is a key. |
| UploadFilter.FileFilter | server/middleware/upload.js:45-70 | `fileFilter`: the lower-cased extension must be a key of the table, then the lower-cased MIME type must be listed for it. A file without a MIME type fails inside the filter. |
| UploadFilter.NoExtensionRefused | server/middleware/upload.js:48-54 | A name without an extension is always refused. |
| UploadFilter.AcceptedFacts | server/middleware/upload.js:45-66 | An accepted file's extension and type are already lower case, and the type is the single one the table lists for the extension. |
| UploadFilter.OnlyListedType | server/middleware/upload.js:7-42 | The table lists exactly one MIME type per extension, so a type accepted for an extension is the only one it accepts. |
| UploadFilter.UpperCaseAccepted | server/middleware/upload.js:45-66 | An upper-case spelling of an allowed extension and type is accepted: a '.JPG' file sent as 'IMAGE/JPEG'. |
| UploadRoutes.UploadError | server/routes/UploadRoutes.js:38-56 | An error from the upload middleware: one mentioning 'cloud_name' is a configuration error (500), any other a 400 carrying its message. |
| UploadRoutes.SingleUpload | server/routes/UploadRoutes.js:21-66 | A cloud name that is missing, contains `your_` or is `root` gives 500 CLOUDINARY_NOT_CONFIGURED before any upload; with the service configured, a request without a file is 400 NO_FILE_ERROR. |
| UploadRoutes.SingleUploadAccepts | server/routes/UploadRoutes.js:21-101 | A file is uploaded exactly when the service is configured, a file was sent, the filter accepts it and the storage service succeeds; the reply carries its name, type and lower-cased extension. |
| UploadRoutes.ExtensionMismatchUnreachable | server/routes/UploadRoutes.js:74-88 | The extension check after the filter never fails: the filter derives the extension it records the same way the route does. |
| UploadRoutes.LastSegment | server/routes/UploadRoutes.js:184-185 | The slash-free text after the URL's last '/'. |
| UploadRoutes.BeforeFirstDot | server/routes/UploadRoutes.js:186 | A dot-free prefix: the segment up to its first '.', or all of it. |
| UploadRoutes.DeleteTarget | server/routes/UploadRoutes.js:169-187 | The public ID `DELETE /delete` destroys: a given `publicId` verbatim; otherwise the folder followed by the URL's last segment up to its first dot; nothing (a 400) when neither is given. |
| UploadRoutes.DerivedIdShape | server/routes/UploadRoutes.js:182-187 | A derived public ID is the folder and one dot-free, slash-free name. |
| UploadRoutes.DeleteStatus | server/routes/UploadRoutes.js:169-213 | `DELETE /delete`: 400 without an identifier, 200 when the service answers 'ok', 400 for any other answer, 500 when it throws. |
| UploadRoutes.StoredName | server/middleware/upload.js:77-82 | The public ID the storage parameters give an upload, inside the folder: the original name without its extension, '_', and the upload time in milliseconds. |
| UploadRoutes.StoredNameOfStem | server/middleware/upload.js:77-82 | The stored name of `stem.ext` keeps the whole stem, inner dots included. |
| UploadRoutes.DottedNameMisderived | server/routes/UploadRoutes.js:182-187 | As written, a stored name with a dot in it does not survive the URL round trip: the derived ID stops at the name's first dot, so the delete targets another ID. |
| UploadRoutes.SegmentOfUrl | server/routes/UploadRoutes.js:184-185 | The last segment of `prefix + "/" + seg` is `seg` when it has no '/'. |
| UploadRoutes.DeleteTargetFixed | server/routes/UploadRoutes.js:182-187 | The derivation with only the format removed: the last segment up to its last dot. |
| UploadRoutes.FixedRoundTrip | server/routes/UploadRoutes.js:182-187 | With only the format removed, every stored name survives the URL round trip, dots and all. |
| UploadRoutes.DotFreeNamesAgree | server/routes/UploadRoutes.js:182-187 | The stored name of an upload whose original name has no dot before its extension round-trips either way. |
| UserController.Pick | server/controllers/userController.js:31-36 | The fold of `formatUserResponse` over a list of field names: each one the user defines is copied. |
| UserController.FormatUserResponse | server/controllers/userController.js:23-36 | `formatUserResponse(user)`: the listed fields the user defines, with their values, and nothing else. |
| UserController.ByEmailRecord | server/models/usermodel.js:62-69 | The columns `findByEmail` selects, as the user object the login handler holds. |
| UserController.FormatFacts | server/controllers/userController.js:23-36 | The projection never leaks the password hash, applying it twice changes nothing, and of a login's user object only id, email, name and role reach the response. |
| UserController.NoHashInResponse | server/controllers/userController.js:23-36 | The formatted user never carries password_hash, whatever the row holds. |
| UserController.Register | server/controllers/userController.js:42-114 | `register`: 400 for a body the schema refuses, 403 for role 'admin', 409 for a taken email, then 201 with the new row. |
| UserController.RegisterNeverCreatesAdmin | server/controllers/userController.js:42-114 | No self-service registration creates an admin, so the single-admin rule survives it. |
| UserController.CreateAdminAccount | server/controllers/userController.js:119-166 | `createAdminAccount`: 400 for a body the schema refuses, 403 while an admin exists, a thrown 'Email already exists' for a taken email, then 201 with the admin row. |
| UserController.Login | server/controllers/userController.js:171-220 | `login`: 400 for a body the schema refuses; the same 401 'Invalid credentials' for an unknown email and a wrong password; otherwise 200, recording the login time. |
| UserController.LoginFailureUniform | server/controllers/userController.js:171-220 | A caller cannot tell an unknown email from a wrong password: both answers are identical. |
| UserController.ChangePassword | server/controllers/userController.js:225-247 | `changePassword`: every refusal is a thrown Error (500): the schema's first message, an unknown requester, or a wrong current password; otherwise the new hash is stored. |
| UserController.ByIdRecord | server/models/usermodel.js:71-78 | The record has exactly the id, email, name, role and oauth_provider keys. |
| UserController.GetProfile | server/controllers/userController.js:252-266 | `getProfile`: the requester's projected row, or a thrown 'User not found'. |
| UserController.UpdateProfile | server/controllers/userController.js:271-300 | `updateProfile`: a body the schema refuses (including one carrying `role` or `avatar`, which the schema does not list) is a thrown Error; a taken email fails with the database's unique violation; a missing row is the TypeError of formatting undefined; otherwise the defined name and email are written. The explicit role guard after the schema can never fire, since no validated value carries a role. |
| UserController.GetUsersStatus | server/controllers/userController.js:305-311 | `getUsers`: a non-admin gets a thrown 'Unauthorized' (500, not 403). |
| UserController.UpdateUserRoleWith | server/controllers/userController.js:339-369 | `updateUserRole` with the self-protection test given: non-admin, bad role, self, then the update. |
| UserController.DeleteUserWith | server/controllers/userController.js:397-423 | `deleteUser` with the self-protection test given: non-admin, self, then the delete. |
| UserController.UpdateUserRole | server/controllers/userController.js:339-369 | The role change with the self-check as written, which never fires (see Findings). |
| UserController.DeleteUser | server/controllers/userController.js:397-423 | The deletion with the self-check as written, which never fires (see Findings). |
| UserController.SelfGuardsNeverFire | server/controllers/userController.js:353-355 | As written, the self-protection guards never fire: text is never strictly equal to a number, so an admin can demote and delete their own account. |
| UserController.UpdateUserRoleGuarded | server/controllers/userController.js:339-369 | The role change with a self-check that refuses the caller's own account. |
| UserController.DeleteUserGuarded | server/controllers/userController.js:397-423 | The deletion with a self-check that refuses the caller's own account. |
| UserController.GuardedRefusesSelf | server/controllers/userController.js:406-408 | With the ids compared, no admin changes their own role or deletes their own account, and every other decision is the one written. |
| UserController.DeleteAccount | server/controllers/userController.js:374-392 | `deleteAccount`: the requester's own row is removed, or a thrown 'Failed to delete account'. |
| UserModel.FindById | server/models/usermodel.js:71-78 | A row with the id when one exists, and nothing only when none does. |
| UserModel.FindByEmail | server/models/usermodel.js:62-69 | A row with the email when one exists, and nothing only when none does. |
| UserModel.Insert | server/models/usermodel.js:15-28 | The INSERT every sign-up shares: a taken email violates the unique index and is reported as 'Email already exists'. |
| UserModel.CreateOutcome | server/models/usermodel.js:8-29 | `create`: the role (default 'student') must be student or instructor, checked before anything is written; then the row is inserted with the password's hash. |
| UserModel.CreateAdminOutcome | server/models/usermodel.js:31-53 | `createAdmin`: refused while any admin exists; otherwise an 'admin' row is inserted. |
| UserModel.CreateOAuthOutcome | server/models/usermodel.js:145-160 | Succeeds exactly when the email is unused, giving a 'student' row with no password hash and the provider recorded. |
| UserModel.SignUpKeepsSingleAdmin | server/models/usermodel.js:8-60 | Apart from `createAdmin`, no sign-up adds an admin, and `createAdmin` adds the first one only. |
| UserModel.SignUpKeepsEmailsUnique | server/models/usermodel.js:8-160 | Every successful sign-up keeps emails unique. |
| UserModel.ValidatePassword | server/models/usermodel.js:80-84 | `validatePassword`: false for an unknown email or a row without a password hash; otherwise the verdict of the hash comparison, which is an opaque parameter here. |
| UserModel.OAuthAccountHasNoPassword | server/models/usermodel.js:80-84 | An OAuth account has no password: no password logs it in, whatever the hash comparison says. |
| UserModel.UserUpdateStatement | server/models/usermodel.js:98-111 | `update` sends no statement exactly when no key is defined; otherwise the placeholders are `$2, $3, ...` for the defined keys in order, and the clause ends with updated_at. |
| UserModel.UpdatedUser | server/models/usermodel.js:98-113 | A row after `update`: each defined key is written, the others kept. |
| UserModel.WithPassword | server/models/usermodel.js:86-96 | The table after `updatePassword` stores the new hash on the row with the id. |
| UserModel.WithChanges | server/models/usermodel.js:98-113 | Same rows with the same ids; only the row with the key takes the changes. |
| UserModel.WithoutId | server/models/usermodel.js:134-143 | The table after `softDelete`, which despite its name deletes the row. |
| UserModel.ChangesKeepSingleAdmin | server/models/usermodel.js:98-113 | An update that does not grant the admin role cannot add a second admin. |
| UserModel.ChangesKeepEmailsUnique | server/models/usermodel.js:98-113 | A successful update keeps emails unique. |
| UserModel.UserStore.Create | server/models/usermodel.js:8-29 | Appends the new row under the next id when the role is self-service and the email unused, otherwise changes nothing; never adds a second admin. |
| UserModel.UserStore.CreateAdmin | server/models/usermodel.js:31-53 | `createAdmin`: succeeds only while no admin exists, and leaves exactly one. |
| UserModel.UserStore.CreateOAuthUser | server/models/usermodel.js:145-160 | Appends the OAuth row under the next id when the email is unused, otherwise changes nothing; never adds a second admin. |
| UserModel.UserStore.UpdatePassword | server/models/usermodel.js:86-96 | `updatePassword`, with the new hash given: the row comes back, or nothing for an unknown id. |
| UserModel.UserStore.Update | server/models/usermodel.js:98-113 | `update`: with no defined key the stored row is returned and nothing is written; an email taken by another account fails with the unique violation; otherwise the defined keys are written and the row comes back (nothing for an unknown id). |
| UserModel.UserStore.SoftDelete | server/models/usermodel.js:134-143 | `softDelete`: removes the row and returns it, or nothing for an unknown id. |
| UserModel.WithoutIdKeepsIds | server/models/usermodel.js:134-143 | Deleting rows keeps ids unique. |
| UserModel.WithoutIdKeepsEmails | server/models/usermodel.js:134-143 | Deleting rows keeps emails unique. |
| UserModel.WithoutIdKeepsSingleAdmin | server/models/usermodel.js:134-143 | Deleting rows cannot add an admin. |
| Validations.StrongPasswordFacts | server/utils/validations.js:7-17 | An admin password is also a valid ordinary password, and any strong password has four distinct characters. |
| Validations.NineCharacterPassword | server/utils/validations.js:66-80 | A password with all four kinds of character, nine long: ordinary but not admin strength. |
| Validations.SpaceRefused | server/utils/validations.js:10-13 | A space is not an allowed character. |
| Validations.MissingKindRefused | server/utils/validations.js:10-13 | Without a character of each kind the password is refused. |
| Validations.ValidateRegistration | server/utils/validations.js:3-19 | `registerSchema.validate(body)`: the validated value, or nothing on any error. |
| Validations.SchemaFacts | server/utils/validations.js:18-44 | Properties of the schemas: a registration may ask for 'admin' (the handler refuses it), an omitted role becomes 'student', a changed password is never the current one, and a profile body carrying a role or an avatar is refused by the schema. |

## Left out

- The database: SQL text, JOINed display columns, `ORDER BY`, `LIMIT`/`OFFSET`, `RETURNING` column subsets and NULL semantics. Tables are sequences or maps of rows, a serial id is a `nextId` counter, and row order stands in for `ORDER BY` only where the code relies on it.
- Multi-statement writes (`BEGIN`/`COMMIT` issued through a pool, and `Promise.all`) are modelled as atomic and sequential; concurrency is not modelled.
- bcrypt hashing and comparison, JWT signing and verification, the email-format check, the schema engine and the Cloudinary upload service are oracles. Their verdicts are parameters of the functions that use them.
- Google OAuth (`findByGoogleId`, `createGoogleUser`, the passport strategy) and `toJSON` on the error classes are not part of this model.
- Read-only listing and statistics queries are not modelled. These are `findAllWithPagination`, `getMyEnrollments`, `getApprovedCourses`, `getRejectedCourses`, `getFeaturedCourses`, `getInstructorCourses`, `getEnrolledCourses`, `getCourseById`, `getLessonsByModule`, `getLessonsByCourse`, `getAllAssignments`, `getAssignmentsByLesson`, `getAssignmentsDueSoon`, `getOverdueAssignments`, `getSubmissionsByAssignment`, `findWithProgress`, `findByCourseWithLessons`, `findByIdWithLessons`, and the `count*`, `get*Statistics`, `getStatsForInstructor`, `getAttempts*`, `getBestAttempt` and `hasUserPassed` aggregates. Each is a single SELECT with joins, sorting or averages and holds no decision logic.
- The quiz CRUD handlers outside grading and publishing are not modelled: `createQuiz`, `updateQuiz`, `deleteQuiz`, `unpublishQuiz`, `getQuizById`, `getQuizzesByLesson`, `getQuizzesByCourse` and the attempt listings. The model's own quiz `update` and `delete` are modelled.
- `createEnrollmentNotification` and `createAssignmentDueNotification` are not modelled: each is a join query followed by a fixed-text call of `create`, and `create` is modelled. `createAssignmentGradedNotification` is modelled only as far as the grading handler needs: called without a `submission_id`, it finds no submission and throws.
- The unrounded float percentage of the controller's grader is modelled by cross-multiplication: passed exactly when `100 * earned >= passing_score * total`. `toFixed` formatting and `parseFloat` of grades (and the NaN that slips past the range check) are not modelled.
- `Date.now()` and `CURRENT_TIMESTAMP` are the integer parameter `now`, and a due date is an integer on the same scale.
- Multer's size and count limits, the Cloudinary storage settings, the rate-limiter's window configuration and the express, helmet, cors and session wiring are not part of this model.
- Logging (`server/utils/logger.js`), `server/controllers/instructorController.js`, the email service and the route files other than the two upload handlers are not part of this model.
- Strings are sequences of characters. JavaScript's UTF-16 code-unit lengths, and case mappings that change a string's length, are not modelled.
- The storage service's delivery URLs are assumed to have the shape `<prefix>/<public id>.<format>` (`UploadRoutes.DeliveryUrl`); its full URL grammar is not modelled.
- Percent.Rounded: is `Math.round(part / whole * 100)` computed on rationals, not in IEEE doubles. Where the double product of an exact half lands just below it, the server rounds down and the model rounds up: 23 of 40 gives 57 on the server (57.49999999999999) and 58 here, and likewise 29 of 200 gives 14 there and 15 here. Elsewhere the two agree.
- Percent.Percentage: inherits the rational rounding of `Percent.Rounded`, so it can differ by one from the server on the same exact halves.
- QuizModel.Percentage: inherits the rational rounding of `Percent.Rounded`, so it can differ by one from the server on the same exact halves.
- QuizModel.QuizStore.SubmitAttempt: stores the score rounded on rationals (`Percent.Rounded`), which can differ by one from the server's double rounding on the same exact halves.
- LessonModel.GetCourseProgress: rounds the progress on rationals (`Percent.Rounded`), which can differ by one from the server's double rounding on the same exact halves.
- CourseModel.CourseStore.Create: does not model the tag upserts into `tags` and `course_tags` (server/models/courseModel.js:71-93). Nor does it model how PostgreSQL errors are renamed (server/models/courseModel.js:97-106): 23505 becomes 'Course with this title already exists' and 23503 becomes 'Invalid reference data provided'. The tags are not part of the course row that the rest of the model reads. The renamed errors come from database constraints that are not modelled, such as a unique title, or a foreign key beyond the checked instructor and category.
- AssignmentModel.FindSubmissionById: filters only the NULL student that the inner join with users drops. It assumes that the submission's assignment row and its student's users row exist, as the foreign keys guarantee.
- Sql.PgInteger: models PostgreSQL's decimal integer input (blanks, a sign, digits, 32 bits). It does not model the hexadecimal, octal and binary prefixes or the digit-group underscores that PostgreSQL 16 also accepts.
- Validations.ValidateRegistration: takes the body as a record of the schema's fields, so it cannot show Joi's refusal of keys the schema does not list. The same holds for UserController.Register and UserController.Login, whose bodies are the same records. Only the profile update, whose extra keys the model carries, shows that refusal.
- CourseController.UpdateCourse: models only the body keys that are course columns the rest of the model reads: the text fields, status, is_approved, is_published and rejection_reason. Any other key also reaches the model's `update` unfiltered and is not modelled. Examples are instructor_id or id, which would be written, and an unknown key, whose column makes the SQL throw and the answer 500. The same holds for CourseModel.CourseStore.Update.
- LessonModel.UpdatedLesson: assumes the lessons table has a `content` column beside content_text. If it has none, every update that carries content throws and is answered 500, which the model does not show.
- ReviewModel.ReviewStore.MarkAsHelpful: requires the review to exist, because its handler looks the review up and answers 404 first. For an unknown review the source would still insert the mark while its count UPDATE matches nothing; only the pure `ReviewModel.Toggle` covers that case.
- Strings.Lower: models `toLowerCase` only for ASCII letters and the Kelvin sign. Other characters map to themselves, which is enough for the extension table and MIME types, all of which are ASCII.
- Strings.Upper: models `toUpperCase` only for ASCII letters, the dotless i and the long s. It is used only to compare sort orders with 'ASC' and 'DESC'.

## Findings

| source | as written | input that shows it | evidently intended | confidence | as-written member | corrected member |
|---|---|---|---|---|---|---|
| server/controllers/quizController.js:763-796 | The scoring loop runs over the submitted answers, so a question answered twice is credited twice. This is latent: the handler first calls `findByIdWithQuestions` (line 745), which QuizModel does not define, so as written every submission is answered 500 before the loop. | One true_false question worth 5 points, with its correct option sent twice, once the questions are loaded: 10 of 5 points earned, 200 per cent. | Credit each question at most once (its first answer), so that earned points never exceed the total. | not executed | QuizController.DoubleCreditThroughHandler | QuizController.EarnedOnceWithinTotal |
| server/controllers/courseController.js:108-125 | `getAllCourses` passes its filters nested under `filters`, but `findAll` reads flat keys, so the forced published-and-approved filter never reaches the query. | An anonymous visitor lists courses with no query parameters: the query has no condition, and pending and rejected courses are listed. | Visitors see only published, approved courses. | not executed | CourseController.AnonymousListingUnfiltered | CourseController.FlatListingFiltersVisitors |
| server/controllers/enrollmentController.js:211-222 | The completion cascade reads `course_id`, `enrollment_id` and `progress`, which `getCourseProgress` does not return, so it never writes the enrollment. | A student completes the last lesson of a course: the enrollment keeps its old progress and never becomes 'completed'. | Write the new progress and mark the enrollment completed at 100 per cent. | not executed | EnrollmentController.CascadeNeverWrites | EnrollmentController.CascadeCompletesFinishedCourse |
| server/controllers/assignmentController.js:291-305 | `submitAssignment` passes camel-case keys the model does not read, then reads an unbound `course`. | Any submission that passes the guards: a row without student or file is stored and the answer is 500. | Store the student's submission (one row per student) and answer 201. | not executed | AssignmentController.SubmitAsWrittenFails | AssignmentController.SubmitKeepsOneRowPerStudent |
| server/controllers/assignmentController.js:318-374 | After grading, the notification call passes no `submission_id`, so the notification model finds no submission and throws. | Any valid grade: the submission is stored as 'graded' but the answer is 500. | Answer 200 with the graded submission. | not executed | AssignmentController.GradeStoredButFails | AssignmentController.GradeSubmission |
| server/controllers/reviewController.js:20-23 | The handler tests `can_review`, but `canUserReviewCourse` returns `canReview`. | An enrolled student's first review of a course: refused with 403. | Create the review when the user may review the course. | not executed | ReviewController.CreateAlwaysRefused | ReviewController.CreateReview |
| server/controllers/reviewController.js:63-67 | `getCourseReviews` answers with a `statistics` variable that is never bound. | Any existing course: the answer is 500. | Answer 200 with the course's reviews. | not executed | ReviewController.CourseReviewsAlwaysFail | ReviewController.CourseReviews |
| server/controllers/notificationController.js:170-174 | The handler passes `roles`, but the model reads `role`. | An admin sends a system notice to role 'instructor': every user receives it. | Notify only the users of the given role, or all users when none is given. | not executed | NotificationController.SystemNotificationReachesEveryone | NotificationController.SystemNotificationByRole |
| server/middleware/errorHandler.js:102-109 | For a ValidationError, the handler reads `val.message` from values that are plain strings, so the field messages are lost. | One failing field: the body's error is 'Server Error'; two fields: it is ','. | The error text lists the field messages. | not executed | Errors.ValidationMessagesLost | Errors.FixedKeepsFieldMessages |
| server/controllers/userController.js:353-355 | The self-protection guards compare the text route parameter with the numeric user id using `===`, so they never match. | An admin changes their own role to 'student', or deletes their own account: both succeed. | Refuse a change of one's own role and the deletion of one's own account. | not executed | UserController.SelfGuardsNeverFire | UserController.GuardedRefusesSelf |
| server/routes/UploadRoutes.js:182-187 | The public id is derived by cutting the URL's last segment at its first dot. | A file stored as 'v1.2-notes' and delivered as '.../v1.2-notes.pdf': the derived id is 'lms_uploads/v1', so the wrong file is targeted. | Cut at the last dot, which separates the format. | not executed | UploadRoutes.DottedNameMisderived | UploadRoutes.FixedRoundTrip |
| server/controllers/enrollmentController.js:104 | The instructor test reads `enrollment.instructor_id`, but `findWithCourseDetails` (server/models/enrollmentModel.js:184-200) selects `e.*` and course columns without the instructor's id, so the test never holds. | The course's instructor, neither an admin nor the enrolled user, asks for an enrollment in their course: 403. | The course's instructor may read enrollments in their course. | not executed | EnrollmentController.InstructorRefusedEnrollment | EnrollmentController.ViewEnrollmentFixed |
| server/controllers/courseController.js:340-387 | `updateCourse` hands the whole request body to the model's `update`, which writes every defined key, so the owner also writes status, is_approved and is_published. | The owning instructor sends `{"status": "approved", "is_approved": true, "is_published": true}` for their rejected or pending course: 200, and the course is live without an admin's approval. A body with the status alone leaves is_approved out of step with it. | Only the approval, resubmission and publishing handlers change the life-cycle columns, and is_approved stays in step with the status. | not executed | CourseController.SelfApproval | CourseController.UpdateCourseFixed |
| server/models/lessonModel.js:71-101 | `update` writes the text to a column named `content`, while `create` (lines 7-40) stores it in content_text. | An instructor edits a text lesson's content: content_text, the text the lesson was created with, is unchanged. | The edit replaces content_text. | not executed | LessonModel.EditedTextNotShown | LessonModel.UpdatedLessonFixed |
