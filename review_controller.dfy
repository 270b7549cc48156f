// The review handlers (server/controllers/reviewController.js): each is a chain
// of checks ending in a status, with the change itself made by ReviewModel.

module ReviewController {
  import opened Wrappers
  import opened Http
  import Strings
  import Sql
  import CourseModel
  import EnrollmentModel
  import opened ReviewModel

  /** A handler's status, the reviews table after it and the review it answers with. */
  datatype Answer = Answer(status: Status, rows: seq<Review>, review: Option<Review>)

  // ---------------------------------------------------------------------------
  // createReview

  /**
   * Reading a property of the eligibility object: `canReview` is there, any other key,
   * such as `can_review`, is undefined (None).
   */
  function EligibilityField(e: Eligibility, key: string): (r: Option<bool>)
    ensures r.Some? <==> key == "canReview"
    ensures r.Some? ==> r.value == e.canReview
  {
    if key == "canReview" then Some(e.canReview) else None
  }

  /** `if (!canReview.can_review)` lets the request through only when the property is truthy. */
  predicate GatePasses(e: Eligibility, key: string)
  {
    EligibilityField(e, key) == Some(true)
  }

  /**
   * `createReview` as written: 404 for an unknown course, then 403 unless
   * `canReview.can_review` is truthy, then `create({ user_id, course_id, content })`,
   * where `create` reads `review_text`, so the stored text is null.
   */
  function CreateReviewAsWritten(userId: nat, course: Option<CourseModel.Course>, courseId: nat,
                                 enrollments: seq<EnrollmentModel.Enrollment>, rows: seq<Review>,
                                 nextId: nat, content: Option<string>, now: int): (r: Answer)
    ensures course.None? ==> r.status == NOT_FOUND
    ensures r.status != CREATED ==> r.rows == rows && r.review.None?
  {
    if course.None? then Answer(NOT_FOUND, rows, None)
    else
      var e := CanUserReviewCourse(enrollments, rows, userId, courseId);
      if !GatePasses(e, "can_review") then Answer(FORBIDDEN, rows, None)
      else match CreateRow(enrollments, rows, nextId, userId, courseId, None, now)
        case Fail(_) => Answer(SERVER_ERROR, rows, None)
        case Ok(v) => Answer(CREATED, rows + [v], Some(v))
  }

  /** As written, every create on an existing course is refused with 403, eligible or not. */
  lemma CreateAlwaysRefused(userId: nat, course: Option<CourseModel.Course>, courseId: nat,
                            enrollments: seq<EnrollmentModel.Enrollment>, rows: seq<Review>,
                            nextId: nat, content: Option<string>, now: int)
    requires course.Some?
    ensures CreateReviewAsWritten(userId, course, courseId, enrollments, rows, nextId, content, now) == Answer(FORBIDDEN, rows, None)
    ensures CanUserReviewCourse(enrollments, rows, userId, courseId).canReview ==>
      CreateRow(enrollments, rows, nextId, userId, courseId, content, now).Ok?
  {
    assert !GatePasses(CanUserReviewCourse(enrollments, rows, userId, courseId), "can_review");
  }

  /**
   * `createReview` with the property the model returns (`canReview`) and the body's text
   * passed as `review_text`: 201 exactly for an existing course and an eligible user.
   */
  function CreateReview(userId: nat, course: Option<CourseModel.Course>, courseId: nat,
                        enrollments: seq<EnrollmentModel.Enrollment>, rows: seq<Review>,
                        nextId: nat, content: Option<string>, now: int): (r: Answer)
    ensures course.None? ==> r.status == NOT_FOUND
    ensures course.Some? && !EnrollmentModel.IsEnrolled(enrollments, userId, courseId) ==> r.status == FORBIDDEN
    ensures course.Some? && FindByUserAndCourse(rows, userId, courseId).Some? ==> r.status == FORBIDDEN
    ensures r.status == CREATED <==>
      course.Some? && EnrollmentModel.IsEnrolled(enrollments, userId, courseId) && FindByUserAndCourse(rows, userId, courseId).None?
    ensures r.status == CREATED ==>
      r.review.Some? && r.rows == rows + [r.review.value] && r.review.value.text == content
      && r.review.value.userId == userId && r.review.value.courseId == courseId
    ensures r.status != CREATED ==> r.rows == rows && r.review.None?
  {
    if course.None? then Answer(NOT_FOUND, rows, None)
    else
      var e := CanUserReviewCourse(enrollments, rows, userId, courseId);
      if !GatePasses(e, "canReview") then Answer(FORBIDDEN, rows, None)
      else
        EligibleIffCreates(enrollments, rows, nextId, userId, courseId, content, now);
        match CreateRow(enrollments, rows, nextId, userId, courseId, content, now)
        case Fail(_) => Answer(SERVER_ERROR, rows, None)
        case Ok(v) => Answer(CREATED, rows + [v], Some(v))
  }

  /** The corrected create keeps one review per (user, course): the second attempt is refused. */
  lemma CreateReviewOncePerCourse(userId: nat, course: Option<CourseModel.Course>, courseId: nat,
                                  enrollments: seq<EnrollmentModel.Enrollment>, rows: seq<Review>,
                                  nextId: nat, content: Option<string>, now: int)
    requires OnePerPair(rows)
    ensures var first := CreateReview(userId, course, courseId, enrollments, rows, nextId, content, now);
      OnePerPair(first.rows) &&
      (first.status == CREATED ==>
        CreateReview(userId, course, courseId, enrollments, first.rows, nextId + 1, content, now).status == FORBIDDEN)
  {
    var first := CreateReview(userId, course, courseId, enrollments, rows, nextId, content, now);
    if first.status == CREATED {
      CreateKeepsOnePerPair(enrollments, rows, nextId, userId, courseId, content, now);
      assert first.review.value in first.rows;
    }
  }

  // ---------------------------------------------------------------------------
  // getCourseReviews, getReviewById, getFeaturedReviews, canUserReviewCourse

  /**
   * `getCourseReviews` as written: 404 for an unknown course; otherwise the reviews are
   * fetched and the answer names `statistics`, which is not bound, so the handler answers 500.
   */
  function CourseReviewsAsWritten(course: Option<CourseModel.Course>): (r: Status)
    ensures r == NOT_FOUND <==> course.None?
  {
    if course.None? then NOT_FOUND else SERVER_ERROR
  }

  /** As written, listing the reviews of an existing course never succeeds. */
  lemma CourseReviewsAlwaysFail(course: Option<CourseModel.Course>)
    ensures course.Some? ==> CourseReviewsAsWritten(course) == SERVER_ERROR
    ensures !Success(CourseReviewsAsWritten(course))
  {
  }

  datatype ReviewList = ReviewList(status: Status, reviews: seq<Review>, sortColumn: string, sortOrder: string)

  function OfCourse(rows: seq<Review>, courseId: nat): (r: seq<Review>)
    ensures forall x :: x in r <==> x in rows && x.courseId == courseId
    ensures multiset(r) <= multiset(rows)
  {
    if rows == [] then []
    else
      assert rows == [rows[0]] + rows[1..];
      (if rows[0].courseId == courseId then [rows[0]] else []) + OfCourse(rows[1..], courseId)
  }

  /**
   * `getCourseReviews` with the answer built from what was fetched and the query's
   * `sort_by` and `sort_order` handed to `findByCourse` under the names it reads.
   */
  function CourseReviews(course: Option<CourseModel.Course>, courseId: nat, rows: seq<Review>,
                         sortBy: string, sortOrder: string): (r: ReviewList)
    ensures course.None? <==> r.status == NOT_FOUND
    ensures course.Some? ==> r.status == OK
    ensures r.status == OK ==> forall x :: x in r.reviews <==> x in rows && x.courseId == courseId
    ensures r.status == OK ==> r.sortColumn in SortColumns && (sortBy in SortColumns ==> r.sortColumn == sortBy)
    ensures r.status == OK ==> r.sortOrder == SortOrder(sortOrder)
  {
    if course.None? then ReviewList(NOT_FOUND, [], "", "")
    else ReviewList(OK, OfCourse(rows, courseId), SortColumn(sortBy), SortOrder(sortOrder))
  }

  /** `getReviewById`: 200 with the row, or 404. */
  function ViewReview(rows: seq<Review>, id: nat): (r: Answer)
    ensures r.status == OK <==> FindById(rows, id).Some?
    ensures r.status != OK ==> r.status == NOT_FOUND
    ensures r.rows == rows && (r.status == OK ==> r.review.Some? && r.review.value.id == id)
  {
    match FindById(rows, id)
    case None => Answer(NOT_FOUND, rows, None)
    case Some(x) => Answer(OK, rows, Some(x))
  }

  /** `getFeaturedReviews`: 404 for an unknown course, else the featured list with `limit` 3 by default. */
  function FeaturedList(course: Option<CourseModel.Course>, courseId: nat, rows: seq<Review>, limit: Option<nat>): (r: ReviewList)
    ensures course.None? <==> r.status == NOT_FOUND
    ensures r.status == OK ==> FeaturedOrder(r.reviews) && forall x :: x in r.reviews ==> x in rows && Featurable(x, courseId)
    ensures r.status == OK && limit.None? ==> |r.reviews| <= 3
    ensures r.status == OK && limit.Some? ==> |r.reviews| <= limit.value
  {
    if course.None? then ReviewList(NOT_FOUND, [], "", "")
    else ReviewList(OK, FeaturedReviews(rows, courseId, limit.GetOr(3)), "", "")
  }

  /** The `canUserReviewCourse` handler: 404 for an unknown course, else 200 with the eligibility object. */
  function Eligible(userId: nat, course: Option<CourseModel.Course>, courseId: nat,
                    enrollments: seq<EnrollmentModel.Enrollment>, rows: seq<Review>): (r: (Status, Option<Eligibility>))
    ensures course.None? <==> r.0 == NOT_FOUND
    ensures course.Some? ==> r.0 == OK && r.1.Some?
    ensures r.1.Some? ==>
      (r.1.value.canReview <==> EnrollmentModel.IsEnrolled(enrollments, userId, courseId) && FindByUserAndCourse(rows, userId, courseId).None?)
  {
    if course.None? then (NOT_FOUND, None)
    else (OK, Some(CanUserReviewCourse(enrollments, rows, userId, courseId)))
  }

  // ---------------------------------------------------------------------------
  // updateReview, deleteReview, markReviewAsHelpful

  /**
   * `updateReview`: 404 for an unknown review, 403 unless the requester wrote it (no admin
   * override), then the COALESCE update of its text.
   */
  function UpdateReview(user: User, id: nat, text: Option<string>, rows: seq<Review>, now: int): (r: Answer)
    ensures FindById(rows, id).None? ==> r.status == NOT_FOUND
    ensures FindById(rows, id).Some? && FindById(rows, id).value.userId != user.id ==> r.status == FORBIDDEN
    ensures r.status == OK <==> FindById(rows, id).Some? && FindById(rows, id).value.userId == user.id
    ensures r.status == OK ==>
      r.rows == UpdatedWhere(rows, id, x => Rewritten(x, text, now)) && r.review == Some(Rewritten(FindById(rows, id).value, text, now))
    ensures r.status != OK ==> r.rows == rows
  {
    match FindById(rows, id)
    case None => Answer(NOT_FOUND, rows, None)
    case Some(x) =>
      if x.userId != user.id then Answer(FORBIDDEN, rows, None)
      else Answer(OK, UpdatedWhere(rows, id, y => Rewritten(y, text, now)), Some(Rewritten(x, text, now)))
  }

  /** An admin who did not write a review cannot change it, and nobody can change its author or course. */
  lemma OnlyAuthorUpdates(user: User, id: nat, text: Option<string>, rows: seq<Review>, now: int)
    requires UniqueIds(rows)
    ensures IsAdmin(user) && FindById(rows, id).Some? && FindById(rows, id).value.userId != user.id ==>
      UpdateReview(user, id, text, rows, now).status == FORBIDDEN
    ensures forall x :: x in UpdateReview(user, id, text, rows, now).rows ==>
      exists y :: y in rows && x.id == y.id && x.userId == y.userId && x.courseId == y.courseId
  {
    var r := UpdateReview(user, id, text, rows, now);
    forall x | x in r.rows
      ensures exists y :: y in rows && x.id == y.id && x.userId == y.userId && x.courseId == y.courseId
    {
      var i :| 0 <= i < |r.rows| && r.rows[i] == x;
      assert rows[i] in rows;
    }
  }

  /** `deleteReview`: 404 for an unknown review, 403 unless the author or an admin, then the row is removed. */
  function DeleteReview(user: User, id: nat, rows: seq<Review>): (r: Answer)
    ensures FindById(rows, id).None? ==> r.status == NOT_FOUND
    ensures r.status == OK <==> FindById(rows, id).Some? && (FindById(rows, id).value.userId == user.id || IsAdmin(user))
    ensures r.status != OK ==> r.status in {NOT_FOUND, FORBIDDEN} && r.rows == rows
    ensures r.status == OK ==> forall x :: x in r.rows <==> x in rows && x.id != id
  {
    match FindById(rows, id)
    case None => Answer(NOT_FOUND, rows, None)
    case Some(x) =>
      if x.userId != user.id && !IsAdmin(user) then Answer(FORBIDDEN, rows, None)
      else Answer(OK, WithoutId(rows, id), None)
  }

  /** Deleting twice: the second request answers 404 even for the author or an admin. */
  lemma DeleteThenNotFound(user: User, id: nat, rows: seq<Review>)
    ensures var first := DeleteReview(user, id, rows);
      first.status == OK ==> DeleteReview(user, id, first.rows).status == NOT_FOUND
  {
  }

  /**
   * `markReviewAsHelpful`: 404 for an unknown review; otherwise the handler calls
   * `hasUserMarkedReviewAsHelpful`, which the review model does not define, and answers 500.
   */
  function MarkReviewAsHelpful(id: nat, rows: seq<Review>): (r: Status)
    ensures r == NOT_FOUND <==> FindById(rows, id).None?
    ensures r != NOT_FOUND ==> r == SERVER_ERROR
  {
    if FindById(rows, id).None? then NOT_FOUND else SERVER_ERROR
  }

  // ---------------------------------------------------------------------------
  // getUserReviews

  /** `WHERE r.user_id = $1` with the route's text read as an integer: the reviews by that author. */
  function ByAuthor(rows: seq<Review>, userId: int): (r: seq<Review>)
    ensures forall x :: x in r <==> x in rows && x.userId == userId
  {
    if rows == [] then []
    else (if rows[0].userId == userId then [rows[0]] else []) + ByAuthor(rows[1..], userId)
  }

  /**
   * `getUserReviews`: only the user named in the route, compared as text, or an admin;
   * 403 otherwise. `findByUser` binds the route text to an integer parameter, so text the
   * database cannot read as an integer throws and the answer is 500.
   */
  function UserReviews(user: User, routeUserId: string, rows: seq<Review>): (r: ReviewList)
    ensures r.status == FORBIDDEN <==> !SelfOrAdmin(user, routeUserId)
    ensures r.status == OK <==> SelfOrAdmin(user, routeUserId) && Sql.PgInteger(routeUserId).Some?
    ensures r.status in {OK, FORBIDDEN, SERVER_ERROR}
    ensures r.status != OK ==> r.reviews == []
    ensures r.status == OK ==> forall x :: x in r.reviews <==> x in rows && x.userId == Sql.PgInteger(routeUserId).value
  {
    if routeUserId != Strings.IntString(user.id) && !IsAdmin(user) then ReviewList(FORBIDDEN, [], "", "")
    else match Sql.PgInteger(routeUserId)
      case None => ReviewList(SERVER_ERROR, [], "", "")
      case Some(id) => ReviewList(OK, ByAuthor(rows, id), "", "")
  }

  /** A non-admin listing their own reviews gets exactly the reviews they wrote. */
  lemma OwnReviewsOnly(user: User, other: int, rows: seq<Review>)
    requires !IsAdmin(user)
    ensures Sql.MinInt4 <= user.id <= Sql.MaxInt4 ==>
      (UserReviews(user, Strings.IntString(other), rows).status == OK <==> other == user.id)
    ensures UserReviews(user, Strings.IntString(other), rows).status == OK ==>
      forall x :: x in UserReviews(user, Strings.IntString(other), rows).reviews <==> x in rows && x.userId == user.id
  {
    var t := Strings.IntString(other);
    SelfOrAdminById(user, other);
    Sql.PgReadsPrinted(other);
    assert SelfOrAdmin(user, t) <==> other == user.id;
  }

  /** An admin asking for "007" gets user 7's reviews, and asking for "abc" is answered 500. */
  lemma AdminRouteTextReadAsInteger(admin: User, rows: seq<Review>)
    requires IsAdmin(admin)
    ensures UserReviews(admin, "007", rows).status == OK
    ensures forall x :: x in UserReviews(admin, "007", rows).reviews <==> x in rows && x.userId == 7
    ensures UserReviews(admin, "abc", rows).status == SERVER_ERROR
  {
    Sql.PgReadsLeadingZeros();
    Sql.PgRefusesText();
  }
}
