// The course handlers (server/controllers/courseController.js): the listing
// filter, course creation, the owner-or-admin guard, and the approval life cycle
// pending -> approved | rejected -> pending.

module CourseController {
  import opened Wrappers
  import opened Http
  import Strings
  import opened CourseModel

  // ---------------------------------------------------------------------------
  // getAllCourses

  /** The `filters` object `getAllCourses` builds; None is a key it does not set. */
  datatype ListingFilters = ListingFilters(
    category: Option<string>, level: Option<string>, instructorId: Option<string>,
    isApproved: Option<bool>, isPublished: Option<bool>)

  /** What `getAllCourses` answers and the arguments it hands to `findAll` and `count`. */
  datatype Listing = Listing(status: Status, filters: ListingFilters, findAllArgs: Filters, countArgs: Filters)

  predicate Given(s: string) { s != "" }

  /**
   * The filter logic of `getAllCourses`. Query values are strings; `publishedOnly` defaults
   * to "true". The filters object is passed to `findAll` under the key `filters`, which
   * `findAll` does not read, so its argument carries the search term alone.
   */
  function GetAllCourses(user: Option<User>, category: string, level: string, instructorId: string,
                         publishedOnly: string, status: Option<string>, search: string): (r: Listing)
    ensures Given(category) && category !in AllowedCategories ==> r.status == BAD_REQUEST
    ensures r.status == FORBIDDEN <==>
      !(Given(category) && category !in AllowedCategories) && status == Some("pending") && !(user.Some? && IsAdmin(user.value))
    ensures r.status == OK && status == Some("pending") ==> r.filters.isApproved == Some(false) && r.filters.isPublished.None?
    ensures r.status == OK && status != Some("pending") ==>
      (r.filters.isPublished == Some(true) && r.filters.isApproved == Some(true) <==>
       publishedOnly == "true" || !(user.Some? && user.value.role in {"admin", "instructor"}))
    ensures r.status == OK ==> r.findAllArgs == NoFilters.(search := Some(Text(search)))
  {
    if Given(category) && category !in AllowedCategories then
      Listing(BAD_REQUEST, ListingFilters(None, None, None, None, None), NoFilters, NoFilters)
    else
      var base := ListingFilters(
        if Given(category) then Some(category) else None,
        if Given(level) then Some(level) else None,
        if Given(instructorId) then Some(instructorId) else None,
        None, None);
      if status == Some("pending") && !(user.Some? && IsAdmin(user.value)) then
        Listing(FORBIDDEN, base, NoFilters, NoFilters)
      else
        var filters :=
          if status == Some("pending") then base.(isApproved := Some(false))
          else if publishedOnly == "true" || !(user.Some? && user.value.role in {"admin", "instructor"}) then
            base.(isPublished := Some(true), isApproved := Some(true))
          else base;
        Listing(OK, filters, NoFilters.(search := Some(Text(search))), CountArgs(filters, search))
  }

  /** `count(filters, search)` reads instructor_id, is_approved and level from the filters object (not `category`). */
  function CountArgs(f: ListingFilters, search: string): Filters
  {
    NoFilters.(
      instructorId := if f.instructorId.Some? then Some(Text(f.instructorId.value)) else None,
      isApproved := if f.isApproved.Some? then Some(Flag(f.isApproved.value)) else None,
      level := if f.level.Some? then Some(Text(f.level.value)) else None,
      search := Some(Text(search)))
  }

  /**
   * Whatever the requester and the query, the `findAll` statement of `getAllCourses` has no
   * WHERE condition: the forced published-and-approved filter never reaches the query, and
   * an anonymous visitor is listed unpublished and unapproved courses too.
   */
  lemma ListingIgnoresFilters(user: Option<User>, category: string, level: string, instructorId: string,
                              publishedOnly: string, status: Option<string>, search: string)
    ensures var r := GetAllCourses(user, category, level, instructorId, publishedOnly, status, search);
      r.status == OK ==> FindAllFilters(r.findAllArgs) == []
  {
  }

  /** An anonymous listing asks for published, approved courses, and still gets no condition. */
  lemma AnonymousListingUnfiltered()
    ensures var r := GetAllCourses(None, "", "", "", "false", None, "");
      && r.status == OK
      && r.filters.isPublished == Some(true) && r.filters.isApproved == Some(true)
      && FindAllFilters(r.findAllArgs) == []
      && !HasColumn(FindAllFilters(r.findAllArgs), "is_published")
  {
  }

  /**
   * The intended call: the filters spread as flat keys, as `getPendingCourses` does. A
   * listing for anyone but an admin or instructor then filters on is_published and is_approved.
   */
  function FlatListingArgs(f: ListingFilters, search: string): (args: Filters)
    ensures f.isPublished == Some(true) ==> HasColumn(FindAllFilters(args), "is_published")
    ensures f.isApproved.Some? ==> HasColumn(FindAllFilters(args), "is_approved")
  {
    var args := NoFilters.(
      instructorId := if f.instructorId.Some? then Some(Text(f.instructorId.value)) else None,
      isPublished := if f.isPublished.Some? then Some(Flag(f.isPublished.value)) else None,
      isApproved := if f.isApproved.Some? then Some(Flag(f.isApproved.value)) else None,
      level := if f.level.Some? then Some(Text(f.level.value)) else None,
      search := Some(Text(search)));
    PiecesHaveColumns(args);
    args
  }

  lemma PiecesHaveColumns(args: Filters)
    ensures args.isPublished.Some? ==> HasColumn(FindAllFilters(args), "is_published")
    ensures args.isApproved.Some? ==> HasColumn(FindAllFilters(args), "is_approved")
  {
    var a := Piece(TruthyKey(args.categoryId), "category_id", args.categoryId.GetOr(Null));
    var b := Piece(TruthyKey(args.instructorId), "instructor_id", args.instructorId.GetOr(Null));
    var c := Piece(args.isPublished.Some?, "is_published", args.isPublished.GetOr(Null));
    if args.isPublished.Some? {
      assert FindAllFilters(args)[|a + b|].0 == "is_published";
    }
    if args.isApproved.Some? {
      assert FindAllFilters(args)[|a + b + c|].0 == "is_approved";
    }
  }

  /** With the flat keys, a visitor who is not staff is only listed published, approved courses. */
  lemma FlatListingFiltersVisitors(user: Option<User>, category: string, level: string, instructorId: string,
                                   publishedOnly: string, search: string)
    requires !(user.Some? && user.value.role in {"admin", "instructor"})
    ensures var r := GetAllCourses(user, category, level, instructorId, publishedOnly, None, search);
      r.status == OK ==>
        && HasColumn(FindAllFilters(FlatListingArgs(r.filters, search)), "is_published")
        && HasColumn(FindAllFilters(FlatListingArgs(r.filters, search)), "is_approved")
  {
  }

  // ---------------------------------------------------------------------------
  // createCourse

  /** The body fields `createCourse` reads; None is absent. */
  datatype CourseBody = CourseBody(
    title: Option<string>, description: Option<string>, category: Option<string>, level: Option<string>,
    status: Option<string>)

  /** `!x?.trim()`: absent, or nothing but white space. */
  predicate Blank(x: Option<string>)
  {
    x.None? || Strings.Trim(x.value) == ""
  }

  /** What `createCourse` answers and the row it created. */
  datatype Created = Created(status: Status, course: Option<Course>)

  /** The trimmed `courseData` handed to the model. */
  function CourseData(b: CourseBody, instructorId: int): NewCourse
    requires !Blank(b.title) && !Blank(b.description) && !Blank(b.category) && !Blank(b.level)
  {
    NewCourse(Strings.Trim(b.title.value), Strings.Trim(b.description.value), Strings.Trim(b.category.value),
      Strings.Trim(b.level.value), instructorId, if b.status.Some? && b.status.value != "" then b.status.value else "draft")
  }

  /**
   * `createCourse`: 400 for a blank required field or a category outside the list; the model's
   * `create` then decides between 201 and 500 (its error message). The admin notification
   * that follows may fail without changing the answer.
   */
  function CreateCourse(user: User, b: CourseBody, users: map<int, string>, categories: map<string, nat>,
                        nextId: nat, now: int): (r: Created)
    ensures r.status == BAD_REQUEST <==>
      Blank(b.title) || Blank(b.description) || Blank(b.category) || Blank(b.level) || b.category.value !in AllowedCategories
    ensures r.course.Some? <==> r.status == CREATED
    ensures r.status == CREATED ==>
      && r.course.value.status == "pending" && !r.course.value.isApproved && !r.course.value.isPublished
      && r.course.value.instructorId == user.id
      && r.course.value.title == Strings.Trim(b.title.value) && r.course.value.level in AllowedLevels
      && user.id in users && users[user.id] == "instructor"
    ensures r.status in {BAD_REQUEST, CREATED, SERVER_ERROR}
  {
    if Blank(b.title) || Blank(b.description) || Blank(b.category) || Blank(b.level) then Created(BAD_REQUEST, None)
    else if b.category.value !in AllowedCategories then Created(BAD_REQUEST, None)
    else
      var n := CourseData(b, user.id);
      if CreateError(n, users).Some? then Created(SERVER_ERROR, None)
      else Created(CREATED, Some(NewRow(n, categories, nextId, now)))
  }

  /** The stored title has no white space at either end. */
  lemma CreatedTitleTrimmed(user: User, b: CourseBody, users: map<int, string>, categories: map<string, nat>,
                            nextId: nat, now: int)
    ensures var r := CreateCourse(user, b, users, categories, nextId, now);
      r.status == CREATED ==> Strings.Trim(r.course.value.title) == r.course.value.title && r.course.value.title != ""
  {
    var r := CreateCourse(user, b, users, categories, nextId, now);
    if r.status == CREATED {
      Strings.TrimFacts(b.title.value);
    }
  }

  /** Only a user whose role is 'instructor' can create a course; for an admin the model throws and the answer is 500. */
  lemma AdminCannotCreateCourse(user: User, b: CourseBody, users: map<int, string>, categories: map<string, nat>,
                                nextId: nat, now: int)
    requires user.id in users && users[user.id] == "admin"
    ensures CreateCourse(user, b, users, categories, nextId, now).status != CREATED
  {
  }

  // ---------------------------------------------------------------------------
  // The owner-or-admin guard of update, delete, publish, unpublish, analytics and announcements.

  /** `userRole !== 'admin' && course.instructor_id !== userId` refuses; a missing course is 404 first. */
  function OwnerGuard(user: User, course: Option<Course>): (r: Option<Status>)
    ensures r.None? <==> course.Some? && (IsAdmin(user) || course.value.instructorId == user.id)
    ensures r.Some? ==> r.value == (if course.None? then NOT_FOUND else FORBIDDEN)
  {
    if course.None? then Some(NOT_FOUND)
    else if !IsAdmin(user) && course.value.instructorId != user.id then Some(FORBIDDEN)
    else None
  }

  /** What a course handler answers and the course row afterwards. */
  datatype Outcome = Outcome(status: Status, course: Option<Course>)

  /** Fields `updateCourse` trims when truthy. */
  function Sanitized(c: CourseChanges): CourseChanges
  {
    c.(title := if c.title.Some? && c.title.value != "" then Some(Strings.Trim(c.title.value)) else c.title,
       description := if c.description.Some? && c.description.value != "" then Some(Strings.Trim(c.description.value)) else c.description,
       category := if c.category.Some? && c.category.value != "" then Some(Strings.Trim(c.category.value)) else c.category,
       level := if c.level.Some? && c.level.value != "" then Some(Strings.Trim(c.level.value)) else c.level)
  }

  /** The model's `update` as a value: None when it throws. */
  function ModelUpdate(course: Course, c: CourseChanges, now: int): Option<Course>
  {
    if CategoryRejected(c) then None
    else if c == NoChanges then Some(course)
    else Some(UpdatedCourse(course, c, now))
  }

  /**
   * `updateCourse`: guard, category check, then the model's update of the whole body with
   * its text fields trimmed. Nothing filters the body, so the owner may also write status,
   * is_approved, is_published and rejection_reason.
   */
  function UpdateCourse(user: User, course: Option<Course>, c: CourseChanges, now: int): (r: Outcome)
    ensures OwnerGuard(user, course).Some? ==> r == Outcome(OwnerGuard(user, course).value, course)
    ensures OwnerGuard(user, course).None? && CategoryRejected(c) ==> r == Outcome(BAD_REQUEST, course)
    ensures r.status == OK ==> r.course == ModelUpdate(course.value, Sanitized(c), now) && r.course.Some?
    ensures r.status == OK <==> OwnerGuard(user, course).None? && !CategoryRejected(c)
  {
    if OwnerGuard(user, course).Some? then Outcome(OwnerGuard(user, course).value, course)
    else if CategoryRejected(c) then Outcome(BAD_REQUEST, course)
    else
      // the allowed categories hold no white space, so trimming keeps an allowed category allowed
      assert !CategoryRejected(Sanitized(c)) by {
        if c.category.Some? && c.category.value != "" {
          TrimAllowedCategory(c.category.value);
        }
      }
      Outcome(OK, ModelUpdate(course.value, Sanitized(c), now))
  }

  lemma TrimAllowedCategory(s: string)
    requires s in AllowedCategories
    ensures Strings.Trim(s) == s
  {
    Strings.TrimOfTrimmed(s);
  }

  /** `publishCourse` / `unpublishCourse`: guard, then write is_published; the approval status is not consulted. */
  function SetPublished(user: User, course: Option<Course>, published: bool, now: int): (r: Outcome)
    ensures r.status == OK <==> OwnerGuard(user, course).None?
    ensures r.status == OK ==> r.course.Some? && course.Some?
    ensures r.status == OK ==>
      r.course.value.isPublished == published && r.course.value.status == course.value.status &&
      r.course.value.isApproved == course.value.isApproved
    ensures r.status != OK ==> r.course == course
  {
    if OwnerGuard(user, course).Some? then Outcome(OwnerGuard(user, course).value, course)
    else Outcome(OK, Some(UpdatedCourse(course.value, NoChanges.(isPublished := Some(published)), now)))
  }

  /**
   * `deleteCourse`, `getCourseAnalytics` and `createAnnouncement`: guard, then a call to a
   * method CourseModel does not define (`delete`, `getAnalytics`, `createAnnouncement`), which
   * throws, so every request that passes the guard ends in 500.
   */
  function GuardedMissingCall(user: User, course: Option<Course>): (r: Status)
    ensures r == SERVER_ERROR <==> course.Some? && (IsAdmin(user) || course.value.instructorId == user.id)
    ensures r in {NOT_FOUND, FORBIDDEN, SERVER_ERROR}
  {
    if OwnerGuard(user, course).Some? then OwnerGuard(user, course).value else SERVER_ERROR
  }

  // ---------------------------------------------------------------------------
  // The approval life cycle.

  /** The notification `approveCourse` sends the instructor (its failure is swallowed). */
  datatype Notice = Notice(userId: int, title: string, message: string, kind: string, relatedId: nat)

  datatype Approval = Approval(status: Status, course: Option<Course>, notice: Option<Notice>)

  const ApproveChanges := NoChanges.(status := Some("approved"), isApproved := Some(true), isPublished := Some(true))

  function RejectChanges(reason: Option<string>): CourseChanges
  {
    NoChanges.(status := Some("rejected"), isApproved := Some(false), isPublished := Some(false),
               rejectionReason := if reason.Some? && reason.value != "" then Some(Some(reason.value)) else None)
  }

  /**
   * `approveCourse`: 404 for an unknown course, 400 unless it is pending, then 'approve'
   * or 'reject' write the status and flags; any other action is 400 with no write.
   */
  function ApproveCourse(course: Option<Course>, action: string, reason: Option<string>, now: int): (r: Approval)
    ensures course.None? ==> r.status == NOT_FOUND
    ensures course.Some? && course.value.status != "pending" ==> r == Approval(BAD_REQUEST, course, None)
    ensures r.status == OK <==> course.Some? && course.value.status == "pending" && action in {"approve", "reject"}
    ensures r.status != OK ==> r.course == course && r.notice.None?
    ensures r.status == OK ==> r.course.Some?
    ensures r.status == OK && action == "approve" ==>
      var c := r.course.value;
      c.status == "approved" && c.isApproved && c.isPublished && c.rejectionReason == course.value.rejectionReason
    ensures r.status == OK && action == "reject" ==>
      var c := r.course.value;
      && c.status == "rejected" && !c.isApproved && !c.isPublished
      && c.rejectionReason == (if reason.Some? && reason.value != "" then reason else course.value.rejectionReason)
    ensures r.status == OK ==> r.notice.Some? && r.notice.value.userId == course.value.instructorId
  {
    if course.None? then Approval(NOT_FOUND, None, None)
    else
      var c := course.value;
      if c.status != "pending" then Approval(BAD_REQUEST, course, None)
      else if action == "approve" then
        Approval(OK, Some(UpdatedCourse(c, ApproveChanges, now)),
          Some(Notice(c.instructorId, "Course Approved!",
            "Your course \"" + c.title + "\" has been approved and is now live.", "course_approval", c.id)))
      else if action == "reject" then
        var message := if reason.Some? && reason.value != "" then
          "Your course \"" + c.title + "\" has been rejected. Reason: " + reason.value
        else "Your course \"" + c.title + "\" has been rejected. Please review and resubmit.";
        Approval(OK, Some(UpdatedCourse(c, RejectChanges(reason), now)),
          Some(Notice(c.instructorId, "Course Rejected", message, "course_approval", c.id)))
      else Approval(BAD_REQUEST, course, None)
  }

  /**
   * `resubmitCourse`: only the course's own instructor (an admin is refused too), and only
   * from 'rejected'; the course goes back to 'pending' with the rejection reason cleared.
   */
  function ResubmitCourse(user: User, course: Option<Course>, now: int): (r: Outcome)
    ensures course.None? ==> r.status == NOT_FOUND
    ensures course.Some? && course.value.instructorId != user.id ==> r == Outcome(FORBIDDEN, course)
    ensures r.status == OK <==> course.Some? && course.value.instructorId == user.id && course.value.status == "rejected"
    ensures r.status == OK ==> r.course.Some?
    ensures r.status == OK ==>
      r.course.value.status == "pending" && r.course.value.rejectionReason.None? &&
      r.course.value.isApproved == course.value.isApproved && r.course.value.isPublished == course.value.isPublished
    ensures r.status != OK ==> r.course == course
  {
    if course.None? then Outcome(NOT_FOUND, None)
    else if course.value.instructorId != user.id then Outcome(FORBIDDEN, course)
    else if course.value.status != "rejected" then Outcome(BAD_REQUEST, course)
    else Outcome(OK, Some(UpdatedCourse(course.value, NoChanges.(status := Some("pending"), rejectionReason := Some(None)), now)))
  }

  /** is_approved is true exactly when the status is 'approved'. */
  predicate ApprovalConsistent(c: Course)
  {
    c.isApproved <==> c.status == "approved"
  }

  /** The changes an update body may make once the life-cycle columns are dropped. */
  function ContentChanges(c: CourseChanges): CourseChanges
  {
    c.(status := None, isApproved := None, isPublished := None, rejectionReason := None)
  }

  /**
   * `updateCourse` as intended: the same checks and answers, but the body no longer reaches
   * status, is_approved, is_published or rejection_reason, which only the approval,
   * resubmission and publishing handlers write.
   */
  function UpdateCourseFixed(user: User, course: Option<Course>, c: CourseChanges, now: int): (r: Outcome)
    ensures r.status == UpdateCourse(user, course, c, now).status
    ensures r.status != OK ==> r.course == course
    ensures r.status == OK ==> r.course.Some? && course.Some?
    ensures r.status == OK ==>
      && r.course.value.status == course.value.status && r.course.value.isApproved == course.value.isApproved
      && r.course.value.isPublished == course.value.isPublished
      && r.course.value.rejectionReason == course.value.rejectionReason
  {
    var k := ContentChanges(c);
    assert CategoryRejected(k) == CategoryRejected(c);
    var r := UpdateCourse(user, course, k, now);
    if r.status == OK then
      KeepsLifecycle(course.value, Sanitized(k), now);
      r
    else r
  }

  /** An update that names no life-cycle column leaves those columns as they were. */
  lemma KeepsLifecycle(course: Course, s: CourseChanges, now: int)
    requires s.status.None? && s.isApproved.None? && s.isPublished.None? && s.rejectionReason.None?
    ensures var u := ModelUpdate(course, s, now);
      u.Some? ==> u.value.status == course.status && u.value.isApproved == course.isApproved &&
                  u.value.isPublished == course.isPublished && u.value.rejectionReason == course.rejectionReason
  {
  }

  /**
   * As written, the owning instructor approves and publishes their own course through
   * `updateCourse`, from any status, without the admin-only approval.
   */
  lemma SelfApproval(c: Course, now: int)
    ensures var owner := User(c.instructorId, "instructor");
      var r := UpdateCourse(owner, Some(c), NoChanges.(status := Some("approved"), isApproved := Some(true), isPublished := Some(true)), now);
      r.status == OK && r.course.Some? && r.course.value.status == "approved" && r.course.value.isApproved && r.course.value.isPublished
  {
  }

  /** As written, an update of the status alone leaves is_approved out of step with it. */
  lemma UpdateBreaksConsistency(c: Course, now: int)
    requires c.status == "pending" && ApprovalConsistent(c)
    ensures var r := UpdateCourse(User(c.instructorId, "instructor"), Some(c), NoChanges.(status := Some("approved")), now);
      r.status == OK && r.course.Some? && !ApprovalConsistent(r.course.value)
  {
  }

  /**
   * Every step of the life cycle keeps is_approved in step with the status: a new course,
   * approval, rejection, resubmission, publishing, unpublishing and the corrected update.
   */
  lemma LifecycleKeepsApprovalConsistent(c: Course, n: NewCourse, categories: map<string, nat>, id: nat,
                                         user: User, action: string, reason: Option<string>, published: bool,
                                         changes: CourseChanges, now: int)
    requires ApprovalConsistent(c)
    ensures ApprovalConsistent(NewRow(n, categories, id, now))
    ensures var r := ApproveCourse(Some(c), action, reason, now); ApprovalConsistent(r.course.value)
    ensures var r := ResubmitCourse(user, Some(c), now); ApprovalConsistent(r.course.value)
    ensures var r := SetPublished(user, Some(c), published, now); ApprovalConsistent(r.course.value)
    ensures var r := UpdateCourseFixed(user, Some(c), changes, now); ApprovalConsistent(r.course.value)
  {
  }

  /**
   * Approval is the only way into 'approved', and only from 'pending': resubmission,
   * publishing and the corrected update never move a course into 'approved'.
   */
  lemma ApprovedOnlyFromPending(course: Option<Course>, action: string, reason: Option<string>,
                                user: User, published: bool, changes: CourseChanges, now: int)
    ensures var r := ApproveCourse(course, action, reason, now);
      r.course.Some? && r.course.value.status == "approved" && (course.None? || course.value.status != "approved") ==>
        course.Some? && course.value.status == "pending" && action == "approve"
    ensures var r := UpdateCourseFixed(user, course, changes, now);
      r.course.Some? && r.course.value.status == "approved" ==> course.Some? && course.value.status == "approved"
    ensures var r := ResubmitCourse(user, course, now);
      r.course.Some? && r.course.value.status == "approved" ==> course.Some? && course.value.status == "approved"
    ensures var r := SetPublished(user, course, published, now);
      r.course.Some? && r.course.value.status == "approved" ==> course.Some? && course.value.status == "approved"
  {
  }

  /** Publishing does not look at the approval status: a pending course can be published by its instructor. */
  lemma PendingCanBePublished(c: Course, now: int)
    requires c.status == "pending"
    ensures var r := SetPublished(User(c.instructorId, "instructor"), Some(c), true, now);
      r.status == OK && r.course.value.isPublished && r.course.value.status == "pending"
  {
  }
}
