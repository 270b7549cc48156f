// The module handlers (server/controllers/moduleController.js): the guard chain of
// creating a module, who may see a module, and who may change, delete or reorder
// the modules of a course.

module ModuleController {
  import opened Wrappers
  import opened Http
  import Strings
  import CourseModel
  import EnrollmentModel
  import NotificationModel
  import opened Ordering
  import opened ModuleModel

  /** The write a handler hands to the modules table (`ModuleModel.ModuleStore`), if any. */
  datatype Write = NoWrite | Insert(row: ModuleRow) | Change(id: nat, changes: ModuleChanges) | Remove(id: nat)

  /** A handler's status, message and write. */
  datatype Answer = Answer(status: Status, message: string, write: Write)

  /** `!title?.trim()`: a missing title, or one that is nothing but white space. */
  predicate BlankTitle(title: Option<string>)
  {
    title.None? || Strings.Trim(title.value) == ""
  }

  // ---------------------------------------------------------------------------
  // createModule

  /**
   * `createModule`. `courseId` is `req.body.course_id`, 0 standing for a missing or falsy
   * value; `course` is what `findById` answers for it. The checks run in source order and
   * the row is the one `ModuleStore.Create` inserts for the trimmed title.
   */
  function CreateModule(user: Option<User>, title: Option<string>, description: Option<string>, courseId: nat,
                        orderIndex: Option<int>, course: Option<CourseModel.Course>,
                        modules: seq<ModuleRow>, nextId: nat): (r: Answer)
    ensures BlankTitle(title) ==> r == Answer(BAD_REQUEST, "Module title is required", NoWrite)
    ensures !BlankTitle(title) && courseId == 0 ==> r == Answer(BAD_REQUEST, "Course ID is required", NoWrite)
    ensures !BlankTitle(title) && courseId != 0 && course.None? ==> r == Answer(NOT_FOUND, "Course not found", NoWrite)
    ensures !BlankTitle(title) && courseId != 0 && course.Some? && course.value.status != "approved" ==>
      r == Answer(BAD_REQUEST, "Cannot add modules to courses that are not approved", NoWrite)
    ensures r.status == FORBIDDEN <==>
      !BlankTitle(title) && courseId != 0 && course.Some? && course.value.status == "approved" &&
      !AdminOrOwner(user, course.value.instructorId)
    ensures r.status == CREATED <==>
      !BlankTitle(title) && courseId != 0 && course.Some? && course.value.status == "approved" &&
      AdminOrOwner(user, course.value.instructorId)
    ensures r.write.Insert? <==> r.status == CREATED
    ensures r.status == CREATED ==>
      r.write.row == Row(nextId, courseId,
        if orderIndex.Some? then orderIndex.value else NextIndex(modules, courseId),
        ModuleData(Strings.Trim(title.value), description))
  {
    if BlankTitle(title) then Answer(BAD_REQUEST, "Module title is required", NoWrite)
    else if courseId == 0 then Answer(BAD_REQUEST, "Course ID is required", NoWrite)
    else if course.None? then Answer(NOT_FOUND, "Course not found", NoWrite)
    else if course.value.status != "approved" then
      Answer(BAD_REQUEST, "Cannot add modules to courses that are not approved", NoWrite)
    else if !AdminOrOwner(user, course.value.instructorId) then Answer(FORBIDDEN, "Not authorized", NoWrite)
    else
      var index := if orderIndex.Some? then orderIndex.value else NextIndex(modules, courseId);
      Answer(CREATED, "Module created", Insert(Row(nextId, courseId, index, ModuleData(Strings.Trim(title.value), description))))
  }

  /** A created module's title is a non-empty slice of the given title with no white space at either end. */
  lemma CreatedTitleTrimmed(user: Option<User>, title: Option<string>, description: Option<string>, courseId: nat,
                            orderIndex: Option<int>, course: Option<CourseModel.Course>,
                            modules: seq<ModuleRow>, nextId: nat)
    requires CreateModule(user, title, description, courseId, orderIndex, course, modules, nextId).status == CREATED
    ensures var t := CreateModule(user, title, description, courseId, orderIndex, course, modules, nextId).write.row.data.title;
      t != "" && !Strings.IsSpace(t[0]) && !Strings.IsSpace(t[|t| - 1]) &&
      exists i, j :: 0 <= i <= j <= |title.value| && t == title.value[i..j]
  {
    Strings.TrimFacts(title.value);
  }

  /**
   * The notices that follow a created module: `createCourseContentUpdateNotification` for
   * 'new_module' with the new module's id and the trimmed title. When it fails, the failure is
   * swallowed: no notices, and the creation still answers 201.
   */
  function CreatedNotices(a: Answer, enrollments: seq<EnrollmentModel.Enrollment>, courseTitle: Option<string>): (r: seq<NotificationModel.Draft>)
    requires a.status == CREATED && a.write.Insert?
    ensures |r| == 0 || |r| == |NotificationModel.EnrolledUsers(enrollments, a.write.row.parent)|
    ensures forall d :: d in r ==>
      d.title == "New Module: " + a.write.row.data.title && d.relatedId == Some(a.write.row.id as int)
  {
    var row := a.write.row;
    var ds := NotificationModel.ContentUpdateDrafts(row.parent, Some(row.id as int), None, "new_module",
                                                    Some(row.data.title), enrollments, courseTitle);
    if ds.Fail? then [] else
      assert forall d :: d in ds.value ==>
        d.title == "New Module: " + row.data.title && d.relatedId == Some(row.id as int) by {
        if row.parent != 0 && NotificationModel.EnrolledUsers(enrollments, row.parent) != [] {
          var n := NotificationModel.ContentNotice("new_module", Some(row.data.title), courseTitle.value,
                                                   row.parent, Some(row.id as int), None);
          assert ds.value == NotificationModel.Broadcast(NotificationModel.EnrolledUsers(enrollments, row.parent), n, "course_update");
        }
      }
      ds.value
  }

  // ---------------------------------------------------------------------------
  // Reading modules

  /**
   * `getModuleById`: 404 for an unknown module; a course that cannot be found makes
   * `course.is_published` throw (500); a module of an unpublished course is shown only to a
   * requester whose role is admin or instructor, or who is the course's instructor.
   */
  function ViewModule(user: Option<User>, found: Option<ModuleRow>, course: Option<CourseModel.Course>): (r: Status)
    ensures found.None? ==> r == NOT_FOUND
    ensures found.Some? && course.None? ==> r == SERVER_ERROR
    ensures r == FORBIDDEN <==>
      found.Some? && course.Some? && !course.value.isPublished &&
      (user.None? || (user.value.role != "admin" && user.value.role != "instructor" && user.value.id != course.value.instructorId))
    ensures r == OK <==>
      found.Some? && course.Some? &&
      (course.value.isPublished ||
       (user.Some? && (user.value.role in {"admin", "instructor"} || user.value.id == course.value.instructorId)))
  {
    if found.None? then NOT_FOUND
    else if course.None? then SERVER_ERROR
    else
      var staff := user.Some? && (user.value.role == "admin" || user.value.role == "instructor");
      var owner := user.Some? && course.value.instructorId == user.value.id;
      if !course.value.isPublished && !staff && !owner then FORBIDDEN else OK
  }

  /** The visibility check is by role: any instructor sees the modules of another instructor's unpublished course. */
  lemma AnyInstructorSeesUnpublished(id: int, row: ModuleRow, course: CourseModel.Course)
    requires !course.isPublished && course.instructorId != id
    ensures ViewModule(Some(User(id, "instructor")), Some(row), Some(course)) == OK
    ensures ViewModule(Some(User(id, "student")), Some(row), Some(course)) == FORBIDDEN
    ensures ViewModule(None, Some(row), Some(course)) == FORBIDDEN
  {
  }

  /** The modules of one course, as `findByCourse` selects them (the ordering is not modelled). */
  function OfCourse(modules: seq<ModuleRow>, courseId: nat): (r: seq<ModuleRow>)
    ensures forall m :: m in r <==> m in modules && m.parent == courseId
    ensures |r| == Count(modules, courseId)
  {
    if modules == [] then []
    else
      assert modules == [modules[0]] + modules[1..];
      (if modules[0].parent == courseId then [modules[0]] else []) + OfCourse(modules[1..], courseId)
  }

  /** `getModulesByCourse`: 404 for an unknown course, otherwise the course's modules. */
  datatype Listing = Listing(status: Status, modules: seq<ModuleRow>)

  function ModulesByCourse(courseId: nat, course: Option<CourseModel.Course>, modules: seq<ModuleRow>): (r: Listing)
    ensures r.status == NOT_FOUND <==> course.None?
    ensures r.status == OK <==> course.Some?
    ensures r.status == OK ==> forall m :: m in r.modules <==> m in modules && m.parent == courseId
  {
    if course.None? then Listing(NOT_FOUND, []) else Listing(OK, OfCourse(modules, courseId))
  }

  /**
   * The listing asks for no requester at all: the modules of an unpublished course are listed
   * to anyone, although the same module viewed on its own is hidden from a student.
   */
  lemma ListingIgnoresPublication(courseId: nat, course: CourseModel.Course, modules: seq<ModuleRow>, m: ModuleRow)
    requires !course.isPublished && m in modules && m.parent == courseId
    ensures m in ModulesByCourse(courseId, Some(course), modules).modules
    ensures course.instructorId != 0 ==> ViewModule(Some(User(0, "student")), Some(m), Some(course)) == FORBIDDEN
  {
  }

  // ---------------------------------------------------------------------------
  // updateModule, deleteModule, reorderModules

  /**
   * The guard `updateModule` and `deleteModule` share: 404 for an unknown module, 500 when its
   * course is missing (`course.instructor_id` throws), 403 unless an admin or the course's
   * instructor.
   */
  function OwnerStatus(user: Option<User>, found: Option<ModuleRow>, course: Option<CourseModel.Course>): (r: Status)
    ensures r == NOT_FOUND <==> found.None?
    ensures r == SERVER_ERROR <==> found.Some? && course.None?
    ensures r == OK <==> found.Some? && course.Some? && AdminOrOwner(user, course.value.instructorId)
    ensures r in {OK, NOT_FOUND, FORBIDDEN, SERVER_ERROR}
  {
    if found.None? then NOT_FOUND
    else if course.None? then SERVER_ERROR
    else if !AdminOrOwner(user, course.value.instructorId) then FORBIDDEN
    else OK
  }

  /** `updateModule`: once the guard passes, the body's title, description and order_index go to `update`. */
  function UpdateModule(user: Option<User>, id: nat, changes: ModuleChanges, modules: seq<ModuleRow>,
                        course: Option<CourseModel.Course>): (r: Answer)
    ensures var m := if Find(modules, id).Some? then Some(modules[Find(modules, id).value]) else None;
      r.status == OwnerStatus(user, m, course)
    ensures r.status == FORBIDDEN ==> r.message == "Not authorized to update this module"
    ensures r.status == OK ==> r.write == Change(id, changes)
    ensures r.status != OK ==> r.write == NoWrite
  {
    var m := if Find(modules, id).Some? then Some(modules[Find(modules, id).value]) else None;
    match OwnerStatus(user, m, course)
    case 200 => Answer(OK, "Module updated successfully", Change(id, changes))
    case 404 => Answer(NOT_FOUND, "Module not found", NoWrite)
    case 403 => Answer(FORBIDDEN, "Not authorized to update this module", NoWrite)
    case _ => Answer(SERVER_ERROR, "Failed to update module", NoWrite)
  }

  /** `deleteModule`: once the guard passes, the module is removed and its later siblings move up. */
  function DeleteModule(user: Option<User>, id: nat, modules: seq<ModuleRow>,
                        course: Option<CourseModel.Course>): (r: Answer)
    ensures var m := if Find(modules, id).Some? then Some(modules[Find(modules, id).value]) else None;
      r.status == OwnerStatus(user, m, course)
    ensures r.status == FORBIDDEN ==> r.message == "Not authorized to delete this module"
    ensures r.status == OK ==> r.write == Remove(id)
    ensures r.status != OK ==> r.write == NoWrite
  {
    var m := if Find(modules, id).Some? then Some(modules[Find(modules, id).value]) else None;
    match OwnerStatus(user, m, course)
    case 200 => Answer(OK, "Module deleted successfully", Remove(id))
    case 404 => Answer(NOT_FOUND, "Module not found", NoWrite)
    case 403 => Answer(FORBIDDEN, "Not authorized to delete this module", NoWrite)
    case _ => Answer(SERVER_ERROR, "Failed to delete module", NoWrite)
  }

  /**
   * Only an admin or the course's instructor ever changes or removes a module, and a student
   * who does not own the course never does.
   */
  lemma WritesNeedOwnerOrAdmin(user: Option<User>, id: nat, changes: ModuleChanges, modules: seq<ModuleRow>,
                               course: Option<CourseModel.Course>)
    ensures UpdateModule(user, id, changes, modules, course).write != NoWrite ==>
      Find(modules, id).Some? && course.Some? && AdminOrOwner(user, course.value.instructorId)
    ensures DeleteModule(user, id, modules, course).write != NoWrite ==>
      Find(modules, id).Some? && course.Some? && AdminOrOwner(user, course.value.instructorId)
    ensures user.Some? && !IsAdmin(user.value) && course.Some? && course.value.instructorId != user.value.id ==>
      UpdateModule(user, id, changes, modules, course).write == NoWrite &&
      DeleteModule(user, id, modules, course).write == NoWrite
  {
  }

  /**
   * `reorderModules`: 400 unless `module_order` is an array (checked before anything else),
   * 404 for an unknown course, 403 unless an admin or the course's instructor. The call
   * that follows, `ModuleModel.reorderModules`, is not defined by the model, so an allowed
   * request ends in the handler's 500.
   */
  function ReorderModules(user: Option<User>, moduleOrder: Option<seq<int>>, course: Option<CourseModel.Course>): (r: Answer)
    ensures moduleOrder.None? ==> r == Answer(BAD_REQUEST, "Module order array is required", NoWrite)
    ensures moduleOrder.Some? && course.None? ==> r.status == NOT_FOUND
    ensures r.status == FORBIDDEN <==> moduleOrder.Some? && course.Some? && !AdminOrOwner(user, course.value.instructorId)
    ensures r.status == SERVER_ERROR <==> moduleOrder.Some? && course.Some? && AdminOrOwner(user, course.value.instructorId)
    ensures r.write == NoWrite
  {
    if moduleOrder.None? then Answer(BAD_REQUEST, "Module order array is required", NoWrite)
    else if course.None? then Answer(NOT_FOUND, "Course not found", NoWrite)
    else if !AdminOrOwner(user, course.value.instructorId) then
      Answer(FORBIDDEN, "Not authorized to reorder modules for this course", NoWrite)
    else Answer(SERVER_ERROR, "Failed to reorder modules", NoWrite)
  }

  /** No reorder request succeeds, and a missing array is reported even to a requester with no rights. */
  lemma ReorderNeverSucceeds(user: Option<User>, moduleOrder: Option<seq<int>>, course: Option<CourseModel.Course>)
    ensures !Success(ReorderModules(user, moduleOrder, course).status)
    ensures moduleOrder.None? ==> ReorderModules(None, moduleOrder, course).status == BAD_REQUEST
  {
  }
}
