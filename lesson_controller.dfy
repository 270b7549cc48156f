// The lesson handlers (server/controllers/lessonController.js): the content type a
// new lesson gets, who may read a lesson, and the guards in front of every change.

module LessonController {
  import opened Wrappers
  import opened Http
  import CourseModel
  import EnrollmentModel
  import NotificationModel
  import opened Ordering
  import ModuleModel
  import opened LessonModel

  /** The write a handler hands to the lessons table (`LessonModel.LessonStore`), if any. */
  datatype Write = NoWrite | Insert(row: LessonRow) | Change(id: nat, changes: LessonChanges) | Remove(id: nat)

  /** A handler's status and write. */
  datatype Answer = Answer(status: Status, write: Write)

  /** `findById`: the row whose key is `id`, if any. */
  function Lookup<T>(rows: seq<Row<T>>, id: nat): (r: Option<Row<T>>)
    ensures r.None? <==> forall x :: x in rows ==> x.id != id
    ensures r.Some? ==> r.value in rows && r.value.id == id
  {
    match Find(rows, id)
    case None => None
    case Some(i) => Some(rows[i])
  }

  /** The lesson's course: the course of the module the lesson belongs to, if both are found. */
  function CourseIdOf(modules: seq<ModuleModel.ModuleRow>, lesson: LessonRow): (r: Option<nat>)
    ensures r.Some? ==> exists m :: m in modules && m.id == lesson.parent && m.parent == r.value
  {
    match Lookup(modules, lesson.parent)
    case None => None
    case Some(m) => Some(m.parent)
  }

  // ---------------------------------------------------------------------------
  // createLesson

  /**
   * The content type `createLesson` settles on: an explicit (truthy) one wins; otherwise a
   * video URL makes it 'video', else text content makes it 'text', else the given value stays.
   */
  function InferContentType(contentType: Option<string>, videoUrl: Option<string>, content: Option<string>): (r: Option<string>)
    ensures Truthy(contentType) ==> r == contentType
    ensures !Truthy(contentType) && Truthy(videoUrl) ==> r == Some("video")
    ensures !Truthy(contentType) && !Truthy(videoUrl) && Truthy(content) ==> r == Some("text")
    ensures !Truthy(contentType) && !Truthy(videoUrl) && !Truthy(content) ==> r == contentType
  {
    if Truthy(contentType) then contentType
    else if Truthy(videoUrl) then Some("video")
    else if Truthy(content) then Some("text")
    else contentType
  }

  /** The arguments `createLesson` hands to `LessonModel.create`: no order_index, so the lesson is appended. */
  function LessonArguments(title: string, content: Option<string>, moduleId: nat, videoUrl: Option<string>,
                           duration: Option<int>, isFree: Option<bool>, contentType: Option<string>): (n: NewLesson)
    ensures n.orderIndex.None? && n.moduleId == moduleId && n.title == title
    ensures n.contentType == InferContentType(contentType, videoUrl, content)
  {
    NewLesson(title, content, InferContentType(contentType, videoUrl, content), moduleId, None,
      if duration.Some? && duration.value != 0 then duration else None, videoUrl, isFree)
  }

  /**
   * With the inferred type, a request that names only a video URL stores a video lesson with
   * that URL, and one that names only content stores a text lesson with that content; an
   * explicit 'text' type drops the URL.
   */
  lemma InferredTypeStoresContent(title: string, content: Option<string>, moduleId: nat, videoUrl: Option<string>,
                                  duration: Option<int>, isFree: Option<bool>, contentType: Option<string>)
    ensures var d := NewLessonData(LessonArguments(title, content, moduleId, videoUrl, duration, isFree, contentType));
      !Truthy(contentType) && Truthy(videoUrl) ==> d.contentType == "video" && d.contentUrl == videoUrl && d.contentText.None?
    ensures var d := NewLessonData(LessonArguments(title, content, moduleId, videoUrl, duration, isFree, contentType));
      !Truthy(contentType) && !Truthy(videoUrl) && Truthy(content) ==> d.contentType == "text" && d.contentText == content
    ensures var d := NewLessonData(LessonArguments(title, content, moduleId, videoUrl, duration, isFree, contentType));
      contentType == Some("text") && Truthy(videoUrl) ==> d.contentUrl.None? && d.contentType == "text"
  {
  }

  /**
   * `createLesson`. `moduleId` is `parseInt(req.body.module_id)`, 0 standing for 0 or NaN;
   * `courseTitle` is what the notification's course lookup finds. The checks are a title and a
   * module id (400) and an existing module (404); nobody's role or ownership is checked. The
   * notification is not guarded: when it fails the handler answers 500 although the lesson is
   * already written.
   */
  function CreateLesson(title: string, content: Option<string>, moduleId: int, videoUrl: Option<string>,
                        duration: Option<int>, isFree: Option<bool>, contentType: Option<string>,
                        modules: seq<ModuleModel.ModuleRow>, lessons: seq<LessonRow>, nextId: nat,
                        enrollments: seq<EnrollmentModel.Enrollment>, courseTitle: Option<string>): (r: Answer)
    ensures title == "" || moduleId == 0 ==> r == Answer(BAD_REQUEST, NoWrite)
    ensures title != "" && moduleId != 0 && (moduleId < 0 || Lookup(modules, moduleId as nat).None?) ==>
      r == Answer(NOT_FOUND, NoWrite)
    ensures r.write != NoWrite <==> title != "" && moduleId > 0 && Lookup(modules, moduleId as nat).Some?
    ensures r.write != NoWrite ==>
      var n := LessonArguments(title, content, moduleId as nat, videoUrl, duration, isFree, contentType);
      r.write == Insert(Row(nextId, moduleId as nat, NextIndex(lessons, moduleId as nat), NewLessonData(n))) &&
      r.status in {CREATED, SERVER_ERROR}
  {
    if title == "" || moduleId == 0 then Answer(BAD_REQUEST, NoWrite)
    else if moduleId < 0 || Lookup(modules, moduleId as nat).None? then Answer(NOT_FOUND, NoWrite)
    else
      var n := LessonArguments(title, content, moduleId as nat, videoUrl, duration, isFree, contentType);
      var row := Row(nextId, moduleId as nat, NextIndex(lessons, moduleId as nat), NewLessonData(n));
      var notices := NotificationModel.ContentUpdateDrafts(Lookup(modules, moduleId as nat).value.parent, None,
        Some(nextId as int), "new_lesson", Some(title), enrollments, courseTitle);
      Answer(if notices.Ok? then CREATED else SERVER_ERROR, Insert(row))
  }

  /** Any requester with a title and an existing module adds a lesson: a student included. */
  lemma AnyoneCreatesLessons(title: string, moduleId: nat, modules: seq<ModuleModel.ModuleRow>, lessons: seq<LessonRow>,
                             nextId: nat, enrollments: seq<EnrollmentModel.Enrollment>, courseTitle: Option<string>)
    requires title != "" && moduleId != 0 && Lookup(modules, moduleId).Some?
    ensures CreateLesson(title, None, moduleId, None, None, None, None, modules, lessons, nextId, enrollments, courseTitle).write.Insert?
  {
  }

  // ---------------------------------------------------------------------------
  // getLessonById

  /** `!user_id`: no requester, or one whose id is the falsy 0. */
  predicate LoggedIn(user: Option<User>)
  {
    user.Some? && user.value.id != 0
  }

  /** `isUserEnrolledInCourse(user_id, course.id)`: an active enrollment of the requester. */
  predicate Enrolled(user: User, enrollments: seq<EnrollmentModel.Enrollment>, courseId: nat)
  {
    user.id >= 0 && IsUserEnrolledInCourse(enrollments, user.id as nat, courseId)
  }

  /**
   * `getLessonById`: 404 for an unknown lesson, 500 when its module or course cannot be found
   * (the handler reads a field of null). An unpublished course is open only to a logged-in
   * requester who is its instructor or an admin (403). In a published course a free lesson is
   * open to everyone; any other lesson needs a login (401) and an active enrollment, the
   * instructor or an admin (403).
   */
  function ViewLesson(user: Option<User>, id: nat, lessons: seq<LessonRow>, modules: seq<ModuleModel.ModuleRow>,
                      course: Option<CourseModel.Course>, enrollments: seq<EnrollmentModel.Enrollment>): (r: Status)
    ensures Lookup(lessons, id).None? ==> r == NOT_FOUND
    ensures Lookup(lessons, id).Some? && (CourseIdOf(modules, Lookup(lessons, id).value).None? || course.None?) ==>
      r == SERVER_ERROR
    ensures Lookup(lessons, id).Some? && course.Some? && !course.value.isPublished ==>
      (r == OK <==> CourseIdOf(modules, Lookup(lessons, id).value).Some? && LoggedIn(user) &&
                    (user.value.id == course.value.instructorId || IsAdmin(user.value)))
    ensures Lookup(lessons, id).Some? && course.Some? && course.value.isPublished && Lookup(lessons, id).value.data.isFree ==>
      (r == OK <==> CourseIdOf(modules, Lookup(lessons, id).value).Some?)
    ensures Lookup(lessons, id).Some? && course.Some? && course.value.isPublished && !Lookup(lessons, id).value.data.isFree &&
            CourseIdOf(modules, Lookup(lessons, id).value).Some? ==>
      (r == UNAUTHORIZED <==> !LoggedIn(user)) &&
      (r == OK <==> (LoggedIn(user) &&
        (Enrolled(user.value, enrollments, course.value.id) || user.value.id == course.value.instructorId || IsAdmin(user.value))))
    ensures r in {OK, UNAUTHORIZED, FORBIDDEN, NOT_FOUND, SERVER_ERROR}
  {
    match Lookup(lessons, id)
    case None => NOT_FOUND
    case Some(lesson) =>
      if CourseIdOf(modules, lesson).None? || course.None? then SERVER_ERROR
      else
        var c := course.value;
        if !c.isPublished && (!LoggedIn(user) || (user.value.id != c.instructorId && !IsAdmin(user.value))) then FORBIDDEN
        else if c.isPublished && !lesson.data.isFree then
          if !LoggedIn(user) then UNAUTHORIZED
          else if Enrolled(user.value, enrollments, c.id) || user.value.id == c.instructorId || IsAdmin(user.value) then OK
          else FORBIDDEN
        else OK
  }

  /**
   * A student whose enrollment is 'completed' is locked out of the course's non-free lessons,
   * while an 'active' one gets in.
   */
  lemma CompletedStudentLockedOut(student: User, id: nat, lessons: seq<LessonRow>, modules: seq<ModuleModel.ModuleRow>,
                                  course: CourseModel.Course, e: EnrollmentModel.Enrollment)
    requires student.id > 0 && student.role == "student" && student.id != course.instructorId
    requires e.userId == student.id && e.courseId == course.id
    requires course.isPublished && Lookup(lessons, id).Some? && !Lookup(lessons, id).value.data.isFree
    requires CourseIdOf(modules, Lookup(lessons, id).value).Some?
    ensures e.status == "completed" ==> ViewLesson(Some(student), id, lessons, modules, Some(course), [e]) == FORBIDDEN
    ensures e.status == "active" ==> ViewLesson(Some(student), id, lessons, modules, Some(course), [e]) == OK
  {
    EnrolledIffActiveRow([e], e.userId, e.courseId);
  }

  // ---------------------------------------------------------------------------
  // updateLesson, deleteLesson, reorderLessons

  /**
   * The guard `updateLesson` and `deleteLesson` share: 404 for an unknown lesson, 500 when its
   * module or course cannot be found, 403 unless the requester is an admin or the course's
   * instructor.
   */
  function OwnerStatus(user: User, id: nat, lessons: seq<LessonRow>, modules: seq<ModuleModel.ModuleRow>,
                       course: Option<CourseModel.Course>): (r: Status)
    ensures r == NOT_FOUND <==> Lookup(lessons, id).None?
    ensures r == OK <==>
      Lookup(lessons, id).Some? && CourseIdOf(modules, Lookup(lessons, id).value).Some? && course.Some? &&
      AdminOrOwner(Some(user), course.value.instructorId)
    ensures r in {OK, NOT_FOUND, FORBIDDEN, SERVER_ERROR}
  {
    match Lookup(lessons, id)
    case None => NOT_FOUND
    case Some(lesson) =>
      if CourseIdOf(modules, lesson).None? || course.None? then SERVER_ERROR
      else if !IsAdmin(user) && user.id != course.value.instructorId then FORBIDDEN
      else OK
  }

  /**
   * The changes `updateLesson` passes on: title and content as given, no content type, and
   * order_index and duration only when truthy, so a 0 for either is dropped.
   */
  function UpdateArguments(title: Option<string>, content: Option<string>, orderIndex: Option<int>, duration: Option<int>)
    : (c: LessonChanges)
    ensures c.title == title && c.content == content && c.contentType.None?
    ensures c.orderIndex.Some? <==> orderIndex.Some? && orderIndex.value != 0
    ensures c.orderIndex.Some? ==> c.orderIndex == orderIndex
    ensures c.duration.Some? <==> duration.Some? && duration.value != 0
    ensures c.duration.Some? ==> c.duration == duration
  {
    LessonChanges(title, content, None,
      if orderIndex.Some? && orderIndex.value != 0 then orderIndex else None,
      if duration.Some? && duration.value != 0 then duration else None)
  }

  /** Moving a lesson to position 0, or clearing its duration, through `updateLesson` leaves the row as it was. */
  lemma ZeroIsIgnored(r: LessonRow)
    ensures UpdatedLesson(r, UpdateArguments(None, None, Some(0), Some(0))) == r
    ensures UpdatedLesson(r, UpdateArguments(None, None, Some(0), None)).order == r.order
  {
  }

  function UpdateLesson(user: User, id: nat, title: Option<string>, content: Option<string>, orderIndex: Option<int>,
                        duration: Option<int>, lessons: seq<LessonRow>, modules: seq<ModuleModel.ModuleRow>,
                        course: Option<CourseModel.Course>): (r: Answer)
    ensures r.status == OwnerStatus(user, id, lessons, modules, course)
    ensures r.status == OK ==> r.write == Change(id, UpdateArguments(title, content, orderIndex, duration))
    ensures r.status != OK ==> r.write == NoWrite
  {
    var s := OwnerStatus(user, id, lessons, modules, course);
    Answer(s, if s == OK then Change(id, UpdateArguments(title, content, orderIndex, duration)) else NoWrite)
  }

  function DeleteLesson(user: User, id: nat, lessons: seq<LessonRow>, modules: seq<ModuleModel.ModuleRow>,
                        course: Option<CourseModel.Course>): (r: Answer)
    ensures r.status == OwnerStatus(user, id, lessons, modules, course)
    ensures r.status == OK ==> r.write == Remove(id)
    ensures r.status != OK ==> r.write == NoWrite
  {
    var s := OwnerStatus(user, id, lessons, modules, course);
    Answer(s, if s == OK then Remove(id) else NoWrite)
  }

  /** A requester who is neither an admin nor the course's instructor never changes or removes a lesson. */
  lemma WritesNeedOwnerOrAdmin(user: User, id: nat, title: Option<string>, content: Option<string>, orderIndex: Option<int>,
                               duration: Option<int>, lessons: seq<LessonRow>, modules: seq<ModuleModel.ModuleRow>,
                               course: Option<CourseModel.Course>)
    requires !IsAdmin(user) && course.Some? && course.value.instructorId != user.id
    ensures UpdateLesson(user, id, title, content, orderIndex, duration, lessons, modules, course).write == NoWrite
    ensures DeleteLesson(user, id, lessons, modules, course).write == NoWrite
  {
  }

  /**
   * `reorderLessons`: 404 for an unknown module, 500 when its course cannot be found, 403
   * unless an admin or the course's instructor, and only then 400 unless `lesson_orders` is an
   * array. The call that follows, `LessonModel.reorderLessons`, is not defined by the model,
   * so an allowed request ends in the handler's 500.
   */
  function ReorderLessons(user: User, moduleId: nat, lessonOrders: Option<seq<int>>, modules: seq<ModuleModel.ModuleRow>,
                          course: Option<CourseModel.Course>): (r: Status)
    ensures Lookup(modules, moduleId).None? ==> r == NOT_FOUND
    ensures Lookup(modules, moduleId).Some? && course.Some? && !AdminOrOwner(Some(user), course.value.instructorId) ==>
      r == FORBIDDEN
    ensures r == BAD_REQUEST <==>
      Lookup(modules, moduleId).Some? && course.Some? && AdminOrOwner(Some(user), course.value.instructorId) && lessonOrders.None?
    ensures !Success(r)
  {
    if Lookup(modules, moduleId).None? then NOT_FOUND
    else if course.None? then SERVER_ERROR
    else if !IsAdmin(user) && user.id != course.value.instructorId then FORBIDDEN
    else if lessonOrders.None? then BAD_REQUEST
    else SERVER_ERROR
  }

  /** Authorization comes before the array check: a stranger with a malformed body hears 403, not 400. */
  lemma ReorderChecksRightsFirst(user: User, moduleId: nat, modules: seq<ModuleModel.ModuleRow>, course: CourseModel.Course)
    requires Lookup(modules, moduleId).Some? && !IsAdmin(user) && course.instructorId != user.id
    ensures ReorderLessons(user, moduleId, None, modules, Some(course)) == FORBIDDEN
  {
  }

  // ---------------------------------------------------------------------------
  // markLessonCompleted, getCourseProgress

  /**
   * `markLessonCompleted` (the lesson handler): 404 for an unknown lesson, 500 when its module
   * cannot be found, 403 without an active enrollment in the module's course. The call that
   * follows, `LessonModel.markLessonCompleted`, is not defined by the model, so an enrolled
   * requester gets 500 and no progress row is written.
   */
  function MarkLessonCompleted(user: User, id: nat, lessons: seq<LessonRow>, modules: seq<ModuleModel.ModuleRow>,
                               enrollments: seq<EnrollmentModel.Enrollment>): (r: Status)
    ensures Lookup(lessons, id).None? ==> r == NOT_FOUND
    ensures r == FORBIDDEN <==>
      Lookup(lessons, id).Some? && CourseIdOf(modules, Lookup(lessons, id).value).Some? &&
      !Enrolled(user, enrollments, CourseIdOf(modules, Lookup(lessons, id).value).value)
    ensures !Success(r)
  {
    match Lookup(lessons, id)
    case None => NOT_FOUND
    case Some(lesson) =>
      match CourseIdOf(modules, lesson)
      case None => SERVER_ERROR
      case Some(courseId) => if !Enrolled(user, enrollments, courseId) then FORBIDDEN else SERVER_ERROR
  }

  /** The ids of a course's modules. */
  function ModuleIds(modules: seq<ModuleModel.ModuleRow>, courseId: nat): (r: set<nat>)
    ensures forall id :: id in r <==> exists m :: m in modules && m.parent == courseId && m.id == id
  {
    set m | m in modules && m.parent == courseId :: m.id
  }

  /** `getCourseProgress` (the lesson handler): 404 for an unknown course, 403 without an active enrollment, then the progress. */
  function CourseProgressView(user: User, courseId: nat, course: Option<CourseModel.Course>, lessons: seq<LessonRow>,
                              modules: seq<ModuleModel.ModuleRow>, progress: seq<Progress>,
                              enrollments: seq<EnrollmentModel.Enrollment>): (r: (Status, Option<CourseProgress>))
    ensures r.0 == NOT_FOUND <==> course.None?
    ensures r.0 == FORBIDDEN <==> course.Some? && !Enrolled(user, enrollments, courseId)
    ensures r.0 == OK <==> r.1.Some?
    ensures r.0 == OK ==> r.1 == Some(GetCourseProgress(lessons, progress, ModuleIds(modules, courseId), user.id as nat))
  {
    if course.None? then (NOT_FOUND, None)
    else if !Enrolled(user, enrollments, courseId) then (FORBIDDEN, None)
    else (OK, Some(GetCourseProgress(lessons, progress, ModuleIds(modules, courseId), user.id as nat)))
  }

  /** The progress an enrolled student is shown lies in 0..100. */
  lemma ShownProgressBounded(user: User, courseId: nat, course: Option<CourseModel.Course>, lessons: seq<LessonRow>,
                             modules: seq<ModuleModel.ModuleRow>, progress: seq<Progress>,
                             enrollments: seq<EnrollmentModel.Enrollment>)
    requires UniqueIds(lessons) && OnePerPair(progress)
    ensures var r := CourseProgressView(user, courseId, course, lessons, modules, progress, enrollments);
      r.0 == OK ==> 0 <= r.1.value.progressPercentage <= 100 && r.1.value.completedLessons <= r.1.value.totalLessons
  {
    var r := CourseProgressView(user, courseId, course, lessons, modules, progress, enrollments);
    if r.0 == OK {
      CourseProgressBounds(lessons, progress, ModuleIds(modules, courseId), user.id as nat);
    }
  }
}
