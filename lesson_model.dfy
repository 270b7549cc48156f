// Lessons, ordered by order_index within their module (counting from 0), and the
// per-user lesson_progress rows (server/models/lessonModel.js).

module LessonModel {
  import opened Wrappers
  import opened Ordering
  import Sql
  import Percent
  import EnrollmentModel

  datatype LessonData = LessonData(
    title: string, contentText: Option<string>, contentUrl: Option<string>, content: Option<string>,
    contentType: string, duration: Option<int>, isFree: bool, isPublished: bool)

  type LessonRow = Row<LessonData>

  /** The arguments of `create`; `None` is undefined (or null). */
  datatype NewLesson = NewLesson(
    title: string, content: Option<string>, contentType: Option<string>, moduleId: nat,
    orderIndex: Option<int>, duration: Option<int>, videoUrl: Option<string>, isFree: Option<bool>)

  datatype Progress = Progress(lessonId: nat, userId: nat, isCompleted: bool, completedAt: Option<int>)

  /** JavaScript truthiness of an optional string: present and not empty. */
  predicate Truthy(s: Option<string>)
  {
    s.Some? && s.value != ""
  }

  /**
   * The columns `create` writes: a video URL only for a 'video' lesson that has one, otherwise
   * the text content when there is any; content_type defaults to 'text', a zero duration is
   * stored as null, is_free defaults to false, and the lesson is always published.
   */
  function NewLessonData(n: NewLesson): (d: LessonData)
    ensures d.contentUrl.Some? <==> n.contentType == Some("video") && Truthy(n.videoUrl)
    ensures d.contentUrl.Some? ==> d.contentUrl == n.videoUrl && d.contentText.None?
    ensures d.contentText.Some? <==> d.contentUrl.None? && Truthy(n.content)
    ensures d.contentText.Some? ==> d.contentText == n.content
    ensures d.contentType == (if Truthy(n.contentType) then n.contentType.value else "text")
    ensures d.duration.Some? <==> n.duration.Some? && n.duration.value != 0
    ensures d.isFree == (n.isFree == Some(true)) && d.isPublished
  {
    var isVideo := n.contentType == Some("video") && Truthy(n.videoUrl);
    LessonData(
      n.title,
      if !isVideo && Truthy(n.content) then n.content else None,
      if isVideo then n.videoUrl else None,
      None,
      if Truthy(n.contentType) then n.contentType.value else "text",
      if n.duration.Some? && n.duration.value != 0 then n.duration else None,
      n.isFree.GetOr(false),
      true)
  }

  /** A lesson never carries both a video URL and text content. */
  lemma NewLessonOneKindOfContent(n: NewLesson)
    ensures !(NewLessonData(n).contentUrl.Some? && NewLessonData(n).contentText.Some?)
  {
  }

  /** The arguments of `update`; `None` is undefined. */
  datatype LessonChanges = LessonChanges(
    title: Option<string>, content: Option<string>, contentType: Option<string>,
    orderIndex: Option<int>, duration: Option<int>)

  datatype LessonValue = Text(s: string) | Number(n: int)

  /** The entry list `update` builds: the defined fields, then updated_at written inline. */
  function LessonUpdateEntries(c: LessonChanges): (e: seq<Sql.Entry<LessonValue>>)
    ensures Sql.InlineOnlyLast(e) && |e| >= 1 && e[|e| - 1] == Sql.Inline("updated_at")
  {
    Sql.Defined([
      ("title", if c.title.Some? then Some(Text(c.title.value)) else None),
      ("content", if c.content.Some? then Some(Text(c.content.value)) else None),
      ("content_type", if c.contentType.Some? then Some(Text(c.contentType.value)) else None),
      ("order_index", if c.orderIndex.Some? then Some(Number(c.orderIndex.value)) else None),
      ("duration", if c.duration.Some? then Some(Number(c.duration.value)) else None)])
    + [Sql.Inline("updated_at")]
  }

  /**
   * The row after `update`: each defined field is written, the others kept. The text goes
   * to a column named `content`, assumed to exist beside the content_text that `create` fills.
   */
  function UpdatedLesson(r: LessonRow, c: LessonChanges): (u: LessonRow)
    ensures u.id == r.id && u.parent == r.parent
    ensures c == LessonChanges(None, None, None, None, None) ==> u == r
  {
    r.(order := if c.orderIndex.Some? then c.orderIndex.value else r.order,
       data := r.data.(
         title := if c.title.Some? then c.title.value else r.data.title,
         content := if c.content.Some? then c.content else r.data.content,
         contentType := if c.contentType.Some? then c.contentType.value else r.data.contentType,
         duration := if c.duration.Some? then c.duration else r.data.duration))
  }

  /**
   * As written, `update` sends the text to the `content` column, which `create` never fills,
   * so editing a lesson's text never changes the content_text it was created with.
   */
  lemma EditedTextNotShown(n: NewLesson, id: nat, order: int, t: string)
    ensures var created := Row(id, n.moduleId, order, NewLessonData(n));
      var edited := UpdatedLesson(created, LessonChanges(None, Some(t), None, None, None));
      edited.data.contentText == created.data.contentText && edited.data.content == Some(t)
  {
  }

  /**
   * `update` as intended: the text goes to content_text, the column `create` fills, and
   * every other column is written as before.
   */
  function UpdatedLessonFixed(r: LessonRow, c: LessonChanges): (u: LessonRow)
    ensures u.id == r.id && u.parent == r.parent && u.data.content == r.data.content
    ensures c.content.Some? ==> u.data.contentText == c.content
    ensures c.content.None? ==> u.data.contentText == r.data.contentText
    ensures u.(data := u.data.(contentText := r.data.contentText)) ==
            UpdatedLesson(r, c).(data := UpdatedLesson(r, c).data.(content := r.data.content))
  {
    var w := UpdatedLesson(r, c.(content := None));
    w.(data := w.data.(contentText := if c.content.Some? then c.content else r.data.contentText))
  }

  /** With the corrected update, a text edit is the text the lesson then carries. */
  lemma EditedTextShown(n: NewLesson, id: nat, order: int, t: string)
    ensures var created := Row(id, n.moduleId, order, NewLessonData(n));
      UpdatedLessonFixed(created, LessonChanges(None, Some(t), None, None, None)).data.contentText == Some(t)
  {
  }

  /** updated_at is always in the list, so `update` never takes its "no fields" early return. */
  lemma UpdateNeverEmpty(c: LessonChanges)
    ensures |LessonUpdateEntries(c)| > 0
  {
  }

  // ---------------------------------------------------------------------------
  // Progress

  /** At most one progress row per (lesson, user). */
  predicate OnePerPair(progress: seq<Progress>)
  {
    forall i, j :: 0 <= i < j < |progress| ==>
      !(progress[i].lessonId == progress[j].lessonId && progress[i].userId == progress[j].userId)
  }

  predicate HasRow(progress: seq<Progress>, lessonId: nat, userId: nat)
  {
    exists i :: 0 <= i < |progress| && progress[i].lessonId == lessonId && progress[i].userId == userId
  }

  /**
   * `markCompleted`: when a row for the pair exists, `UPDATE ... SET is_completed = true,
   * completed_at = now` on it, otherwise `INSERT` a completed row.
   */
  function Marked(progress: seq<Progress>, lessonId: nat, userId: nat, now: int): seq<Progress>
  {
    if HasRow(progress, lessonId, userId) then
      seq(|progress|, i requires 0 <= i < |progress| =>
        if progress[i].lessonId == lessonId && progress[i].userId == userId
        then progress[i].(isCompleted := true, completedAt := Some(now)) else progress[i])
    else progress + [Progress(lessonId, userId, true, Some(now))]
  }

  /** Afterwards exactly one row for the pair exists, and it is completed; no other row changes. */
  lemma MarkedExactlyOne(progress: seq<Progress>, lessonId: nat, userId: nat, now: int)
    requires OnePerPair(progress)
    ensures var p := Marked(progress, lessonId, userId, now);
      OnePerPair(p) && HasRow(p, lessonId, userId) &&
      forall i :: 0 <= i < |p| && p[i].lessonId == lessonId && p[i].userId == userId ==>
        p[i] == Progress(lessonId, userId, true, Some(now))
    ensures var p := Marked(progress, lessonId, userId, now);
      forall i :: 0 <= i < |progress| && !(progress[i].lessonId == lessonId && progress[i].userId == userId) ==>
        p[i] == progress[i]
  {
    var p := Marked(progress, lessonId, userId, now);
    if !HasRow(progress, lessonId, userId) {
      assert p[|progress|].lessonId == lessonId && p[|progress|].userId == userId;
    } else {
      var k :| 0 <= k < |progress| && progress[k].lessonId == lessonId && progress[k].userId == userId;
      assert p[k].lessonId == lessonId && p[k].userId == userId;
    }
  }

  /** Marking twice is marking once, at the later time. */
  lemma MarkedIdempotent(progress: seq<Progress>, lessonId: nat, userId: nat, t1: int, t2: int)
    ensures Marked(Marked(progress, lessonId, userId, t1), lessonId, userId, t2) == Marked(progress, lessonId, userId, t2)
  {
    var p := Marked(progress, lessonId, userId, t1);
    if HasRow(progress, lessonId, userId) {
      var k :| 0 <= k < |progress| && progress[k].lessonId == lessonId && progress[k].userId == userId;
      assert p[k].lessonId == lessonId && p[k].userId == userId;
    } else {
      assert p[|progress|].lessonId == lessonId && p[|progress|].userId == userId;
    }
  }

  /** The ids of the course's lessons: rows whose module is one of the course's modules. */
  function CourseLessonIds(lessons: seq<LessonRow>, courseModules: set<nat>): set<nat>
  {
    set i | 0 <= i < |lessons| && lessons[i].parent in courseModules :: lessons[i].id
  }

  /** `COUNT(*)` of the course's lessons. */
  function TotalLessons(lessons: seq<LessonRow>, courseModules: set<nat>): nat
  {
    if lessons == [] then 0
    else TotalLessons(lessons[..|lessons| - 1], courseModules) + (if lessons[|lessons| - 1].parent in courseModules then 1 else 0)
  }

  /** `COUNT(*)` of the user's completed progress rows that join one of those lessons. */
  function CompletedLessons(progress: seq<Progress>, lessonIds: set<nat>, userId: nat): nat
  {
    if progress == [] then 0
    else
      var p := progress[|progress| - 1];
      CompletedLessons(progress[..|progress| - 1], lessonIds, userId) +
      (if p.userId == userId && p.isCompleted && p.lessonId in lessonIds then 1 else 0)
  }

  datatype CourseProgress = CourseProgress(totalLessons: nat, completedLessons: nat, progressPercentage: int)

  /** `getCourseProgress`: the two counts and `total > 0 ? Math.round(completed / total * 100) : 0`. */
  function GetCourseProgress(lessons: seq<LessonRow>, progress: seq<Progress>, courseModules: set<nat>, userId: nat)
    : (r: CourseProgress)
    ensures r.totalLessons == 0 ==> r.progressPercentage == 0
    ensures r.totalLessons > 0 ==> Percent.IsRoundedPercent(r.completedLessons, r.totalLessons, r.progressPercentage)
  {
    var total := TotalLessons(lessons, courseModules);
    var completed := CompletedLessons(progress, CourseLessonIds(lessons, courseModules), userId);
    CourseProgress(total, completed, Percent.Percentage(completed, total))
  }

  /** Adding a row adds its id to the course's lesson ids exactly when its module is one of the course's. */
  lemma LessonIdsSnoc(lessons: seq<LessonRow>, courseModules: set<nat>)
    requires lessons != []
    ensures var n := |lessons| - 1;
      CourseLessonIds(lessons, courseModules) ==
      CourseLessonIds(lessons[..n], courseModules) + (if lessons[n].parent in courseModules then {lessons[n].id} else {})
  {
    var n := |lessons| - 1;
    var init := lessons[..n];
    forall x | x in CourseLessonIds(init, courseModules) ensures x in CourseLessonIds(lessons, courseModules) {
      var i :| 0 <= i < |init| && init[i].parent in courseModules && init[i].id == x;
      assert lessons[i] == init[i];
    }
    forall x | x in CourseLessonIds(lessons, courseModules)
      ensures x in CourseLessonIds(init, courseModules) || x == lessons[n].id
    {
      var i :| 0 <= i < |lessons| && lessons[i].parent in courseModules && lessons[i].id == x;
      if i < n {
        assert init[i] == lessons[i];
      }
    }
  }

  /** With unique keys, the last row's id is not among the earlier rows' ids. */
  lemma LastLessonIdNew(lessons: seq<LessonRow>, courseModules: set<nat>)
    requires lessons != [] && UniqueIds(lessons)
    ensures lessons[|lessons| - 1].id !in CourseLessonIds(lessons[..|lessons| - 1], courseModules)
  {
    var n := |lessons| - 1;
    var init := lessons[..n];
    forall x | x in CourseLessonIds(init, courseModules) ensures x != lessons[n].id {
      var i :| 0 <= i < |init| && init[i].parent in courseModules && init[i].id == x;
      assert init[i] == lessons[i];
    }
  }

  /** With unique keys, the lesson count is the number of distinct lesson ids. */
  lemma {:induction false} TotalIsIdCount(lessons: seq<LessonRow>, courseModules: set<nat>)
    requires UniqueIds(lessons)
    ensures TotalLessons(lessons, courseModules) == |CourseLessonIds(lessons, courseModules)|
  {
    if lessons != [] {
      var n := |lessons| - 1;
      var init := lessons[..n];
      assert UniqueIds(init);
      TotalIsIdCount(init, courseModules);
      LessonIdsSnoc(lessons, courseModules);
      if lessons[n].parent in courseModules {
        LastLessonIdNew(lessons, courseModules);
      }
    }
  }

  /** The lessons the user has a completed row for, among `lessonIds`. */
  function CompletedIds(progress: seq<Progress>, lessonIds: set<nat>, userId: nat): set<nat>
  {
    set i | 0 <= i < |progress| && progress[i].userId == userId && progress[i].isCompleted && progress[i].lessonId in lessonIds
      :: progress[i].lessonId
  }

  /** Adding a row adds its lesson to the completed ids exactly when the row counts. */
  lemma CompletedIdsSnoc(progress: seq<Progress>, lessonIds: set<nat>, userId: nat)
    requires progress != []
    ensures var n := |progress| - 1; var p := progress[n];
      CompletedIds(progress, lessonIds, userId) ==
      CompletedIds(progress[..n], lessonIds, userId) +
      (if p.userId == userId && p.isCompleted && p.lessonId in lessonIds then {p.lessonId} else {})
  {
    var n := |progress| - 1;
    var init := progress[..n];
    forall x | x in CompletedIds(init, lessonIds, userId) ensures x in CompletedIds(progress, lessonIds, userId) {
      var i :| 0 <= i < |init| && init[i].userId == userId && init[i].isCompleted && init[i].lessonId in lessonIds && init[i].lessonId == x;
      assert progress[i] == init[i];
    }
    forall x | x in CompletedIds(progress, lessonIds, userId)
      ensures x in CompletedIds(init, lessonIds, userId) || x == progress[n].lessonId
    {
      var i :| 0 <= i < |progress| && progress[i].userId == userId && progress[i].isCompleted && progress[i].lessonId in lessonIds &&
        progress[i].lessonId == x;
      if i < n {
        assert init[i] == progress[i];
      }
    }
  }

  /** With one row per pair, the last row's lesson is not among the earlier completed ids. */
  lemma LastRowIdNew(progress: seq<Progress>, lessonIds: set<nat>, userId: nat)
    requires progress != [] && OnePerPair(progress) && progress[|progress| - 1].userId == userId
    ensures progress[|progress| - 1].lessonId !in CompletedIds(progress[..|progress| - 1], lessonIds, userId)
  {
    var n := |progress| - 1;
    var init := progress[..n];
    forall x | x in CompletedIds(init, lessonIds, userId) ensures x != progress[n].lessonId {
      var i :| 0 <= i < |init| && init[i].userId == userId && init[i].isCompleted && init[i].lessonId in lessonIds && init[i].lessonId == x;
      assert init[i] == progress[i];
    }
  }

  /** With one row per pair, the completed count is the number of distinct completed lessons. */
  lemma {:induction false} CompletedIsIdCount(progress: seq<Progress>, lessonIds: set<nat>, userId: nat)
    requires OnePerPair(progress)
    ensures CompletedLessons(progress, lessonIds, userId) == |CompletedIds(progress, lessonIds, userId)|
  {
    if progress != [] {
      var n := |progress| - 1;
      var init := progress[..n];
      assert OnePerPair(init);
      CompletedIsIdCount(init, lessonIds, userId);
      CompletedIdsSnoc(progress, lessonIds, userId);
      var p := progress[n];
      if p.userId == userId && p.isCompleted && p.lessonId in lessonIds {
        LastRowIdNew(progress, lessonIds, userId);
      }
    }
  }

  /**
   * With unique lesson keys and one progress row per pair, the course progress lies in
   * 0..100, and it is 100 when every lesson of the course is completed.
   */
  lemma CourseProgressBounds(lessons: seq<LessonRow>, progress: seq<Progress>, courseModules: set<nat>, userId: nat)
    requires UniqueIds(lessons) && OnePerPair(progress)
    ensures var r := GetCourseProgress(lessons, progress, courseModules, userId);
      r.completedLessons <= r.totalLessons && 0 <= r.progressPercentage <= 100
    ensures var r := GetCourseProgress(lessons, progress, courseModules, userId);
      r.totalLessons > 0 && r.completedLessons == r.totalLessons ==> r.progressPercentage == 100
  {
    var ids := CourseLessonIds(lessons, courseModules);
    TotalIsIdCount(lessons, courseModules);
    CompletedIsIdCount(progress, ids, userId);
    var done := CompletedIds(progress, ids, userId);
    assert done <= ids;
    SubsetCardinality(done, ids);
  }

  lemma SubsetCardinality(a: set<nat>, b: set<nat>)
    requires a <= b
    ensures |a| <= |b|
  {
    assert b == a + (b - a);
  }

  /** 199 of 200 lessons completed already reads as 100 per cent. */
  lemma OneOutstandingReadsHundred()
    ensures Percent.Percentage(199, 200) == 100
  {
    Percent.AllButOneRoundsToHundred(200);
  }

  /** `isUserEnrolledInCourse`: `COUNT(*) > 0` over the pair's enrollments whose status is 'active'. */
  function ActiveEnrollments(enrollments: seq<EnrollmentModel.Enrollment>, userId: nat, courseId: nat): nat
  {
    if enrollments == [] then 0
    else
      var e := enrollments[|enrollments| - 1];
      ActiveEnrollments(enrollments[..|enrollments| - 1], userId, courseId) +
      (if e.userId == userId && e.courseId == courseId && e.status == "active" then 1 else 0)
  }

  predicate IsUserEnrolledInCourse(enrollments: seq<EnrollmentModel.Enrollment>, userId: nat, courseId: nat)
  {
    ActiveEnrollments(enrollments, userId, courseId) > 0
  }

  /** Enrolled here means an 'active' row exists for the pair. */
  lemma {:induction false} EnrolledIffActiveRow(enrollments: seq<EnrollmentModel.Enrollment>, userId: nat, courseId: nat)
    ensures IsUserEnrolledInCourse(enrollments, userId, courseId) <==>
      exists e :: e in enrollments && e.userId == userId && e.courseId == courseId && e.status == "active"
  {
    if enrollments != [] {
      var n := |enrollments| - 1;
      EnrolledIffActiveRow(enrollments[..n], userId, courseId);
      assert enrollments == enrollments[..n] + [enrollments[n]];
    }
  }

  /** A completed enrollment counts as enrolled for the enrollment model but not for the lesson model. */
  lemma CompletedEnrollmentDisagrees(e: EnrollmentModel.Enrollment)
    requires e.status == "completed"
    ensures EnrollmentModel.IsEnrolled([e], e.userId, e.courseId)
    ensures !IsUserEnrolledInCourse([e], e.userId, e.courseId)
  {
    EnrolledIffActiveRow([e], e.userId, e.courseId);
  }

  // ---------------------------------------------------------------------------
  // The store

  class LessonStore {
    var lessons: seq<LessonRow>
    var progress: seq<Progress>
    var nextId: nat

    ghost predicate Valid()
      reads this
    {
      UniqueIds(lessons) && IdsBelow(lessons, nextId) && OnePerPair(progress)
    }

    constructor ()
      ensures Valid() && lessons == [] && progress == []
    {
      lessons, progress, nextId := [], [], 0;
    }

    /** `create`: an omitted order_index takes the next index in the module (0 for the first). */
    method Create(n: NewLesson) returns (r: LessonRow)
      requires Valid()
      modifies this
      ensures Valid()
      ensures r == Row(old(nextId), n.moduleId,
        if n.orderIndex.Some? then n.orderIndex.value else NextIndex(old(lessons), n.moduleId),
        NewLessonData(n))
      ensures lessons == old(lessons) + [r] && nextId == old(nextId) + 1 && progress == old(progress)
    {
      var orderIndex := if n.orderIndex.Some? then n.orderIndex.value else NextIndex(lessons, n.moduleId);
      r := Row(nextId, n.moduleId, orderIndex, NewLessonData(n));
      lessons := lessons + [r];
      nextId := nextId + 1;
    }

    /** `update`: writes the defined fields; an unknown key gives no row. */
    method Update(id: nat, c: LessonChanges) returns (r: Option<LessonRow>)
      requires Valid()
      modifies this
      ensures Valid()
      ensures |lessons| == |old(lessons)|
      ensures forall i :: 0 <= i < |lessons| ==>
        lessons[i] == if old(lessons)[i].id == id then UpdatedLesson(old(lessons)[i], c) else old(lessons)[i]
      ensures r == (if Find(old(lessons), id).Some? then Some(lessons[Find(old(lessons), id).value]) else None)
      ensures progress == old(progress) && nextId == old(nextId)
    {
      var t := Find(lessons, id);
      var rows := lessons;
      lessons := seq(|rows|, i requires 0 <= i < |rows| =>
        if rows[i].id == id then UpdatedLesson(rows[i], c) else rows[i]);
      r := if t.Some? then Some(lessons[t.value]) else None;
    }

    /** `delete`: an unknown lesson gives null; otherwise the later lessons of its module move up. */
    method Delete(id: nat) returns (r: Option<LessonRow>)
      requires Valid()
      modifies this
      ensures Valid()
      ensures r == (if Find(old(lessons), id).Some? then Some(old(lessons)[Find(old(lessons), id).value]) else None)
      ensures lessons == Deleted(old(lessons), id)
      ensures progress == old(progress) && nextId == old(nextId)
    {
      var t := Find(lessons, id);
      if t.None? {
        return None;
      }
      r := Some(lessons[t.value]);
      DeleteKeepsIdsBelow(lessons, id, nextId);
      lessons := DeleteAndCompact(lessons, id);
    }

    /**
     * `reorder`: an unknown lesson throws 'Lesson not found'; an unchanged index returns the
     * lesson untouched; otherwise the siblings in between shift and the lesson takes the index.
     */
    method Reorder(id: nat, newIndex: int) returns (r: Result<LessonRow>)
      requires Valid()
      modifies this
      ensures Valid()
      ensures Find(old(lessons), id).None? ==> r == Fail("Lesson not found") && lessons == old(lessons)
      ensures Find(old(lessons), id).Some? ==>
        lessons == Reordered(old(lessons), id, newIndex) &&
        r == Ok(old(lessons)[Find(old(lessons), id).value].(order := newIndex))
      ensures progress == old(progress) && nextId == old(nextId)
    {
      var t := Find(lessons, id);
      if t.None? {
        return Fail("Lesson not found");
      }
      var i := t.value;
      ReorderedAt(lessons, id, newIndex, i);
      ReorderKeepsIdsBelow(lessons, id, newIndex, nextId);
      lessons := MoveAndShift(lessons, id, newIndex);
      r := Ok(lessons[i]);
    }

    /** `markCompleted`: the upsert; the row returned is the pair's completed row. */
    method MarkCompleted(lessonId: nat, userId: nat, now: int) returns (r: Progress)
      requires Valid()
      modifies this
      ensures Valid()
      ensures progress == Marked(old(progress), lessonId, userId, now)
      ensures r == Progress(lessonId, userId, true, Some(now))
      ensures lessons == old(lessons) && nextId == old(nextId)
    {
      MarkedExactlyOne(progress, lessonId, userId, now);
      var rows := progress;
      if HasRow(rows, lessonId, userId) {
        progress := seq(|rows|, i requires 0 <= i < |rows| =>
          if rows[i].lessonId == lessonId && rows[i].userId == userId
          then rows[i].(isCompleted := true, completedAt := Some(now)) else rows[i]);
      } else {
        progress := progress + [Progress(lessonId, userId, true, Some(now))];
      }
      r := Progress(lessonId, userId, true, Some(now));
    }
  }
}
