// Notifications (server/models/notificationModel.js): single and bulk creation
// with their required-field checks, the read/unread operations, and the texts
// of course-content updates, announcements and system notices.

module NotificationModel {
  import opened Wrappers
  import Http
  import EnrollmentModel

  /** A row of `notifications`; `kind` is the `type` column. */
  datatype Notification = Notification(
    id: nat, userId: int, title: string, message: string, kind: string, relatedId: Option<int>, isRead: bool)

  /**
   * The object handed to `create`. A text field that is missing, null or empty is the
   * empty string here: all three are falsy to the checks.
   */
  datatype Draft = Draft(userId: int, title: string, message: string, kind: string, relatedId: Option<int>, isRead: bool)

  const RequiredMessage := "Title, message, and type are required"
  const BulkRequiredMessage := "Title and message are required for all notifications"
  const CourseFieldsMessage := "Course ID and update type are required"
  const CourseNotFoundMessage := "Course not found"

  /** What `create` demands: `title`, `message` and `type` all truthy. */
  predicate Complete(d: Draft)
  {
    d.title != "" && d.message != "" && d.kind != ""
  }

  /** What `createBulk` checks of every draft before inserting any. */
  predicate HasText(d: Draft)
  {
    d.title != "" && d.message != ""
  }

  predicate AllHaveText(ds: seq<Draft>)
  {
    forall k :: 0 <= k < |ds| ==> HasText(ds[k])
  }

  /** `create`: refused before any insert when a required field is falsy, else the inserted row. */
  function CreateResult(d: Draft, id: nat): (r: Result<Notification>)
    ensures r.Ok? <==> Complete(d)
    ensures r.Fail? ==> r.message == RequiredMessage
    ensures r.Ok? ==>
      r.value.id == id && r.value.userId == d.userId && r.value.title == d.title && r.value.message == d.message
      && r.value.kind == d.kind && r.value.relatedId == d.relatedId && r.value.isRead == d.isRead
  {
    if !Complete(d) then Fail(RequiredMessage)
    else Ok(Notification(id, d.userId, d.title, d.message, d.kind, d.relatedId, d.isRead))
  }

  /** The object `createBulk` builds for each input: `related_id || null`, so 0 becomes null. */
  function BulkDraft(d: Draft): (r: Draft)
    ensures r.relatedId == (if d.relatedId == Some(0) then None else d.relatedId)
    ensures r.(relatedId := d.relatedId) == d
  {
    d.(relatedId := if d.relatedId == Some(0) then None else d.relatedId)
  }

  /** How many inputs `createBulk` inserts before reaching one that `create` refuses. */
  function InsertedPrefix(ds: seq<Draft>): (n: nat)
    ensures n <= |ds|
    ensures forall i :: 0 <= i < n ==> Complete(ds[i])
    ensures n < |ds| ==> !Complete(ds[n])
  {
    if ds == [] || !Complete(ds[0]) then 0 else 1 + InsertedPrefix(ds[1..])
  }

  lemma {:induction false} PrefixAtLeast(ds: seq<Draft>, i: nat)
    requires i <= |ds| && forall k :: 0 <= k < i ==> Complete(ds[k])
    ensures InsertedPrefix(ds) >= i
  {
    if i > 0 {
      PrefixAtLeast(ds[1..], i - 1);
    }
  }

  /** The rows created from `ds`, numbered from `firstId`. */
  function Numbered(ds: seq<Draft>, firstId: nat): (r: seq<Notification>)
    ensures |r| == |ds|
    ensures forall i :: 0 <= i < |ds| && Complete(ds[i]) ==> CreateResult(BulkDraft(ds[i]), firstId + i) == Ok(r[i])
  {
    seq(|ds|, i requires 0 <= i < |ds| =>
      var d := BulkDraft(ds[i]);
      Notification(firstId + i, d.userId, d.title, d.message, d.kind, d.relatedId, d.isRead))
  }

  lemma NumberedNext(ds: seq<Draft>, i: nat, firstId: nat)
    requires i < |ds| && Complete(ds[i])
    ensures Numbered(ds[..i + 1], firstId) == Numbered(ds[..i], firstId) + [CreateResult(BulkDraft(ds[i]), firstId + i).value]
  {
    assert ds[..i + 1][i] == ds[i];
    assert forall k :: 0 <= k < i ==> ds[..i + 1][k] == ds[..i][k];
  }

  /**
   * `createBulk`: [] for no input; refused before any insert when some input lacks a title
   * or a message; otherwise one `create` per input, in order, failing at the first input
   * whose type is missing.
   */
  function BulkResult(ds: seq<Draft>, firstId: nat): (r: Result<seq<Notification>>)
    ensures ds == [] ==> r == Ok([])
    ensures ds != [] && !AllHaveText(ds) ==> r == Fail(BulkRequiredMessage)
    ensures r.Ok? ==> |r.value| == |ds| && forall i :: 0 <= i < |ds| ==> r.value[i].userId == ds[i].userId && r.value[i].id == firstId + i
    ensures r.Ok? <==> forall i :: 0 <= i < |ds| ==> Complete(ds[i])
  {
    if ds == [] then Ok([])
    else if !AllHaveText(ds) then Fail(BulkRequiredMessage)
    else if InsertedPrefix(ds) < |ds| then Fail(RequiredMessage)
    else Ok(Numbered(ds, firstId))
  }

  /** The rows `createBulk` leaves inserted, including those inserted before a failing `create`. */
  function BulkWritten(ds: seq<Draft>, firstId: nat): (r: seq<Notification>)
    ensures BulkResult(ds, firstId).Ok? ==> r == BulkResult(ds, firstId).value
    ensures ds == [] || !AllHaveText(ds) ==> r == []
  {
    if ds == [] || !AllHaveText(ds) then [] else Numbered(ds[..InsertedPrefix(ds)], firstId)
  }

  /**
   * The text check runs over every input first, but the type is only checked by each
   * `create`: an input without a type after a complete one fails the bulk call with the
   * complete one already inserted.
   */
  lemma BulkPartialInsert(d: Draft, e: Draft, firstId: nat)
    requires Complete(d) && HasText(e) && e.kind == ""
    ensures BulkResult([d, e], firstId) == Fail(RequiredMessage)
    ensures |BulkWritten([d, e], firstId)| == 1 && BulkWritten([d, e], firstId)[0].userId == d.userId
  {
    assert InsertedPrefix([d, e]) == 1 by {
      assert [d, e][1..] == [e];
    }
  }

  // ---------------------------------------------------------------------------
  // queries and the read/unread operations

  function FindById(rows: seq<Notification>, id: nat): (r: Option<Notification>)
    ensures r.Some? ==> r.value in rows && r.value.id == id
    ensures r.None? <==> forall x :: x in rows ==> x.id != id
  {
    if rows == [] then None
    else if rows[0].id == id then Some(rows[0])
    else FindById(rows[1..], id)
  }

  /** `findByUser`: the user's rows, only the unread ones unless `includeRead` is set. */
  function FindByUser(rows: seq<Notification>, userId: int, includeRead: bool): (r: seq<Notification>)
    ensures forall x :: x in r <==> x in rows && x.userId == userId && (includeRead || !x.isRead)
    ensures |r| <= |rows|
  {
    if rows == [] then []
    else
      var x := rows[0];
      (if x.userId == userId && (includeRead || !x.isRead) then [x] else []) + FindByUser(rows[1..], userId, includeRead)
  }

  /** `countUnread`: `COUNT(*) ... WHERE user_id = $1 AND is_read = false`. */
  function CountUnread(rows: seq<Notification>, userId: int): (n: nat)
    ensures n <= |rows|
  {
    if rows == [] then 0
    else (if rows[0].userId == userId && !rows[0].isRead then 1 else 0) + CountUnread(rows[1..], userId)
  }

  /** The unread count is the length of the default listing. */
  lemma {:induction false} CountIsUnreadListing(rows: seq<Notification>, userId: int)
    ensures CountUnread(rows, userId) == |FindByUser(rows, userId, false)|
  {
    if rows != [] {
      CountIsUnreadListing(rows[1..], userId);
    }
  }

  function Read(x: Notification): Notification
  {
    x.(isRead := true)
  }

  /** The table after `UPDATE ... SET is_read = true WHERE id = $1`. */
  function MarkedRead(rows: seq<Notification>, id: nat): (r: seq<Notification>)
    ensures |r| == |rows|
    ensures forall i :: 0 <= i < |rows| ==> r[i] == if rows[i].id == id then Read(rows[i]) else rows[i]
  {
    seq(|rows|, i requires 0 <= i < |rows| => if rows[i].id == id then Read(rows[i]) else rows[i])
  }

  /** The table after `UPDATE ... SET is_read = true WHERE user_id = $1 AND is_read = false`. */
  function MarkedAllRead(rows: seq<Notification>, userId: int): (r: seq<Notification>)
    ensures |r| == |rows|
    ensures forall i :: 0 <= i < |rows| ==> r[i] == if rows[i].userId == userId then Read(rows[i]) else rows[i]
  {
    seq(|rows|, i requires 0 <= i < |rows| => if rows[i].userId == userId then Read(rows[i]) else rows[i])
  }

  /** The rows `markAllAsRead` returns: the user's formerly unread rows, now read. */
  function NewlyRead(rows: seq<Notification>, userId: int): (r: seq<Notification>)
    ensures |r| == CountUnread(rows, userId)
    ensures forall x :: x in r ==> x.userId == userId && x.isRead && x.(isRead := false) in rows
  {
    if rows == [] then []
    else
      var x := rows[0];
      (if x.userId == userId && !x.isRead then [Read(x)] else []) + NewlyRead(rows[1..], userId)
  }

  /** After `markAllAsRead` the user has nothing unread. */
  lemma {:induction false} MarkAllReadClears(rows: seq<Notification>, userId: int)
    ensures CountUnread(MarkedAllRead(rows, userId), userId) == 0
  {
    if rows != [] {
      MarkAllReadClears(rows[1..], userId);
      assert MarkedAllRead(rows, userId)[1..] == MarkedAllRead(rows[1..], userId);
    }
  }

  /** `markAllAsRead` leaves every other user's rows and unread count as they were. */
  lemma {:induction false} MarkAllReadSparesOthers(rows: seq<Notification>, userId: int, other: int, includeRead: bool)
    requires other != userId
    ensures FindByUser(MarkedAllRead(rows, userId), other, includeRead) == FindByUser(rows, other, includeRead)
    ensures CountUnread(MarkedAllRead(rows, userId), other) == CountUnread(rows, other)
  {
    if rows != [] {
      MarkAllReadSparesOthers(rows[1..], userId, other, includeRead);
      assert MarkedAllRead(rows, userId)[1..] == MarkedAllRead(rows[1..], userId);
    }
  }

  /** Marking one row read lowers its owner's unread count by one if it was unread, and leaves every other count alone. */
  lemma {:induction false} MarkOneReadCount(rows: seq<Notification>, id: nat, userId: int)
    requires forall i, j :: 0 <= i < j < |rows| ==> rows[i].id != rows[j].id
    ensures var x := FindById(rows, id);
      CountUnread(MarkedRead(rows, id), userId)
      == CountUnread(rows, userId) - (if x.Some? && x.value.userId == userId && !x.value.isRead then 1 else 0)
  {
    if rows != [] {
      assert MarkedRead(rows, id)[1..] == MarkedRead(rows[1..], id);
      MarkOneReadCount(rows[1..], id, userId);
      if rows[0].id == id {
        assert FindById(rows[1..], id).None? by {
          forall x | x in rows[1..] ensures x.id != id {
            var k :| 0 <= k < |rows[1..]| && rows[1..][k] == x;
            assert rows[k + 1] == x;
          }
        }
      }
    }
  }

  predicate DistinctIds(rows: seq<Notification>)
  {
    forall i, j :: 0 <= i < j < |rows| ==> rows[i].id != rows[j].id
  }

  /** The two deletes: one row by key, or every row of a user. */
  datatype Removal = ById(id: nat) | ByUser(userId: int)

  predicate Keeps(rule: Removal, x: Notification)
  {
    match rule
    case ById(id) => x.id != id
    case ByUser(u) => x.userId != u
  }

  /** The rows a `DELETE` leaves behind, in their order. */
  function Kept(rows: seq<Notification>, rule: Removal): (r: seq<Notification>)
    ensures forall x :: x in r <==> x in rows && Keeps(rule, x)
  {
    if rows == [] then [] else (if Keeps(rule, rows[0]) then [rows[0]] else []) + Kept(rows[1..], rule)
  }

  /** `DELETE FROM notifications WHERE id = $1`. */
  function WithoutId(rows: seq<Notification>, id: nat): (r: seq<Notification>)
    ensures forall x :: x in r <==> x in rows && x.id != id
  {
    Kept(rows, ById(id))
  }

  /** `DELETE FROM notifications WHERE user_id = $1`. */
  function WithoutUser(rows: seq<Notification>, userId: int): (r: seq<Notification>)
    ensures forall x :: x in r <==> x in rows && x.userId != userId
  {
    Kept(rows, ByUser(userId))
  }

  // ---------------------------------------------------------------------------
  // texts of the generated notifications

  /** The user ids of `SELECT user_id FROM enrollments WHERE course_id = $1`, any status. */
  function EnrolledUsers(enrollments: seq<EnrollmentModel.Enrollment>, courseId: nat): (r: seq<int>)
    ensures forall u :: u in r <==> exists e :: e in enrollments && e.courseId == courseId && e.userId == u
  {
    if enrollments == [] then []
    else
      var e := enrollments[0];
      assert forall x :: x in enrollments <==> x == e || x in enrollments[1..];
      (if e.courseId == courseId then [e.userId as int] else []) + EnrolledUsers(enrollments[1..], courseId)
  }

  /** The title, message and related id of a content update, before it is sent to each enrolled user. */
  datatype Notice = Notice(title: string, message: string, relatedId: Option<int>)

  /** `content_title ?? 'New Content'`: null and undefined give the default, '' is kept. */
  function SafeTitle(contentTitle: Option<string>): string
  {
    contentTitle.GetOr("New Content")
  }

  function AddedText(what: string, t: string, courseTitle: string): string
  {
    "A new " + what + " \"" + t + "\" has been added to your course \"" + courseTitle + "\"."
  }

  /** The `update_type` switch of `createCourseContentUpdateNotification`. */
  function ContentNotice(updateType: string, contentTitle: Option<string>, courseTitle: string,
                         courseId: nat, moduleId: Option<int>, lessonId: Option<int>): (r: Notice)
    ensures updateType == "new_module" ==>
      r.title == "New Module: " + SafeTitle(contentTitle) && r.relatedId == moduleId
    ensures updateType == "new_lesson" ==>
      r.title == "New Lesson: " + SafeTitle(contentTitle) && r.relatedId == lessonId
    ensures updateType == "new_quiz" ==>
      r.title == "New Quiz: " + SafeTitle(contentTitle) && r.relatedId == lessonId
    ensures updateType == "new_assignment" ==>
      r.title == "New Assignment: " + SafeTitle(contentTitle) && r.relatedId == lessonId
    ensures updateType !in {"new_module", "new_lesson", "new_quiz", "new_assignment"} ==>
      r.title == "Course Update: " + courseTitle && r.relatedId == Some(courseId as int)
    ensures r.title != "" && r.message != ""
  {
    var t := SafeTitle(contentTitle);
    match updateType
    case "new_module" => Notice("New Module: " + t, AddedText("module", t, courseTitle), moduleId)
    case "new_lesson" => Notice("New Lesson: " + t, AddedText("lesson", t, courseTitle), lessonId)
    case "new_quiz" => Notice("New Quiz: " + t, AddedText("quiz", t, courseTitle), lessonId)
    case "new_assignment" => Notice("New Assignment: " + t, AddedText("assignment", t, courseTitle), lessonId)
    case _ =>
      Notice("Course Update: " + courseTitle,
        "Your course \"" + courseTitle + "\" has been updated with new content.", Some(courseId as int))
  }

  /** The same notice for each of `users`, with type `kind`, unread. */
  function Broadcast(users: seq<int>, n: Notice, kind: string): (r: seq<Draft>)
    ensures |r| == |users|
    ensures forall i :: 0 <= i < |users| ==> r[i] == Draft(users[i], n.title, n.message, kind, n.relatedId, false)
  {
    seq(|users|, i requires 0 <= i < |users| => Draft(users[i], n.title, n.message, kind, n.relatedId, false))
  }

  /**
   * The drafts `createCourseContentUpdateNotification` hands to `createBulk`: refused without
   * a course id (0 is falsy) or an update type, [] when nobody is enrolled, 'Course not found'
   * when the course row is missing, else one 'course_update' draft per enrollment.
   */
  function ContentUpdateDrafts(courseId: nat, moduleId: Option<int>, lessonId: Option<int>, updateType: string,
                               contentTitle: Option<string>, enrollments: seq<EnrollmentModel.Enrollment>,
                               courseTitle: Option<string>): (r: Result<seq<Draft>>)
    ensures courseId == 0 || updateType == "" ==> r == Fail(CourseFieldsMessage)
    ensures courseId != 0 && updateType != "" && EnrolledUsers(enrollments, courseId) == [] ==> r == Ok([])
    ensures r.Ok? ==> |r.value| == |EnrolledUsers(enrollments, courseId)|
  {
    if courseId == 0 || updateType == "" then Fail(CourseFieldsMessage)
    else
      var users := EnrolledUsers(enrollments, courseId);
      if users == [] then Ok([])
      else if courseTitle.None? then Fail(CourseNotFoundMessage)
      else Ok(Broadcast(users, ContentNotice(updateType, contentTitle, courseTitle.value, courseId, moduleId, lessonId), "course_update"))
  }

  /** A content update creates exactly one unread 'course_update' notification per enrollment of the course. */
  lemma ContentUpdateOnePerEnrolled(courseId: nat, moduleId: Option<int>, lessonId: Option<int>, updateType: string,
                                    contentTitle: Option<string>, enrollments: seq<EnrollmentModel.Enrollment>,
                                    courseTitle: Option<string>, firstId: nat)
    requires ContentUpdateDrafts(courseId, moduleId, lessonId, updateType, contentTitle, enrollments, courseTitle).Ok?
    ensures var ds := ContentUpdateDrafts(courseId, moduleId, lessonId, updateType, contentTitle, enrollments, courseTitle).value;
      var users := EnrolledUsers(enrollments, courseId);
      BulkResult(ds, firstId).Ok? &&
      |BulkResult(ds, firstId).value| == |users| &&
      forall i :: 0 <= i < |users| ==>
        var x := BulkResult(ds, firstId).value[i];
        x.userId == users[i] && x.kind == "course_update" && !x.isRead
  {
    var ds := ContentUpdateDrafts(courseId, moduleId, lessonId, updateType, contentTitle, enrollments, courseTitle).value;
    if ds != [] {
      assert forall i :: 0 <= i < |ds| ==> Complete(ds[i]);
      assert AllHaveText(ds);
      PrefixAtLeast(ds, |ds|);
    }
  }

  /**
   * The drafts of `createCourseAnnouncement`: 'Course not found' when the course row is
   * missing (even with nobody enrolled), else one 'Announcement: <title>' draft per enrollment.
   */
  function AnnouncementDrafts(courseId: nat, title: string, message: string,
                              enrollments: seq<EnrollmentModel.Enrollment>, courseTitle: Option<string>): (r: Result<seq<Draft>>)
    ensures courseTitle.None? <==> r == Fail(CourseNotFoundMessage)
    ensures r.Ok? ==> |r.value| == |EnrolledUsers(enrollments, courseId)|
    ensures r.Ok? ==> forall i :: 0 <= i < |r.value| ==>
      r.value[i].title == "Announcement: " + title && r.value[i].message == message
      && r.value[i].kind == "course_announcement" && r.value[i].relatedId == Some(courseId as int)
  {
    if courseTitle.None? then Fail(CourseNotFoundMessage)
    else Ok(Broadcast(EnrolledUsers(enrollments, courseId), Notice("Announcement: " + title, message, Some(courseId as int)), "course_announcement"))
  }

  /** The users `createSystemNotification` targets: those of `role` when it is truthy, else every user. */
  function SystemTargets(users: seq<Http.User>, role: Option<string>): (r: seq<int>)
    ensures role.None? || role == Some("") ==> |r| == |users|
    ensures forall u :: u in r <==> exists x :: x in users && x.id == u && (role.None? || role == Some("") || x.role == role.value)
  {
    if users == [] then []
    else
      var x := users[0];
      assert forall y :: y in users <==> y == x || y in users[1..];
      (if role.None? || role == Some("") || x.role == role.value then [x.id] else []) + SystemTargets(users[1..], role)
  }

  function SystemDrafts(title: string, message: string, role: Option<string>, users: seq<Http.User>): (r: seq<Draft>)
    ensures |r| == |SystemTargets(users, role)|
    ensures forall i :: 0 <= i < |r| ==> r[i].kind == "system" && r[i].relatedId.None? && r[i].userId == SystemTargets(users, role)[i]
  {
    Broadcast(SystemTargets(users, role), Notice(title, message, None), "system")
  }

  // ---------------------------------------------------------------------------
  // The store

  class NotificationStore {
    var rows: seq<Notification>
    var nextId: nat

    ghost predicate Valid()
      reads this
    {
      DistinctIds(rows) && forall i :: 0 <= i < |rows| ==> rows[i].id < nextId
    }

    constructor ()
      ensures Valid() && rows == []
    {
      rows, nextId := [], 0;
    }

    /** `create`. */
    method Create(d: Draft) returns (r: Result<Notification>)
      requires Valid()
      modifies this
      ensures Valid()
      ensures r == CreateResult(d, old(nextId))
      ensures rows == if r.Ok? then old(rows) + [r.value] else old(rows)
      ensures nextId == if r.Ok? then old(nextId) + 1 else old(nextId)
    {
      r := CreateResult(d, nextId);
      if r.Ok? {
        rows := rows + [r.value];
        nextId := nextId + 1;
      }
    }

    /** `createBulk`: the text check over every input, then one `create` per input. */
    method CreateBulk(ds: seq<Draft>) returns (r: Result<seq<Notification>>)
      requires Valid()
      modifies this
      ensures Valid()
      ensures r == BulkResult(ds, old(nextId))
      ensures rows == old(rows) + BulkWritten(ds, old(nextId))
      ensures nextId == old(nextId) + |BulkWritten(ds, old(nextId))|
    {
      if |ds| == 0 {
        return Ok([]);
      }
      var i := 0;
      while i < |ds|
        invariant 0 <= i <= |ds|
        invariant forall k :: 0 <= k < i ==> HasText(ds[k])
      {
        if !HasText(ds[i]) {
          return Fail(BulkRequiredMessage);
        }
        i := i + 1;
      }
      var results: seq<Notification> := [];
      i := 0;
      while i < |ds|
        invariant 0 <= i <= |ds|
        invariant Valid()
        invariant forall k :: 0 <= k < i ==> Complete(ds[k])
        invariant results == Numbered(ds[..i], old(nextId))
        invariant rows == old(rows) + results
        invariant nextId == old(nextId) + i
      {
        var c := Create(BulkDraft(ds[i]));
        if c.Fail? {
          PrefixAtLeast(ds, i);
          assert InsertedPrefix(ds) == i;
          return Fail(c.message);
        }
        NumberedNext(ds, i, old(nextId));
        results := results + [c.value];
        i := i + 1;
      }
      PrefixAtLeast(ds, |ds|);
      assert ds[..|ds|] == ds;
      return Ok(results);
    }

    /** `markAsRead`: the updated row, or none for an unknown key. */
    method MarkAsRead(id: nat) returns (r: Option<Notification>)
      requires Valid()
      modifies this
      ensures Valid()
      ensures rows == MarkedRead(old(rows), id) && nextId == old(nextId)
      ensures r == if FindById(old(rows), id).Some? then Some(Read(FindById(old(rows), id).value)) else None
    {
      var found := FindById(rows, id);
      rows := MarkedRead(rows, id);
      r := if found.Some? then Some(Read(found.value)) else None;
    }

    /** `markAllAsRead`: every unread row of the user becomes read; those rows are returned. */
    method MarkAllAsRead(userId: int) returns (r: seq<Notification>)
      requires Valid()
      modifies this
      ensures Valid()
      ensures rows == MarkedAllRead(old(rows), userId) && nextId == old(nextId)
      ensures r == NewlyRead(old(rows), userId)
    {
      r := NewlyRead(rows, userId);
      rows := MarkedAllRead(rows, userId);
    }

    /** `delete`: the removed row, or none. */
    method Delete(id: nat) returns (r: Option<Notification>)
      requires Valid()
      modifies this
      ensures Valid()
      ensures r == FindById(old(rows), id)
      ensures rows == WithoutId(old(rows), id) && nextId == old(nextId)
    {
      r := FindById(rows, id);
      WithoutKeepsOrder(rows, ById(id));
      rows := WithoutId(rows, id);
    }

    /** `deleteAllForUser`: the user's rows are removed and returned. */
    method DeleteAllForUser(userId: int) returns (r: seq<Notification>)
      requires Valid()
      modifies this
      ensures Valid()
      ensures r == FindByUser(old(rows), userId, true)
      ensures rows == WithoutUser(old(rows), userId) && nextId == old(nextId)
    {
      r := FindByUser(rows, userId, true);
      WithoutKeepsOrder(rows, ByUser(userId));
      rows := WithoutUser(rows, userId);
    }
  }

  /** Removing rows keeps the rest in order, so their keys stay distinct. */
  lemma {:induction false} WithoutKeepsOrder(rows: seq<Notification>, rule: Removal)
    requires DistinctIds(rows)
    ensures DistinctIds(Kept(rows, rule))
  {
    if rows != [] {
      var tail := Kept(rows[1..], rule);
      WithoutKeepsOrder(rows[1..], rule);
      if Keeps(rule, rows[0]) {
        var r := [rows[0]] + tail;
        assert Kept(rows, rule) == r;
        forall i, j | 0 <= i < j < |r| ensures r[i].id != r[j].id {
          if i == 0 {
            assert r[j] == tail[j - 1] && tail[j - 1] in tail;
            var k :| 0 <= k < |rows[1..]| && rows[1..][k] == r[j];
            assert rows[k + 1] == r[j];
          } else {
            assert r[i] == tail[i - 1] && r[j] == tail[j - 1];
          }
        }
      } else {
        assert Kept(rows, rule) == tail;
      }
    }
  }
}
