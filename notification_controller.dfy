// The notification handlers (server/controllers/notificationController.js):
// ownership checks on a single notification, and the guards in front of
// system notices and course announcements.

module NotificationController {
  import opened Wrappers
  import opened Http
  import CourseModel
  import EnrollmentModel
  import opened NotificationModel

  /** A handler's status and the notifications table after it. */
  datatype Answer = Answer(status: Status, rows: seq<Notification>)

  /**
   * `getUserNotifications`: the query's page, type and is_read are handed over under names
   * `findByUser` does not read, so the answer is always the requester's unread rows.
   */
  function ListNotifications(user: User, rows: seq<Notification>, page: Option<int>, kind: Option<string>, isRead: Option<bool>): (r: seq<Notification>)
    ensures forall x :: x in r <==> x in rows && x.userId == user.id && !x.isRead
  {
    FindByUser(rows, user.id, false)
  }

  /** Whatever page, type or read filter the query asks for, the listing is the same. */
  lemma ListIgnoresQuery(user: User, rows: seq<Notification>, page: Option<int>, kind: Option<string>, isRead: Option<bool>)
    ensures ListNotifications(user, rows, page, kind, isRead) == ListNotifications(user, rows, None, None, None)
    ensures ListNotifications(user, rows, page, kind, Some(true)) == FindByUser(rows, user.id, false)
  {
  }

  /** The check shared by view, mark-as-read and delete: 404 for an unknown row, 403 for someone else's. */
  function OwnedStatus(user: User, rows: seq<Notification>, id: nat): (r: Status)
    ensures r == NOT_FOUND <==> FindById(rows, id).None?
    ensures r == FORBIDDEN <==> FindById(rows, id).Some? && FindById(rows, id).value.userId != user.id
    ensures r == OK <==> FindById(rows, id).Some? && FindById(rows, id).value.userId == user.id
  {
    match FindById(rows, id)
    case None => NOT_FOUND
    case Some(x) => if x.userId != user.id then FORBIDDEN else OK
  }

  /** An admin gets no exception: another user's notification is 403 to everyone. */
  lemma NoAdminOverride(admin: User, rows: seq<Notification>, id: nat)
    requires IsAdmin(admin) && FindById(rows, id).Some? && FindById(rows, id).value.userId != admin.id
    ensures OwnedStatus(admin, rows, id) == FORBIDDEN
  {
  }

  /** `markAsRead`: the owner's row becomes read; anything else changes nothing. */
  function MarkRead(user: User, rows: seq<Notification>, id: nat): (r: Answer)
    ensures r.status == OwnedStatus(user, rows, id)
    ensures r.status == OK ==> r.rows == MarkedRead(rows, id)
    ensures r.status != OK ==> r.rows == rows
  {
    if OwnedStatus(user, rows, id) == OK then Answer(OK, MarkedRead(rows, id)) else Answer(OwnedStatus(user, rows, id), rows)
  }

  /** `deleteNotification`: the owner's row is removed; anything else changes nothing. */
  function DeleteOne(user: User, rows: seq<Notification>, id: nat): (r: Answer)
    ensures r.status == OwnedStatus(user, rows, id)
    ensures r.status == OK ==> forall x :: x in r.rows <==> x in rows && x.id != id
    ensures r.status != OK ==> r.rows == rows
  {
    if OwnedStatus(user, rows, id) == OK then Answer(OK, WithoutId(rows, id)) else Answer(OwnedStatus(user, rows, id), rows)
  }

  /** A user can only ever remove their own rows: every other user's notifications survive a delete request. */
  lemma DeleteSparesOthers(user: User, rows: seq<Notification>, id: nat, x: Notification)
    requires DistinctIds(rows) && x in rows && x.userId != user.id
    ensures x in DeleteOne(user, rows, id).rows
  {
    var f := FindById(rows, id);
    if f.Some? && f.value.userId == user.id {
      var i :| 0 <= i < |rows| && rows[i] == x;
      var j :| 0 <= j < |rows| && rows[j] == f.value;
      assert i != j;
    }
  }

  /** `markAllAsRead`, `deleteAllNotifications` and `getUnreadCount` act on the requester's rows only. */
  function MarkAllRead(user: User, rows: seq<Notification>): (r: Answer)
    ensures r.status == OK && CountUnread(r.rows, user.id) == 0
    ensures forall other :: other != user.id ==> CountUnread(r.rows, other) == CountUnread(rows, other)
  {
    MarkAllReadClears(rows, user.id);
    assert forall other :: other != user.id ==> CountUnread(MarkedAllRead(rows, user.id), other) == CountUnread(rows, other) by {
      forall other | other != user.id
        ensures CountUnread(MarkedAllRead(rows, user.id), other) == CountUnread(rows, other)
      {
        MarkAllReadSparesOthers(rows, user.id, other, false);
      }
    }
    Answer(OK, MarkedAllRead(rows, user.id))
  }

  function DeleteAll(user: User, rows: seq<Notification>): (r: Answer)
    ensures r.status == OK
    ensures forall x :: x in r.rows <==> x in rows && x.userId != user.id
  {
    Answer(OK, WithoutUser(rows, user.id))
  }

  function UnreadCount(user: User, rows: seq<Notification>): (r: nat)
    ensures r == |ListNotifications(user, rows, None, None, None)|
  {
    CountIsUnreadListing(rows, user.id);
    CountUnread(rows, user.id)
  }

  // ---------------------------------------------------------------------------
  // createSystemNotification

  /** A handler's status and the drafts it hands to `createBulk`. */
  datatype Sent = Sent(status: Status, drafts: seq<Draft>)

  /**
   * `createSystemNotification` as written: 400 without a title or message, 403 for a
   * non-admin, then 201. The body's `roles` is passed under that name, while the model
   * reads `role`, which therefore takes its default null.
   */
  function SystemNotificationAsWritten(user: User, title: string, message: string, roles: Option<string>,
                                       users: seq<User>): (r: Sent)
    ensures title == "" || message == "" ==> r.status == BAD_REQUEST
    ensures title != "" && message != "" && !IsAdmin(user) ==> r.status == FORBIDDEN
    ensures r.status == CREATED <==> title != "" && message != "" && IsAdmin(user)
    ensures r.status != CREATED ==> r.drafts == []
  {
    if title == "" || message == "" then Sent(BAD_REQUEST, [])
    else if !IsAdmin(user) then Sent(FORBIDDEN, [])
    else Sent(CREATED, SystemDrafts(title, message, None, users))
  }

  /** As written, a system notice goes to every user whatever `roles` the request names. */
  lemma SystemNotificationReachesEveryone(user: User, title: string, message: string, roles: Option<string>, users: seq<User>)
    requires SystemNotificationAsWritten(user, title, message, roles, users).status == CREATED
    ensures |SystemNotificationAsWritten(user, title, message, roles, users).drafts| == |users|
    ensures forall x :: x in users ==> exists d :: d in SystemNotificationAsWritten(user, title, message, roles, users).drafts && d.userId == x.id
  {
    var ds := SystemNotificationAsWritten(user, title, message, roles, users).drafts;
    forall x | x in users
      ensures exists d :: d in ds && d.userId == x.id
    {
      var targets := SystemTargets(users, None);
      assert x.id in targets;
      var i :| 0 <= i < |targets| && targets[i] == x.id;
      assert ds[i] in ds;
    }
  }

  /** `createSystemNotification` with the body's `roles` handed over as `role`. */
  function SystemNotificationByRole(user: User, title: string, message: string, roles: Option<string>,
                                    users: seq<User>): (r: Sent)
    ensures r.status == CREATED <==> title != "" && message != "" && IsAdmin(user)
    ensures r.status == CREATED && roles.Some? && roles.value != "" ==>
      forall d :: d in r.drafts ==> exists x :: x in users && x.id == d.userId && x.role == roles.value
    ensures r.status == CREATED ==>
      forall x :: x in users && (roles.None? || roles == Some("") || x.role == roles.value) ==>
        exists d :: d in r.drafts && d.userId == x.id
  {
    if title == "" || message == "" then Sent(BAD_REQUEST, [])
    else if !IsAdmin(user) then Sent(FORBIDDEN, [])
    else
      var targets := SystemTargets(users, roles);
      var ds := SystemDrafts(title, message, roles, users);
      assert forall d :: d in ds ==> d.userId in targets by {
        forall d | d in ds ensures d.userId in targets {
          var i :| 0 <= i < |ds| && ds[i] == d;
        }
      }
      assert forall x :: x in users && (roles.None? || roles == Some("") || x.role == roles.value) ==>
        exists d :: d in ds && d.userId == x.id by {
        forall x | x in users && (roles.None? || roles == Some("") || x.role == roles.value)
          ensures exists d :: d in ds && d.userId == x.id
        {
          assert x.id in targets;
          var i :| 0 <= i < |targets| && targets[i] == x.id;
          assert ds[i] in ds;
        }
      }
      Sent(CREATED, ds)
  }

  // ---------------------------------------------------------------------------
  // createCourseAnnouncement

  /**
   * `createCourseAnnouncement`: 400 without a title or message, 404 for an unknown course,
   * 403 unless an admin or the course's instructor, then 201 with one announcement per
   * enrollment of the course.
   */
  function CourseAnnouncement(user: User, courseId: nat, title: string, message: string,
                              course: Option<CourseModel.Course>, enrollments: seq<EnrollmentModel.Enrollment>): (r: Sent)
    ensures title == "" || message == "" ==> r.status == BAD_REQUEST
    ensures title != "" && message != "" && course.None? ==> r.status == NOT_FOUND
    ensures r.status == CREATED <==>
      title != "" && message != "" && course.Some? && AdminOrOwner(Some(user), course.value.instructorId)
    ensures r.status == CREATED ==>
      |r.drafts| == |EnrolledUsers(enrollments, courseId)| && BulkResult(r.drafts, 0).Ok?
    ensures r.status != CREATED ==> r.drafts == []
  {
    if title == "" || message == "" then Sent(BAD_REQUEST, [])
    else if course.None? then Sent(NOT_FOUND, [])
    else if !AdminOrOwner(Some(user), course.value.instructorId) then Sent(FORBIDDEN, [])
    else
      var ds := AnnouncementDrafts(courseId, title, message, enrollments, Some(course.value.title));
      if ds.Fail? then Sent(SERVER_ERROR, [])
      else
        assert BulkResult(ds.value, 0).Ok? by {
          if ds.value != [] {
            assert forall i :: 0 <= i < |ds.value| ==> Complete(ds.value[i]);
            assert AllHaveText(ds.value);
            PrefixAtLeast(ds.value, |ds.value|);
          }
        }
        Sent(CREATED, ds.value)
  }
}
