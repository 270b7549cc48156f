// The enrollments table (server/models/enrollmentModel.js): one row per
// (user, course), its progress and status, and the instructor dashboard's
// progress buckets.

module EnrollmentModel {
  import opened Wrappers

  datatype Enrollment = Enrollment(
    id: nat, userId: nat, courseId: nat, status: string, progress: int, completedAt: Option<int>)

  /** The column defaults of a new row; the table's DDL is not part of this model. */
  const DefaultStatus := "active"
  const DefaultProgress := 0

  /** `findByUserAndCourse`: `rows[0] || null`, the first row for the pair. */
  function FindByUserAndCourse(rows: seq<Enrollment>, userId: nat, courseId: nat): (r: Option<Enrollment>)
    ensures r.Some? ==> r.value in rows && r.value.userId == userId && r.value.courseId == courseId
    ensures r.None? <==> forall e :: e in rows ==> !(e.userId == userId && e.courseId == courseId)
  {
    if rows == [] then None
    else if rows[0].userId == userId && rows[0].courseId == courseId then Some(rows[0])
    else FindByUserAndCourse(rows[1..], userId, courseId)
  }

  /** `isEnrolled`: `!!findByUserAndCourse(...)`. */
  predicate IsEnrolled(rows: seq<Enrollment>, userId: nat, courseId: nat)
  {
    FindByUserAndCourse(rows, userId, courseId).Some?
  }

  /** Any row for the pair counts as enrolled, whatever its status. */
  lemma IsEnrolledAnyStatus(rows: seq<Enrollment>, userId: nat, courseId: nat)
    ensures IsEnrolled(rows, userId, courseId) <==> exists e :: e in rows && e.userId == userId && e.courseId == courseId
  {
  }

  predicate UniqueIds(rows: seq<Enrollment>)
  {
    forall i, j :: 0 <= i < j < |rows| ==> rows[i].id != rows[j].id
  }

  /** At most one row per (user, course). */
  predicate OnePerPair(rows: seq<Enrollment>)
  {
    forall i, j :: 0 <= i < j < |rows| ==> !(rows[i].userId == rows[j].userId && rows[i].courseId == rows[j].courseId)
  }

  /** What `create` does to the table and what it returns. */
  function AfterCreate(rows: seq<Enrollment>, nextId: nat, userId: nat, courseId: nat): (seq<Enrollment>, Enrollment)
  {
    match FindByUserAndCourse(rows, userId, courseId)
    case Some(e) => (rows, e)
    case None =>
      var e := Enrollment(nextId, userId, courseId, DefaultStatus, DefaultProgress, None);
      (rows + [e], e)
  }

  /** `create` keeps one row per pair: it returns the existing row instead of inserting a second. */
  lemma CreateKeepsOnePerPair(rows: seq<Enrollment>, nextId: nat, userId: nat, courseId: nat)
    requires OnePerPair(rows)
    ensures OnePerPair(AfterCreate(rows, nextId, userId, courseId).0)
    ensures AfterCreate(rows, nextId, userId, courseId).1 in AfterCreate(rows, nextId, userId, courseId).0
    ensures |AfterCreate(rows, nextId, userId, courseId).0| <= |rows| + 1
  {
  }

  /** Enrolling twice is enrolling once: the second call returns the first call's row and changes nothing. */
  lemma CreateIdempotent(rows: seq<Enrollment>, nextId: nat, userId: nat, courseId: nat)
    ensures var (rows1, e1) := AfterCreate(rows, nextId, userId, courseId);
      AfterCreate(rows1, nextId + 1, userId, courseId) == (rows1, e1)
  {
    var (rows1, e1) := AfterCreate(rows, nextId, userId, courseId);
    if FindByUserAndCourse(rows, userId, courseId).None? {
      FindAfterAppend(rows, e1, userId, courseId);
    }
  }

  lemma {:induction false} FindAfterAppend(rows: seq<Enrollment>, e: Enrollment, userId: nat, courseId: nat)
    requires FindByUserAndCourse(rows, userId, courseId).None?
    requires e.userId == userId && e.courseId == courseId
    ensures FindByUserAndCourse(rows + [e], userId, courseId) == Some(e)
  {
    if rows != [] {
      assert (rows + [e])[1..] == rows[1..] + [e];
      FindAfterAppend(rows[1..], e, userId, courseId);
    }
  }

  /** `UPDATE enrollments SET ... WHERE id = $1`: `f` applied to the row with that key. */
  function UpdatedWhere(rows: seq<Enrollment>, id: nat, f: Enrollment -> Enrollment): (r: seq<Enrollment>)
    ensures |r| == |rows|
    ensures forall i :: 0 <= i < |rows| ==> r[i] == (if rows[i].id == id then f(rows[i]) else rows[i])
  {
    seq(|rows|, i requires 0 <= i < |rows| => if rows[i].id == id then f(rows[i]) else rows[i])
  }

  function FindById(rows: seq<Enrollment>, id: nat): (r: Option<Enrollment>)
    ensures r.Some? ==> r.value in rows && r.value.id == id
    ensures r.None? <==> forall e :: e in rows ==> e.id != id
  {
    if rows == [] then None
    else if rows[0].id == id then Some(rows[0])
    else FindById(rows[1..], id)
  }

  /** The row after `updateProgress`: only the progress column changes. */
  function WithProgress(e: Enrollment, progress: int): (r: Enrollment)
    ensures r.progress == progress && r.(progress := e.progress) == e
  {
    e.(progress := progress)
  }

  /** The row after `updateStatus`: only the status column changes. */
  function WithStatus(e: Enrollment, status: string): (r: Enrollment)
    ensures r.status == status && r.(status := e.status) == e
  {
    e.(status := status)
  }

  /** The row after `markCompleted`. */
  function Completed(e: Enrollment, now: int): (r: Enrollment)
    ensures r.status == "completed" && r.progress == 100 && r.completedAt == Some(now)
    ensures r.id == e.id && r.userId == e.userId && r.courseId == e.courseId
  {
    e.(status := "completed", progress := 100, completedAt := Some(now))
  }

  /** A later progress update leaves a completed row completed but moves its progress away from 100. */
  lemma ProgressAfterCompletion(e: Enrollment, now: int, p: int)
    ensures WithProgress(Completed(e, now), p).status == "completed"
    ensures WithProgress(Completed(e, now), p).progress == p
  {
  }

  /** The rows left after `DELETE ... WHERE id = $1`. */
  function WithoutId(rows: seq<Enrollment>, id: nat): (r: seq<Enrollment>)
    ensures forall e :: e in r <==> e in rows && e.id != id
  {
    if rows == [] then []
    else (if rows[0].id == id then [] else [rows[0]]) + WithoutId(rows[1..], id)
  }

  // ---------------------------------------------------------------------------
  // Progress buckets of the instructor dashboard

  datatype Bucket = NotStarted | InProgressLow | InProgressHigh | Finished

  /** The four `COUNT(CASE WHEN ...)` conditions. */
  predicate InBucket(progress: int, b: Bucket)
  {
    match b
    case NotStarted => progress == 0
    case InProgressLow => progress > 0 && progress < 50
    case InProgressHigh => progress >= 50 && progress < 100
    case Finished => progress == 100
  }

  /** The buckets are disjoint and cover 0..100; progress outside it falls in none. */
  lemma BucketsPartition(progress: int)
    ensures 0 <= progress <= 100 ==> exists b :: InBucket(progress, b)
    ensures forall b1, b2 :: InBucket(progress, b1) && InBucket(progress, b2) ==> b1 == b2
    ensures !(0 <= progress <= 100) ==> forall b :: !InBucket(progress, b)
  {
    if 0 <= progress <= 100 {
      if progress == 0 { assert InBucket(progress, NotStarted); }
      else if progress < 50 { assert InBucket(progress, InProgressLow); }
      else if progress < 100 { assert InBucket(progress, InProgressHigh); }
      else { assert InBucket(progress, Finished); }
    }
  }

  function CountIn(rows: seq<Enrollment>, b: Bucket): nat
  {
    if rows == [] then 0 else CountIn(rows[..|rows| - 1], b) + (if InBucket(rows[|rows| - 1].progress, b) then 1 else 0)
  }

  /** With every progress in 0..100, the four counts add up to the number of rows. */
  lemma {:induction false} BucketCountsAddUp(rows: seq<Enrollment>)
    requires forall i :: 0 <= i < |rows| ==> 0 <= rows[i].progress <= 100
    ensures CountIn(rows, NotStarted) + CountIn(rows, InProgressLow) + CountIn(rows, InProgressHigh) + CountIn(rows, Finished) == |rows|
  {
    if rows != [] {
      BucketCountsAddUp(rows[..|rows| - 1]);
      BucketsPartition(rows[|rows| - 1].progress);
    }
  }

  // ---------------------------------------------------------------------------
  // The store

  class EnrollmentStore {
    var enrollments: seq<Enrollment>
    var nextId: nat

    ghost predicate Valid()
      reads this
    {
      UniqueIds(enrollments) && OnePerPair(enrollments) &&
      forall i :: 0 <= i < |enrollments| ==> enrollments[i].id < nextId
    }

    constructor ()
      ensures Valid() && enrollments == []
    {
      enrollments, nextId := [], 0;
    }

    /** `create`: the existing row for the pair, or a new row with the column defaults. */
    method Create(userId: nat, courseId: nat) returns (r: Enrollment)
      requires Valid()
      modifies this
      ensures Valid()
      ensures (enrollments, r) == AfterCreate(old(enrollments), old(nextId), userId, courseId)
      ensures r.userId == userId && r.courseId == courseId
    {
      var existing := FindByUserAndCourse(enrollments, userId, courseId);
      if existing.Some? {
        return existing.value;
      }
      r := Enrollment(nextId, userId, courseId, DefaultStatus, DefaultProgress, None);
      enrollments := enrollments + [r];
      nextId := nextId + 1;
    }

    /** `updateProgress`: writes the progress column only; an unknown key gives no row. */
    method UpdateProgress(id: nat, progress: int) returns (r: Option<Enrollment>)
      requires Valid()
      modifies this
      ensures Valid()
      ensures enrollments == UpdatedWhere(old(enrollments), id, e => WithProgress(e, progress))
      ensures r == (if FindById(old(enrollments), id).Some? then Some(WithProgress(FindById(old(enrollments), id).value, progress)) else None)
      ensures nextId == old(nextId)
    {
      var found := FindById(enrollments, id);
      enrollments := UpdatedWhere(enrollments, id, e => WithProgress(e, progress));
      r := if found.Some? then Some(WithProgress(found.value, progress)) else None;
    }

    /** `markCompleted`: status 'completed', progress 100, completed_at now. */
    method MarkCompleted(id: nat, now: int) returns (r: Option<Enrollment>)
      requires Valid()
      modifies this
      ensures Valid()
      ensures enrollments == UpdatedWhere(old(enrollments), id, e => Completed(e, now))
      ensures r == (if FindById(old(enrollments), id).Some? then Some(Completed(FindById(old(enrollments), id).value, now)) else None)
      ensures nextId == old(nextId)
    {
      var found := FindById(enrollments, id);
      enrollments := UpdatedWhere(enrollments, id, e => Completed(e, now));
      r := if found.Some? then Some(Completed(found.value, now)) else None;
    }

    /** `updateStatus`: writes the status column only. */
    method UpdateStatus(id: nat, status: string) returns (r: Option<Enrollment>)
      requires Valid()
      modifies this
      ensures Valid()
      ensures enrollments == UpdatedWhere(old(enrollments), id, e => WithStatus(e, status))
      ensures r == (if FindById(old(enrollments), id).Some? then Some(WithStatus(FindById(old(enrollments), id).value, status)) else None)
      ensures nextId == old(nextId)
    {
      var found := FindById(enrollments, id);
      enrollments := UpdatedWhere(enrollments, id, e => WithStatus(e, status));
      r := if found.Some? then Some(WithStatus(found.value, status)) else None;
    }

    /** `delete` (unenroll): the deleted row, or null for an unknown key. */
    method Delete(id: nat) returns (r: Option<Enrollment>)
      requires Valid()
      modifies this
      ensures Valid()
      ensures enrollments == WithoutId(old(enrollments), id)
      ensures r == FindById(old(enrollments), id)
      ensures nextId == old(nextId)
    {
      r := FindById(enrollments, id);
      WithoutIdSubsequence(enrollments, id);
      enrollments := WithoutId(enrollments, id);
    }
  }

  /** Deleting by key keeps the other rows in order, so keys and pairs stay unique. */
  lemma {:induction false} WithoutIdSubsequence(rows: seq<Enrollment>, id: nat)
    requires UniqueIds(rows) && OnePerPair(rows)
    ensures UniqueIds(WithoutId(rows, id)) && OnePerPair(WithoutId(rows, id))
  {
    if rows != [] {
      KeysTail(rows);
      WithoutIdSubsequence(rows[1..], id);
      var rest := WithoutId(rows[1..], id);
      if rows[0].id != id {
        assert WithoutId(rows, id) == [rows[0]] + rest;
        KeysCons(rows[0], rest);
      } else {
        assert WithoutId(rows, id) == rest;
      }
    }
  }

  /** The tail of a table with unique keys and pairs has them too, and shares neither with the head. */
  lemma KeysTail(rows: seq<Enrollment>)
    requires rows != [] && UniqueIds(rows) && OnePerPair(rows)
    ensures UniqueIds(rows[1..]) && OnePerPair(rows[1..])
    ensures forall e :: e in rows[1..] ==>
      e.id != rows[0].id && !(e.userId == rows[0].userId && e.courseId == rows[0].courseId)
  {
    forall e | e in rows[1..]
      ensures e.id != rows[0].id && !(e.userId == rows[0].userId && e.courseId == rows[0].courseId)
    {
      var k :| 0 <= k < |rows[1..]| && rows[1..][k] == e;
      assert rows[k + 1] == e;
    }
  }

  /** A row put in front of a table that shares neither its key nor its pair keeps keys and pairs unique. */
  lemma KeysCons(x: Enrollment, rest: seq<Enrollment>)
    requires UniqueIds(rest) && OnePerPair(rest)
    requires forall e :: e in rest ==> e.id != x.id && !(e.userId == x.userId && e.courseId == x.courseId)
    ensures UniqueIds([x] + rest) && OnePerPair([x] + rest)
  {
    var r := [x] + rest;
    forall i, j | 0 <= i < j < |r|
      ensures r[i].id != r[j].id && !(r[i].userId == r[j].userId && r[i].courseId == r[j].courseId)
    {
      assert r[j] == rest[j - 1];
      if i > 0 {
        assert r[i] == rest[i - 1];
      } else {
        assert rest[j - 1] in rest;
      }
    }
  }
}
