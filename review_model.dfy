// Course reviews (server/models/reviewModel.js): one review per enrolled user
// and course, the review_helpful toggle that keeps `helpful_count` in step with
// the marks, the sort-parameter sanitising and the featured selection.

module ReviewModel {
  import opened Wrappers
  import Strings
  import EnrollmentModel

  /** A row of `reviews`; `text` is the nullable `review_text` column. */
  datatype Review = Review(
    id: nat, userId: nat, courseId: nat, text: Option<string>, helpfulCount: int, createdAt: int, updatedAt: int)

  /** A row of `review_helpful`: `userId` marked review `reviewId` as helpful. */
  datatype Helpful = Helpful(reviewId: nat, userId: nat)

  const NotEnrolledMessage := "User must be enrolled in the course to leave a review"
  const AlreadyReviewedMessage := "User has already reviewed this course"
  const NotFoundMessage := "Review not found"

  function FindById(rows: seq<Review>, id: nat): (r: Option<Review>)
    ensures r.Some? ==> r.value in rows && r.value.id == id
    ensures r.None? <==> forall x :: x in rows ==> x.id != id
  {
    if rows == [] then None
    else if rows[0].id == id then Some(rows[0])
    else FindById(rows[1..], id)
  }

  /** `findByUserAndCourse`: the first review of the pair, or null. */
  function FindByUserAndCourse(rows: seq<Review>, userId: nat, courseId: nat): (r: Option<Review>)
    ensures r.Some? ==> r.value in rows && r.value.userId == userId && r.value.courseId == courseId
    ensures r.None? <==> forall x :: x in rows ==> !(x.userId == userId && x.courseId == courseId)
  {
    if rows == [] then None
    else if rows[0].userId == userId && rows[0].courseId == courseId then Some(rows[0])
    else FindByUserAndCourse(rows[1..], userId, courseId)
  }

  predicate UniqueIds(rows: seq<Review>)
  {
    forall a, b :: a in rows && b in rows && a.id == b.id ==> a == b
  }

  /** At most one review per (user, course). */
  predicate OnePerPair(rows: seq<Review>)
  {
    forall a, b :: a in rows && b in rows && a.userId == b.userId && a.courseId == b.courseId ==> a == b
  }

  // ---------------------------------------------------------------------------
  // create and canUserReviewCourse

  /**
   * `create`: refused when the user has no enrollment row for the course, whatever its
   * status, then when the pair already has a review; otherwise the inserted row, with
   * `helpful_count` at its column default 0.
   */
  function CreateRow(enrollments: seq<EnrollmentModel.Enrollment>, rows: seq<Review>, nextId: nat,
                     userId: nat, courseId: nat, text: Option<string>, now: int): (r: Result<Review>)
    ensures !EnrollmentModel.IsEnrolled(enrollments, userId, courseId) ==> r == Fail(NotEnrolledMessage)
    ensures EnrollmentModel.IsEnrolled(enrollments, userId, courseId) && FindByUserAndCourse(rows, userId, courseId).Some?
      ==> r == Fail(AlreadyReviewedMessage)
    ensures r.Ok? <==> EnrollmentModel.IsEnrolled(enrollments, userId, courseId) && FindByUserAndCourse(rows, userId, courseId).None?
    ensures r.Ok? ==>
      r.value.id == nextId && r.value.userId == userId && r.value.courseId == courseId
      && r.value.text == text && r.value.helpfulCount == 0
  {
    if !EnrollmentModel.IsEnrolled(enrollments, userId, courseId) then Fail(NotEnrolledMessage)
    else if FindByUserAndCourse(rows, userId, courseId).Some? then Fail(AlreadyReviewedMessage)
    else Ok(Review(nextId, userId, courseId, text, 0, now, now))
  }

  /** A successful create keeps one review per pair, and the same request made again is refused. */
  lemma CreateKeepsOnePerPair(enrollments: seq<EnrollmentModel.Enrollment>, rows: seq<Review>, nextId: nat,
                              userId: nat, courseId: nat, text: Option<string>, now: int)
    requires OnePerPair(rows)
    requires CreateRow(enrollments, rows, nextId, userId, courseId, text, now).Ok?
    ensures OnePerPair(rows + [CreateRow(enrollments, rows, nextId, userId, courseId, text, now).value])
    ensures forall id: nat, t: Option<string>, later: int ::
      CreateRow(enrollments, rows + [CreateRow(enrollments, rows, nextId, userId, courseId, text, now).value],
                id, userId, courseId, t, later) == Fail(AlreadyReviewedMessage)
  {
    var v := CreateRow(enrollments, rows, nextId, userId, courseId, text, now).value;
    forall id: nat, t: Option<string>, later: int
      ensures CreateRow(enrollments, rows + [v], id, userId, courseId, t, later) == Fail(AlreadyReviewedMessage)
    {
      assert v in rows + [v];
    }
  }

  /** The object `canUserReviewCourse` returns: `{canReview, reason, reviewId}`. */
  datatype Eligibility = Eligibility(canReview: bool, reason: Option<string>, reviewId: Option<nat>)

  /** `canUserReviewCourse`: not_enrolled first, then already_reviewed with the review's id. */
  function CanUserReviewCourse(enrollments: seq<EnrollmentModel.Enrollment>, rows: seq<Review>,
                               userId: nat, courseId: nat): (r: Eligibility)
    ensures !EnrollmentModel.IsEnrolled(enrollments, userId, courseId) ==> !r.canReview && r.reason == Some("not_enrolled")
    ensures EnrollmentModel.IsEnrolled(enrollments, userId, courseId) && FindByUserAndCourse(rows, userId, courseId).Some? ==>
      !r.canReview && r.reason == Some("already_reviewed") && r.reviewId == Some(FindByUserAndCourse(rows, userId, courseId).value.id)
    ensures r.canReview <==> r.reason.None?
  {
    if !EnrollmentModel.IsEnrolled(enrollments, userId, courseId) then Eligibility(false, Some("not_enrolled"), None)
    else match FindByUserAndCourse(rows, userId, courseId)
      case Some(x) => Eligibility(false, Some("already_reviewed"), Some(x.id))
      case None => Eligibility(true, None, None)
  }

  /** The eligibility check and `create` agree: eligible exactly when the create would succeed. */
  lemma EligibleIffCreates(enrollments: seq<EnrollmentModel.Enrollment>, rows: seq<Review>, nextId: nat,
                           userId: nat, courseId: nat, text: Option<string>, now: int)
    ensures CanUserReviewCourse(enrollments, rows, userId, courseId).canReview
      <==> CreateRow(enrollments, rows, nextId, userId, courseId, text, now).Ok?
    ensures !CanUserReviewCourse(enrollments, rows, userId, courseId).canReview ==>
      ((CanUserReviewCourse(enrollments, rows, userId, courseId).reason == Some("not_enrolled"))
      <==> (CreateRow(enrollments, rows, nextId, userId, courseId, text, now) == Fail(NotEnrolledMessage)))
  {
  }

  // ---------------------------------------------------------------------------
  // update and delete

  /** `SET review_text = COALESCE($2, review_text), updated_at = CURRENT_TIMESTAMP`. */
  function Rewritten(x: Review, text: Option<string>, now: int): (r: Review)
    ensures r.text == (if text.Some? then text else x.text) && r.updatedAt == now
    ensures r.(text := x.text, updatedAt := x.updatedAt) == x
  {
    x.(text := if text.Some? then text else x.text, updatedAt := now)
  }

  /** Rewriting with the same text twice stores what rewriting once stores. */
  lemma RewriteIdempotent(x: Review, text: Option<string>, now: int, later: int)
    ensures Rewritten(Rewritten(x, text, now), text, later) == Rewritten(x, text, later)
  {
  }

  /** Every row with key `id` replaced by `f` of itself, the rest untouched. */
  function UpdatedWhere(rows: seq<Review>, id: nat, f: Review -> Review): (r: seq<Review>)
    ensures |r| == |rows|
    ensures forall i :: 0 <= i < |rows| ==> r[i] == if rows[i].id == id then f(rows[i]) else rows[i]
  {
    seq(|rows|, i requires 0 <= i < |rows| => if rows[i].id == id then f(rows[i]) else rows[i])
  }

  /** `update`: 'Review not found' for an unknown key, else the rewritten row. */
  function UpdateResult(rows: seq<Review>, id: nat, text: Option<string>, now: int): (r: Result<Review>)
    ensures r.Fail? <==> FindById(rows, id).None?
    ensures r.Fail? ==> r.message == NotFoundMessage
    ensures r.Ok? ==> r.value == Rewritten(FindById(rows, id).value, text, now)
  {
    match FindById(rows, id)
    case None => Fail(NotFoundMessage)
    case Some(x) => Ok(Rewritten(x, text, now))
  }

  /** The rows left after `DELETE FROM reviews WHERE id = $1`. */
  function WithoutId(rows: seq<Review>, id: nat): (r: seq<Review>)
    ensures forall x :: x in r <==> x in rows && x.id != id
    ensures |r| <= |rows|
  {
    if rows == [] then []
    else (if rows[0].id == id then [] else [rows[0]]) + WithoutId(rows[1..], id)
  }

  // ---------------------------------------------------------------------------
  // markAsHelpful and isMarkedHelpful

  /** The users who marked review `reviewId` as helpful. */
  function Markers(marks: seq<Helpful>, reviewId: nat): set<nat>
  {
    set h | h in marks && h.reviewId == reviewId :: h.userId
  }

  /** The invariant `markAsHelpful` keeps: each review's `helpful_count` is the number of users who marked it. */
  predicate CountsMatch(rows: seq<Review>, marks: seq<Helpful>)
  {
    forall x :: x in rows ==> x.helpfulCount == |Markers(marks, x.id)|
  }

  /** `isMarkedHelpful`: `EXISTS (SELECT 1 FROM review_helpful WHERE review_id = $1 AND user_id = $2)`. */
  predicate IsMarkedHelpful(marks: seq<Helpful>, reviewId: nat, userId: nat)
  {
    Helpful(reviewId, userId) in marks
  }

  /** The rows left after `DELETE FROM review_helpful WHERE review_id = $1 AND user_id = $2`. */
  function Unmarked(marks: seq<Helpful>, reviewId: nat, userId: nat): (r: seq<Helpful>)
    ensures forall h :: h in r <==> h in marks && h != Helpful(reviewId, userId)
  {
    if marks == [] then []
    else (if marks[0] == Helpful(reviewId, userId) then [] else [marks[0]]) + Unmarked(marks[1..], reviewId, userId)
  }

  /** The tables after a toggle, and the `{ review, marked }` object it returns. */
  datatype Toggled = Toggled(reviews: seq<Review>, marks: seq<Helpful>, review: Option<Review>, marked: bool)

  function Bump(x: Review, delta: int): (r: Review)
    ensures r.helpfulCount == x.helpfulCount + delta && r.(helpfulCount := x.helpfulCount) == x
  {
    x.(helpfulCount := x.helpfulCount + delta)
  }

  /**
   * `markAsHelpful`: a user who already marked the review loses the mark and the count
   * drops by one (`marked: false`); otherwise the mark is inserted and the count rises by
   * one (`marked: true`). The returned review is the updated row, if there is one.
   */
  function Toggle(rows: seq<Review>, marks: seq<Helpful>, reviewId: nat, userId: nat): (r: Toggled)
    ensures r.marked <==> !IsMarkedHelpful(marks, reviewId, userId)
    ensures IsMarkedHelpful(r.marks, reviewId, userId) == r.marked
    ensures r.review == (if FindById(rows, reviewId).Some?
      then Some(Bump(FindById(rows, reviewId).value, if r.marked then 1 else -1)) else None)
  {
    var delta := if IsMarkedHelpful(marks, reviewId, userId) then -1 else 1;
    var found := FindById(rows, reviewId);
    var review := if found.Some? then Some(Bump(found.value, delta)) else None;
    var rows' := UpdatedWhere(rows, reviewId, x => Bump(x, delta));
    if IsMarkedHelpful(marks, reviewId, userId) then Toggled(rows', Unmarked(marks, reviewId, userId), review, false)
    else Toggled(rows', marks + [Helpful(reviewId, userId)], review, true)
  }

  lemma MarkersUnmarked(marks: seq<Helpful>, reviewId: nat, userId: nat, id: nat)
    ensures Markers(Unmarked(marks, reviewId, userId), id) == if id == reviewId then Markers(marks, id) - {userId} else Markers(marks, id)
  {
    var after := Unmarked(marks, reviewId, userId);
    forall u | u in Markers(marks, id) && !(id == reviewId && u == userId)
      ensures u in Markers(after, id)
    {
      assert Helpful(id, u) in after;
    }
  }

  lemma MarkersAppended(marks: seq<Helpful>, reviewId: nat, userId: nat, id: nat)
    ensures Markers(marks + [Helpful(reviewId, userId)], id) == if id == reviewId then Markers(marks, id) + {userId} else Markers(marks, id)
  {
    var after := marks + [Helpful(reviewId, userId)];
    forall u | u in Markers(marks, id)
      ensures u in Markers(after, id)
    {
      assert Helpful(id, u) in after;
    }
    if id == reviewId {
      assert Helpful(id, userId) in after;
    }
  }

  /** A toggle keeps every review's count equal to its number of markers. */
  lemma ToggleKeepsCounts(rows: seq<Review>, marks: seq<Helpful>, reviewId: nat, userId: nat)
    requires CountsMatch(rows, marks)
    ensures CountsMatch(Toggle(rows, marks, reviewId, userId).reviews, Toggle(rows, marks, reviewId, userId).marks)
  {
    var t := Toggle(rows, marks, reviewId, userId);
    var was := IsMarkedHelpful(marks, reviewId, userId);
    forall y | y in t.reviews
      ensures y.helpfulCount == |Markers(t.marks, y.id)|
    {
      var i :| 0 <= i < |t.reviews| && t.reviews[i] == y;
      var x := rows[i];
      assert x in rows;
      if was {
        MarkersUnmarked(marks, reviewId, userId, y.id);
        if x.id == reviewId {
          assert Helpful(reviewId, userId) in marks;
          assert userId in Markers(marks, reviewId);
        }
      } else {
        MarkersAppended(marks, reviewId, userId, y.id);
        if x.id == reviewId {
          assert userId !in Markers(marks, reviewId);
        }
      }
    }
  }

  lemma {:induction false} UnmarkedAbsent(marks: seq<Helpful>, reviewId: nat, userId: nat)
    requires Helpful(reviewId, userId) !in marks
    ensures Unmarked(marks, reviewId, userId) == marks
  {
    if marks != [] {
      assert marks[0] != Helpful(reviewId, userId);
      UnmarkedAbsent(marks[1..], reviewId, userId);
      assert marks == [marks[0]] + marks[1..];
    }
  }

  lemma {:induction false} UnmarkedAppended(marks: seq<Helpful>, reviewId: nat, userId: nat)
    ensures Unmarked(marks + [Helpful(reviewId, userId)], reviewId, userId) == Unmarked(marks, reviewId, userId)
  {
    if marks == [] {
      assert Unmarked([Helpful(reviewId, userId)][1..], reviewId, userId) == [];
    } else {
      assert (marks + [Helpful(reviewId, userId)])[1..] == marks[1..] + [Helpful(reviewId, userId)];
      UnmarkedAppended(marks[1..], reviewId, userId);
    }
  }

  /**
   * Toggling twice restores the reviews exactly; the marks come back as the same set of
   * rows (unmark-then-mark moves the mark to the end of the table), and the two calls
   * report opposite `marked` values.
   */
  lemma ToggleTwice(rows: seq<Review>, marks: seq<Helpful>, reviewId: nat, userId: nat)
    ensures var once := Toggle(rows, marks, reviewId, userId);
      var twice := Toggle(once.reviews, once.marks, reviewId, userId);
      twice.reviews == rows && (forall h :: h in twice.marks <==> h in marks) && twice.marked == !once.marked
    ensures !IsMarkedHelpful(marks, reviewId, userId) ==>
      Toggle(Toggle(rows, marks, reviewId, userId).reviews, Toggle(rows, marks, reviewId, userId).marks, reviewId, userId).marks == marks
  {
    var once := Toggle(rows, marks, reviewId, userId);
    var twice := Toggle(once.reviews, once.marks, reviewId, userId);
    assert |twice.reviews| == |rows|;
    forall i | 0 <= i < |rows|
      ensures twice.reviews[i] == rows[i]
    {
    }
    if !IsMarkedHelpful(marks, reviewId, userId) {
      UnmarkedAppended(marks, reviewId, userId);
      UnmarkedAbsent(marks, reviewId, userId);
    }
  }

  // ---------------------------------------------------------------------------
  // findByCourse: sort-parameter sanitising

  const SortColumns: seq<string> := ["created_at", "helpful_count"]
  const SortOrders: seq<string> := ["ASC", "DESC"]

  /** The column interpolated into `ORDER BY r.${sortBy}`: created_at unless one of the two allowed columns. */
  function SortColumn(sortBy: string): (r: string)
    ensures r in SortColumns
    ensures sortBy in SortColumns ==> r == sortBy
    ensures sortBy !in SortColumns ==> r == "created_at"
  {
    if sortBy in SortColumns then sortBy else "created_at"
  }

  /**
   * The direction interpolated after the column: the caller's own text when its upper case
   * is ASC or DESC (so 'asc' stays 'asc'), else DESC.
   */
  function SortOrder(sortOrder: string): (r: string)
    ensures Strings.Upper(r) in SortOrders
    ensures Strings.Upper(sortOrder) in SortOrders ==> r == sortOrder
    ensures Strings.Upper(sortOrder) !in SortOrders ==> r == "DESC"
  {
    if Strings.Upper(sortOrder) in SortOrders then sortOrder
    else assert Strings.Upper("DESC") == "DESC"; "DESC"
  }

  /**
   * Sanitising is idempotent, and what reaches the query text is one of the two columns and
   * a direction of three or four letters; the long s (U+017F) passes the case-insensitive
   * check, so 'deſc' is kept as it is.
   */
  lemma SortSanitised(sortBy: string, sortOrder: string)
    ensures SortColumn(SortColumn(sortBy)) == SortColumn(sortBy)
    ensures SortOrder(SortOrder(sortOrder)) == SortOrder(sortOrder)
    ensures 3 <= |SortOrder(sortOrder)| <= 4
    ensures SortOrder("asc") == "asc" && SortOrder("ascending") == "DESC"
    ensures SortOrder("deſc") == "deſc"
  {
    assert Strings.Upper("asc") == "ASC";
    assert Strings.Upper("deſc") == "DESC";
    assert Strings.Upper("ascending") != "ASC";
    assert Strings.Upper("ascending") != "DESC";
  }

  // ---------------------------------------------------------------------------
  // getFeaturedReviews

  /** The featured filter: the course's reviews whose text is present and longer than 10 characters. */
  predicate Featurable(x: Review, courseId: nat)
  {
    x.courseId == courseId && x.text.Some? && |x.text.value| > 10
  }

  function FeaturableRows(rows: seq<Review>, courseId: nat): (r: seq<Review>)
    ensures forall x :: x in r <==> x in rows && Featurable(x, courseId)
    ensures multiset(r) <= multiset(rows)
  {
    if rows == [] then []
    else
      assert rows == [rows[0]] + rows[1..];
      (if Featurable(rows[0], courseId) then [rows[0]] else []) + FeaturableRows(rows[1..], courseId)
  }

  /** `ORDER BY helpful_count DESC, created_at DESC`: `a` may be listed before `b`. */
  predicate Ahead(a: Review, b: Review)
  {
    a.helpfulCount > b.helpfulCount || (a.helpfulCount == b.helpfulCount && a.createdAt >= b.createdAt)
  }

  predicate FeaturedOrder(s: seq<Review>)
  {
    forall i, j :: 0 <= i < j < |s| ==> Ahead(s[i], s[j])
  }

  function Insert(x: Review, s: seq<Review>): (r: seq<Review>)
    requires FeaturedOrder(s)
    ensures multiset(r) == multiset(s) + multiset{x}
    ensures FeaturedOrder(r)
  {
    if s == [] then [x]
    else if Ahead(x, s[0]) then [x] + s
    else
      var rest := Insert(x, s[1..]);
      assert s == [s[0]] + s[1..];
      assert forall k :: 0 <= k < |rest| ==> Ahead(s[0], rest[k]) by {
        forall k | 0 <= k < |rest| ensures Ahead(s[0], rest[k]) {
          assert rest[k] in multiset(rest);
          if rest[k] != x {
            assert rest[k] in multiset(s[1..]);
            var m :| 0 <= m < |s[1..]| && s[1..][m] == rest[k];
            assert s[m + 1] == rest[k];
          }
        }
      }
      [s[0]] + rest
  }

  function Sorted(s: seq<Review>): (r: seq<Review>)
    ensures multiset(r) == multiset(s)
    ensures FeaturedOrder(r)
  {
    if s == [] then []
    else
      assert s == [s[0]] + s[1..];
      Insert(s[0], Sorted(s[1..]))
  }

  /** `getFeaturedReviews`: the featurable reviews in featured order, at most `limit` of them. */
  function FeaturedReviews(rows: seq<Review>, courseId: nat, limit: nat): (r: seq<Review>)
    ensures forall x :: x in r ==> x in rows && Featurable(x, courseId)
    ensures FeaturedOrder(r)
    ensures |r| == if limit < |FeaturableRows(rows, courseId)| then limit else |FeaturableRows(rows, courseId)|
  {
    var s := Sorted(FeaturableRows(rows, courseId));
    assert |s| == |multiset(s)|;
    var r := if limit < |s| then s[..limit] else s;
    assert forall x :: x in r ==> x in s;
    assert forall x :: x in s ==> x in multiset(s);
    r
  }

  /** In a list in featured order, whatever lies past a cut ranks behind everything before it. */
  lemma PrefixIsTheTop(s: seq<Review>, k: nat)
    requires FeaturedOrder(s) && k <= |s|
    ensures multiset(s) == multiset(s[..k]) + multiset(s[k..])
    ensures forall x, y :: x in multiset(s) - multiset(s[..k]) && y in s[..k] ==> Ahead(y, x)
  {
    assert s == s[..k] + s[k..];
    forall x, y | x in multiset(s) - multiset(s[..k]) && y in s[..k]
      ensures Ahead(y, x)
    {
      assert x in s[k..];
      var j :| k <= j < |s| && s[j] == x;
      var i :| 0 <= i < k && s[i] == y;
    }
  }

  /** Nothing left out of the featured list ranks ahead of something in it. */
  lemma FeaturedAreTheTop(rows: seq<Review>, courseId: nat, limit: nat)
    ensures var r := FeaturedReviews(rows, courseId, limit);
      multiset(r) <= multiset(FeaturableRows(rows, courseId)) &&
      forall x, y :: x in multiset(FeaturableRows(rows, courseId)) - multiset(r) && y in r ==> Ahead(y, x)
  {
    var f := FeaturableRows(rows, courseId);
    var s := Sorted(f);
    var k := if limit < |s| then limit else |s|;
    assert FeaturedReviews(rows, courseId, limit) == s[..k];
    PrefixIsTheTop(s, k);
    assert multiset(s) == multiset(f);
  }

  /** Every row after the rewrite is a row before it, or its rewrite. */
  lemma UpdatedWhereFrom(rows: seq<Review>, id: nat, f: Review -> Review, y: Review)
    requires y in UpdatedWhere(rows, id, f)
    ensures exists x :: x in rows && (y == x || y == f(x))
  {
    var r := UpdatedWhere(rows, id, f);
    var i :| 0 <= i < |r| && r[i] == y;
    assert rows[i] in rows;
  }

  /** Rewriting rows without touching their keys keeps the keys unique. */
  lemma UpdatedWhereUnique(rows: seq<Review>, id: nat, f: Review -> Review)
    requires forall x :: f(x).id == x.id && f(x).userId == x.userId && f(x).courseId == x.courseId
    requires UniqueIds(rows) && OnePerPair(rows)
    ensures UniqueIds(UpdatedWhere(rows, id, f)) && OnePerPair(UpdatedWhere(rows, id, f))
  {
    var r := UpdatedWhere(rows, id, f);
    forall a, b | a in r && b in r && (a.id == b.id || (a.userId == b.userId && a.courseId == b.courseId))
      ensures a == b
    {
      var i :| 0 <= i < |r| && r[i] == a;
      var j :| 0 <= j < |r| && r[j] == b;
      assert rows[i] in rows && rows[j] in rows;
    }
  }

  /** Rewriting rows in place without touching their keys keeps the keys unique and below `bound`. */
  lemma KeysKept(rows: seq<Review>, id: nat, f: Review -> Review, marks: seq<Helpful>, bound: nat)
    requires forall x :: f(x).id == x.id && f(x).userId == x.userId && f(x).courseId == x.courseId
    requires UniqueIds(rows) && OnePerPair(rows) && forall x :: x in rows ==> x.id < bound
    ensures UniqueIds(UpdatedWhere(rows, id, f)) && OnePerPair(UpdatedWhere(rows, id, f))
    ensures forall y :: y in UpdatedWhere(rows, id, f) ==> y.id < bound
    ensures (forall x :: f(x).helpfulCount == x.helpfulCount) && CountsMatch(rows, marks) ==>
      CountsMatch(UpdatedWhere(rows, id, f), marks)
  {
    UpdatedWhereUnique(rows, id, f);
    forall y | y in UpdatedWhere(rows, id, f)
      ensures y.id < bound && exists x :: x in rows && y.id == x.id && (y == x || y == f(x))
    {
      UpdatedWhereFrom(rows, id, f, y);
    }
  }

  /** A toggle on an existing review keeps keys and pairs unique and every key and mark below `bound`. */
  lemma ToggleKeepsKeys(rows: seq<Review>, marks: seq<Helpful>, reviewId: nat, userId: nat, bound: nat)
    requires UniqueIds(rows) && OnePerPair(rows) && FindById(rows, reviewId).Some?
    requires (forall x :: x in rows ==> x.id < bound) && (forall h :: h in marks ==> h.reviewId < bound)
    ensures var t := Toggle(rows, marks, reviewId, userId);
      UniqueIds(t.reviews) && OnePerPair(t.reviews) &&
      (forall x :: x in t.reviews ==> x.id < bound) && (forall h :: h in t.marks ==> h.reviewId < bound)
  {
    var delta := if IsMarkedHelpful(marks, reviewId, userId) then -1 else 1;
    var f := x => Bump(x, delta);
    assert Toggle(rows, marks, reviewId, userId).reviews == UpdatedWhere(rows, reviewId, f);
    KeysKept(rows, reviewId, f, marks, bound);
    assert reviewId < bound by {
      assert FindById(rows, reviewId).value in rows;
    }
  }

  // ---------------------------------------------------------------------------
  // The store

  class ReviewStore {
    var reviews: seq<Review>
    /** The `review_helpful` table. */
    var marks: seq<Helpful>
    var nextId: nat

    ghost predicate Valid()
      reads this
    {
      UniqueIds(reviews) && OnePerPair(reviews) && CountsMatch(reviews, marks) &&
      (forall x :: x in reviews ==> x.id < nextId) &&
      (forall h :: h in marks ==> h.reviewId < nextId)
    }

    constructor ()
      ensures Valid() && reviews == [] && marks == []
    {
      reviews, marks, nextId := [], [], 0;
    }

    /** `create`, with the enrollments table it consults. */
    method Create(enrollments: seq<EnrollmentModel.Enrollment>, userId: nat, courseId: nat, text: Option<string>, now: int)
      returns (r: Result<Review>)
      requires Valid()
      modifies this
      ensures Valid()
      ensures r == CreateRow(enrollments, old(reviews), old(nextId), userId, courseId, text, now)
      ensures reviews == if r.Ok? then old(reviews) + [r.value] else old(reviews)
      ensures marks == old(marks)
    {
      r := CreateRow(enrollments, reviews, nextId, userId, courseId, text, now);
      if r.Ok? {
        assert Markers(marks, nextId) == {};
        CreateKeepsOnePerPair(enrollments, reviews, nextId, userId, courseId, text, now);
        reviews := reviews + [r.value];
        nextId := nextId + 1;
      }
    }

    /** `update`: COALESCE the text and stamp `updated_at`, or throw 'Review not found'. */
    method Update(id: nat, text: Option<string>, now: int) returns (r: Result<Review>)
      requires Valid()
      modifies this
      ensures Valid()
      ensures r == UpdateResult(old(reviews), id, text, now)
      ensures reviews == if r.Ok? then UpdatedWhere(old(reviews), id, x => Rewritten(x, text, now)) else old(reviews)
      ensures marks == old(marks) && nextId == old(nextId)
    {
      r := UpdateResult(reviews, id, text, now);
      if r.Ok? {
        KeysKept(reviews, id, x => Rewritten(x, text, now), marks, nextId);
        reviews := UpdatedWhere(reviews, id, x => Rewritten(x, text, now));
      }
    }

    /** `delete`: the removed row, or null for an unknown key. */
    method Delete(id: nat) returns (r: Option<Review>)
      requires Valid()
      modifies this
      ensures Valid()
      ensures r == FindById(old(reviews), id)
      ensures reviews == WithoutId(old(reviews), id)
      ensures marks == old(marks) && nextId == old(nextId)
    {
      r := FindById(reviews, id);
      reviews := WithoutId(reviews, id);
    }

    /** `markAsHelpful`, on a review that exists (the handler looks it up first). */
    method MarkAsHelpful(reviewId: nat, userId: nat) returns (review: Option<Review>, marked: bool)
      requires Valid() && FindById(reviews, reviewId).Some?
      modifies this
      ensures Valid()
      ensures var t := Toggle(old(reviews), old(marks), reviewId, userId);
        reviews == t.reviews && marks == t.marks && review == t.review && marked == t.marked
      ensures nextId == old(nextId)
    {
      var t := Toggle(reviews, marks, reviewId, userId);
      ToggleKeepsCounts(reviews, marks, reviewId, userId);
      ToggleKeepsKeys(reviews, marks, reviewId, userId, nextId);
      reviews, marks, review, marked := t.reviews, t.marks, t.review, t.marked;
    }
  }
}
