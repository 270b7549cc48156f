// The courses table (server/models/courseModel.js): the allowed levels and
// categories, the checks and the initial state of `create`, the placeholder
// numbering of `findAll` and `count`, and `update`.

module CourseModel {
  import opened Wrappers
  import Sql
  import Strings

  const AllowedLevels: seq<string> := ["beginner", "intermediate", "advanced", "all"]
  const AllowedCategories: seq<string> := ["programming", "design", "business", "marketing", "data-science", "other"]

  datatype Course = Course(
    id: nat, title: string, description: Option<string>, categoryId: Option<nat>, level: string,
    instructorId: int, status: string, isApproved: bool, isPublished: bool,
    rejectionReason: Option<string>, updatedAt: int)

  /** The argument of `create`. An empty string or a zero id is a missing (falsy) value. */
  datatype NewCourse = NewCourse(
    title: string, description: string, category: string, level: string, instructorId: int, status: string)

  const RequiredMessage := "Title, instructor ID and level are required"
  const InstructorMessage := "Instructor not found or not authorized"
  const LevelMessage := "Invalid level. Allowed values: beginner, intermediate, advanced, all"

  /**
   * The first check of `create` that fails, in source order: the required fields, then the
   * instructor (a row of `users` with role 'instructor'), then the level.
   */
  function CreateError(n: NewCourse, users: map<int, string>): (e: Option<string>)
    ensures e.None? <==>
      && n.title != "" && n.instructorId != 0 && n.level != ""
      && n.instructorId in users && users[n.instructorId] == "instructor"
      && n.level in AllowedLevels
    ensures (n.title == "" || n.instructorId == 0 || n.level == "") ==> e == Some(RequiredMessage)
    ensures e == Some(LevelMessage) ==> n.instructorId in users && users[n.instructorId] == "instructor"
  {
    if n.title == "" || n.instructorId == 0 || n.level == "" then Some(RequiredMessage)
    else if !(n.instructorId in users && users[n.instructorId] == "instructor") then Some(InstructorMessage)
    else if n.level !in AllowedLevels then Some(LevelMessage)
    else None
  }

  /** The category id `create` stores: the category whose name matches case-insensitively, or null. */
  function CategoryId(categories: map<string, nat>, category: string): (r: Option<nat>)
    ensures r.Some? <==> category != "" && Strings.Lower(category) in categories
  {
    if category != "" && Strings.Lower(category) in categories then Some(categories[Strings.Lower(category)]) else None
  }

  /**
   * The row `create` inserts: status 'pending', unapproved and unpublished whatever status
   * the caller passed, an empty description stored as null.
   */
  function NewRow(n: NewCourse, categories: map<string, nat>, id: nat, now: int): (c: Course)
    ensures c.id == id && c.title == n.title && c.level == n.level && c.instructorId == n.instructorId
    ensures c.status == "pending" && !c.isApproved && !c.isPublished && c.rejectionReason.None?
    ensures c.description.None? <==> n.description == ""
    ensures c.description.Some? ==> c.description.value == n.description
    ensures c.categoryId == CategoryId(categories, n.category)
  {
    Course(id, n.title, if n.description == "" then None else Some(n.description),
      CategoryId(categories, n.category), n.level, n.instructorId, "pending", false, false, None, now)
  }

  // ---------------------------------------------------------------------------
  // findAll and count: one condition per present filter, numbered by position.

  /** A bound value of a statement. */
  datatype Param = Int(i: int) | Flag(b: bool) | Text(s: string) | Null

  /** JavaScript truthiness of a bound value. */
  predicate Truthy(p: Param)
  {
    match p
    case Int(i) => i != 0
    case Flag(b) => b
    case Text(t) => t != ""
    case Null => false
  }

  /** A key that is present and truthy (`if (key)`). */
  predicate TruthyKey(o: Option<Param>) { o.Some? && Truthy(o.value) }

  /** The flat keys `findAll` and `count` read from their argument; None is undefined. */
  datatype Filters = Filters(
    categoryId: Option<Param>, instructorId: Option<Param>, isPublished: Option<Param>, isApproved: Option<Param>,
    status: Option<Param>, level: Option<Param>, search: Option<Param>)

  const NoFilters := Filters(None, None, None, None, None, None, None)

  /** The condition one `if (...) { conditions.push(...) }` adds: one (column, value) pair or none. */
  function Piece(present: bool, column: string, v: Param): seq<(string, Param)>
  {
    if present then [(column, v)] else []
  }

  /** The conditions `findAll` adds, as (column, value), in the order the source tests them. */
  function FindAllFilters(f: Filters): seq<(string, Param)>
  {
    Piece(TruthyKey(f.categoryId), "category_id", f.categoryId.GetOr(Null)) +
    Piece(TruthyKey(f.instructorId), "instructor_id", f.instructorId.GetOr(Null)) +
    Piece(f.isPublished.Some?, "is_published", f.isPublished.GetOr(Null)) +
    Piece(f.isApproved.Some?, "is_approved", f.isApproved.GetOr(Null)) +
    Piece(f.status.Some?, "status", f.status.GetOr(Null)) +
    Piece(TruthyKey(f.level), "level", f.level.GetOr(Null))
  }

  /** The conditions `count` adds: the same, except that is_published is never read and status must be truthy. */
  function CountFilters(f: Filters): seq<(string, Param)>
  {
    Piece(TruthyKey(f.categoryId), "category_id", f.categoryId.GetOr(Null)) +
    Piece(TruthyKey(f.instructorId), "instructor_id", f.instructorId.GetOr(Null)) +
    Piece(TruthyKey(f.status), "status", f.status.GetOr(Null)) +
    Piece(f.isApproved.Some?, "is_approved", f.isApproved.GetOr(Null)) +
    Piece(TruthyKey(f.level), "level", f.level.GetOr(Null))
  }

  predicate HasColumn(conds: seq<(string, Param)>, column: string)
  {
    exists k :: 0 <= k < |conds| && conds[k].0 == column
  }

  /**
   * `findAll` filters on is_published whenever the key is given, `count` never does: the
   * two disagree on every listing that passes is_published.
   */
  lemma CountIgnoresPublished(f: Filters)
    ensures HasColumn(FindAllFilters(f), "is_published") <==> f.isPublished.Some?
    ensures !HasColumn(CountFilters(f), "is_published")
    ensures CountFilters(f) == CountFilters(f.(isPublished := None))
  {
    var a := Piece(TruthyKey(f.categoryId), "category_id", f.categoryId.GetOr(Null));
    var b := Piece(TruthyKey(f.instructorId), "instructor_id", f.instructorId.GetOr(Null));
    if f.isPublished.Some? {
      assert FindAllFilters(f)[|a + b|].0 == "is_published";
    }
  }

  /** One `c.<column> = $<n>` condition of the WHERE clause. */
  datatype Condition = Condition(column: string, placeholder: nat)

  /**
   * What a builder hands to `query`: the conditions, the placeholder of the search term,
   * the placeholder of LIMIT (OFFSET takes the next one), and the values.
   */
  datatype Query = Query(conditions: seq<Condition>, search: Option<nat>, limit: Option<nat>, values: seq<Param>)

  /** The conditions for the filters `done`: the k-th (from 0) on its column with placeholder `$<k+1>`. */
  function ConditionsFor(done: seq<(string, Param)>): (r: seq<Condition>)
    ensures |r| == |done|
    ensures forall k :: 0 <= k < |done| ==> r[k] == Condition(done[k].0, k + 1)
  {
    seq(|done|, k requires 0 <= k < |done| => Condition(done[k].0, k + 1))
  }

  /** The values for the filters `done`, in order. */
  function ValuesFor(done: seq<(string, Param)>): (r: seq<Param>)
    ensures |r| == |done|
    ensures forall k :: 0 <= k < |done| ==> r[k] == done[k].1
  {
    seq(|done|, k requires 0 <= k < |done| => done[k].1)
  }

  /** `conditions`, `values` and `paramIndex` after pushing the filters `done`. */
  ghost predicate Tracks(conditions: seq<Condition>, values: seq<Param>, paramIndex: nat, done: seq<(string, Param)>)
  {
    conditions == ConditionsFor(done) && values == ValuesFor(done) && paramIndex == |done| + 1
  }

  /** One `if (...) { conditions.push(...); values.push(...); paramIndex++; }` step. */
  method PushIf(present: bool, conditions: seq<Condition>, values: seq<Param>, paramIndex: nat, column: string, v: Param,
                ghost done: seq<(string, Param)>)
    returns (conditions': seq<Condition>, values': seq<Param>, paramIndex': nat)
    requires Tracks(conditions, values, paramIndex, done)
    ensures Tracks(conditions', values', paramIndex', done + Piece(present, column, v))
  {
    conditions', values', paramIndex' := conditions, values, paramIndex;
    if present {
      conditions' := conditions + [Condition(column, paramIndex)];
      values' := values + [v];
      paramIndex' := paramIndex + 1;
    } else {
      assert done + Piece(present, column, v) == done;
    }
  }

  /** The search term, then LIMIT and OFFSET, as both builders append them. */
  method Finish(conditions: seq<Condition>, values: seq<Param>, paramIndex: nat, search: Option<Param>,
                paging: Option<(int, int)>, ghost done: seq<(string, Param)>) returns (q: Query)
    requires Tracks(conditions, values, paramIndex, done)
    ensures q.conditions == conditions
    ensures q.search.Some? <==> TruthyKey(search)
    ensures q.limit.Some? <==> paging.Some?
    ensures |q.values| == |done| + (if q.search.Some? then 1 else 0) + (if paging.Some? then 2 else 0)
    ensures q.search.Some? ==> q.search.value == |done| + 1 && q.values[|done|] == search.value
    ensures paging.Some? ==> q.limit == Some(|q.values| - 1) && q.values[|q.values| - 2..] == [Int(paging.value.0), Int(paging.value.1)]
    ensures q.values[..|done|] == values
  {
    var vs := values;
    var index := paramIndex;
    var s: Option<nat> := None;
    if TruthyKey(search) {
      s := Some(index);
      vs := vs + [search.value];
      index := index + 1;
    }
    var l: Option<nat> := None;
    if paging.Some? {
      vs := vs + [Int(paging.value.0)];
      vs := vs + [Int(paging.value.1)];
      l := Some(index);
    }
    q := Query(conditions, s, l, vs);
  }

  /** The conditions and values `findAll` pushes, one filter after another, in the order the source tests them. */
  method FindAllConditions(f: Filters) returns (conditions: seq<Condition>, values: seq<Param>, paramIndex: nat)
    ensures Tracks(conditions, values, paramIndex, FindAllFilters(f))
  {
    conditions, values, paramIndex := [], [], 1;
    ghost var done: seq<(string, Param)> := [];
    conditions, values, paramIndex := PushIf(TruthyKey(f.categoryId), conditions, values, paramIndex, "category_id", f.categoryId.GetOr(Null), done);
    done := done + Piece(TruthyKey(f.categoryId), "category_id", f.categoryId.GetOr(Null));
    assert done == Piece(TruthyKey(f.categoryId), "category_id", f.categoryId.GetOr(Null));
    conditions, values, paramIndex := PushIf(TruthyKey(f.instructorId), conditions, values, paramIndex, "instructor_id", f.instructorId.GetOr(Null), done);
    done := done + Piece(TruthyKey(f.instructorId), "instructor_id", f.instructorId.GetOr(Null));
    conditions, values, paramIndex := PushIf(f.isPublished.Some?, conditions, values, paramIndex, "is_published", f.isPublished.GetOr(Null), done);
    done := done + Piece(f.isPublished.Some?, "is_published", f.isPublished.GetOr(Null));
    conditions, values, paramIndex := PushIf(f.isApproved.Some?, conditions, values, paramIndex, "is_approved", f.isApproved.GetOr(Null), done);
    done := done + Piece(f.isApproved.Some?, "is_approved", f.isApproved.GetOr(Null));
    conditions, values, paramIndex := PushIf(f.status.Some?, conditions, values, paramIndex, "status", f.status.GetOr(Null), done);
    done := done + Piece(f.status.Some?, "status", f.status.GetOr(Null));
    conditions, values, paramIndex := PushIf(TruthyKey(f.level), conditions, values, paramIndex, "level", f.level.GetOr(Null), done);
    done := done + Piece(TruthyKey(f.level), "level", f.level.GetOr(Null));
    assert done == FindAllFilters(f);
  }

  /**
   * `findAll`'s statement: condition k (from 0) is the k-th present filter and uses `$<k+1>`,
   * whose value is the filter's; the search term takes the next index, LIMIT and OFFSET the
   * last two, so the highest placeholder is the number of values.
   */
  method FindAllQuery(f: Filters, limit: int, offset: int) returns (q: Query)
    ensures |q.conditions| == |FindAllFilters(f)|
    ensures q.search.Some? <==> TruthyKey(f.search)
    ensures |q.values| == |q.conditions| + (if q.search.Some? then 1 else 0) + 2
    ensures q.conditions == ConditionsFor(FindAllFilters(f)) && q.values[..|q.conditions|] == ValuesFor(FindAllFilters(f))
    ensures q.search.Some? ==> q.search.value == |q.conditions| + 1 && q.values[|q.conditions|] == f.search.value
    ensures q.limit == Some(|q.values| - 1) && q.values[|q.values| - 2..] == [Int(limit), Int(offset)]
  {
    var conditions, values, paramIndex := FindAllConditions(f);
    q := Finish(conditions, values, paramIndex, f.search, Some((limit, offset)), FindAllFilters(f));
  }

  /** The conditions and values `count` pushes, one filter after another, in the order the source tests them. */
  method CountConditions(f: Filters) returns (conditions: seq<Condition>, values: seq<Param>, paramIndex: nat)
    ensures Tracks(conditions, values, paramIndex, CountFilters(f))
  {
    conditions, values, paramIndex := [], [], 1;
    ghost var done: seq<(string, Param)> := [];
    conditions, values, paramIndex := PushIf(TruthyKey(f.categoryId), conditions, values, paramIndex, "category_id", f.categoryId.GetOr(Null), done);
    done := done + Piece(TruthyKey(f.categoryId), "category_id", f.categoryId.GetOr(Null));
    assert done == Piece(TruthyKey(f.categoryId), "category_id", f.categoryId.GetOr(Null));
    conditions, values, paramIndex := PushIf(TruthyKey(f.instructorId), conditions, values, paramIndex, "instructor_id", f.instructorId.GetOr(Null), done);
    done := done + Piece(TruthyKey(f.instructorId), "instructor_id", f.instructorId.GetOr(Null));
    conditions, values, paramIndex := PushIf(TruthyKey(f.status), conditions, values, paramIndex, "status", f.status.GetOr(Null), done);
    done := done + Piece(TruthyKey(f.status), "status", f.status.GetOr(Null));
    conditions, values, paramIndex := PushIf(f.isApproved.Some?, conditions, values, paramIndex, "is_approved", f.isApproved.GetOr(Null), done);
    done := done + Piece(f.isApproved.Some?, "is_approved", f.isApproved.GetOr(Null));
    conditions, values, paramIndex := PushIf(TruthyKey(f.level), conditions, values, paramIndex, "level", f.level.GetOr(Null), done);
    done := done + Piece(TruthyKey(f.level), "level", f.level.GetOr(Null));
    assert done == CountFilters(f);
  }

  /** `count`'s statement: numbered like `findAll`'s, without paging. */
  method CountQuery(f: Filters) returns (q: Query)
    ensures |q.conditions| == |CountFilters(f)|
    ensures q.search.Some? <==> TruthyKey(f.search)
    ensures q.limit.None?
    ensures |q.values| == |q.conditions| + (if q.search.Some? then 1 else 0)
    ensures q.conditions == ConditionsFor(CountFilters(f)) && q.values[..|q.conditions|] == ValuesFor(CountFilters(f))
    ensures q.search.Some? ==> q.search.value == |q.conditions| + 1 && q.values[|q.conditions|] == f.search.value
  {
    var conditions, values, paramIndex := CountConditions(f);
    q := Finish(conditions, values, paramIndex, f.search, None, CountFilters(f));
  }


  // ---------------------------------------------------------------------------
  // update

  /**
   * The keys of `update`'s argument that its callers pass, in the order they write them;
   * None is undefined, and `Some(None)` in rejectionReason is null.
   */
  datatype CourseChanges = CourseChanges(
    title: Option<string>, description: Option<string>, category: Option<string>, level: Option<string>,
    status: Option<string>, isApproved: Option<bool>, isPublished: Option<bool>,
    rejectionReason: Option<Option<string>>)

  const NoChanges := CourseChanges(None, None, None, None, None, None, None, None)

  function TextParam(o: Option<string>): Option<Param>
  {
    if o.Some? then Some(Text(o.value)) else None
  }

  function FlagParam(o: Option<bool>): Option<Param>
  {
    if o.Some? then Some(Flag(o.value)) else None
  }

  function NullableParam(o: Option<Option<string>>): Option<Param>
  {
    if o.None? then None else if o.value.None? then Some(Null) else Some(Text(o.value.value))
  }

  function ChangeFields(c: CourseChanges): seq<(string, Option<Param>)>
  {
    [("title", TextParam(c.title)), ("description", TextParam(c.description)), ("category", TextParam(c.category)),
     ("level", TextParam(c.level)), ("status", TextParam(c.status)), ("is_approved", FlagParam(c.isApproved)),
     ("is_published", FlagParam(c.isPublished)), ("rejection_reason", NullableParam(c.rejectionReason))]
  }

  /** The entries `update` writes: the defined fields, then updated_at. */
  function UpdateEntries(c: CourseChanges): seq<Sql.Entry<Param>>
  {
    Sql.Defined(ChangeFields(c)) + [Sql.Inline("updated_at")]
  }

  /** `update` writes nothing (and returns the stored row) exactly when no key is defined. */
  lemma NothingToWriteIffNoChanges(c: CourseChanges)
    ensures Sql.Defined(ChangeFields(c)) == [] <==> c == NoChanges
  {
    Sql.DefinedEmpty(ChangeFields(c));
    if Sql.Defined(ChangeFields(c)) == [] {
      var f := ChangeFields(c);
      assert f[0].1.None? && f[1].1.None? && f[2].1.None? && f[3].1.None?;
      assert f[4].1.None? && f[5].1.None? && f[6].1.None? && f[7].1.None?;
    }
  }

  /** The SET clause numbers the written values `$2, $3, ...` in key order and ends with updated_at. */
  lemma UpdateStatement(c: CourseChanges)
    ensures var e := UpdateEntries(c);
      forall k :: 0 <= k < |Sql.Values(e)| ==> Sql.SetClause(e)[k] == Sql.Param(e[k].column, k + 2) && Sql.Values(e)[k] == e[k].value
    ensures var e := UpdateEntries(c);
      |Sql.Values(e)| == |e| - 1 && Sql.SetClause(e)[|e| - 1] == Sql.Timestamp("updated_at")
  {
    var d := Sql.Defined(ChangeFields(c));
    var e := UpdateEntries(c);
    assert e[..|e| - 1] == d;
    Sql.ValuesOfBound(d);
    assert Sql.Values(e) == Sql.Values(d);
    Sql.PlaceholdersMatchValues(e);
  }

  /** `updates.category && !ALLOWED_CATEGORIES.includes(updates.category)`. */
  predicate CategoryRejected(c: CourseChanges)
  {
    c.category.Some? && c.category.value != "" && c.category.value !in AllowedCategories
  }

  const CategoryMessage := "Invalid category. Allowed values: programming, design, business, marketing, data-science, other"

  /**
   * The row after the UPDATE: every defined field written, every other kept, updated_at set.
   * The `category` key names no column of the modelled row.
   */
  function UpdatedCourse(r: Course, c: CourseChanges, now: int): (u: Course)
    ensures u.id == r.id && u.instructorId == r.instructorId && u.categoryId == r.categoryId && u.updatedAt == now
    ensures c.status.None? ==> u.status == r.status
    ensures c.isApproved.None? ==> u.isApproved == r.isApproved
    ensures c.isPublished.None? ==> u.isPublished == r.isPublished
    ensures u.(updatedAt := r.updatedAt) == r <==> (
      (c.title.None? || c.title.value == r.title) && (c.description.None? || c.description == r.description) &&
      (c.level.None? || c.level.value == r.level) && (c.status.None? || c.status.value == r.status) &&
      (c.isApproved.None? || c.isApproved.value == r.isApproved) && (c.isPublished.None? || c.isPublished.value == r.isPublished) &&
      (c.rejectionReason.None? || c.rejectionReason.value == r.rejectionReason))
  {
    r.(title := c.title.GetOr(r.title),
       description := if c.description.Some? then c.description else r.description,
       level := c.level.GetOr(r.level),
       status := c.status.GetOr(r.status),
       isApproved := c.isApproved.GetOr(r.isApproved),
       isPublished := c.isPublished.GetOr(r.isPublished),
       rejectionReason := c.rejectionReason.GetOr(r.rejectionReason),
       updatedAt := now)
  }

  class CourseStore {
    var courses: map<nat, Course>
    var nextId: nat

    ghost predicate Valid()
      reads this
    {
      forall k :: k in courses ==> courses[k].id == k && k < nextId
    }

    constructor ()
      ensures Valid() && courses == map[]
    {
      courses, nextId := map[], 1;
    }

    /** `findById`. */
    function FindById(id: nat): (r: Option<Course>)
      reads this
      ensures r.Some? <==> id in courses
      ensures r.Some? ==> r.value == courses[id]
    {
      if id in courses then Some(courses[id]) else None
    }

    /**
     * `create`: the checks in order, then a new row that is always pending, unapproved and
     * unpublished whatever status the caller passed. `users` is the users table (id to role),
     * `categories` maps lower-cased category names to ids.
     */
    method Create(n: NewCourse, users: map<int, string>, categories: map<string, nat>, now: int) returns (r: Result<Course>)
      requires Valid()
      modifies this
      ensures Valid()
      ensures CreateError(n, users).Some? ==>
        r == Fail(CreateError(n, users).value) && courses == old(courses) && nextId == old(nextId)
      ensures CreateError(n, users).None? ==>
        && r == Ok(NewRow(n, categories, old(nextId), now))
        && courses == old(courses)[old(nextId) := r.value] && nextId == old(nextId) + 1
    {
      var e := CreateError(n, users);
      if e.Some? {
        return Fail(e.value);
      }
      var row := NewRow(n, categories, nextId, now);
      courses := courses[nextId := row];
      nextId := nextId + 1;
      r := Ok(row);
    }

    /**
     * `update`: an unknown course or a category outside the allowed list throws; with no
     * defined key the stored row comes back unchanged; otherwise the defined keys are written.
     */
    method Update(id: nat, c: CourseChanges, now: int) returns (r: Result<Course>)
      requires Valid()
      modifies this
      ensures Valid() && nextId == old(nextId)
      ensures id !in old(courses) ==> r == Fail("Course not found") && courses == old(courses)
      ensures id in old(courses) && CategoryRejected(c) ==> r == Fail(CategoryMessage) && courses == old(courses)
      ensures id in old(courses) && !CategoryRejected(c) && c == NoChanges ==>
        r == Ok(old(courses)[id]) && courses == old(courses)
      ensures id in old(courses) && !CategoryRejected(c) && c != NoChanges ==>
        r == Ok(UpdatedCourse(old(courses)[id], c, now)) && courses == old(courses)[id := r.value]
    {
      if id !in courses {
        return Fail("Course not found");
      }
      if CategoryRejected(c) {
        return Fail(CategoryMessage);
      }
      var fields := Sql.Defined(ChangeFields(c));
      NothingToWriteIffNoChanges(c);
      if |fields| == 0 {
        return Ok(courses[id]);
      }
      var row := UpdatedCourse(courses[id], c, now);
      courses := courses[id := row];
      r := Ok(row);
    }
  }
}
