/** HTTP status codes that the handlers answer with, and the authenticated requester. */
module Http {
  import opened Wrappers
  import Strings

  type Status = int

  const OK: Status := 200
  const CREATED: Status := 201
  const BAD_REQUEST: Status := 400
  const UNAUTHORIZED: Status := 401
  const FORBIDDEN: Status := 403
  const NOT_FOUND: Status := 404
  const CONFLICT: Status := 409
  const UNPROCESSABLE: Status := 422
  const TOO_MANY_REQUESTS: Status := 429
  const SERVER_ERROR: Status := 500

  predicate Success(s: Status) { 200 <= s < 300 }

  /** `req.user` as set by the authentication middleware: the row id and the role column. */
  datatype User = User(id: int, role: string)

  predicate IsAdmin(u: User) { u.role == "admin" }

  /**
   * The check most handlers repeat: a requester is present and is either an admin
   * or the instructor who owns the course (`course.instructor_id === req.user.id`).
   */
  predicate AdminOrOwner(user: Option<User>, ownerId: int)
  {
    user.Some? && (IsAdmin(user.value) || user.value.id == ownerId)
  }

  /**
   * The listing guard `String(req.params.user_id) !== String(req.user.id) && !isAdmin`:
   * the route names the requester, compared as text, or the requester is an admin.
   */
  predicate SelfOrAdmin(user: User, routeUserId: string)
  {
    routeUserId == Strings.IntString(user.id) || IsAdmin(user)
  }

  /** For a route id that prints a number, the text comparison is the comparison of the numbers; "07" never names user 7. */
  lemma SelfOrAdminById(user: User, other: int)
    ensures SelfOrAdmin(user, Strings.IntString(other)) <==> other == user.id || IsAdmin(user)
    ensures !SelfOrAdmin(User(7, "student"), "07")
  {
    if Strings.IntString(other) == Strings.IntString(user.id) {
      Strings.IntStringInjective(other, user.id);
    }
    assert Strings.IntString(7) == "7";
  }
}
