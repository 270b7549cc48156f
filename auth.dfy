// Authentication and role gates (server/middleware/auth.js and
// server/middleware/admin.js): reading the bearer token, mapping token
// errors, and the role checks placed in front of the routes.

module Auth {
  import opened Wrappers
  import opened Http
  import Strings
  import Errors
  import UserModel

  /** What the token verifier makes of a token: the user id it carries, or the error it throws. */
  datatype Verified = Decoded(id: nat) | Rejected(name: string, message: string)

  /** The outcome of `authenticateToken`: `req.user` set, or the error handed to `next`. */
  datatype Outcome = Authenticated(user: User) | Refused(error: Errors.Thrown)

  /** What a gate does with the request: let it through, answer it directly, or hand an error to `next`. */
  datatype Gate = Next | Respond(status: Status, message: string) | NextWithError(error: Errors.Thrown)

  /** `authHeader.split(" ")[1]`, where an absent or empty second word counts as no token. */
  function TokenOf(header: string): (r: Option<string>)
    ensures r.Some? ==> r.value != "" && ' ' !in r.value
    ensures ' ' !in header ==> r.None?
  {
    Strings.SplitPieces(header, ' ');
    var words := Strings.Split(header, ' ');
    if |words| >= 2 && words[1] != "" then Some(words[1]) else None
  }

  /**
   * The token is the word after the first space, whatever precedes it: the 'Bearer' scheme
   * of section 2.1 of RFC 6750 is never checked.
   */
  lemma TokenAfterAnyScheme(scheme: string, token: string)
    requires ' ' !in scheme && ' ' !in token && token != ""
    ensures TokenOf(scheme + " " + token) == Some(token)
  {
    Strings.SplitAfterFirst(scheme, ' ', token);
    Strings.SplitPieces(token, ' ');
    assert scheme + " " + token == scheme + [' '] + token;
  }

  /** A header that is the scheme alone, or has two spaces before the token, carries no token. */
  lemma NoTokenCases()
    ensures TokenOf("Bearer") == None
    ensures TokenOf("Bearer  abc") == None
  {
    Strings.SplitPieces("Bearer", ' ');
    Strings.SplitAfterFirst("Bearer", ' ', " abc");
    assert "Bearer  abc" == "Bearer" + [' '] + " abc";
    assert Strings.Split(" abc", ' ')[0] == "";
  }

  /** The catch block: the verifier's own errors become AuthErrors, any other error passes through. */
  function TokenFailure(name: string, message: string): (e: Errors.Thrown)
    ensures name == "JsonWebTokenError" ==> e == Errors.AuthError(Some("Invalid token"))
    ensures name == "TokenExpiredError" ==> e == Errors.AuthError(Some("Token expired"))
    ensures name !in {"JsonWebTokenError", "TokenExpiredError"} ==> e == Errors.Thrown(name, message, None, None, [])
  {
    if name == "JsonWebTokenError" then Errors.AuthError(Some("Invalid token"))
    else if name == "TokenExpiredError" then Errors.AuthError(Some("Token expired"))
    else Errors.Thrown(name, message, None, None, [])
  }

  /**
   * `authenticateToken`, with the token verifier as a parameter: a missing header, a missing
   * token and a rejected token are refused; a token naming no user gives NotFoundError;
   * otherwise the stored user becomes the requester.
   */
  function Authenticate(header: Option<string>, verify: string -> Verified, users: seq<UserModel.UserRow>): (r: Outcome)
    ensures header.None? || header == Some("") ==> r == Refused(Errors.AuthError(Some("No authorization header provided")))
    ensures header.Some? && header.value != "" && TokenOf(header.value).None? ==> r == Refused(Errors.AuthError(Some("No token provided")))
    ensures r.Authenticated? <==>
      (header.Some? && TokenOf(header.value).Some? && verify(TokenOf(header.value).value).Decoded? &&
       UserModel.FindById(users, verify(TokenOf(header.value).value).id).Some?)
    ensures r.Authenticated? ==>
      var row := UserModel.FindById(users, verify(TokenOf(header.value).value).id).value;
      r.user == User(row.id, row.role) && row in users
  {
    if header.None? || header.value == "" then Refused(Errors.AuthError(Some("No authorization header provided")))
    else match TokenOf(header.value)
      case None => Refused(Errors.AuthError(Some("No token provided")))
      case Some(token) =>
        match verify(token)
        case Rejected(name, message) => Refused(TokenFailure(name, message))
        case Decoded(id) =>
          match UserModel.FindById(users, id)
          case None => Refused(Errors.NotFoundError(Some("User not found")))
          case Some(row) => Authenticated(User(row.id, row.role))
  }

  /** Any scheme word works as well as 'Bearer': two headers with the same token authenticate alike. */
  lemma SchemeIgnored(scheme: string, token: string, verify: string -> Verified, users: seq<UserModel.UserRow>)
    requires ' ' !in scheme && ' ' !in token && token != ""
    ensures Authenticate(Some(scheme + " " + token), verify, users) == Authenticate(Some("Bearer " + token), verify, users)
  {
    TokenAfterAnyScheme(scheme, token);
    TokenAfterAnyScheme("Bearer", token);
    assert "Bearer " + token == "Bearer" + " " + token;
  }

  /**
   * Every refusal answers 401 through the error middleware, except an unknown user (404) and
   * an error of the verifier other than its two named kinds, which keeps its own status.
   */
  lemma RefusalsAreUnauthorized(header: Option<string>, verify: string -> Verified, users: seq<UserModel.UserRow>)
    requires Authenticate(header, verify, users).Refused?
    ensures var e := Authenticate(header, verify, users).error;
      Errors.ErrorHandler(e).status == UNAUTHORIZED ||
      (e == Errors.NotFoundError(Some("User not found")) && Errors.ErrorHandler(e).status == NOT_FOUND) ||
      (header.Some? && TokenOf(header.value).Some? && verify(TokenOf(header.value).value).Rejected? &&
       verify(TokenOf(header.value).value).name !in {"JsonWebTokenError", "TokenExpiredError"})
    ensures header.Some? && TokenOf(header.value).Some? && verify(TokenOf(header.value).value) == Rejected("TokenExpiredError", "jwt expired") ==>
      Errors.ErrorHandler(Authenticate(header, verify, users).error) == Errors.Response(UNAUTHORIZED, "Token expired")
  {
    Errors.ApiErrorsKeepStatus(Some("No authorization header provided"));
    Errors.ApiErrorsKeepStatus(Some("No token provided"));
    Errors.ApiErrorsKeepStatus(Some("Invalid token"));
    Errors.ApiErrorsKeepStatus(Some("Token expired"));
    Errors.ApiErrorsKeepStatus(Some("User not found"));
  }

  // ---------------------------------------------------------------------------
  // authorizeRoles

  const InsufficientPermissions := "Access denied. Insufficient permissions."

  /** `authorizeRoles(...roles)`: 403 unless a requester is present and their role is listed. */
  function AuthorizeRoles(roles: seq<string>, user: Option<User>): (r: Gate)
    ensures r == Next <==> user.Some? && user.value.role in roles
    ensures r != Next ==> r == Respond(FORBIDDEN, InsufficientPermissions)
  {
    if user.None? || user.value.role !in roles then Respond(FORBIDDEN, InsufficientPermissions) else Next
  }

  function AuthorizeAdmin(user: Option<User>): Gate
  {
    AuthorizeRoles(["admin"], user)
  }

  function AuthorizeInstructor(user: Option<User>): Gate
  {
    AuthorizeRoles(["instructor", "admin"], user)
  }

  /** The admin gate admits exactly admins; the instructor gate admits instructors and admins, and no one else. */
  lemma RoleGates(user: Option<User>)
    ensures AuthorizeAdmin(user) == Next <==> user.Some? && IsAdmin(user.value)
    ensures AuthorizeInstructor(user) == Next <==> user.Some? && user.value.role in {"instructor", "admin"}
    ensures AuthorizeAdmin(user) == Next ==> AuthorizeInstructor(user) == Next
    ensures user.Some? && user.value.role == "student" ==> AuthorizeInstructor(user) == Respond(FORBIDDEN, InsufficientPermissions)
  {
  }

  // ---------------------------------------------------------------------------
  // isAdmin and hasRole

  /** `isAdmin`: AuthError without a requester, ForbiddenError for any role but 'admin'. */
  function IsAdminGate(user: Option<User>): (r: Gate)
    ensures user.None? ==> r == NextWithError(Errors.AuthError(Some("Authentication required before checking admin privileges")))
    ensures user.Some? && !IsAdmin(user.value) ==>
      r == NextWithError(Errors.ForbiddenError(Some("Admin privileges required to access this resource")))
    ensures r == Next <==> user.Some? && IsAdmin(user.value)
  {
    if user.None? then NextWithError(Errors.AuthError(Some("Authentication required before checking admin privileges")))
    else if !IsAdmin(user.value) then NextWithError(Errors.ForbiddenError(Some("Admin privileges required to access this resource")))
    else Next
  }

  /** The argument of `hasRole`: a single role name or a list of them. */
  datatype RoleSpec = One(role: string) | Many(roles: seq<string>)

  /** `typeof roles === 'string' ? [roles] : roles`. */
  function RoleList(spec: RoleSpec): (r: seq<string>)
    ensures spec.One? ==> r == [spec.role]
    ensures spec.Many? ==> r == spec.roles
  {
    match spec
    case One(role) => [role]
    case Many(roles) => roles
  }

  /**
   * `hasRole(roles)`: AuthError without a requester, ForbiddenError for an empty role, and
   * ForbiddenError naming the role when the list is non-empty and does not hold it.
   */
  function HasRole(spec: RoleSpec, user: Option<User>): (r: Gate)
    ensures user.None? ==> r == NextWithError(Errors.AuthError(Some("Authentication required before checking role permissions")))
    ensures user.Some? && user.value.role == "" ==> r == NextWithError(Errors.ForbiddenError(Some("User has no role assigned")))
    ensures user.Some? && user.value.role != "" && |RoleList(spec)| > 0 && user.value.role !in RoleList(spec) ==>
      r == NextWithError(Errors.ForbiddenError(Some("Access denied: " + user.value.role + " role is not authorized for this operation")))
    ensures r == Next <==> user.Some? && user.value.role != "" && (RoleList(spec) == [] || user.value.role in RoleList(spec))
  {
    var roles := RoleList(spec);
    if user.None? then NextWithError(Errors.AuthError(Some("Authentication required before checking role permissions")))
    else if user.value.role == "" then NextWithError(Errors.ForbiddenError(Some("User has no role assigned")))
    else if |roles| > 0 && user.value.role !in roles then
      NextWithError(Errors.ForbiddenError(Some("Access denied: " + user.value.role + " role is not authorized for this operation")))
    else Next
  }

  /**
   * A single role behaves as the one-element list, the empty list (the default) admits anyone
   * with a role, and the empty role admits no one.
   */
  lemma HasRoleForms(role: string, user: Option<User>)
    ensures HasRole(One(role), user) == HasRole(Many([role]), user)
    ensures HasRole(Many([]), user) == Next <==> user.Some? && user.value.role != ""
    ensures HasRole(One(""), user) != Next
  {
  }

  /** `hasRole('admin')`, `isAdmin` and `authorizeAdmin` admit the same requesters. */
  lemma AdminGatesAgree(user: Option<User>)
    ensures HasRole(One("admin"), user) == Next <==> IsAdminGate(user) == Next
    ensures IsAdminGate(user) == Next <==> AuthorizeAdmin(user) == Next
  {
  }

  /** Every refusal of `isAdmin` and `hasRole` answers 401 without a requester and 403 with one. */
  lemma GateRefusalStatus(spec: RoleSpec, user: Option<User>)
    ensures IsAdminGate(user).NextWithError? ==>
      Errors.ErrorHandler(IsAdminGate(user).error).status == (if user.None? then UNAUTHORIZED else FORBIDDEN)
    ensures HasRole(spec, user).NextWithError? ==>
      Errors.ErrorHandler(HasRole(spec, user).error).status == (if user.None? then UNAUTHORIZED else FORBIDDEN)
  {
    Errors.ApiErrorsKeepStatus(Some("Authentication required before checking admin privileges"));
    Errors.ApiErrorsKeepStatus(Some("Admin privileges required to access this resource"));
    Errors.ApiErrorsKeepStatus(Some("Authentication required before checking role permissions"));
    Errors.ApiErrorsKeepStatus(Some("User has no role assigned"));
    if user.Some? {
      Errors.ApiErrorsKeepStatus(Some("Access denied: " + user.value.role + " role is not authorized for this operation"));
    }
  }
}
