// The account handlers (server/controllers/userController.js): the response
// projection, sign-up and login, profile and password changes, and the
// admin-only role change and deletion. Password hashing, token signing and the
// schema engine's email check are parameters; a thrown Error reaches the error
// middleware, which answers 500 with its message.

module UserController {
  import opened Wrappers
  import opened Http
  import Strings
  import Errors
  import UserModel
  import Validations

  // ---------------------------------------------------------------------------
  // formatUserResponse

  /** A JSON value of a user object's property. */
  datatype JsValue = JsText(s: string) | JsNumber(n: int) | JsNull

  /** `USER_RESPONSE_FIELDS`. */
  const ResponseFields: seq<string> := ["id", "email", "name", "role", "isVerified", "avatar"]

  /** The fold of `formatUserResponse` over a list of field names: each one the user defines is copied. */
  function Pick(fields: seq<string>, user: map<string, JsValue>): (r: map<string, JsValue>)
    ensures forall k :: k in r <==> k in fields && k in user
    ensures forall k :: k in r ==> r[k] == user[k]
  {
    if fields == [] then map[]
    else
      var m := Pick(fields[..|fields| - 1], user);
      var f := fields[|fields| - 1];
      assert forall k :: k in fields <==> k in fields[..|fields| - 1] || k == f;
      if f in user then m[f := user[f]] else m
  }

  /** `formatUserResponse(user)`: the listed fields the user defines, with their values, and nothing else. */
  function FormatUserResponse(user: map<string, JsValue>): (r: map<string, JsValue>)
    ensures forall k :: k in r <==> k in ResponseFields && k in user
    ensures forall k :: k in r ==> r[k] == user[k]
  {
    Pick(ResponseFields, user)
  }

  /** The columns `findByEmail` selects, as the user object the login handler holds. */
  function ByEmailRecord(row: UserModel.UserRow): (r: map<string, JsValue>)
    ensures r.Keys == {"id", "email", "name", "role", "password_hash", "oauth_provider"}
  {
    map["id" := JsNumber(row.id), "email" := JsText(row.email), "name" := JsText(row.name), "role" := JsText(row.role),
        "password_hash" := (if row.passwordHash.Some? then JsText(row.passwordHash.value) else JsNull),
        "oauth_provider" := (if row.oauthProvider.Some? then JsText(row.oauthProvider.value) else JsNull)]
  }

  /**
   * The projection never leaks the password hash, applying it twice changes nothing, and of
   * a login's user object only id, email, name and role reach the response.
   */
  lemma FormatFacts(user: map<string, JsValue>, row: UserModel.UserRow)
    ensures "password_hash" !in FormatUserResponse(user)
    ensures FormatUserResponse(FormatUserResponse(user)) == FormatUserResponse(user)
    ensures FormatUserResponse(ByEmailRecord(row)).Keys == {"id", "email", "name", "role"}
    ensures FormatUserResponse(ByEmailRecord(row))["email"] == JsText(row.email)
  {
    NoHashInResponse(user);
    var r := FormatUserResponse(ByEmailRecord(row));
    assert "id" in r && "email" in r && "name" in r && "role" in r;
  }

  /** The password hash is not a listed field, so no projection carries it. */
  lemma NoHashInResponse(user: map<string, JsValue>)
    ensures "password_hash" !in FormatUserResponse(user)
  {
    assert "password_hash" !in ResponseFields;
  }

  // ---------------------------------------------------------------------------
  // Answers

  /** A write the handler asks of the users table. */
  datatype Write =
    | NoWrite
    | Insert(row: UserModel.UserRow)
    | Change(id: nat, changes: UserModel.UserChanges)
    | NewPassword(id: nat, hash: string)
    | Remove(id: nat)

  datatype Answer = Answer(status: Status, message: string, write: Write)

  /** A plain Error thrown with `message` and handed to the error middleware. */
  function Thrown(message: string): (a: Answer)
    requires message != ""
    ensures a.write == NoWrite && a.message == message
    ensures a.status == Errors.ErrorHandler(Errors.PlainError(message)).status == SERVER_ERROR
  {
    Answer(SERVER_ERROR, message, NoWrite)
  }

  /** The TypeError of `formatUserResponse(undefined)`, when the model returns no row. */
  const UndefinedUser := "Cannot read properties of undefined (reading 'id')"

  /** The TypeError of `formatUserResponse(null)`, when a lookup by id finds no row. */
  const NullUser := "Cannot read properties of null (reading 'id')"

  /**
   * The database's message for a violated unique constraint, which the update passes on
   * unchanged. The constraint name is PostgreSQL's default for a UNIQUE column `email` of
   * table `users`; the schema that would name it is not part of this model.
   */
  const DuplicateKey := "duplicate key value violates unique constraint \"users_email_key\""

  /** `a === b` between JSON values: values of different types are never equal. */
  predicate StrictEquals(a: JsValue, b: JsValue)
  {
    a == b
  }

  // ---------------------------------------------------------------------------
  // register and createAdminAccount

  /**
   * `register`: 400 for a body the schema refuses, 403 for role 'admin', 409 for a taken
   * email, then 201 with the new row.
   */
  function Register(body: Validations.Registration, isEmail: string -> bool, users: seq<UserModel.UserRow>,
                    nextId: nat, hash: string): (a: Answer)
    ensures a.status == BAD_REQUEST <==> Validations.ValidateRegistration(body, isEmail).None?
    ensures a.status == FORBIDDEN <==>
      (Validations.ValidateRegistration(body, isEmail).Some? && Validations.ValidateRegistration(body, isEmail).value.role == "admin")
    ensures a.status == CONFLICT <==>
      (Validations.ValidateRegistration(body, isEmail).Some? && Validations.ValidateRegistration(body, isEmail).value.role != "admin" &&
       UserModel.FindByEmail(users, body.email.value).Some?)
    ensures a.status == CREATED <==>
      (Validations.ValidateRegistration(body, isEmail).Some? && Validations.ValidateRegistration(body, isEmail).value.role != "admin" &&
       UserModel.FindByEmail(users, body.email.value).None?)
    ensures a.status == CREATED ==>
      a.write.Insert? && a.write.row.role in UserModel.SelfServiceRoles && a.write.row.email == body.email.value &&
      a.write.row.passwordHash == Some(hash) && UserModel.Insert(users, a.write.row).Ok?
    ensures a.status != CREATED ==> a.write == NoWrite
  {
    match Validations.ValidateRegistration(body, isEmail)
    case None => Answer(BAD_REQUEST, "Validation error", NoWrite)
    case Some(account) =>
      if account.role == "admin" then Answer(FORBIDDEN, "Cannot register as admin", NoWrite)
      else if UserModel.FindByEmail(users, account.email).Some? then
        Answer(CONFLICT, "User with this email already exists", NoWrite)
      else match UserModel.CreateOutcome(users, nextId, account.email, hash, account.name, Some(account.role))
        case Fail(_) => assert false; Answer(SERVER_ERROR, UserModel.EmailTaken, NoWrite)
        case Ok(row) => Answer(CREATED, "Registration successful. Please check your email for verification instructions.", Insert(row))
  }

  /** No self-service registration creates an admin, so the single-admin rule survives it. */
  lemma RegisterNeverCreatesAdmin(body: Validations.Registration, isEmail: string -> bool, users: seq<UserModel.UserRow>,
                                  nextId: nat, hash: string)
    requires UserModel.AtMostOneAdmin(users)
    ensures var a := Register(body, isEmail, users, nextId, hash);
      a.write.Insert? ==> a.write.row.role != "admin" && UserModel.AtMostOneAdmin(users + [a.write.row])
  {
    var v := Validations.ValidateRegistration(body, isEmail);
    if v.Some? {
      var acc := v.value;
      UserModel.SignUpKeepsSingleAdmin(users, nextId, acc.email, hash, acc.name, Some(acc.role), "");
    }
  }

  /**
   * `createAdminAccount`: 400 for a body the schema refuses, 403 while an admin exists, a
   * thrown 'Email already exists' for a taken email, then 201 with the admin row.
   */
  function CreateAdminAccount(name: Option<string>, email: Option<string>, password: Option<string>, isEmail: string -> bool,
                              users: seq<UserModel.UserRow>, nextId: nat, hash: string): (a: Answer)
    ensures !Validations.AdminRegistrationValid(name, email, password, isEmail) ==> a.status == BAD_REQUEST
    ensures Validations.AdminRegistrationValid(name, email, password, isEmail) && UserModel.AdminExists(users) ==>
      a == Answer(FORBIDDEN, "Admin account already exists", NoWrite)
    ensures a.status == CREATED <==>
      (Validations.AdminRegistrationValid(name, email, password, isEmail) && !UserModel.AdminExists(users) &&
       UserModel.FindByEmail(users, email.value).None?)
    ensures a.status == CREATED ==> a.write.Insert? && a.write.row.role == "admin" && UserModel.AtMostOneAdmin(users + [a.write.row])
    ensures a.status != CREATED ==> a.write == NoWrite
  {
    if !Validations.AdminRegistrationValid(name, email, password, isEmail) then Answer(BAD_REQUEST, "Validation error", NoWrite)
    else if exists u :: u in users && u.role == "admin" then Answer(FORBIDDEN, "Admin account already exists", NoWrite)
    else match UserModel.CreateAdminOutcome(users, nextId, email.value, hash, name.value)
      case Fail(m) => Thrown(m)
      case Ok(row) =>
        UserModel.SignUpKeepsSingleAdmin(users, nextId, email.value, hash, name.value, None, "");
        Answer(CREATED, "Admin account created successfully", Insert(row))
  }

  // ---------------------------------------------------------------------------
  // login

  const InvalidCredentials := "Invalid credentials"

  /**
   * `login`: 400 for a body the schema refuses; the same 401 'Invalid credentials' for an
   * unknown email and a wrong password; otherwise 200, recording the login time.
   */
  function Login(email: Option<string>, password: Option<string>, isEmail: string -> bool, users: seq<UserModel.UserRow>,
                 matches: (string, string) -> bool, now: int): (a: Answer)
    ensures !Validations.LoginValid(email, password, isEmail) ==> a == Answer(BAD_REQUEST, "Validation error", NoWrite)
    ensures Validations.LoginValid(email, password, isEmail) ==>
      (a.status == OK <==> UserModel.ValidatePassword(users, email.value, password.value, matches))
    ensures Validations.LoginValid(email, password, isEmail) && a.status != OK ==> a == Answer(UNAUTHORIZED, InvalidCredentials, NoWrite)
    ensures a.status == OK ==>
      a.write == Change(UserModel.FindByEmail(users, email.value).value.id, UserModel.UserChanges(None, None, None, None, Some(now)))
  {
    if !Validations.LoginValid(email, password, isEmail) then Answer(BAD_REQUEST, "Validation error", NoWrite)
    else match UserModel.FindByEmail(users, email.value)
      case None => Answer(UNAUTHORIZED, InvalidCredentials, NoWrite)
      case Some(u) =>
        if !UserModel.ValidatePassword(users, email.value, password.value, matches) then Answer(UNAUTHORIZED, InvalidCredentials, NoWrite)
        else Answer(OK, "", Change(u.id, UserModel.UserChanges(None, None, None, None, Some(now))))
  }

  /** A caller cannot tell an unknown email from a wrong password: both answers are identical. */
  lemma LoginFailureUniform(unknown: string, known: string, p1: string, p2: string, isEmail: string -> bool,
                            users: seq<UserModel.UserRow>, matches: (string, string) -> bool, now: int)
    requires Validations.LoginValid(Some(unknown), Some(p1), isEmail) && Validations.LoginValid(Some(known), Some(p2), isEmail)
    requires UserModel.FindByEmail(users, unknown).None?
    requires UserModel.FindByEmail(users, known).Some? && !UserModel.ValidatePassword(users, known, p2, matches)
    ensures Login(Some(unknown), Some(p1), isEmail, users, matches, now) == Login(Some(known), Some(p2), isEmail, users, matches, now)
    ensures Login(Some(unknown), Some(p1), isEmail, users, matches, now) == Answer(UNAUTHORIZED, InvalidCredentials, NoWrite)
  {
  }

  // ---------------------------------------------------------------------------
  // changePassword, getProfile, updateProfile

  /**
   * `changePassword`: every refusal is a thrown Error (500): the schema's first message, an
   * unknown requester, or a wrong current password; otherwise the new hash is stored.
   */
  function ChangePassword(user: User, current: Option<string>, next: Option<string>, firstDetail: string,
                          users: seq<UserModel.UserRow>, matches: (string, string) -> bool, hash: string): (a: Answer)
    requires firstDetail != ""
    ensures !Validations.ChangePasswordValid(current, next) ==> a == Thrown(firstDetail)
    ensures a.status == OK <==>
      (Validations.ChangePasswordValid(current, next) && user.id >= 0 && UserModel.FindById(users, user.id).Some? &&
       UserModel.ValidatePassword(users, UserModel.FindById(users, user.id).value.email, current.value, matches))
    ensures a.status == OK ==> a.write == NewPassword(user.id, hash)
    ensures a.status != OK ==> a.status == SERVER_ERROR && a.write == NoWrite
  {
    if !Validations.ChangePasswordValid(current, next) then Thrown(firstDetail)
    else if user.id < 0 || UserModel.FindById(users, user.id).None? then Thrown("User not found")
    else
      var u := UserModel.FindById(users, user.id).value;
      if !UserModel.ValidatePassword(users, u.email, current.value, matches) then Thrown("Current password is incorrect")
      else Answer(OK, "Password changed successfully", NewPassword(user.id, hash))
  }

  /** The columns `findById` selects, as a user object. */
  function ByIdRecord(row: UserModel.UserRow): (r: map<string, JsValue>)
    ensures r.Keys == {"id", "email", "name", "role", "oauth_provider"}
  {
    map["id" := JsNumber(row.id), "email" := JsText(row.email), "name" := JsText(row.name), "role" := JsText(row.role),
        "oauth_provider" := (if row.oauthProvider.Some? then JsText(row.oauthProvider.value) else JsNull)]
  }

  /** `getProfile`: the requester's projected row, or a thrown 'User not found'. */
  function GetProfile(user: User, users: seq<UserModel.UserRow>): (r: (Status, Option<map<string, JsValue>>))
    ensures r.0 == OK <==> user.id >= 0 && UserModel.FindById(users, user.id).Some?
    ensures r.0 != OK ==> r == (SERVER_ERROR, None)
    ensures r.0 == OK ==> r.1.Some? && "password_hash" !in r.1.value && "id" in r.1.value && r.1.value["id"] == JsNumber(user.id)
  {
    if user.id < 0 || UserModel.FindById(users, user.id).None? then (SERVER_ERROR, None)
    else
      var row := UserModel.FindById(users, user.id).value;
      var record := ByIdRecord(row);
      assert "id" in record && "id" in ResponseFields;
      NoHashInResponse(record);
      var shown := FormatUserResponse(record);
      (OK, Some(shown))
  }

  /**
   * `updateProfile`: a body the schema refuses (including one carrying `role` or `avatar`,
   * which the schema does not list) is a thrown Error; a taken email fails with the
   * database's unique violation; a missing row is the TypeError of formatting undefined;
   * otherwise the defined name and email are written. The explicit role guard after the
   * schema can never fire, since no validated value carries a role.
   */
  function UpdateProfile(user: User, name: Option<string>, email: Option<string>, otherKeys: set<string>, firstDetail: string,
                         isEmail: string -> bool, users: seq<UserModel.UserRow>): (a: Answer)
    requires firstDetail != "" && user.id >= 0
    ensures !Validations.ProfileUpdateValid(name, email, otherKeys, isEmail) ==> a == Thrown(firstDetail)
    ensures "role" in otherKeys || "avatar" in otherKeys ==> a.status == SERVER_ERROR && a.write == NoWrite
    ensures a.status == OK <==>
      (Validations.ProfileUpdateValid(name, email, otherKeys, isEmail) && UserModel.FindById(users, user.id).Some? &&
       !UserModel.EmailClash(users, user.id, UserModel.UserChanges(name, email, None, None, None)))
    ensures a.write != NoWrite ==> a.write == Change(user.id, UserModel.UserChanges(name, email, None, None, None))
  {
    var changes := UserModel.UserChanges(name, email, None, None, None);
    if !Validations.ProfileUpdateValid(name, email, otherKeys, isEmail) then Thrown(firstDetail)
    else if changes == UserModel.NoChanges then
      (if UserModel.FindById(users, user.id).Some? then Answer(OK, "Profile updated successfully", NoWrite) else Thrown(NullUser))
    else if UserModel.EmailClash(users, user.id, changes) then Thrown(DuplicateKey)
    else if UserModel.FindById(users, user.id).None? then Thrown(UndefinedUser)
    else Answer(OK, "Profile updated successfully", Change(user.id, changes))
  }

  // ---------------------------------------------------------------------------
  // Admin-only handlers

  /** `getUsers`: a non-admin gets a thrown 'Unauthorized' (500, not 403). */
  function GetUsersStatus(user: User): (r: Status)
    ensures r == OK <==> IsAdmin(user)
    ensures !IsAdmin(user) ==> r == Errors.ErrorHandler(Errors.PlainError("Unauthorized")).status
  {
    if !IsAdmin(user) then Thrown("Unauthorized").status else OK
  }

  const RoleChanges := ["student", "instructor"]

  /** The self-protection test as written: the route parameter (text) against the requester's id (a number). */
  predicate IsSelfAsWritten(routeId: nat, user: User)
  {
    StrictEquals(JsText(Strings.NatString(routeId)), JsNumber(user.id))
  }

  /** The self-protection test as intended: the route names the requester. */
  predicate IsSelf(routeId: nat, user: User)
  {
    routeId == user.id
  }

  /** `updateUserRole` with the self-protection test given: non-admin, bad role, self, then the update. */
  function UpdateUserRoleWith(isSelf: bool, user: User, routeId: nat, role: Option<string>, users: seq<UserModel.UserRow>): (a: Answer)
    ensures !IsAdmin(user) ==> a == Thrown("Unauthorized")
    ensures a.status == OK <==>
      (IsAdmin(user) && role.Some? && role.value in RoleChanges && !isSelf && UserModel.FindById(users, routeId).Some?)
    ensures a.status == OK ==> a.write == Change(routeId, UserModel.UserChanges(None, None, None, role, None))
    ensures a.status != OK ==> a.write == NoWrite && a.status == SERVER_ERROR
  {
    if !IsAdmin(user) then Thrown("Unauthorized")
    else if role.None? || role.value !in RoleChanges then Thrown("Invalid role specified")
    else if isSelf then Thrown("Cannot modify your own role")
    else if UserModel.FindById(users, routeId).None? then Thrown(UndefinedUser)
    else Answer(OK, "User role updated successfully", Change(routeId, UserModel.UserChanges(None, None, None, role, None)))
  }

  /** `deleteUser` with the self-protection test given: non-admin, self, then the delete. */
  function DeleteUserWith(isSelf: bool, user: User, routeId: nat, users: seq<UserModel.UserRow>): (a: Answer)
    ensures !IsAdmin(user) ==> a == Thrown("Unauthorized")
    ensures a.status == OK <==> IsAdmin(user) && !isSelf && UserModel.FindById(users, routeId).Some?
    ensures a.status == OK ==> a.write == Remove(routeId)
    ensures a.status != OK ==> a.write == NoWrite && a.status == SERVER_ERROR
  {
    if !IsAdmin(user) then Thrown("Unauthorized")
    else if isSelf then Thrown("Cannot delete your own account through this endpoint")
    else if UserModel.FindById(users, routeId).None? then Thrown("User not found or could not be deleted")
    else Answer(OK, "User deleted successfully", Remove(routeId))
  }

  /** `updateUserRole` as written. */
  function UpdateUserRole(user: User, routeId: nat, role: Option<string>, users: seq<UserModel.UserRow>): (a: Answer)
    ensures a == UpdateUserRoleWith(IsSelfAsWritten(routeId, user), user, routeId, role, users)
  {
    UpdateUserRoleWith(IsSelfAsWritten(routeId, user), user, routeId, role, users)
  }

  /** `deleteUser` as written. */
  function DeleteUser(user: User, routeId: nat, users: seq<UserModel.UserRow>): (a: Answer)
    ensures a == DeleteUserWith(IsSelfAsWritten(routeId, user), user, routeId, users)
  {
    DeleteUserWith(IsSelfAsWritten(routeId, user), user, routeId, users)
  }

  /**
   * As written, the self-protection guards never fire: text is never strictly equal to a
   * number, so an admin can demote and delete their own account.
   */
  lemma SelfGuardsNeverFire(admin: User, users: seq<UserModel.UserRow>)
    requires IsAdmin(admin) && admin.id >= 0 && UserModel.FindById(users, admin.id).Some?
    ensures forall routeId: nat :: !IsSelfAsWritten(routeId, admin)
    ensures UpdateUserRole(admin, admin.id, Some("student"), users).status == OK
    ensures UpdateUserRole(admin, admin.id, Some("student"), users).write ==
      Change(admin.id, UserModel.UserChanges(None, None, None, Some("student"), None))
    ensures DeleteUser(admin, admin.id, users) == Answer(OK, "User deleted successfully", Remove(admin.id))
  {
  }

  /** `updateUserRole` with the guard comparing the ids themselves. */
  function UpdateUserRoleGuarded(user: User, routeId: nat, role: Option<string>, users: seq<UserModel.UserRow>): (a: Answer)
    ensures a == UpdateUserRoleWith(IsSelf(routeId, user), user, routeId, role, users)
  {
    UpdateUserRoleWith(IsSelf(routeId, user), user, routeId, role, users)
  }

  /** `deleteUser` with the guard comparing the ids themselves. */
  function DeleteUserGuarded(user: User, routeId: nat, users: seq<UserModel.UserRow>): (a: Answer)
    ensures a == DeleteUserWith(IsSelf(routeId, user), user, routeId, users)
  {
    DeleteUserWith(IsSelf(routeId, user), user, routeId, users)
  }

  /**
   * With the ids compared, no admin changes their own role or deletes their own account,
   * and every other decision is the one written.
   */
  lemma GuardedRefusesSelf(user: User, routeId: nat, role: Option<string>, users: seq<UserModel.UserRow>)
    ensures IsAdmin(user) && routeId == user.id && role.Some? && role.value in RoleChanges ==>
      UpdateUserRoleGuarded(user, routeId, role, users) == Thrown("Cannot modify your own role")
    ensures IsAdmin(user) && routeId == user.id ==>
      DeleteUserGuarded(user, routeId, users) == Thrown("Cannot delete your own account through this endpoint")
    ensures routeId != user.id ==>
      UpdateUserRoleGuarded(user, routeId, role, users) == UpdateUserRole(user, routeId, role, users) &&
      DeleteUserGuarded(user, routeId, users) == DeleteUser(user, routeId, users)
  {
  }

  /** `deleteAccount`: the requester's own row is removed, or a thrown 'Failed to delete account'. */
  function DeleteAccount(user: User, users: seq<UserModel.UserRow>): (a: Answer)
    ensures a.status == OK <==> user.id >= 0 && UserModel.FindById(users, user.id).Some?
    ensures a.status == OK ==> a.write == Remove(user.id)
    ensures a.status != OK ==> a == Thrown("Failed to delete account")
  {
    if user.id < 0 || UserModel.FindById(users, user.id).None? then Thrown("Failed to delete account")
    else Answer(OK, "Account deleted successfully", Remove(user.id))
  }
}
