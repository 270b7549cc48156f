// The account schemas (server/utils/validations.js): the strong-password
// pattern, name and role rules, and what register, admin sign-up, login,
// change-password, reset-password and profile requests must carry. The email
// format check is an oracle parameter.

module Validations {
  import opened Wrappers

  predicate IsLower(c: char) { 'a' <= c <= 'z' }
  predicate IsUpper(c: char) { 'A' <= c <= 'Z' }
  predicate IsDigit(c: char) { '0' <= c <= '9' }
  predicate IsSpecial(c: char) { c in "@$!%*?&" }

  /** The characters the password pattern's body allows: `[A-Za-z\d@$!%*?&]`. */
  predicate PasswordChar(c: char)
  {
    IsLower(c) || IsUpper(c) || IsDigit(c) || IsSpecial(c)
  }

  /**
   * The password pattern with minimum length `min`: only allowed characters, at least `min`
   * of them, and at least one lowercase letter, one uppercase letter, one digit and one of
   * `@$!%*?&` (the four look-aheads).
   */
  predicate StrongPassword(p: string, min: nat)
  {
    |p| >= min &&
    (forall i :: 0 <= i < |p| ==> PasswordChar(p[i])) &&
    (exists i :: 0 <= i < |p| && IsLower(p[i])) &&
    (exists i :: 0 <= i < |p| && IsUpper(p[i])) &&
    (exists i :: 0 <= i < |p| && IsDigit(p[i])) &&
    (exists i :: 0 <= i < |p| && IsSpecial(p[i]))
  }

  const PasswordMin := 8
  const AdminPasswordMin := 10

  /** An admin password is also a valid ordinary password, and any strong password has four distinct characters. */
  lemma StrongPasswordFacts(p: string)
    ensures StrongPassword(p, AdminPasswordMin) ==> StrongPassword(p, PasswordMin)
    ensures StrongPassword(p, 0) ==>
      exists i, j, k, l ::
        0 <= i < |p| && 0 <= j < |p| && 0 <= k < |p| && 0 <= l < |p| &&
        IsLower(p[i]) && IsUpper(p[j]) && IsDigit(p[k]) && IsSpecial(p[l]) &&
        i != j && i != k && i != l && j != k && j != l && k != l
  {
  }

  /** A password with all four kinds of character, nine long: ordinary but not admin strength. */
  lemma NineCharacterPassword()
    ensures StrongPassword("Passw0rd!", PasswordMin) && !StrongPassword("Passw0rd!", AdminPasswordMin)
  {
    var p := "Passw0rd!";
    assert IsLower(p[1]) && IsUpper(p[0]) && IsDigit(p[5]) && IsSpecial(p[8]);
  }

  /** A space is not an allowed character. */
  lemma SpaceRefused(p: string, i: nat)
    requires i < |p| && p[i] == ' '
    ensures !StrongPassword(p, 0)
  {
    assert !PasswordChar(p[i]);
  }

  /** Without a character of each kind the password is refused. */
  lemma MissingKindRefused(p: string)
    requires (forall i :: 0 <= i < |p| ==> !IsUpper(p[i])) || (forall i :: 0 <= i < |p| ==> !IsSpecial(p[i]))
    ensures !StrongPassword(p, 0)
  {
  }

  /** `name: string().min(3).max(255)`. */
  predicate NameValid(name: string)
  {
    3 <= |name| <= 255
  }

  /** The roles the register schema lists; its default is 'student'. */
  const SchemaRoles: seq<string> := ["student", "instructor", "admin"]

  /** A register body; `None` is an absent key. */
  datatype Registration = Registration(name: Option<string>, email: Option<string>, password: Option<string>, role: Option<string>)

  /** A validated register body, with the role default applied. */
  datatype NewAccount = NewAccount(name: string, email: string, password: string, role: string)

  /** `registerSchema.validate(body)`: the validated value, or nothing on any error. */
  function ValidateRegistration(body: Registration, isEmail: string -> bool): (r: Option<NewAccount>)
    ensures r.Some? <==>
      (body.name.Some? && NameValid(body.name.value) &&
       body.email.Some? && isEmail(body.email.value) &&
       body.password.Some? && StrongPassword(body.password.value, PasswordMin) &&
       (body.role.None? || body.role.value in SchemaRoles))
    ensures r.Some? ==> r.value.role == body.role.GetOr("student") && r.value.role in SchemaRoles
    ensures r.Some? ==> StrongPassword(r.value.password, PasswordMin)
  {
    if body.name.Some? && NameValid(body.name.value) && body.email.Some? && isEmail(body.email.value) &&
       body.password.Some? && StrongPassword(body.password.value, PasswordMin) &&
       (body.role.None? || body.role.value in SchemaRoles)
    then Some(NewAccount(body.name.value, body.email.value, body.password.value, body.role.GetOr("student")))
    else None
  }

  /** `adminRegisterSchema`: the same fields without a role, and a password of at least 10 characters. */
  predicate AdminRegistrationValid(name: Option<string>, email: Option<string>, password: Option<string>, isEmail: string -> bool)
  {
    name.Some? && NameValid(name.value) && email.Some? && isEmail(email.value) &&
    password.Some? && StrongPassword(password.value, AdminPasswordMin)
  }

  /** `loginSchema`: an email and a non-empty password. */
  predicate LoginValid(email: Option<string>, password: Option<string>, isEmail: string -> bool)
  {
    email.Some? && isEmail(email.value) && password.Some? && password.value != ""
  }

  /** `changePasswordSchema`: a current password, and a strong new password different from it. */
  predicate ChangePasswordValid(currentPassword: Option<string>, newPassword: Option<string>)
  {
    currentPassword.Some? && currentPassword.value != "" &&
    newPassword.Some? && StrongPassword(newPassword.value, PasswordMin) && newPassword.value != currentPassword.value
  }

  /** `resetPasswordSchema`: a token and a strong new password. */
  predicate ResetPasswordValid(token: Option<string>, newPassword: Option<string>)
  {
    token.Some? && token.value != "" && newPassword.Some? && StrongPassword(newPassword.value, PasswordMin)
  }

  /** `updateProfileSchema`: an optional name and email and no other key; `otherKeys` are the body's remaining keys. */
  predicate ProfileUpdateValid(name: Option<string>, email: Option<string>, otherKeys: set<string>, isEmail: string -> bool)
  {
    (name.None? || NameValid(name.value)) && (email.None? || isEmail(email.value)) && otherKeys == {}
  }

  /**
   * Properties of the schemas: a registration may ask for 'admin' (the handler refuses it),
   * an omitted role becomes 'student', a changed password is never the current one, and a
   * profile body carrying a role or an avatar is refused by the schema.
   */
  lemma SchemaFacts(body: Registration, isEmail: string -> bool, current: Option<string>, next: Option<string>,
                    name: Option<string>, email: Option<string>)
    ensures ValidateRegistration(body, isEmail).Some? && body.role.None? ==> ValidateRegistration(body, isEmail).value.role == "student"
    ensures isEmail("a@b.co") ==>
      ValidateRegistration(Registration(Some("Ada"), Some("a@b.co"), Some("Passw0rd!"), Some("admin")), isEmail) ==
      Some(NewAccount("Ada", "a@b.co", "Passw0rd!", "admin"))
    ensures ChangePasswordValid(current, next) ==> next.value != current.value && StrongPassword(next.value, PasswordMin)
    ensures !ProfileUpdateValid(name, email, {"role"}, isEmail) && !ProfileUpdateValid(name, email, {"avatar"}, isEmail)
  {
    NineCharacterPassword();
  }
}
