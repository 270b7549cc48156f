// The users table (server/models/usermodel.js): self-service and admin
// sign-up, the single-admin rule, the unique email index, password checks and
// the dynamic profile update.

module UserModel {
  import opened Wrappers
  import Sql

  /** A users row; the password hash is absent for accounts created through OAuth. */
  datatype UserRow = UserRow(
    id: nat, email: string, passwordHash: Option<string>, name: string, role: string,
    avatar: Option<string>, oauthProvider: Option<string>, lastLogin: Option<int>)

  /** The roles `create` accepts; 'admin' is reserved for `createAdmin`. */
  const SelfServiceRoles: seq<string> := ["student", "instructor"]

  const InvalidRole := "Invalid role specified. Must be student or instructor"
  const EmailTaken := "Email already exists"
  const AdminTaken := "Admin account already exists"
  /** A unique violation that `update` does not translate: the database error with code 23505 surfaces as is. */
  const UniqueViolation := "23505"

  /** `findById`: the row with the id, or null. */
  function FindById(rows: seq<UserRow>, id: nat): (r: Option<UserRow>)
    ensures r.Some? ==> r.value in rows && r.value.id == id
    ensures r.None? <==> forall u :: u in rows ==> u.id != id
  {
    if rows == [] then None
    else if rows[0].id == id then Some(rows[0])
    else FindById(rows[1..], id)
  }

  /** `findByEmail`: the row with the email, or null. */
  function FindByEmail(rows: seq<UserRow>, email: string): (r: Option<UserRow>)
    ensures r.Some? ==> r.value in rows && r.value.email == email
    ensures r.None? <==> forall u :: u in rows ==> u.email != email
  {
    if rows == [] then None
    else if rows[0].email == email then Some(rows[0])
    else FindByEmail(rows[1..], email)
  }

  /** `adminExists`: some row has role 'admin'. */
  predicate AdminExists(rows: seq<UserRow>)
  {
    exists u :: u in rows && u.role == "admin"
  }

  /** The application's rule that there is at most one admin account. */
  predicate AtMostOneAdmin(rows: seq<UserRow>)
  {
    forall i, j :: 0 <= i < |rows| && 0 <= j < |rows| && rows[i].role == "admin" && rows[j].role == "admin" ==> i == j
  }

  /** The unique index on users.email. */
  predicate UniqueEmails(rows: seq<UserRow>)
  {
    forall i, j :: 0 <= i < j < |rows| ==> rows[i].email != rows[j].email
  }

  predicate UniqueIds(rows: seq<UserRow>)
  {
    forall i, j :: 0 <= i < j < |rows| ==> rows[i].id != rows[j].id
  }

  predicate IdsBelow(rows: seq<UserRow>, bound: nat)
  {
    forall i :: 0 <= i < |rows| ==> rows[i].id < bound
  }

  /** The INSERT every sign-up shares: a taken email violates the unique index and is reported as 'Email already exists'. */
  function Insert(rows: seq<UserRow>, row: UserRow): (r: Result<UserRow>)
    ensures r.Ok? <==> forall u :: u in rows ==> u.email != row.email
    ensures r.Ok? ==> r.value == row
    ensures r.Fail? ==> r.message == EmailTaken
  {
    if FindByEmail(rows, row.email).Some? then Fail(EmailTaken) else Ok(row)
  }

  /**
   * `create`: the role (default 'student') must be student or instructor, checked before
   * anything is written; then the row is inserted with the password's hash.
   */
  function CreateOutcome(rows: seq<UserRow>, nextId: nat, email: string, hash: string, name: string, role: Option<string>): (r: Result<UserRow>)
    ensures role.GetOr("student") !in SelfServiceRoles ==> r == Fail(InvalidRole)
    ensures r.Ok? <==> role.GetOr("student") in SelfServiceRoles && forall u :: u in rows ==> u.email != email
    ensures r.Ok? ==> r.value.role in SelfServiceRoles && r.value.passwordHash == Some(hash) && r.value.id == nextId
    ensures r.Ok? ==> r.value.email == email && r.value.name == name
  {
    var given := role.GetOr("student");
    if given !in SelfServiceRoles then Fail(InvalidRole)
    else Insert(rows, UserRow(nextId, email, Some(hash), name, given, None, None, None))
  }

  /** `createAdmin`: refused while any admin exists; otherwise an 'admin' row is inserted. */
  function CreateAdminOutcome(rows: seq<UserRow>, nextId: nat, email: string, hash: string, name: string): (r: Result<UserRow>)
    ensures AdminExists(rows) ==> r == Fail(AdminTaken)
    ensures r.Ok? <==> !AdminExists(rows) && forall u :: u in rows ==> u.email != email
    ensures r.Ok? ==> r.value.role == "admin" && r.value.passwordHash == Some(hash) && r.value.id == nextId
  {
    if exists u :: u in rows && u.role == "admin" then Fail(AdminTaken)
    else Insert(rows, UserRow(nextId, email, Some(hash), name, "admin", None, None, None))
  }

  /** `createOAuthUser`: a 'student' row without a password hash. */
  function CreateOAuthOutcome(rows: seq<UserRow>, nextId: nat, email: string, name: string, provider: string): (r: Result<UserRow>)
    ensures r.Ok? <==> forall u :: u in rows ==> u.email != email
    ensures r.Ok? ==> r.value.role == "student" && r.value.passwordHash.None? && r.value.oauthProvider == Some(provider)
    ensures r.Fail? ==> r.message == EmailTaken
  {
    Insert(rows, UserRow(nextId, email, None, name, "student", None, Some(provider), None))
  }

  /** Apart from `createAdmin`, no sign-up adds an admin, and `createAdmin` adds the first one only. */
  lemma SignUpKeepsSingleAdmin(rows: seq<UserRow>, nextId: nat, email: string, hash: string, name: string, role: Option<string>, provider: string)
    requires AtMostOneAdmin(rows)
    ensures var r := CreateOutcome(rows, nextId, email, hash, name, role); r.Ok? ==> AtMostOneAdmin(rows + [r.value])
    ensures var r := CreateOAuthOutcome(rows, nextId, email, name, provider); r.Ok? ==> AtMostOneAdmin(rows + [r.value])
    ensures var r := CreateAdminOutcome(rows, nextId, email, hash, name); r.Ok? ==>
      AtMostOneAdmin(rows + [r.value]) && AdminExists(rows + [r.value])
  {
    var r := CreateAdminOutcome(rows, nextId, email, hash, name);
    if r.Ok? {
      var after := rows + [r.value];
      assert after[|rows|] == r.value;
      forall i | 0 <= i < |rows| ensures after[i].role != "admin" {
        assert after[i] == rows[i] && rows[i] in rows;
      }
    }
  }

  /** Every successful sign-up keeps emails unique. */
  lemma SignUpKeepsEmailsUnique(rows: seq<UserRow>, row: UserRow)
    requires UniqueEmails(rows) && Insert(rows, row).Ok?
    ensures UniqueEmails(rows + [row])
  {
    var after := rows + [row];
    forall i, j | 0 <= i < j < |after| ensures after[i].email != after[j].email {
      if j == |rows| {
        assert after[i] == rows[i] && rows[i] in rows;
      }
    }
  }

  /**
   * `validatePassword`: false for an unknown email or a row without a password hash; otherwise
   * the verdict of the hash comparison, which is an opaque parameter here.
   */
  function ValidatePassword(rows: seq<UserRow>, email: string, plain: string, matches: (string, string) -> bool): (r: bool)
    ensures FindByEmail(rows, email).None? ==> !r
    ensures r <==> (FindByEmail(rows, email).Some? && FindByEmail(rows, email).value.passwordHash.Some? &&
      matches(plain, FindByEmail(rows, email).value.passwordHash.value))
  {
    match FindByEmail(rows, email)
    case None => false
    case Some(u) => u.passwordHash.Some? && matches(plain, u.passwordHash.value)
  }

  /** An OAuth account has no password: no password logs it in, whatever the hash comparison says. */
  lemma OAuthAccountHasNoPassword(rows: seq<UserRow>, nextId: nat, email: string, name: string, provider: string,
                                  plain: string, matches: (string, string) -> bool)
    requires CreateOAuthOutcome(rows, nextId, email, name, provider).Ok?
    ensures !ValidatePassword(rows + [CreateOAuthOutcome(rows, nextId, email, name, provider).value], email, plain, matches)
  {
    var row := CreateOAuthOutcome(rows, nextId, email, name, provider).value;
    FindByEmailAppend(rows, row, email);
  }

  lemma {:induction false} FindByEmailAppend(rows: seq<UserRow>, row: UserRow, email: string)
    requires FindByEmail(rows, email).None? && row.email == email
    ensures FindByEmail(rows + [row], email) == Some(row)
  {
    if rows != [] {
      assert (rows + [row])[1..] == rows[1..] + [row];
      FindByEmailAppend(rows[1..], row, email);
    }
  }

  // ---------------------------------------------------------------------------
  // update

  /** The keys the handlers pass to `update`, in their order; `None` is undefined. */
  datatype UserChanges = UserChanges(
    name: Option<string>, email: Option<string>, avatar: Option<string>, role: Option<string>, lastLogin: Option<int>)

  const NoChanges := UserChanges(None, None, None, None, None)

  datatype UserValue = Text(s: string) | Time(t: int)

  function UserFields(c: UserChanges): seq<(string, Option<UserValue>)>
  {
    [("name", if c.name.Some? then Some(Text(c.name.value)) else None),
     ("email", if c.email.Some? then Some(Text(c.email.value)) else None),
     ("avatar", if c.avatar.Some? then Some(Text(c.avatar.value)) else None),
     ("role", if c.role.Some? then Some(Text(c.role.value)) else None),
     ("last_login", if c.lastLogin.Some? then Some(Time(c.lastLogin.value)) else None)]
  }

  /** The SET clause `update` writes when some key is defined: those keys, then updated_at. */
  function UserUpdateEntries(c: UserChanges): seq<Sql.Entry<UserValue>>
  {
    Sql.Defined(UserFields(c)) + [Sql.Inline("updated_at")]
  }

  /**
   * `update` sends no statement exactly when no key is defined; otherwise the placeholders
   * are `$2, $3, ...` for the defined keys in order, and the clause ends with updated_at.
   */
  lemma UserUpdateStatement(c: UserChanges)
    ensures Sql.Defined(UserFields(c)) == [] <==> c == NoChanges
    ensures var e := UserUpdateEntries(c);
      forall k :: 0 <= k < |Sql.Values(e)| ==> Sql.SetClause(e)[k] == Sql.Param(e[k].column, k + 2) && Sql.Values(e)[k] == e[k].value
    ensures var e := UserUpdateEntries(c);
      |Sql.Values(e)| == |e| - 1 && Sql.SetClause(e)[|e| - 1] == Sql.Timestamp("updated_at")
  {
    Sql.DefinedEmpty(UserFields(c));
    var f := UserFields(c);
    if Sql.Defined(f) == [] {
      assert f[0].1.None? && f[1].1.None? && f[2].1.None? && f[3].1.None? && f[4].1.None?;
    }
    var d := Sql.Defined(f);
    var e := UserUpdateEntries(c);
    assert e[..|e| - 1] == d;
    Sql.ValuesOfBound(d);
    assert Sql.Values(e) == Sql.Values(d);
    Sql.PlaceholdersMatchValues(e);
  }

  /** A row after `update`: each defined key is written, the others kept. */
  function UpdatedUser(u: UserRow, c: UserChanges): (r: UserRow)
    ensures r.id == u.id && r.passwordHash == u.passwordHash && r.oauthProvider == u.oauthProvider
    ensures c == NoChanges ==> r == u
    ensures c.role.None? ==> r.role == u.role
    ensures c.email.None? ==> r.email == u.email
  {
    u.(name := c.name.GetOr(u.name), email := c.email.GetOr(u.email),
       avatar := if c.avatar.Some? then c.avatar else u.avatar, role := c.role.GetOr(u.role),
       lastLogin := if c.lastLogin.Some? then c.lastLogin else u.lastLogin)
  }

  /** `c.email` would collide with another account's email if the row `id` took it. */
  predicate EmailClash(rows: seq<UserRow>, id: nat, c: UserChanges)
  {
    c.email.Some? && FindById(rows, id).Some? && exists u :: u in rows && u.id != id && u.email == c.email.value
  }

  /** The table after `updatePassword` stores the new hash on the row with the id. */
  function WithPassword(rows: seq<UserRow>, id: nat, hash: string): (r: seq<UserRow>)
    ensures |r| == |rows|
    ensures forall i :: 0 <= i < |r| ==> r[i].id == rows[i].id && r[i].email == rows[i].email && r[i].role == rows[i].role
    ensures forall i :: 0 <= i < |r| ==> r[i] == if rows[i].id == id then rows[i].(passwordHash := Some(hash)) else rows[i]
  {
    seq(|rows|, i requires 0 <= i < |rows| => if rows[i].id == id then rows[i].(passwordHash := Some(hash)) else rows[i])
  }

  /** The table after a successful `update`. */
  function WithChanges(rows: seq<UserRow>, id: nat, c: UserChanges): (r: seq<UserRow>)
    ensures |r| == |rows|
    ensures forall i :: 0 <= i < |r| ==> r[i].id == rows[i].id
    ensures forall i :: 0 <= i < |r| ==> r[i] == if rows[i].id == id then UpdatedUser(rows[i], c) else rows[i]
  {
    seq(|rows|, i requires 0 <= i < |rows| => if rows[i].id == id then UpdatedUser(rows[i], c) else rows[i])
  }

  /** The table after `softDelete`, which despite its name deletes the row. */
  function WithoutId(rows: seq<UserRow>, id: nat): (r: seq<UserRow>)
    ensures forall u :: u in r <==> u in rows && u.id != id
    ensures |r| <= |rows|
  {
    if rows == [] then []
    else (if rows[0].id == id then [] else [rows[0]]) + WithoutId(rows[1..], id)
  }

  /** An update that does not grant the admin role cannot add a second admin. */
  lemma ChangesKeepSingleAdmin(rows: seq<UserRow>, id: nat, c: UserChanges)
    requires AtMostOneAdmin(rows) && c.role != Some("admin")
    ensures AtMostOneAdmin(WithChanges(rows, id, c))
  {
  }

  /** A successful update keeps emails unique. */
  lemma ChangesKeepEmailsUnique(rows: seq<UserRow>, id: nat, c: UserChanges)
    requires UniqueEmails(rows) && UniqueIds(rows) && !EmailClash(rows, id, c)
    ensures UniqueEmails(WithChanges(rows, id, c))
  {
    var after := WithChanges(rows, id, c);
    forall i, j | 0 <= i < j < |after| ensures after[i].email != after[j].email {
      if c.email.Some? && rows[i].id == id {
        assert FindById(rows, id).Some?;
        assert rows[j] in rows;
      } else if c.email.Some? && rows[j].id == id {
        assert FindById(rows, id).Some?;
        assert rows[i] in rows;
      }
    }
  }

  /** The users table. */
  class UserStore {
    var users: seq<UserRow>
    var nextId: nat

    /** The constraints of the table: unique ids and emails, ids below the next serial value. */
    ghost predicate Valid()
      reads this
    {
      UniqueIds(users) && UniqueEmails(users) && IdsBelow(users, nextId)
    }

    constructor ()
      ensures Valid() && users == []
    {
      users, nextId := [], 0;
    }

    /** Appends a row accepted by `Insert`. */
    method Append(row: UserRow)
      requires Valid() && row.id == nextId && Insert(users, row).Ok?
      modifies this
      ensures Valid()
      ensures users == old(users) + [row] && nextId == old(nextId) + 1
    {
      SignUpKeepsEmailsUnique(users, row);
      users, nextId := users + [row], nextId + 1;
    }

    /** `create`, with the bcrypt hash of the password given. */
    method Create(email: string, hash: string, name: string, role: Option<string>) returns (r: Result<UserRow>)
      requires Valid()
      modifies this
      ensures Valid()
      ensures r == CreateOutcome(old(users), old(nextId), email, hash, name, role)
      ensures users == (if r.Ok? then old(users) + [r.value] else old(users))
      ensures nextId == (if r.Ok? then old(nextId) + 1 else old(nextId))
      ensures old(AtMostOneAdmin(users)) ==> AtMostOneAdmin(users)
    {
      r := CreateOutcome(users, nextId, email, hash, name, role);
      if r.Ok? {
        if AtMostOneAdmin(users) {
          SignUpKeepsSingleAdmin(users, nextId, email, hash, name, role, "");
        }
        Append(r.value);
      }
    }

    /** `createAdmin`: succeeds only while no admin exists, and leaves exactly one. */
    method CreateAdmin(email: string, hash: string, name: string) returns (r: Result<UserRow>)
      requires Valid()
      modifies this
      ensures Valid()
      ensures r == CreateAdminOutcome(old(users), old(nextId), email, hash, name)
      ensures users == (if r.Ok? then old(users) + [r.value] else old(users))
      ensures nextId == (if r.Ok? then old(nextId) + 1 else old(nextId))
      ensures old(AtMostOneAdmin(users)) ==> AtMostOneAdmin(users)
      ensures r.Ok? ==> AdminExists(users) && AtMostOneAdmin(users)
    {
      r := CreateAdminOutcome(users, nextId, email, hash, name);
      if r.Ok? {
        if AtMostOneAdmin(users) {
          SignUpKeepsSingleAdmin(users, nextId, email, hash, name, None, "");
        }
        Append(r.value);
      }
    }

    /** `createOAuthUser`. */
    method CreateOAuthUser(email: string, name: string, provider: string) returns (r: Result<UserRow>)
      requires Valid()
      modifies this
      ensures Valid()
      ensures r == CreateOAuthOutcome(old(users), old(nextId), email, name, provider)
      ensures users == (if r.Ok? then old(users) + [r.value] else old(users))
      ensures nextId == (if r.Ok? then old(nextId) + 1 else old(nextId))
      ensures old(AtMostOneAdmin(users)) ==> AtMostOneAdmin(users)
    {
      r := CreateOAuthOutcome(users, nextId, email, name, provider);
      if r.Ok? {
        if AtMostOneAdmin(users) {
          SignUpKeepsSingleAdmin(users, nextId, email, "", name, None, provider);
        }
        Append(r.value);
      }
    }

    /** `updatePassword`, with the new hash given: the row comes back, or nothing for an unknown id. */
    method UpdatePassword(id: nat, hash: string) returns (r: Option<UserRow>)
      requires Valid()
      modifies this
      ensures Valid()
      ensures users == WithPassword(old(users), id, hash) && nextId == old(nextId)
      ensures r == FindById(users, id)
      ensures FindById(old(users), id).None? <==> r.None?
    {
      users := WithPassword(users, id, hash);
      r := FindById(users, id);
      if FindById(old(users), id).Some? {
        var i :| 0 <= i < |old(users)| && old(users)[i] == FindById(old(users), id).value;
        assert users[i].id == id && users[i] in users;
      } else {
        forall i | 0 <= i < |users| ensures users[i].id != id {
          assert old(users)[i] in old(users);
        }
      }
    }

    /**
     * `update`: with no defined key the stored row is returned and nothing is written; an
     * email taken by another account fails with the unique violation; otherwise the defined
     * keys are written and the row comes back (nothing for an unknown id).
     */
    method Update(id: nat, c: UserChanges) returns (r: Result<Option<UserRow>>)
      requires Valid()
      modifies this
      ensures Valid() && nextId == old(nextId)
      ensures c == NoChanges ==> users == old(users) && r == Ok(FindById(old(users), id))
      ensures c != NoChanges && EmailClash(old(users), id, c) ==> users == old(users) && r == Fail(UniqueViolation)
      ensures c != NoChanges && !EmailClash(old(users), id, c) ==>
        users == WithChanges(old(users), id, c) && r == Ok(FindById(users, id))
      ensures old(AtMostOneAdmin(users)) && c.role != Some("admin") ==> AtMostOneAdmin(users)
    {
      if c == NoChanges {
        return Ok(FindById(users, id));
      }
      if EmailClash(users, id, c) {
        return Fail(UniqueViolation);
      }
      ChangesKeepEmailsUnique(users, id, c);
      if AtMostOneAdmin(users) && c.role != Some("admin") {
        ChangesKeepSingleAdmin(users, id, c);
      }
      users := WithChanges(users, id, c);
      r := Ok(FindById(users, id));
    }

    /** `softDelete`: removes the row and returns it, or nothing for an unknown id. */
    method SoftDelete(id: nat) returns (r: Option<UserRow>)
      requires Valid()
      modifies this
      ensures Valid() && nextId == old(nextId)
      ensures r == FindById(old(users), id)
      ensures users == WithoutId(old(users), id)
      ensures old(AtMostOneAdmin(users)) ==> AtMostOneAdmin(users)
    {
      r := FindById(users, id);
      WithoutIdKeepsIds(users, id);
      WithoutIdKeepsEmails(users, id);
      WithoutIdKeepsBound(users, id, nextId);
      if AtMostOneAdmin(users) {
        WithoutIdKeepsSingleAdmin(users, id);
      }
      users := WithoutId(users, id);
    }
  }

  /** The tail of a list with unique ids has unique ids, none of them the head's. */
  lemma UniqueIdsTail(rows: seq<UserRow>)
    requires rows != [] && UniqueIds(rows)
    ensures UniqueIds(rows[1..])
    ensures forall u :: u in rows[1..] ==> u.id != rows[0].id
  {
    forall u | u in rows[1..] ensures u.id != rows[0].id {
      var k :| 0 <= k < |rows[1..]| && rows[1..][k] == u;
      assert rows[k + 1] == u;
    }
  }

  /** A row put in front of rows with unique ids, none of them its own, keeps ids unique. */
  lemma UniqueIdsCons(x: UserRow, rest: seq<UserRow>)
    requires UniqueIds(rest) && forall u :: u in rest ==> u.id != x.id
    ensures UniqueIds([x] + rest)
  {
    var r := [x] + rest;
    forall i, j | 0 <= i < j < |r| ensures r[i].id != r[j].id {
      assert r[j] == rest[j - 1];
      if i > 0 {
        assert r[i] == rest[i - 1];
      } else {
        assert rest[j - 1] in rest;
      }
    }
  }

  /** Deleting rows keeps ids unique. */
  lemma {:induction false} WithoutIdKeepsIds(rows: seq<UserRow>, id: nat)
    requires UniqueIds(rows)
    ensures UniqueIds(WithoutId(rows, id))
  {
    if rows != [] {
      UniqueIdsTail(rows);
      WithoutIdKeepsIds(rows[1..], id);
      var rest := WithoutId(rows[1..], id);
      if rows[0].id != id {
        assert WithoutId(rows, id) == [rows[0]] + rest;
        UniqueIdsCons(rows[0], rest);
      } else {
        assert WithoutId(rows, id) == rest;
      }
    }
  }

  /** Deleting rows keeps emails unique. */
  lemma {:induction false} WithoutIdKeepsEmails(rows: seq<UserRow>, id: nat)
    requires UniqueEmails(rows)
    ensures UniqueEmails(WithoutId(rows, id))
  {
    if rows != [] {
      UniqueEmailsTail(rows);
      WithoutIdKeepsEmails(rows[1..], id);
      var rest := WithoutId(rows[1..], id);
      if rows[0].id != id {
        assert WithoutId(rows, id) == [rows[0]] + rest;
        UniqueEmailsCons(rows[0], rest);
      } else {
        assert WithoutId(rows, id) == rest;
      }
    }
  }

  /** The tail of a list with unique emails has unique emails, none of them the head's. */
  lemma UniqueEmailsTail(rows: seq<UserRow>)
    requires rows != [] && UniqueEmails(rows)
    ensures UniqueEmails(rows[1..])
    ensures forall u :: u in rows[1..] ==> u.email != rows[0].email
  {
    forall u | u in rows[1..] ensures u.email != rows[0].email {
      var k :| 0 <= k < |rows[1..]| && rows[1..][k] == u;
      assert rows[k + 1] == u;
    }
  }

  /** A row put in front of rows with unique emails, none of them its own, keeps emails unique. */
  lemma UniqueEmailsCons(x: UserRow, rest: seq<UserRow>)
    requires UniqueEmails(rest) && forall u :: u in rest ==> u.email != x.email
    ensures UniqueEmails([x] + rest)
  {
    var r := [x] + rest;
    forall i, j | 0 <= i < j < |r| ensures r[i].email != r[j].email {
      assert r[j] == rest[j - 1];
      if i > 0 {
        assert r[i] == rest[i - 1];
      } else {
        assert rest[j - 1] in rest;
      }
    }
  }

  /** Deleting rows cannot add an admin. */
  lemma {:induction false} WithoutIdKeepsSingleAdmin(rows: seq<UserRow>, id: nat)
    requires AtMostOneAdmin(rows)
    ensures AtMostOneAdmin(WithoutId(rows, id))
  {
    if rows != [] {
      WithoutIdKeepsSingleAdmin(rows[1..], id);
      var rest := WithoutId(rows[1..], id);
      var r := WithoutId(rows, id);
      if rows[0].id != id {
        assert r == [rows[0]] + rest;
        if rows[0].role == "admin" {
          forall j | 0 < j < |r| ensures r[j].role != "admin" {
            assert r[j] == rest[j - 1] && rest[j - 1] in rows[1..];
            var k :| 0 <= k < |rows[1..]| && rows[1..][k] == r[j];
            assert rows[k + 1] == r[j];
          }
        }
        forall i, j | 0 < i < |r| && 0 < j < |r| && r[i].role == "admin" && r[j].role == "admin" ensures i == j {
          assert r[i] == rest[i - 1] && r[j] == rest[j - 1];
        }
      }
    }
  }

  lemma WithoutIdKeepsBound(rows: seq<UserRow>, id: nat, bound: nat)
    requires IdsBelow(rows, bound)
    ensures IdsBelow(WithoutId(rows, id), bound)
  {
    var r := WithoutId(rows, id);
    forall i | 0 <= i < |r| ensures r[i].id < bound {
      assert r[i] in rows;
    }
  }
}
