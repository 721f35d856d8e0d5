/** The `users` table of `lib/models/User.ts`: account creation with a
    default role and a hashed password, lookup by e-mail and id, password
    verification with its `last_login` write, the field list of `update`, and
    deletion. */
module UserModel {
  import opened Wrappers
  import opened JsString
  import opened Sql
  import opened Auth

  datatype User = User(
    id: int, name: string, email: string, password: string, role: Role,
    consentRgpd: bool, lastLogin: Option<int>, createdAt: int, updatedAt: int)

  /** `CreateUserData`; `role` may be omitted. */
  datatype CreateUserData = CreateUserData(
    name: string, email: string, password: string, role: Option<Role>, consentRgpd: bool)

  /** `Partial<CreateUserData>`. A role is one of two non-empty names, so a
      supplied role is always truthy. */
  datatype UserUpdate = UserUpdate(
    name: Option<string>, email: Option<string>, password: Option<string>,
    role: Option<Role>, consentRgpd: Option<bool>)

  /** bcrypt, which the model does not look inside: `hash` stands for
      `bcrypt.hash(_, 12)` and `compare(plain, hash)` for `bcrypt.compare`. */
  datatype Bcrypt = Bcrypt(hash: string -> string, compare: (string, string) -> bool)

  const DatabaseError: string := "Database operation failed"

  /** The row `create` inserts: role `"user"` unless given, the password's
      hash in place of the password, no login yet. */
  function NewUser(id: int, data: CreateUserData, hash: string -> string, now: int): User {
    User(id, data.name, data.email, hash(data.password), data.role.GetOr(UserRole),
         data.consentRgpd, None, now, now)
  }

  /** `SELECT * FROM users WHERE email = ?`, the first row found in id order. */
  function FirstByEmail(rows: map<int, User>, n: nat, email: string): (r: Option<User>)
  {
    var ids := SelectIds(rows, (u: User) => u.email == email, n);
    SelectIdsInRows(rows, (u: User) => u.email == email, n);
    if ids == [] then None else Some(rows[ids[0]])
  }

  /** No two rows share an e-mail address. */
  ghost predicate UniqueEmails(rows: map<int, User>) {
    forall j, k :: j in rows && k in rows && rows[j].email == rows[k].email ==> j == k
  }

  predicate EmailTaken(rows: map<int, User>, email: string) {
    exists k :: k in rows && rows[k].email == email
  }

  /** The lookup by e-mail finds a row iff one has that address, and then the
      row with it; with unique addresses that row is the only one. */
  lemma FirstByEmailSpec(rows: map<int, User>, n: nat, email: string)
    requires forall k :: k in rows ==> 0 <= k < n
    ensures FirstByEmail(rows, n, email).Some? <==> EmailTaken(rows, email)
    ensures FirstByEmail(rows, n, email).Some? ==>
      && FirstByEmail(rows, n, email).value.email == email
      && exists k :: k in rows && rows[k] == FirstByEmail(rows, n, email).value
    ensures UniqueEmails(rows) ==> forall k :: k in rows && rows[k].email == email ==> FirstByEmail(rows, n, email) == Some(rows[k])
  {
    var keep := (u: User) => u.email == email;
    SelectIdsSpec(rows, keep, n);
    var ids := SelectIds(rows, keep, n);
    if EmailTaken(rows, email) {
      var k :| k in rows && rows[k].email == email;
      assert k in ids;
    }
    if ids != [] {
      assert ids[0] in ids;
    }
  }

  datatype UserColumn = NameColumn | EmailColumn | PasswordColumn | RoleColumn

  function UserColumnName(c: UserColumn): string {
    match c
    case NameColumn => "name"
    case EmailColumn => "email"
    case PasswordColumn => "password"
    case RoleColumn => "role"
  }

  /** The `SET` list `update` builds: `name`, `email`, the hash of `password`
      and `role`, each only when truthy. `consent_rgpd` is never written. */
  function UserAssignments(u: UserUpdate, hash: string -> string): seq<Assignment<UserColumn>> {
    (if Truthy(u.name) then [Assignment(NameColumn, SqlText(u.name.value))] else [])
    + (if Truthy(u.email) then [Assignment(EmailColumn, SqlText(u.email.value))] else [])
    + (if Truthy(u.password) then [Assignment(PasswordColumn, SqlText(hash(u.password.value)))] else [])
    + (if u.role.Some? then [Assignment(RoleColumn, SqlText(RoleName(u.role.value)))] else [])
  }

  const UserColumns: seq<UserColumn> := [NameColumn, EmailColumn, PasswordColumn, RoleColumn]

  /** Whether `update` writes column `c` for these updates. */
  predicate UserWrites(u: UserUpdate, c: UserColumn) {
    match c
    case NameColumn => Truthy(u.name)
    case EmailColumn => Truthy(u.email)
    case PasswordColumn => Truthy(u.password)
    case RoleColumn => u.role.Some?
  }

  /** The columns written are exactly the truthy fields of `u` (and the role
      whenever given), in the fixed order name, email, password, role. */
  lemma UserAssignmentColumns(u: UserUpdate, hash: string -> string)
    ensures Columns(UserAssignments(u, hash)) == Written(UserWrites, u, UserColumns)
  {
    var cs := UserColumns;
    assert cs[1..] == [EmailColumn, PasswordColumn, RoleColumn];
    assert cs[1..][1..] == [PasswordColumn, RoleColumn];
    assert cs[1..][1..][1..] == [RoleColumn];
    assert cs[1..][1..][1..][1..] == [];
  }

  /** The consent flag, although part of the update's type, is never written. */
  lemma UserAssignmentsIgnoreConsent(u: UserUpdate, hash: string -> string, consent: Option<bool>)
    ensures UserAssignments(u.(consentRgpd := consent), hash) == UserAssignments(u, hash)
  {
  }

  function ParseRole(s: string): Option<Role> {
    if s == "user" then Some(UserRole) else if s == "admin" then Some(AdminRole) else None
  }

  /** The effect of one `SET` assignment on a row; a role is stored by name. */
  function SetUserColumn(user: User, a: Assignment<UserColumn>): User {
    match (a.column, a.value)
    case (NameColumn, SqlText(t)) => user.(name := t)
    case (EmailColumn, SqlText(t)) => user.(email := t)
    case (PasswordColumn, SqlText(t)) => user.(password := t)
    case (RoleColumn, SqlText(t)) => if ParseRole(t).Some? then user.(role := ParseRole(t).value) else user
    case _ => user
  }

  /** The row as the updates should leave it: the truthy fields replaced, the
      password by its hash, everything else (`consent_rgpd` included) kept. */
  function UserPatched(user: User, u: UserUpdate, hash: string -> string): User {
    user.(name := if Truthy(u.name) then u.name.value else user.name,
          email := if Truthy(u.email) then u.email.value else user.email,
          password := if Truthy(u.password) then hash(u.password.value) else user.password,
          role := u.role.GetOr(user.role))
  }

  lemma RoleRoundTrip(r: Role)
    ensures ParseRole(RoleName(r)) == Some(r)
  {
  }

  /** Executing the `SET` list changes exactly the supplied fields. */
  lemma UserAssignmentsApply(user: User, u: UserUpdate, hash: string -> string)
    ensures ApplyAll(user, UserAssignments(u, hash), SetUserColumn) == UserPatched(user, u, hash)
  {
    var a1 := if Truthy(u.name) then [Assignment(NameColumn, SqlText(u.name.value))] else [];
    var a2 := if Truthy(u.email) then [Assignment(EmailColumn, SqlText(u.email.value))] else [];
    var a3 := if Truthy(u.password) then [Assignment(PasswordColumn, SqlText(hash(u.password.value)))] else [];
    var a4 := if u.role.Some? then [Assignment(RoleColumn, SqlText(RoleName(u.role.value)))] else [];
    if u.role.Some? {
      RoleRoundTrip(u.role.value);
    }
    ApplyAllAppend(user, a1 + a2 + a3, a4, SetUserColumn);
    ApplyAllAppend(user, a1 + a2, a3, SetUserColumn);
    ApplyAllAppend(user, a1, a2, SetUserColumn);
  }

  /** The field-by-field part of `update`. */
  method BuildUserUpdate(u: UserUpdate, hash: string -> string)
    returns (fields: seq<string>, values: seq<SqlValue>, a: seq<Assignment<UserColumn>>)
    ensures a == UserAssignments(u, hash)
    ensures fields == SetClauses(a, UserColumnName) && values == Values(a)
  {
    ghost var a1 := if Truthy(u.name) then [Assignment(NameColumn, SqlText(u.name.value))] else [];
    ghost var a2 := if Truthy(u.email) then [Assignment(EmailColumn, SqlText(u.email.value))] else [];
    ghost var a3 := if Truthy(u.password) then [Assignment(PasswordColumn, SqlText(hash(u.password.value)))] else [];
    fields, values, a := [], [], [];
    if Truthy(u.name) {
      fields, values, a := Push(fields, values, a, Assignment(NameColumn, SqlText(u.name.value)), UserColumnName);
    }
    assert a == a1;
    if Truthy(u.email) {
      fields, values, a := Push(fields, values, a, Assignment(EmailColumn, SqlText(u.email.value)), UserColumnName);
    }
    assert a == a1 + a2;
    if Truthy(u.password) {
      var hashed := hash(u.password.value);
      fields, values, a := Push(fields, values, a, Assignment(PasswordColumn, SqlText(hashed)), UserColumnName);
    }
    assert a == a1 + a2 + a3;
    if u.role.Some? {
      fields, values, a := Push(fields, values, a, Assignment(RoleColumn, SqlText(RoleName(u.role.value))), UserColumnName);
    }
  }

  class UserTable {
    var rows: map<int, User>
    var nextId: nat

    /** Ids are auto-increment keys below `nextId`, stored in their rows, and
        e-mail addresses are unique. */
    ghost predicate Valid()
      reads this
    {
      && nextId >= 1
      && (forall k :: k in rows ==> 1 <= k < nextId && rows[k].id == k)
      && UniqueEmails(rows)
    }

    constructor()
      ensures Valid() && rows == map[] && nextId == 1
    {
      rows := map[];
      nextId := 1;
    }

    /** `findByEmail`. */
    function FindByEmail(email: string): Option<User>
      reads this
    {
      FirstByEmail(rows, nextId, email)
    }

    /** `findById`. */
    function FindById(id: int): (r: Option<User>)
      reads this
      ensures r.Some? <==> id in rows
      ensures r.Some? ==> r.value == rows[id]
    {
      if id in rows then Some(rows[id]) else None
    }

    /** `create`: a taken address makes the insert fail; otherwise the row is
        inserted with its defaults and the re-read by e-mail returns it, so
        the `"Failed to create user"` error cannot occur. */
    method Create(data: CreateUserData, bcrypt: Bcrypt, now: int) returns (r: Result<User, string>)
      requires Valid()
      modifies this
      ensures Valid()
      ensures EmailTaken(old(rows), data.email) ==>
        r == Failure(DatabaseError) && rows == old(rows) && nextId == old(nextId)
      ensures !EmailTaken(old(rows), data.email) ==>
        && r == Success(NewUser(old(nextId), data, bcrypt.hash, now))
        && rows == old(rows)[old(nextId) := r.value] && nextId == old(nextId) + 1
    {
      if EmailTaken(rows, data.email) {
        return Failure(DatabaseError);
      }
      var id := nextId;
      var hashedPassword := bcrypt.hash(data.password);
      var role := if data.role.Some? then data.role.value else UserRole;
      rows := rows[id := User(id, data.name, data.email, hashedPassword, role, data.consentRgpd, None, now, now)];
      nextId := nextId + 1;
      FirstByEmailSpec(rows, nextId, data.email);
      var user := FindByEmail(data.email);
      if user.None? {
        return Failure("Failed to create user");
      }
      r := Success(user.value);
    }

    /** `verifyPassword`: no row for the address, or a hash that does not
        match, yields nothing and changes nothing; otherwise that user's
        `last_login` is set and the row as read before that write is returned. */
    method VerifyPassword(email: string, password: string, bcrypt: Bcrypt, now: int) returns (r: Option<User>)
      requires Valid()
      modifies this
      ensures Valid() && nextId == old(nextId)
      ensures var found := FirstByEmail(old(rows), old(nextId), email);
        r == if found.Some? && bcrypt.compare(password, found.value.password) then found else None
      ensures r.None? ==> rows == old(rows)
      ensures r.Some? ==>
        && r.value.id in old(rows) && old(rows)[r.value.id] == r.value
        && rows == old(rows)[r.value.id := r.value.(lastLogin := Some(now))]
    {
      FirstByEmailSpec(rows, nextId, email);
      var user := FindByEmail(email);
      if user.None? {
        return None;
      }
      var isValid := bcrypt.compare(password, user.value.password);
      if !isValid {
        return None;
      }
      UpdateLastLogin(user.value.id, now);
      r := user;
    }

    /** `updateLastLogin`: that row's `last_login` only. */
    method UpdateLastLogin(userId: int, now: int)
      requires Valid()
      modifies this
      ensures Valid() && nextId == old(nextId)
      ensures rows == if userId in old(rows) then old(rows)[userId := old(rows)[userId].(lastLogin := Some(now))] else old(rows)
    {
      if userId in rows {
        rows := rows[userId := rows[userId].(lastLogin := Some(now))];
      }
    }

    /** `update(id, updates)`: with nothing to set no statement is issued;
        otherwise the statement binds the values and then the id. It fails,
        changing nothing, when it would give the row an address another row
        has; else the row (if there is one) takes the new values and
        `updated_at`. */
    method Update(id: int, u: UserUpdate, bcrypt: Bcrypt, now: int) returns (r: Result<Option<UpdateStatement>, string>)
      requires Valid()
      modifies this
      ensures Valid() && nextId == old(nextId)
      ensures UserAssignments(u, bcrypt.hash) == [] ==> r == Success(None) && rows == old(rows)
      ensures UserAssignments(u, bcrypt.hash) != [] && id in old(rows) && EmailClash(old(rows), id, u) ==>
        r == Failure(DatabaseError) && rows == old(rows)
      ensures UserAssignments(u, bcrypt.hash) != [] && !(id in old(rows) && EmailClash(old(rows), id, u)) ==>
        && r == Success(Some(Statement(UserAssignments(u, bcrypt.hash), UserColumnName, id)))
        && rows == if id !in old(rows) then old(rows)
                   else old(rows)[id := UserPatched(old(rows)[id], u, bcrypt.hash).(updatedAt := now)]
    {
      var fields, values, a := BuildUserUpdate(u, bcrypt.hash);
      if |fields| == 0 {
        return Success(None);
      }
      values := values + [SqlInt(id)];
      if id in rows {
        if EmailClash(rows, id, u) {
          return Failure(DatabaseError);
        }
        UserAssignmentsApply(rows[id], u, bcrypt.hash);
        rows := rows[id := ApplyAll(rows[id], a, SetUserColumn).(updatedAt := now)];
      }
      r := Success(Some(UpdateStatement(fields, values)));
    }

    /** `delete(id)`: removes that row only. */
    method Delete(id: int)
      requires Valid()
      modifies this
      ensures Valid() && nextId == old(nextId)
      ensures rows == old(rows) - {id}
    {
      rows := rows - {id};
    }
  }

  /** Whether the update would give row `id` an address another row has. */
  predicate EmailClash(rows: map<int, User>, id: int, u: UserUpdate) {
    Truthy(u.email) && exists k :: k in rows && k != id && rows[k].email == u.email.value
  }

  /** An update never touches `consent_rgpd`, whatever it supplies. */
  lemma UpdateKeepsConsent(user: User, u: UserUpdate, hash: string -> string)
    ensures ApplyAll(user, UserAssignments(u, hash), SetUserColumn).consentRgpd == user.consentRgpd
  {
    UserAssignmentsApply(user, u, hash);
  }

  /** Deleting a user leaves every other account as it was and the deleted
      one unreachable by id or by address. */
  lemma DeleteRemovesOnlyThatUser(rows: map<int, User>, n: nat, id: int)
    requires forall k :: k in rows ==> 0 <= k < n && rows[k].id == k
    ensures forall k :: k in rows && k != id ==> k in rows - {id} && (rows - {id})[k] == rows[k]
    ensures id !in rows - {id}
    ensures forall e :: FirstByEmail(rows - {id}, n, e).Some? ==> FirstByEmail(rows - {id}, n, e).value.id != id
  {
    forall e | FirstByEmail(rows - {id}, n, e).Some?
      ensures FirstByEmail(rows - {id}, n, e).value.id != id
    {
      FirstByEmailSpec(rows - {id}, n, e);
    }
  }
}
