/** The users collection (src/database/UserDatabase.ts): user records and the
    lookups and upsert the handlers use. Filtering, listing and removal are the
    generic operations of `Store`. */
module UserDatabase {
  import opened Common
  import opened Store

  datatype Role = Admin | Member | External

  /** The string each role is stored and sent as. */
  function RoleName(role: Role): string
  {
    match role
    case Admin => "admin"
    case Member => "member"
    case External => "external"
  }

  /** `Object.values(UserRole).includes(s)`: the role a request string names, if any. */
  function ParseRole(s: string): (r: Option<Role>)
    ensures r.Some? ==> RoleName(r.value) == s
    ensures r.None? <==> s != "admin" && s != "member" && s != "external"
  {
    if s == "admin" then Some(Admin)
    else if s == "member" then Some(Member)
    else if s == "external" then Some(External)
    else None
  }

  /** Every role's own name parses back to it. */
  lemma ParseRoleName(role: Role)
    ensures ParseRole(RoleName(role)) == Some(role)
  {
  }

  /** The fields of a user record besides its id and timestamps. */
  datatype UserBody = UserBody(name: string, displayName: string, email: string, password: string, role: Role)

  /** A user as `getUsersByFilter` returns it: storage key, raw record. */
  type User = Doc<UserBody>

  /** `getUserById`: the first user with that id, or nothing. */
  function UserById(users: seq<User>, id: string): (r: Option<User>)
    ensures r.Some? ==> r.value in users && r.value.raw.id == id
    ensures r.Some? ==> r.value == users[FirstIndex(users, HasId(id))]
    ensures r.None? <==> forall u | u in users :: u.raw.id != id
  {
    First(users, HasId(id))
  }

  /** The filter `user => user.email === s || user.name === s` of login and of
      the registration uniqueness check. */
  function NamedOrMailed(email: string, name: string): Raw<UserBody> -> bool
  {
    (r: Raw<UserBody>) => r.body.email == email || r.body.name == name
  }

  /** The record `createOrUpdateUser` hands back: the record it stored, except
      that `name` and `displayName` both carry the email. */
  function AsReturned(stored: User): User
  {
    stored.(raw := stored.raw.(body := stored.raw.body.(name := stored.raw.body.email, displayName := stored.raw.body.email)))
  }

  /** `createOrUpdateUser`: upserts the user under its id; the stored record keeps
      the given name and display name, but the returned one has both replaced by
      the email. */
  method CreateOrUpdateUser(users: Collection<UserBody>, id: string, body: UserBody, now: int, freshKey: Key)
    returns (u: User)
    requires users.Valid()
    modifies users
    ensures users.Valid()
    ensures users.docs == Upserted(old(users.docs), id, body, now, freshKey)
    ensures var stored := Stamped(old(users.docs), id, body, now, freshKey);
            stored in users.docs && stored.raw.body == body && u == AsReturned(stored)
    ensures u.raw.id == id && u.raw.updatedAt == now
    ensures u.raw.body.name == body.email && u.raw.body.displayName == body.email
    ensures u.raw.body.email == body.email && u.raw.body.password == body.password && u.raw.body.role == body.role
  {
    UpsertedMembers(users.docs, id, body, now, freshKey);
    var stored := users.Upsert(id, body, now, freshKey);
    u := AsReturned(stored);
  }
}
