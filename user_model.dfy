/**
 * The Users table: its row, the constraints the schema declares on each
 * column, the role enumeration with its default, and the two projections
 * (the default one without the password, `withPassword` with it).
 */
module UserModel {
  import opened Wrappers

  /** `ENUM('admin', 'owner', 'user')`. */
  datatype Role = Admin | Owner | User

  /** The role a new user gets when none is given. */
  const DefaultRole: Role := User

  function RoleName(r: Role): string {
    match r
    case Admin => "admin"
    case Owner => "owner"
    case User => "user"
  }

  /** The enumeration value a string names, if any: exact, case-sensitive match. */
  function ParseRole(s: string): (r: Option<Role>)
    ensures r.Some? ==> RoleName(r.value) == s
    ensures r.None? ==> forall role: Role :: RoleName(role) != s
  {
    if s == "admin" then Some(Admin)
    else if s == "owner" then Some(Owner)
    else if s == "user" then Some(User)
    else None
  }

  /** Distinct roles have distinct names, so parsing a role's name gives it back. */
  lemma ParseRoleName(r: Role)
    ensures ParseRole(RoleName(r)) == Some(r)
  {
  }

  /** A row of the Users table; `password` holds the stored (hashed) credential. */
  datatype UserRow = UserRow(
    id: int,
    name: string,
    email: string,
    password: string,
    role: Role,
    address: Option<string>)

  /** What the default scope returns: every column except the password. */
  datatype UserView = UserView(id: int, name: string, email: string, role: Role, address: Option<string>)

  /** The default projection. */
  function PublicView(u: UserRow): UserView {
    UserView(u.id, u.name, u.email, u.role, u.address)
  }

  /**
   * The default projection drops the password and nothing else: two rows have
   * the same public view exactly when they differ at most in the password.
   */
  lemma PublicViewDropsOnlyPassword(u1: UserRow, u2: UserRow)
    ensures PublicView(u1) == PublicView(u2) <==> u1.(password := u2.password) == u2
  {
  }

  /** The `withPassword` scope: the whole row. */
  function WithPassword(u: UserRow): (r: UserRow)
    ensures PublicView(r) == PublicView(u) && r.password == u.password
  {
    u
  }

  /** `STRING(60)` with `len: [20, 60]`. */
  predicate NameOk(name: string) {
    20 <= |name| <= 60
  }

  /** `STRING(120)`, not null, `isEmail` (an external check, given as `isEmail`). */
  predicate EmailOk(email: string, isEmail: string -> bool) {
    isEmail(email) && |email| <= 120
  }

  /** `STRING(400)`, nullable. */
  predicate AddressOk(address: Option<string>) {
    address.None? || |address.value| <= 400
  }

  /** The column constraints Sequelize and the database check on insert. */
  predicate UserFieldsOk(name: string, email: string, address: Option<string>, isEmail: string -> bool) {
    NameOk(name) && EmailOk(email, isEmail) && AddressOk(address)
  }

  /**
   * The Users table as a whole: every row meets the column constraints, ids
   * are positive and below the next value of the id sequence, and both the
   * primary key and the `unique` email are unique.
   */
  ghost predicate UsersValid(users: seq<UserRow>, isEmail: string -> bool, nextId: int) {
    && 1 <= nextId
    && (forall i :: 0 <= i < |users| ==>
          UserFieldsOk(users[i].name, users[i].email, users[i].address, isEmail)
          && 1 <= users[i].id < nextId)
    && (forall i, j :: 0 <= i < j < |users| ==>
          users[i].id != users[j].id && users[i].email != users[j].email)
  }

  /** `findByPk(id)`. */
  function FindUser(users: seq<UserRow>, id: int): (r: Option<UserRow>)
    ensures r.Some? ==> r.value in users && r.value.id == id
    ensures r.None? ==> forall u :: u in users ==> u.id != id
  {
    if users == [] then None
    else if users[0].id == id then Some(users[0])
    else FindUser(users[1..], id)
  }

  /** `findOne({ where: { email } })` found a row. */
  predicate EmailTaken(users: seq<UserRow>, email: string) {
    exists u :: u in users && u.email == email
  }

  /** With unique primary keys, `findByPk` returns the one row with that id. */
  lemma {:induction false} FindUserUnique(users: seq<UserRow>, i: int)
    requires 0 <= i < |users|
    requires forall a, b :: 0 <= a < b < |users| ==> users[a].id != users[b].id
    ensures FindUser(users, users[i].id) == Some(users[i])
  {
    if i > 0 {
      assert users[0].id != users[i].id;
      FindUserUnique(users[1..], i - 1);
    }
  }

  /** Appending a row hides no existing row from `findByPk`, and finds the new one by its id. */
  lemma {:induction false} FindUserAppend(users: seq<UserRow>, row: UserRow, id: int)
    ensures FindUser(users + [row], id)
         == if FindUser(users, id).Some? then FindUser(users, id) else if row.id == id then Some(row) else None
  {
    if users == [] {
      assert [] + [row] == [row];
    } else {
      assert (users + [row])[1..] == users[1..] + [row];
      FindUserAppend(users[1..], row, id);
    }
  }
}
