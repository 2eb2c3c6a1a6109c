/**
 * The admin endpoints: dashboard counts, creating a user, the user and store
 * listings with their filters, and a user's details with an owner's mean
 * score over all of their stores.
 */
module AdminController {
  import opened Wrappers
  import opened Http
  import opened UserModel
  import opened StoreModel
  import opened RatingModel
  import opened Database
  import Text
  import Query
  import Aggregates
  import Validators
  import RatingsController
  import StoresController

  // ----- getDashboard -----

  datatype Dashboard = Dashboard(totalUsers: nat, totalStores: nat, totalRatings: nat)

  /** `getDashboard`: the row count of each table. */
  function GetDashboard(users: seq<UserRow>, stores: seq<StoreRow>, ratings: seq<RatingRow>): Dashboard {
    Dashboard(|users|, |stores|, |ratings|)
  }

  /**
   * The dashboard counts ratings, not submissions: a resubmission for a pair
   * leaves the total as it was, a first submission adds one.
   */
  lemma DashboardCountsRatedPairs(
    users: seq<UserRow>, stores: seq<StoreRow>, ratings: seq<RatingRow>,
    nextId: int, userId: int, storeId: int, score: int)
    ensures var before := GetDashboard(users, stores, ratings);
      var after := GetDashboard(users, stores, RatingsController.Upserted(ratings, nextId, userId, storeId, score));
      && after.totalUsers == before.totalUsers && after.totalStores == before.totalStores
      && after.totalRatings == before.totalRatings + (if FindRating(ratings, userId, storeId).None? then 1 else 0)
  {
    RatingsController.UpsertOverwritesOrAppends(ratings, nextId, userId, storeId, score);
  }

  /** The (user, store) pairs that have a rating. */
  function RatedPairs(ratings: seq<RatingRow>): set<(int, int)> {
    set r | r in ratings :: (r.userId, r.storeId)
  }

  /**
   * Under the unique index on the pair, the dashboard's rating total is the
   * number of distinct (user, store) pairs that have been rated.
   */
  lemma {:induction false} DashboardCountsDistinctPairs(
    users: seq<UserRow>, stores: seq<StoreRow>, ratings: seq<RatingRow>)
    requires UniquePairs(ratings)
    ensures GetDashboard(users, stores, ratings).totalRatings == |RatedPairs(ratings)|
  {
    if ratings != [] {
      var rest := ratings[1..];
      UniquePairsTail(ratings);
      DashboardCountsDistinctPairs(users, stores, rest);
      RatedPairsCons(ratings);
    }
  }

  /** The rows after the first still have unique pairs. */
  lemma UniquePairsTail(ratings: seq<RatingRow>)
    requires UniquePairs(ratings) && ratings != []
    ensures UniquePairs(ratings[1..])
  {
    var rest := ratings[1..];
    forall i, j | 0 <= i < j < |rest| ensures !IsPair(rest[j], rest[i].userId, rest[i].storeId) {
      assert rest[i] == ratings[i + 1] && rest[j] == ratings[j + 1];
    }
  }

  /** With unique pairs, the first row adds a pair the others do not have. */
  lemma RatedPairsCons(ratings: seq<RatingRow>)
    requires UniquePairs(ratings) && ratings != []
    ensures var head := (ratings[0].userId, ratings[0].storeId);
      && head !in RatedPairs(ratings[1..])
      && RatedPairs(ratings) == {head} + RatedPairs(ratings[1..])
  {
    var rest := ratings[1..];
    var head := (ratings[0].userId, ratings[0].storeId);
    forall r | r in rest ensures (r.userId, r.storeId) != head {
      var j :| 0 <= j < |rest| && rest[j] == r;
      assert ratings[j + 1] == r;
    }
    forall r | r in ratings ensures r == ratings[0] || r in rest {
      var j :| 0 <= j < |ratings| && ratings[j] == r;
      if j > 0 { assert rest[j - 1] == r; }
    }
    assert forall r :: r in rest ==> r in ratings;
  }

  // ----- createUser -----

  /** The reply of a created user: `{ id, email, role }`. */
  datatype CreatedUser = CreatedUser(id: int, email: string, role: Role)

  /** `role || "user"`: an absent or empty role is the default; any other must name an enumeration value. */
  function ResolveRole(role: Option<string>): (r: Option<Role>)
    ensures (role.None? || role.value == "") ==> r == Some(DefaultRole)
    ensures (role.Some? && role.value != "") ==> (r.Some? <==> Validators.RoleValid(role))
    ensures r.Some? && role.Some? && role.value != "" ==> RoleName(r.value) == role.value
  {
    if role.None? || role.value == "" then Some(DefaultRole) else ParseRole(role.value)
  }

  /** The `beforeCreate` hook: a non-empty password is replaced by its hash. */
  function HookHash(password: string, hash: string -> string): string {
    if password != "" then hash(password) else password
  }

  /**
   * `isValidPassword`: the candidate matches when hashing it gives the stored
   * value. The salted bcrypt hash is abstracted as the deterministic `hash`.
   */
  predicate PasswordMatches(candidate: string, stored: string, hash: string -> string) {
    hash(candidate) == stored
  }

  /**
   * The password `createUser` stores as written: the controller hashes it,
   * and then the hook hashes that hash again.
   */
  function AsWrittenStoredPassword(password: string, hash: string -> string): (r: string)
    ensures hash(password) != "" ==> r == hash(hash(password))
  {
    HookHash(hash(password), hash)
  }

  /**
   * With the double hash, the user cannot log in with the password they were
   * created with: for the hash that prefixes `#`, the stored value is the
   * password with two marks, and the login check expects one.
   */
  lemma AsWrittenLocksOut()
    ensures var h := (s: string) => "#" + s;
      !PasswordMatches("Secret!Pass1", AsWrittenStoredPassword("Secret!Pass1", h), h)
  {
    var h := (s: string) => "#" + s;
    assert |AsWrittenStoredPassword("Secret!Pass1", h)| == |"Secret!Pass1"| + 2;
  }

  /**
   * The password stored once hashing is left to the hook alone: a non-empty
   * password is stored as its hash, so the login check accepts it.
   */
  function StoredPassword(password: string, hash: string -> string): (r: string)
    ensures password != "" ==> PasswordMatches(password, r, hash)
    ensures password == "" ==> r == ""
  {
    HookHash(password, hash)
  }

  /**
   * `User.create` succeeds: the row's fields are present and meet the column
   * constraints (the name and a present address trimmed by the chain), and the
   * role resolves.
   */
  predicate CreateUserAccepted(
    isEmail: string -> bool,
    name: Option<string>, email: string, password: Option<string>, address: Option<string>, role: Option<string>)
  {
    && name.Some?
    && password.Some?
    && ResolveRole(role).Some?
    && UserFieldsOk(Text.Trim(name.value), email, Validators.TrimIfPresent(address), isEmail)
  }

  /**
   * The row `createUser` inserts: the trimmed name and address, the password
   * hashed once, and the resolved role.
   */
  function NewUserRow(
    id: int, name: string, email: string, password: string,
    address: Option<string>, role: Option<string>, hash: string -> string): (row: UserRow)
    requires ResolveRole(role).Some?
    ensures row.id == id && row.email == email && row.name == Text.Trim(name)
    ensures row.role == ResolveRole(role).value && row.address == Validators.TrimIfPresent(address)
    ensures password != "" ==> PasswordMatches(password, row.password, hash)
  {
    UserRow(id, Text.Trim(name), email, StoredPassword(password, hash), ResolveRole(role).value,
            Validators.TrimIfPresent(address))
  }

  /**
   * `createUser`. The body arrives as the validation chain leaves it: the
   * email trimmed (the empty string when absent), then normalized by
   * `normalizeEmail`, given as `normalize`. An email already in use
   * is a 409. Otherwise a row the schema refuses is a 500, and a row it
   * accepts is added with the next id, the password hashed once (see
   * `AsWrittenLocksOut` for the double hash of the code as written) and the
   * resolved role (201). Every failure leaves the database as it was.
   */
  method CreateUser(
    db: Db, name: Option<string>, email: Option<string>, password: Option<string>,
    address: Option<string>, role: Option<string>, normalize: string -> string, hash: string -> string)
    returns (res: Result<CreatedUser, ApiError>)
    requires db.Valid()
    modifies db
    ensures db.Valid()
    ensures db.stores == old(db.stores) && db.ratings == old(db.ratings)
    ensures db.nextStoreId == old(db.nextStoreId) && db.nextRatingId == old(db.nextRatingId)
    ensures res.Err? ==> db.users == old(db.users) && db.nextUserId == old(db.nextUserId)
    ensures email.None? && !db.isEmail(normalize("")) ==> res == Err(ServerError)
    ensures var e := normalize(Validators.TrimOrEmpty(email));
      EmailTaken(old(db.users), e) ==> res == Err(Conflict)
    ensures var e := normalize(Validators.TrimOrEmpty(email));
      !EmailTaken(old(db.users), e) ==>
      if !CreateUserAccepted(db.isEmail, name, e, password, address, role) then
        res == Err(ServerError)
      else
        var row := NewUserRow(old(db.nextUserId), name.value, e, password.value, address, role, hash);
        && res == Ok(CreatedUser(row.id, row.email, row.role))
        && db.users == old(db.users) + [row]
        && db.nextUserId == old(db.nextUserId) + 1
        && FindUser(db.users, row.id) == Some(row)
        && (password.value != "" ==> PasswordMatches(password.value, row.password, hash))
  {
    var e := normalize(Validators.TrimOrEmpty(email));
    if !db.isEmail(e) {
      RefusedEmailRefused(db.users, db.isEmail, db.nextUserId, e, name, password, address, role);
    }
    res := InsertUser(db, name, e, password, address, role, hash);
  }

  /** The body of `createUser` once the chain has turned the email into a string. */
  method InsertUser(
    db: Db, name: Option<string>, email: string, password: Option<string>,
    address: Option<string>, role: Option<string>, hash: string -> string)
    returns (res: Result<CreatedUser, ApiError>)
    requires db.Valid()
    modifies db
    ensures db.Valid()
    ensures db.stores == old(db.stores) && db.ratings == old(db.ratings)
    ensures db.nextStoreId == old(db.nextStoreId) && db.nextRatingId == old(db.nextRatingId)
    ensures res.Err? ==> db.users == old(db.users) && db.nextUserId == old(db.nextUserId)
    ensures EmailTaken(old(db.users), email) ==> res == Err(Conflict)
    ensures !EmailTaken(old(db.users), email) ==>
      if !CreateUserAccepted(db.isEmail, name, email, password, address, role) then
        res == Err(ServerError)
      else
        var row := NewUserRow(old(db.nextUserId), name.value, email, password.value, address, role, hash);
        && res == Ok(CreatedUser(row.id, row.email, row.role))
        && db.users == old(db.users) + [row]
        && db.nextUserId == old(db.nextUserId) + 1
        && FindUser(db.users, row.id) == Some(row)
        && (password.value != "" ==> PasswordMatches(password.value, row.password, hash))
  {
    if EmailTaken(db.users, email) {
      return Err(Conflict);
    }
    if !CreateUserAccepted(db.isEmail, name, email, password, address, role) {
      return Err(ServerError);
    }
    var row := NewUserRow(db.nextUserId, name.value, email, password.value, address, role, hash);
    AcceptedRowMeetsSchema(db.isEmail, db.nextUserId, name, email, password, address, role, hash);
    CreateUserKeepsTablesValid(db.users, db.stores, db.ratings, db.isEmail,
      db.nextUserId, db.nextStoreId, db.nextRatingId, row);
    db.users := db.users + [row];
    db.nextUserId := db.nextUserId + 1;
    res := Ok(CreatedUser(row.id, row.email, row.role));
  }

  /** The row built from fields `User.create` accepts meets the column constraints. */
  lemma AcceptedRowMeetsSchema(
    isEmail: string -> bool, id: int,
    name: Option<string>, email: string, password: Option<string>, address: Option<string>, role: Option<string>,
    hash: string -> string)
    requires CreateUserAccepted(isEmail, name, email, password, address, role)
    ensures var row := NewUserRow(id, name.value, email, password.value, address, role, hash);
      UserFieldsOk(row.name, row.email, row.address, isEmail)
  {
  }

  /**
   * An email `isEmail` refuses (such as the one an absent field becomes) is
   * neither in use nor accepted by the schema, so it is a 500 and not a 409.
   */
  lemma RefusedEmailRefused(
    users: seq<UserRow>, isEmail: string -> bool, nextId: int, e: string,
    name: Option<string>, password: Option<string>, address: Option<string>, role: Option<string>)
    requires UsersValid(users, isEmail, nextId)
    requires !isEmail(e)
    ensures !EmailTaken(users, e)
    ensures !CreateUserAccepted(isEmail, name, e, password, address, role)
  {
    RefusedEmailNeverStored(users, isEmail, nextId, e);
  }

  /** Every stored email passes `isEmail`, so one that fails it is never in use. */
  lemma RefusedEmailNeverStored(users: seq<UserRow>, isEmail: string -> bool, nextId: int, e: string)
    requires UsersValid(users, isEmail, nextId)
    requires !isEmail(e)
    ensures !EmailTaken(users, e)
  {
    forall u | u in users ensures u.email != e {
      var i :| 0 <= i < |users| && users[i] == u;
    }
  }

  /**
   * Adding a user whose fields meet the constraints, whose id is the next one
   * and whose email is not in use keeps the database valid, and the new user
   * is found by that id.
   */
  lemma CreateUserKeepsTablesValid(
    users: seq<UserRow>, stores: seq<StoreRow>, ratings: seq<RatingRow>, isEmail: string -> bool,
    nextUserId: int, nextStoreId: int, nextRatingId: int, row: UserRow)
    requires TablesValid(users, stores, ratings, isEmail, nextUserId, nextStoreId, nextRatingId)
    requires row.id == nextUserId && !EmailTaken(users, row.email)
    requires UserFieldsOk(row.name, row.email, row.address, isEmail)
    ensures TablesValid(users + [row], stores, ratings, isEmail, nextUserId + 1, nextStoreId, nextRatingId)
    ensures FindUser(users + [row], row.id) == Some(row)
  {
    var users' := users + [row];
    forall id ensures FindUser(users, id).Some? ==> FindUser(users', id).Some? {
      FindUserAppend(users, row, id);
    }
    FindUserAppend(users, row, row.id);
    forall i | 0 <= i < |users| ensures users'[i].email != row.email && users'[i].id < row.id {
      assert users[i] in users;
    }
  }

  // ----- listUsers -----

  /** The columns a user listing may be ordered by. */
  datatype UserColumn = ById | ByName | ByEmail | ByPassword | ByRole | ByAddress

  function ParseUserColumn(s: string): (c: Option<UserColumn>)
    ensures c.Some? <==> s in ["id", "name", "email", "password", "role", "address"]
  {
    if s == "id" then Some(ById)
    else if s == "name" then Some(ByName)
    else if s == "email" then Some(ByEmail)
    else if s == "password" then Some(ByPassword)
    else if s == "role" then Some(ByRole)
    else if s == "address" then Some(ByAddress)
    else None
  }

  /** The labels of the `role` column's `ENUM`, in the order the schema declares them. */
  const EnumLabels: seq<string> := ["admin", "owner", "user"]

  /**
   * An enumeration sorts in declaration order: a role's rank is the position
   * of its label in the `ENUM` declaration.
   */
  function RoleRank(r: Role): (k: int)
    ensures 0 <= k < |EnumLabels| && EnumLabels[k] == RoleName(r)
  {
    match r
    case Admin => 0
    case Owner => 1
    case User => 2
  }

  function UserKey(col: UserColumn, u: UserRow): Query.SortKey {
    match col
    case ById => Query.Int(u.id)
    case ByName => Query.Text(u.name)
    case ByEmail => Query.Text(u.email)
    case ByPassword => Query.Text(u.password)
    case ByRole => Query.Int(RoleRank(u.role))
    case ByAddress => if u.address.Some? then Query.Text(u.address.value) else Query.Null
  }

  function UserParams(sortBy: Option<string>, order: Option<string>, limit: Option<int>, offset: Option<int>)
    : Option<Query.Params<UserColumn>>
  {
    Query.ParseParams(ParseUserColumn(if sortBy.Some? then sortBy.value else "name"), order, limit, offset)
  }

  /** `name`, `email` or `address` contains `q`, ignoring case; a null address never matches. */
  predicate UserMatches(u: UserRow, q: string) {
    || Text.ContainsIgnoreCase(u.name, q)
    || Text.ContainsIgnoreCase(u.email, q)
    || (u.address.Some? && Text.ContainsIgnoreCase(u.address.value, q))
  }

  /** The role filter: applied only when `role` is given and not empty. */
  predicate RoleFilterKeeps(role: Option<string>, u: UserRow) {
    role.None? || role.value == "" || RoleName(u.role) == role.value
  }

  /** The `WHERE` of the user listing. */
  predicate UserSelected(role: Option<string>, q: Option<string>, u: UserRow) {
    RoleFilterKeeps(role, u) && (q.None? || q.value == "" || UserMatches(u, q.value))
  }

  /** A role filter that names no enumeration value makes the database refuse the query. */
  predicate RoleFilterUsable(role: Option<string>) {
    role.None? || role.value == "" || ParseRole(role.value).Some?
  }

  /** The users passing the filters in the requested order, before the page is cut. */
  function OrderedUsers(users: seq<UserRow>, role: Option<string>, q: Option<string>, p: Query.Params<UserColumn>)
    : seq<UserRow>
  {
    var selected := Query.Filter(users, (u: UserRow) => UserSelected(role, q, u));
    Query.SortBy(selected, (u: UserRow) => UserKey(p.column, u), p.dir)
  }

  function ListedUsers(users: seq<UserRow>, role: Option<string>, q: Option<string>, p: Query.Params<UserColumn>)
    : seq<UserRow>
  {
    Query.Page(OrderedUsers(users, role, q, p), p.offset, p.limit)
  }

  /**
   * `listUsers`: the selected users ordered and paged as the query asks, in the
   * projection without the password. An unusable column, direction, bound or
   * role filter is a 500.
   */
  function ListUsers(
    users: seq<UserRow>, q: Option<string>, role: Option<string>,
    sortBy: Option<string>, order: Option<string>, limit: Option<int>, offset: Option<int>)
    : (r: Result<seq<UserView>, ApiError>)
    ensures r.Err? <==> UserParams(sortBy, order, limit, offset).None? || !RoleFilterUsable(role)
    ensures r.Err? ==> r.error == ServerError
    ensures r.Ok? ==> |r.value| <= UserParams(sortBy, order, limit, offset).value.limit
  {
    if !RoleFilterUsable(role) then Err(ServerError)
    else
      match UserParams(sortBy, order, limit, offset)
      case None => Err(ServerError)
      case Some(p) =>
        var page := ListedUsers(users, role, q, p);
        Ok(seq(|page|, i requires 0 <= i < |page| => PublicView(page[i])))
  }

  /**
   * The listing is the window `OFFSET offset LIMIT limit` of the ordered
   * users: its length is what is left after `offset`, cut to `limit`, and row
   * `i` is the password-free view of the ordered users' row `offset + i`.
   */
  lemma ListUsersWindow(
    users: seq<UserRow>, q: Option<string>, role: Option<string>,
    sortBy: Option<string>, order: Option<string>, limit: Option<int>, offset: Option<int>)
    ensures var r := ListUsers(users, q, role, sortBy, order, limit, offset);
      r.Ok? ==>
        var p := UserParams(sortBy, order, limit, offset).value;
        var sorted := OrderedUsers(users, role, q, p);
        && |r.value| == (if p.offset >= |sorted| then 0 else Query.Min(p.limit, |sorted| - p.offset))
        && forall i :: 0 <= i < |r.value| ==> r.value[i] == PublicView(sorted[p.offset + i])
  {
  }

  /** A row of a page of the user search is a user of the table that passes the filters. */
  lemma ListedUsersMatch(users: seq<UserRow>, role: Option<string>, q: Option<string>, p: Query.Params<UserColumn>, i: int)
    requires 0 <= i < |ListedUsers(users, role, q, p)|
    ensures ListedUsers(users, role, q, p)[i] in users
    ensures UserSelected(role, q, ListedUsers(users, role, q, p)[i])
  {
    var sel := (u: UserRow) => UserSelected(role, q, u);
    var key := (u: UserRow) => UserKey(p.column, u);
    var selected := Query.Filter(users, sel);
    var sorted := Query.SortBy(selected, key, p.dir);
    Query.SortByPermutes(selected, key, p.dir);
    var u := ListedUsers(users, role, q, p)[i];
    assert u == sorted[p.offset + i];
    assert u in multiset(sorted);
    Query.FilterMembership(users, sel, u);
  }

  /**
   * Every listed user is the password-free view of a user of the table that
   * passes the filters: of exactly the requested role, and with `q` in the
   * name, email or address.
   */
  lemma ListUsersSelects(
    users: seq<UserRow>, q: Option<string>, role: Option<string>,
    sortBy: Option<string>, order: Option<string>, limit: Option<int>, offset: Option<int>)
    ensures var r := ListUsers(users, q, role, sortBy, order, limit, offset);
      r.Ok? ==> forall i :: 0 <= i < |r.value| ==>
        exists u :: u in users && PublicView(u) == r.value[i] && UserSelected(role, q, u)
  {
    var r := ListUsers(users, q, role, sortBy, order, limit, offset);
    if r.Ok? {
      var p := UserParams(sortBy, order, limit, offset).value;
      var page := ListedUsers(users, role, q, p);
      forall i | 0 <= i < |r.value|
        ensures exists u :: u in users && PublicView(u) == r.value[i] && UserSelected(role, q, u)
      {
        ListedUsersMatch(users, role, q, p, i);
        assert PublicView(page[i]) == r.value[i];
      }
    }
  }

  /**
   * Nothing that passes the filters is lost: on the first page, when the
   * table fits in the limit, every user of the requested role with `q` in the
   * name, email or address is listed.
   */
  lemma ListUsersComplete(
    users: seq<UserRow>, q: Option<string>, role: Option<string>,
    sortBy: Option<string>, order: Option<string>, limit: Option<int>, u: UserRow)
    requires u in users && UserSelected(role, q, u)
    requires limit.None? ==> |users| <= Query.DefaultLimit
    requires limit.Some? ==> |users| <= limit.value
    ensures var r := ListUsers(users, q, role, sortBy, order, limit, None);
      r.Ok? ==> exists i :: 0 <= i < |r.value| && r.value[i] == PublicView(u)
  {
    var r := ListUsers(users, q, role, sortBy, order, limit, None);
    if r.Ok? {
      var p := UserParams(sortBy, order, limit, None).value;
      var sel := (u: UserRow) => UserSelected(role, q, u);
      var key := (u: UserRow) => UserKey(p.column, u);
      var selected := Query.Filter(users, sel);
      var sorted := Query.SortBy(selected, key, p.dir);
      Query.FilterMembership(users, sel, u);
      Query.SortByPermutes(selected, key, p.dir);
      assert u in multiset(sorted);
      assert |sorted| == |multiset(sorted)| == |multiset(selected)| == |selected|;
      Query.PageAll(sorted, p.limit);
      var i :| 0 <= i < |sorted| && sorted[i] == u;
      assert ListedUsers(users, role, q, p)[i] == u;
      assert r.value[i] == PublicView(u);
    }
  }

  /** With a role filter, every listed user has exactly that role; there is no hierarchy. */
  lemma ListUsersRoleExact(
    users: seq<UserRow>, q: Option<string>, role: string,
    sortBy: Option<string>, order: Option<string>, limit: Option<int>, offset: Option<int>)
    requires role != ""
    ensures var r := ListUsers(users, q, Some(role), sortBy, order, limit, offset);
      r.Ok? ==> forall i :: 0 <= i < |r.value| ==> RoleName(r.value[i].role) == role
  {
    ListUsersSelects(users, q, Some(role), sortBy, order, limit, offset);
  }

  /** With a non-empty `q`, every listed user has it in the name, email or address, ignoring case. */
  lemma ListUsersSearch(
    users: seq<UserRow>, q: string, role: Option<string>,
    sortBy: Option<string>, order: Option<string>, limit: Option<int>, offset: Option<int>)
    requires q != ""
    ensures var r := ListUsers(users, Some(q), role, sortBy, order, limit, offset);
      r.Ok? ==> forall i :: 0 <= i < |r.value| ==>
        || Text.ContainsIgnoreCase(r.value[i].name, q)
        || Text.ContainsIgnoreCase(r.value[i].email, q)
        || (r.value[i].address.Some? && Text.ContainsIgnoreCase(r.value[i].address.value, q))
  {
    ListUsersSelects(users, Some(q), role, sortBy, order, limit, offset);
  }

  /** The user listing is ordered by the requested column in the requested direction. */
  lemma ListUsersSorted(
    users: seq<UserRow>, q: Option<string>, role: Option<string>,
    sortBy: Option<string>, order: Option<string>, limit: Option<int>, offset: Option<int>)
    ensures var r := ListUsers(users, q, role, sortBy, order, limit, offset);
      r.Ok? ==>
        var p := UserParams(sortBy, order, limit, offset).value;
        var page := ListedUsers(users, role, q, p);
        && |page| == |r.value|
        && (forall i :: 0 <= i < |page| ==> r.value[i] == PublicView(page[i]))
        && (forall i, j :: 0 <= i < j < |page| ==>
              Query.InOrder(UserKey(p.column, page[i]), UserKey(p.column, page[j]), p.dir))
  {
    var r := ListUsers(users, q, role, sortBy, order, limit, offset);
    if r.Ok? {
      var p := UserParams(sortBy, order, limit, offset).value;
      var key := (u: UserRow) => UserKey(p.column, u);
      var selected := Query.Filter(users, (u: UserRow) => UserSelected(role, q, u));
      Query.SortBySorted(selected, key, p.dir);
      Query.PageSorted(Query.SortBy(selected, key, p.dir), p.offset, p.limit, key, p.dir);
    }
  }

  // ----- listStores -----

  /** A row of the admin store listing: the store with `averageRating` and `ratingCount`. */
  datatype AdminStoreListing = AdminStoreListing(store: StoreRow, averageRating: Option<real>, ratingCount: nat)

  /** `name`, `email` or `address` contains `q`, ignoring case; null columns never match. */
  predicate StoreMatches(s: StoreRow, q: string) {
    || Text.ContainsIgnoreCase(s.name, q)
    || (s.email.Some? && Text.ContainsIgnoreCase(s.email.value, q))
    || (s.address.Some? && Text.ContainsIgnoreCase(s.address.value, q))
  }

  function AdminListingOf(s: StoreRow, ratings: seq<RatingRow>): AdminStoreListing {
    var rs := Aggregates.RatingsOfStore(ratings, s.id);
    AdminStoreListing(s, Aggregates.Average(rs), |rs|)
  }

  /** The stores matching the search in the requested order, before the page is cut. */
  function OrderedStores(stores: seq<StoreRow>, q: Option<string>, p: Query.Params<StoresController.StoreColumn>)
    : seq<StoreRow>
  {
    var selected :=
      if q.None? || q.value == "" then stores
      else Query.Filter(stores, (s: StoreRow) => StoreMatches(s, q.value));
    Query.SortBy(selected, (s: StoreRow) => StoresController.StoreKey(p.column, s), p.dir)
  }

  function ListedStores(stores: seq<StoreRow>, q: Option<string>, p: Query.Params<StoresController.StoreColumn>)
    : seq<StoreRow>
  {
    Query.Page(OrderedStores(stores, q, p), p.offset, p.limit)
  }

  /**
   * `listStores`: like the public listing, but `q` also searches the email,
   * and there is no caller's score.
   */
  function ListStores(
    stores: seq<StoreRow>, ratings: seq<RatingRow>,
    q: Option<string>, sortBy: Option<string>, order: Option<string>, limit: Option<int>, offset: Option<int>)
    : (r: Result<seq<AdminStoreListing>, ApiError>)
    ensures r.Err? <==> StoresController.StoreParams(sortBy, order, limit, offset).None?
    ensures r.Err? ==> r.error == ServerError
    ensures r.Ok? ==> |r.value| <= StoresController.StoreParams(sortBy, order, limit, offset).value.limit
  {
    match StoresController.StoreParams(sortBy, order, limit, offset)
    case None => Err(ServerError)
    case Some(p) =>
      var page := ListedStores(stores, q, p);
      Ok(seq(|page|, i requires 0 <= i < |page| => AdminListingOf(page[i], ratings)))
  }

  /** Every row of the admin store listing carries the count and the mean of its store's ratings. */
  lemma ListStoresAggregates(
    stores: seq<StoreRow>, ratings: seq<RatingRow>,
    q: Option<string>, sortBy: Option<string>, order: Option<string>, limit: Option<int>, offset: Option<int>)
    ensures var r := ListStores(stores, ratings, q, sortBy, order, limit, offset);
      r.Ok? ==> forall i :: 0 <= i < |r.value| ==>
        var rs := Aggregates.RatingsOfStore(ratings, r.value[i].store.id);
        r.value[i].ratingCount == |rs| && Aggregates.IsAverage(r.value[i].averageRating, rs)
  {
  }

  /**
   * The listing is the window `OFFSET offset LIMIT limit` of the ordered
   * search result: its length is what is left after `offset`, cut to `limit`,
   * and row `i` is the ordered result's row `offset + i` with its aggregates.
   */
  lemma ListStoresWindow(
    stores: seq<StoreRow>, ratings: seq<RatingRow>,
    q: Option<string>, sortBy: Option<string>, order: Option<string>, limit: Option<int>, offset: Option<int>)
    ensures var r := ListStores(stores, ratings, q, sortBy, order, limit, offset);
      r.Ok? ==>
        var p := StoresController.StoreParams(sortBy, order, limit, offset).value;
        var sorted := OrderedStores(stores, q, p);
        && |r.value| == (if p.offset >= |sorted| then 0 else Query.Min(p.limit, |sorted| - p.offset))
        && forall i :: 0 <= i < |r.value| ==> r.value[i] == AdminListingOf(sorted[p.offset + i], ratings)
  {
  }

  /** A row of a page of the admin store search is a store of the table that matches. */
  lemma ListedStoresMatch(stores: seq<StoreRow>, q: Option<string>, p: Query.Params<StoresController.StoreColumn>, i: int)
    requires 0 <= i < |ListedStores(stores, q, p)|
    ensures ListedStores(stores, q, p)[i] in stores
    ensures q.Some? && q.value != "" ==> StoreMatches(ListedStores(stores, q, p)[i], q.value)
  {
    var key := (s: StoreRow) => StoresController.StoreKey(p.column, s);
    var selected :=
      if q.None? || q.value == "" then stores
      else Query.Filter(stores, (s: StoreRow) => StoreMatches(s, q.value));
    var sorted := Query.SortBy(selected, key, p.dir);
    Query.SortByPermutes(selected, key, p.dir);
    var s := ListedStores(stores, q, p)[i];
    assert s == sorted[p.offset + i];
    assert s in multiset(sorted);
    if q.Some? && q.value != "" {
      Query.FilterMembership(stores, (s: StoreRow) => StoreMatches(s, q.value), s);
    }
  }

  /**
   * Every row of the admin store listing is a store of the table, and with a
   * non-empty `q` one whose name, email or address contains it, ignoring case.
   */
  lemma ListStoresSelects(
    stores: seq<StoreRow>, ratings: seq<RatingRow>,
    q: Option<string>, sortBy: Option<string>, order: Option<string>, limit: Option<int>, offset: Option<int>)
    ensures var r := ListStores(stores, ratings, q, sortBy, order, limit, offset);
      r.Ok? ==> forall i :: 0 <= i < |r.value| ==>
        && r.value[i].store in stores
        && (q.Some? && q.value != "" ==> StoreMatches(r.value[i].store, q.value))
  {
    var r := ListStores(stores, ratings, q, sortBy, order, limit, offset);
    if r.Ok? {
      var p := StoresController.StoreParams(sortBy, order, limit, offset).value;
      forall i | 0 <= i < |r.value|
        ensures r.value[i].store in stores && (q.Some? && q.value != "" ==> StoreMatches(r.value[i].store, q.value))
      {
        ListedStoresMatch(stores, q, p, i);
      }
    }
  }

  /**
   * Nothing that matches is lost: on the first page, when the table fits in
   * the limit, every store with `q` in the name, email or address is listed.
   */
  lemma ListStoresComplete(
    stores: seq<StoreRow>, ratings: seq<RatingRow>,
    q: Option<string>, sortBy: Option<string>, order: Option<string>, limit: Option<int>, s: StoreRow)
    requires s in stores && (q.Some? && q.value != "" ==> StoreMatches(s, q.value))
    requires limit.None? ==> |stores| <= Query.DefaultLimit
    requires limit.Some? ==> |stores| <= limit.value
    ensures var r := ListStores(stores, ratings, q, sortBy, order, limit, None);
      r.Ok? ==> exists i :: 0 <= i < |r.value| && r.value[i].store == s
  {
    var r := ListStores(stores, ratings, q, sortBy, order, limit, None);
    if r.Ok? {
      var p := StoresController.StoreParams(sortBy, order, limit, None).value;
      var key := (s: StoreRow) => StoresController.StoreKey(p.column, s);
      var selected :=
        if q.None? || q.value == "" then stores
        else Query.Filter(stores, (s: StoreRow) => StoreMatches(s, q.value));
      if q.Some? && q.value != "" {
        Query.FilterMembership(stores, (s: StoreRow) => StoreMatches(s, q.value), s);
      }
      assert s in selected && |selected| <= |stores|;
      var sorted := Query.SortBy(selected, key, p.dir);
      Query.SortByPermutes(selected, key, p.dir);
      assert s in multiset(sorted);
      assert |sorted| == |multiset(sorted)| == |multiset(selected)| == |selected|;
      Query.PageAll(sorted, p.limit);
      var i :| 0 <= i < |sorted| && sorted[i] == s;
      assert ListedStores(stores, q, p)[i] == s;
      assert r.value[i].store == s;
    }
  }

  // ----- getUserDetails -----

  /** `{ ...user, Stores, rating }`: the user without the password, their stores, and an owner's mean. */
  datatype UserDetails = UserDetails(user: UserView, stores: seq<StoreRow>, rating: Option<real>)

  /** The ratings of the stores in `owned`: `storeId IN (ids of owned)`. */
  function RatingsOfStores(ratings: seq<RatingRow>, owned: seq<StoreRow>): seq<RatingRow> {
    Query.Filter(ratings, (r: RatingRow) => exists s | s in owned :: s.id == r.storeId)
  }

  /**
   * `getUserDetails`: NotFound (404) for an unknown id; otherwise the user,
   * the stores they own, and for an owner the mean over every rating of every
   * one of those stores (null without ratings), null for any other role.
   */
  function GetUserDetails(users: seq<UserRow>, stores: seq<StoreRow>, ratings: seq<RatingRow>, id: int)
    : (r: Result<UserDetails, ApiError>)
    ensures r.Err? <==> FindUser(users, id).None?
    ensures r.Err? ==> r.error == NotFound
    ensures r.Ok? ==> r.value.user == PublicView(FindUser(users, id).value) && r.value.user.id == id
    ensures r.Ok? && r.value.user.role != Owner ==> r.value.rating.None?
  {
    match FindUser(users, id)
    case None => Err(NotFound)
    case Some(u) =>
      var owned := StoresController.OwnedStores(stores, id);
      var rating := if u.role == Owner then Aggregates.Average(RatingsOfStores(ratings, owned)) else None;
      Ok(UserDetails(PublicView(u), owned, rating))
  }

  /**
   * For an owner, the rating is the mean of exactly the ratings whose store
   * the owner owns, null when there are none, and between 1 and 5 when the
   * scores are valid.
   */
  lemma OwnerRating(users: seq<UserRow>, stores: seq<StoreRow>, ratings: seq<RatingRow>, id: int)
    requires Aggregates.AllScoresOk(ratings)
    ensures var r := GetUserDetails(users, stores, ratings, id);
      r.Ok? && r.value.user.role == Owner ==>
        var rs := RatingsOfStores(ratings, StoresController.OwnedStores(stores, id));
        && (forall x :: x in rs <==> x in ratings && exists s :: s in stores && s.ownerId == Some(id) && s.id == x.storeId)
        && Aggregates.IsAverage(r.value.rating, rs)
        && (r.value.rating.Some? ==> 1.0 <= r.value.rating.value <= 5.0)
  {
    var r := GetUserDetails(users, stores, ratings, id);
    if r.Ok? && r.value.user.role == Owner {
      var owned := StoresController.OwnedStores(stores, id);
      var inOwned := (x: RatingRow) => exists s | s in owned :: s.id == x.storeId;
      var rs := RatingsOfStores(ratings, owned);
      forall x ensures x in rs <==> x in ratings && exists s :: s in stores && s.ownerId == Some(id) && s.id == x.storeId {
        Query.FilterMembership(ratings, inOwned, x);
        forall s ensures s in owned <==> s in stores && s.ownerId == Some(id) {
          Query.FilterMembership(stores, (s: StoreRow) => s.ownerId == Some(id), s);
        }
      }
      forall j | 0 <= j < |rs| ensures ScoreOk(rs[j].rating) {
        assert rs[j] in ratings;
      }
      Aggregates.AverageWithinRange(rs);
    }
  }

  /** The details list exactly the stores the user owns. */
  lemma DetailsListOwnedStores(users: seq<UserRow>, stores: seq<StoreRow>, ratings: seq<RatingRow>, id: int)
    ensures var r := GetUserDetails(users, stores, ratings, id);
      r.Ok? ==> forall s :: s in r.value.stores <==> s in stores && s.ownerId == Some(id)
  {
    var r := GetUserDetails(users, stores, ratings, id);
    if r.Ok? {
      forall s ensures s in r.value.stores <==> s in stores && s.ownerId == Some(id) {
        Query.FilterMembership(stores, (s: StoreRow) => s.ownerId == Some(id), s);
      }
    }
  }
}
