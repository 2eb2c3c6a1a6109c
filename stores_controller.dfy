/**
 * The store endpoints: creating a store, the public store listing with its
 * per-store aggregates and the caller's own rating, and an owner's rollup of
 * their stores with every rating they received.
 */
module StoresController {
  import opened Wrappers
  import opened Http
  import opened UserModel
  import opened StoreModel
  import opened RatingModel
  import opened Database
  import Text
  import Query
  import Aggregates
  import RatingsController
  import Validators

  // ----- createStore -----

  /**
   * Whether `Store.create` succeeds: the trimmed name is present and meets the
   * column constraints, so do the email as the chain leaves it (`email`
   * here, already trimmed and normalized) and the trimmed address, and a
   * given owner exists (the foreign key).
   */
  predicate CreateStoreAccepted(
    users: seq<UserRow>, isEmail: string -> bool,
    name: Option<string>, email: string, address: Option<string>, ownerId: Option<int>)
  {
    && name.Some?
    && StoreFieldsOk(Text.Trim(name.value), Some(email), Validators.TrimIfPresent(address), isEmail)
    && (ownerId.Some? ==> FindUser(users, ownerId.value).Some?)
  }

  /**
   * `createStore`. The body arrives as the validation chain leaves it: `name`,
   * `email` and a present `address` get trimmed, an absent `email` becomes
   * the empty string, and the email is then normalized by `normalizeEmail`,
   * given as `normalize`. A row the schema or the foreign key
   * refuses is a 500 and changes nothing; otherwise exactly one store, with
   * the next id and the given fields, is added and returned (201).
   */
  method CreateStore(
    db: Db, name: Option<string>, email: Option<string>, address: Option<string>, ownerId: Option<int>,
    normalize: string -> string)
    returns (res: Result<StoreRow, ApiError>)
    requires db.Valid()
    modifies db
    ensures db.Valid()
    ensures db.users == old(db.users) && db.ratings == old(db.ratings)
    ensures db.nextUserId == old(db.nextUserId) && db.nextRatingId == old(db.nextRatingId)
    ensures res.Ok? <==>
      CreateStoreAccepted(old(db.users), db.isEmail, name, normalize(Validators.TrimOrEmpty(email)), address, ownerId)
    ensures res.Err? ==>
      res.error == ServerError && db.stores == old(db.stores) && db.nextStoreId == old(db.nextStoreId)
    ensures email.None? && !db.isEmail(normalize("")) ==> res == Err(ServerError)
    ensures res.Ok? ==>
      && res.value == StoreRow(old(db.nextStoreId), Text.Trim(name.value), Some(normalize(Validators.TrimOrEmpty(email))),
                               Validators.TrimIfPresent(address), ownerId)
      && db.stores == old(db.stores) + [res.value]
      && db.nextStoreId == old(db.nextStoreId) + 1
      && StoreExists(db.stores, res.value.id)
      && forall s :: s in old(db.stores) ==> s.id != res.value.id
  {
    var e := normalize(Validators.TrimOrEmpty(email));
    if !CreateStoreAccepted(db.users, db.isEmail, name, e, address, ownerId) {
      return Err(ServerError);
    }
    var row := StoreRow(db.nextStoreId, Text.Trim(name.value), Some(e),
                        Validators.TrimIfPresent(address), ownerId);
    CreateStoreKeepsTablesValid(db.users, db.stores, db.ratings, db.isEmail,
      db.nextUserId, db.nextStoreId, db.nextRatingId, row);
    db.stores := db.stores + [row];
    db.nextStoreId := db.nextStoreId + 1;
    res := Ok(row);
  }

  /**
   * Adding a store whose fields meet the constraints, whose id is the next
   * one and whose owner, if any, exists keeps the database valid; the new
   * store exists and no earlier store has its id.
   */
  lemma CreateStoreKeepsTablesValid(
    users: seq<UserRow>, stores: seq<StoreRow>, ratings: seq<RatingRow>, isEmail: string -> bool,
    nextUserId: int, nextStoreId: int, nextRatingId: int, row: StoreRow)
    requires TablesValid(users, stores, ratings, isEmail, nextUserId, nextStoreId, nextRatingId)
    requires row.id == nextStoreId && StoreFieldsOk(row.name, row.email, row.address, isEmail)
    requires row.ownerId.Some? ==> FindUser(users, row.ownerId.value).Some?
    ensures TablesValid(users, stores + [row], ratings, isEmail, nextUserId, nextStoreId + 1, nextRatingId)
    ensures StoreExists(stores + [row], row.id)
    ensures forall s :: s in stores ==> s.id != row.id
  {
    var stores' := stores + [row];
    assert forall s :: s in stores ==> s in stores';
    assert row in stores';
    forall s | s in stores ensures s.id != row.id {
      var i :| 0 <= i < |stores| && stores[i] == s;
    }
  }

  /** A name made only of white space is refused, whatever the other fields. */
  lemma CreateStoreRefusesBlankName(
    users: seq<UserRow>, isEmail: string -> bool,
    name: string, email: string, address: Option<string>, ownerId: Option<int>)
    requires forall i | 0 <= i < |name| :: Text.IsSpace(name[i])
    ensures !CreateStoreAccepted(users, isEmail, Some(name), email, address, ownerId)
  {
    var t := Text.Trim(name);
    Text.TrimRemovesOnlySpace(name);
    var k :| Text.TrimmedAt(name, t, k);
  }

  // ----- listAllStores -----

  /** The columns a store listing may be ordered by. */
  datatype StoreColumn = ById | ByName | ByEmail | ByAddress | ByOwnerId

  /** The column a `sortBy` value names; any other name makes the query fail. */
  function ParseStoreColumn(s: string): (c: Option<StoreColumn>)
    ensures c.Some? <==> s in ["id", "name", "email", "address", "ownerId"]
  {
    if s == "id" then Some(ById)
    else if s == "name" then Some(ByName)
    else if s == "email" then Some(ByEmail)
    else if s == "address" then Some(ByAddress)
    else if s == "ownerId" then Some(ByOwnerId)
    else None
  }

  /** The value of `col` in row `s`; a null column is `Null`. */
  function StoreKey(col: StoreColumn, s: StoreRow): Query.SortKey {
    match col
    case ById => Query.Int(s.id)
    case ByName => Query.Text(s.name)
    case ByEmail => if s.email.Some? then Query.Text(s.email.value) else Query.Null
    case ByAddress => if s.address.Some? then Query.Text(s.address.value) else Query.Null
    case ByOwnerId => if s.ownerId.Some? then Query.Int(s.ownerId.value) else Query.Null
  }

  /** The `sortBy`, `order`, `limit` and `offset` of a store listing, with their defaults. */
  function StoreParams(sortBy: Option<string>, order: Option<string>, limit: Option<int>, offset: Option<int>)
    : Option<Query.Params<StoreColumn>>
  {
    Query.ParseParams(ParseStoreColumn(if sortBy.Some? then sortBy.value else "name"), order, limit, offset)
  }

  /** A row of the listing: the store, its mean and count, and the caller's own score. */
  datatype StoreListing = StoreListing(
    store: StoreRow, overallRating: Option<real>, ratingCount: nat, userRating: Option<int>)

  /** `name iLike %q% OR address iLike %q%`; the email is not searched and a null address never matches. */
  predicate MatchesNameOrAddress(s: StoreRow, q: string) {
    Text.ContainsIgnoreCase(s.name, q) || (s.address.Some? && Text.ContainsIgnoreCase(s.address.value, q))
  }

  /** The `WHERE` of the listing: no condition unless `q` is given and not empty. */
  function SearchStores(stores: seq<StoreRow>, q: Option<string>): seq<StoreRow> {
    if q.None? || q.value == "" then stores
    else Query.Filter(stores, (s: StoreRow) => MatchesNameOrAddress(s, q.value))
  }

  /** The caller's own score for a store: none without a caller or without a row of the pair. */
  function ViewerRating(ratings: seq<RatingRow>, viewer: Option<int>, storeId: int): (r: Option<int>)
    ensures r.Some? <==> viewer.Some? && exists j :: 0 <= j < |ratings| && IsPair(ratings[j], viewer.value, storeId)
    ensures r.Some? ==> exists j :: 0 <= j < |ratings| && IsPair(ratings[j], viewer.value, storeId) && ratings[j].rating == r.value
  {
    if viewer.None? then None
    else
      match FindRating(ratings, viewer.value, storeId)
      case None => None
      case Some(k) => Some(ratings[k].rating)
  }

  /** The listing row of store `s`: `AVG` and `COUNT` over its ratings, and the caller's score. */
  function ListingOf(s: StoreRow, ratings: seq<RatingRow>, viewer: Option<int>): (e: StoreListing)
    ensures e.store == s && e.ratingCount == |Aggregates.RatingsOfStore(ratings, s.id)|
    ensures Aggregates.IsAverage(e.overallRating, Aggregates.RatingsOfStore(ratings, s.id))
    ensures e.userRating.Some? <==>
      viewer.Some? && exists j :: 0 <= j < |ratings| && IsPair(ratings[j], viewer.value, s.id)
  {
    var rs := Aggregates.RatingsOfStore(ratings, s.id);
    StoreListing(s, Aggregates.Average(rs), |rs|, ViewerRating(ratings, viewer, s.id))
  }

  /** The stores of one page, ordered, before the aggregates are attached. */
  /** The search result in the requested order, before the page is cut. */
  function OrderedStores(stores: seq<StoreRow>, q: Option<string>, p: Query.Params<StoreColumn>): seq<StoreRow> {
    Query.SortBy(SearchStores(stores, q), (s: StoreRow) => StoreKey(p.column, s), p.dir)
  }

  function ListedStores(stores: seq<StoreRow>, q: Option<string>, p: Query.Params<StoreColumn>): seq<StoreRow> {
    Query.Page(OrderedStores(stores, q, p), p.offset, p.limit)
  }

  /**
   * `listAllStores`: the matching stores ordered by `sortBy` (default `name`)
   * in `order` (default `ASC`), one page of at most `limit` (default 50) after
   * `offset` (default 0), each with its aggregates and the caller's score. A
   * column or direction the query cannot use, or a negative bound, is a 500.
   */
  function ListAllStores(
    stores: seq<StoreRow>, ratings: seq<RatingRow>, viewer: Option<int>,
    q: Option<string>, sortBy: Option<string>, order: Option<string>, limit: Option<int>, offset: Option<int>)
    : (r: Result<seq<StoreListing>, ApiError>)
    ensures r.Err? <==> StoreParams(sortBy, order, limit, offset).None?
    ensures r.Err? ==> r.error == ServerError
    ensures r.Ok? ==> |r.value| <= StoreParams(sortBy, order, limit, offset).value.limit
  {
    match StoreParams(sortBy, order, limit, offset)
    case None => Err(ServerError)
    case Some(p) =>
      var page := ListedStores(stores, q, p);
      Ok(seq(|page|, i requires 0 <= i < |page| => ListingOf(page[i], ratings, viewer)))
  }

  /**
   * The listing is the window `OFFSET offset LIMIT limit` of the ordered
   * search result: its length is what is left after `offset`, cut to `limit`,
   * and row `i` is the ordered result's row `offset + i` with its aggregates.
   */
  lemma ListAllStoresWindow(
    stores: seq<StoreRow>, ratings: seq<RatingRow>, viewer: Option<int>,
    q: Option<string>, sortBy: Option<string>, order: Option<string>, limit: Option<int>, offset: Option<int>)
    ensures var r := ListAllStores(stores, ratings, viewer, q, sortBy, order, limit, offset);
      r.Ok? ==>
        var p := StoreParams(sortBy, order, limit, offset).value;
        var sorted := OrderedStores(stores, q, p);
        && |r.value| == (if p.offset >= |sorted| then 0 else Query.Min(p.limit, |sorted| - p.offset))
        && forall i :: 0 <= i < |r.value| ==> r.value[i] == ListingOf(sorted[p.offset + i], ratings, viewer)
  {
  }

  /** A store is in the search result exactly when it is in the table and matches. */
  lemma SearchStoresMembership(stores: seq<StoreRow>, q: Option<string>, s: StoreRow)
    ensures s in SearchStores(stores, q) <==> s in stores && (q.Some? ==> MatchesNameOrAddress(s, q.value))
  {
    if q.Some? && q.value == "" {
      Text.EmptyIsContained(s.name);
    }
    if q.Some? && q.value != "" {
      Query.FilterMembership(stores, (s: StoreRow) => MatchesNameOrAddress(s, q.value), s);
    }
  }

  /** A row of a page of the ordered search result is a matching store of the table. */
  lemma ListedStoresMatch(stores: seq<StoreRow>, q: Option<string>, p: Query.Params<StoreColumn>, i: int)
    requires 0 <= i < |ListedStores(stores, q, p)|
    ensures ListedStores(stores, q, p)[i] in stores
    ensures q.Some? ==> MatchesNameOrAddress(ListedStores(stores, q, p)[i], q.value)
  {
    var found := SearchStores(stores, q);
    var sorted := Query.SortBy(found, (s: StoreRow) => StoreKey(p.column, s), p.dir);
    var x := ListedStores(stores, q, p)[i];
    assert x == sorted[p.offset + i];
    Query.SortByPermutes(found, (s: StoreRow) => StoreKey(p.column, s), p.dir);
    assert x in multiset(sorted);
    SearchStoresMembership(stores, q, x);
  }

  /**
   * Only stores whose name or address contains `q`, ignoring case, are
   * listed; with no `q` (or an empty one) any store may be.
   */
  lemma ListAllStoresMatch(
    stores: seq<StoreRow>, ratings: seq<RatingRow>, viewer: Option<int>,
    q: Option<string>, sortBy: Option<string>, order: Option<string>, limit: Option<int>, offset: Option<int>)
    ensures var r := ListAllStores(stores, ratings, viewer, q, sortBy, order, limit, offset);
      r.Ok? ==> forall i :: 0 <= i < |r.value| ==>
        r.value[i].store in stores && (q.Some? ==> MatchesNameOrAddress(r.value[i].store, q.value))
  {
    var r := ListAllStores(stores, ratings, viewer, q, sortBy, order, limit, offset);
    if r.Ok? {
      var p := StoreParams(sortBy, order, limit, offset).value;
      forall i | 0 <= i < |r.value|
        ensures r.value[i].store in stores && (q.Some? ==> MatchesNameOrAddress(r.value[i].store, q.value))
      {
        ListedStoresMatch(stores, q, p, i);
      }
    }
  }

  /**
   * Nothing that matches is lost: on the first page, when the table fits in
   * the limit, every matching store is listed.
   */
  lemma ListAllStoresComplete(
    stores: seq<StoreRow>, ratings: seq<RatingRow>, viewer: Option<int>,
    q: Option<string>, sortBy: Option<string>, order: Option<string>, limit: Option<int>, s: StoreRow)
    requires s in stores && (q.Some? ==> MatchesNameOrAddress(s, q.value))
    requires limit.None? ==> |stores| <= Query.DefaultLimit
    requires limit.Some? ==> |stores| <= limit.value
    ensures var r := ListAllStores(stores, ratings, viewer, q, sortBy, order, limit, None);
      r.Ok? ==> exists i :: 0 <= i < |r.value| && r.value[i].store == s
  {
    var r := ListAllStores(stores, ratings, viewer, q, sortBy, order, limit, None);
    if r.Ok? {
      var p := StoreParams(sortBy, order, limit, None).value;
      var found := SearchStores(stores, q);
      var sorted := Query.SortBy(found, (s: StoreRow) => StoreKey(p.column, s), p.dir);
      SearchStoresMembership(stores, q, s);
      Query.SortByPermutes(found, (s: StoreRow) => StoreKey(p.column, s), p.dir);
      assert s in multiset(sorted);
      Query.PageAll(sorted, p.limit);
      var i :| 0 <= i < |sorted| && sorted[i] == s;
      assert r.value[i].store == s;
    }
  }

  /** The listing is ordered by the requested column in the requested direction. */
  lemma ListAllStoresSorted(
    stores: seq<StoreRow>, ratings: seq<RatingRow>, viewer: Option<int>,
    q: Option<string>, sortBy: Option<string>, order: Option<string>, limit: Option<int>, offset: Option<int>)
    ensures var r := ListAllStores(stores, ratings, viewer, q, sortBy, order, limit, offset);
      r.Ok? ==>
        var p := StoreParams(sortBy, order, limit, offset).value;
        forall i, j :: 0 <= i < j < |r.value| ==>
          Query.InOrder(StoreKey(p.column, r.value[i].store), StoreKey(p.column, r.value[j].store), p.dir)
  {
    var r := ListAllStores(stores, ratings, viewer, q, sortBy, order, limit, offset);
    if r.Ok? {
      var p := StoreParams(sortBy, order, limit, offset).value;
      var key := (s: StoreRow) => StoreKey(p.column, s);
      var found := SearchStores(stores, q);
      Query.SortBySorted(found, key, p.dir);
      Query.PageSorted(Query.SortBy(found, key, p.dir), p.offset, p.limit, key, p.dir);
      var page := ListedStores(stores, q, p);
      assert forall i :: 0 <= i < |page| ==> r.value[i].store == page[i];
    }
  }

  /**
   * A listing row carries the number of its store's ratings and their mean,
   * null exactly when there are none; with valid scores the mean lies
   * between 1 and 5.
   */
  lemma ListingAggregates(s: StoreRow, ratings: seq<RatingRow>, viewer: Option<int>)
    requires Aggregates.AllScoresOk(ratings)
    ensures var e := ListingOf(s, ratings, viewer);
      var rs := Aggregates.RatingsOfStore(ratings, s.id);
      && e.ratingCount == |rs|
      && Aggregates.IsAverage(e.overallRating, rs)
      && (e.overallRating.Some? ==> 1.0 <= e.overallRating.value <= 5.0)
  {
    var rs := Aggregates.RatingsOfStore(ratings, s.id);
    forall j | 0 <= j < |rs| ensures ScoreOk(rs[j].rating) {
      Aggregates.RatingsOfStoreMembership(ratings, s.id, rs[j]);
    }
    Aggregates.AverageWithinRange(rs);
  }

  /** Every row of a listing carries its store's aggregates, as `ListingAggregates` states them. */
  lemma ListAllStoresAggregates(
    stores: seq<StoreRow>, ratings: seq<RatingRow>, viewer: Option<int>,
    q: Option<string>, sortBy: Option<string>, order: Option<string>, limit: Option<int>, offset: Option<int>)
    requires Aggregates.AllScoresOk(ratings)
    ensures var r := ListAllStores(stores, ratings, viewer, q, sortBy, order, limit, offset);
      r.Ok? ==> forall i :: 0 <= i < |r.value| ==>
        var e := r.value[i];
        && e.ratingCount == |Aggregates.RatingsOfStore(ratings, e.store.id)|
        && Aggregates.IsAverage(e.overallRating, Aggregates.RatingsOfStore(ratings, e.store.id))
        && (e.overallRating.None? <==> e.ratingCount == 0)
        && (e.overallRating.Some? ==> 1.0 <= e.overallRating.value <= 5.0)
  {
    var r := ListAllStores(stores, ratings, viewer, q, sortBy, order, limit, offset);
    if r.Ok? {
      forall i | 0 <= i < |r.value|
        ensures var e := r.value[i];
          && e.ratingCount == |Aggregates.RatingsOfStore(ratings, e.store.id)|
          && Aggregates.IsAverage(e.overallRating, Aggregates.RatingsOfStore(ratings, e.store.id))
          && (e.overallRating.None? <==> e.ratingCount == 0)
          && (e.overallRating.Some? ==> 1.0 <= e.overallRating.value <= 5.0)
      {
        var page := ListedStores(stores, q, StoreParams(sortBy, order, limit, offset).value);
        assert r.value[i] == ListingOf(page[i], ratings, viewer);
        ListingAggregates(page[i], ratings, viewer);
      }
    }
  }

  /**
   * Each listed store carries the caller's own score for it, or null when
   * there is no caller or the caller has not rated it.
   */
  lemma ListAllStoresUserRating(
    stores: seq<StoreRow>, ratings: seq<RatingRow>, viewer: Option<int>,
    q: Option<string>, sortBy: Option<string>, order: Option<string>, limit: Option<int>, offset: Option<int>)
    ensures var r := ListAllStores(stores, ratings, viewer, q, sortBy, order, limit, offset);
      r.Ok? ==> forall i :: 0 <= i < |r.value| ==>
        var e := r.value[i];
        && (e.userRating.Some? <==>
              viewer.Some? && exists j :: 0 <= j < |ratings| && IsPair(ratings[j], viewer.value, e.store.id))
        && (e.userRating.Some? ==>
              exists j :: 0 <= j < |ratings| && IsPair(ratings[j], viewer.value, e.store.id)
                          && ratings[j].rating == e.userRating.value)
  {
  }

  // ----- the listing and the rating ledger -----

  /**
   * A submission through the ledger changes store counts only when it creates
   * a row, and then only that store's count, by one.
   */
  lemma SubmitCount(rs: seq<RatingRow>, nextId: int, userId: int, storeId: int, score: int, t: int)
    ensures var after := RatingsController.Upserted(rs, nextId, userId, storeId, score);
      |Aggregates.RatingsOfStore(after, t)|
        == |Aggregates.RatingsOfStore(rs, t)|
           + (if FindRating(rs, userId, storeId).None? && t == storeId then 1 else 0)
  {
    match FindRating(rs, userId, storeId)
    case Some(k) =>
      Aggregates.RatingsOfStoreOverwrite(rs, k, score, t);
    case None =>
      Aggregates.RatingsOfStoreAppend(rs, RatingRow(nextId, userId, storeId, score), t);
  }

  /**
   * Resubmitting for a pair that has a row moves its store's total by the
   * difference of the scores, and leaves every other store's total as it was.
   */
  lemma ResubmitTotal(rs: seq<RatingRow>, nextId: int, userId: int, storeId: int, score: int, t: int)
    requires FindRating(rs, userId, storeId).Some?
    ensures var after := RatingsController.Upserted(rs, nextId, userId, storeId, score);
      var old_ := rs[FindRating(rs, userId, storeId).value].rating;
      Aggregates.Total(Aggregates.RatingsOfStore(after, t))
        == Aggregates.Total(Aggregates.RatingsOfStore(rs, t)) + (if t == storeId then score - old_ else 0)
  {
    var k := FindRating(rs, userId, storeId).value;
    Aggregates.RatingsOfStoreOverwrite(rs, k, score, t);
  }

  // ----- getStoreRatingsForOwner -----

  /** The `store` object of a rollup entry: the store without its owner. */
  datatype StoreSummary = StoreSummary(id: int, name: string, email: Option<string>, address: Option<string>)

  /** The rater's `name` and `email`, from the join on the rating's user. */
  datatype Rater = Rater(name: string, email: string)

  /** One rating of a rollup entry: `{ id, rating, user }`. */
  datatype RatingItem = RatingItem(id: int, rating: int, user: Option<Rater>)

  /** `{ store, average, ratings }` for one store of the owner. */
  datatype RollupEntry = RollupEntry(store: StoreSummary, average: Option<real>, ratings: seq<RatingItem>)

  function Summary(s: StoreRow): StoreSummary {
    StoreSummary(s.id, s.name, s.email, s.address)
  }

  /** The rater of a rating; the join is outer, so a missing user gives null. */
  function RaterOf(users: seq<UserRow>, userId: int): Option<Rater> {
    match FindUser(users, userId)
    case None => None
    case Some(u) => Some(Rater(u.name, u.email))
  }

  /** The items of the rows `rs`, one per row, in order. */
  function Items(users: seq<UserRow>, rs: seq<RatingRow>): (items: seq<RatingItem>)
    ensures |items| == |rs|
    ensures forall j :: 0 <= j < |rs| ==>
      items[j].id == rs[j].id && items[j].rating == rs[j].rating && items[j].user == RaterOf(users, rs[j].userId)
  {
    if rs == [] then [] else [RatingItem(rs[0].id, rs[0].rating, RaterOf(users, rs[0].userId))] + Items(users, rs[1..])
  }

  /** The sum of the scores of some items. */
  function ItemsTotal(items: seq<RatingItem>): int {
    if items == [] then 0 else items[0].rating + ItemsTotal(items[1..])
  }

  /** The items carry the scores of their rows, so they add up to the rows' total. */
  lemma {:induction false} ItemsTotalIsTotal(users: seq<UserRow>, rs: seq<RatingRow>)
    ensures ItemsTotal(Items(users, rs)) == Aggregates.Total(rs)
  {
    if rs != [] {
      ItemsTotalIsTotal(users, rs[1..]);
      assert Items(users, rs)[1..] == Items(users, rs[1..]);
    }
  }

  /** The entry of store `s`: its ratings, their rater, and their mean. */
  function EntryOf(users: seq<UserRow>, ratings: seq<RatingRow>, s: StoreRow): RollupEntry {
    var rs := Aggregates.RatingsOfStore(ratings, s.id);
    RollupEntry(Summary(s), Aggregates.Average(rs), Items(users, rs))
  }

  /** `findAll({ where: { ownerId } })`, in table order. */
  function OwnedStores(stores: seq<StoreRow>, ownerId: int): (r: seq<StoreRow>)
    ensures forall s :: s in r <==> s in stores && s.ownerId == Some(ownerId)
  {
    var owns := (s: StoreRow) => s.ownerId == Some(ownerId);
    var r := Query.Filter(stores, owns);
    assert forall s :: s in r <==> s in stores && owns(s) by {
      forall s ensures s in r <==> s in stores && owns(s) {
        Query.FilterMembership(stores, owns, s);
      }
    }
    r
  }

  /** `getStoreRatingsForOwner` for the authenticated owner `ownerId`: one entry per owned store. */
  function GetStoreRatingsForOwner(users: seq<UserRow>, stores: seq<StoreRow>, ratings: seq<RatingRow>, ownerId: int)
    : (r: seq<RollupEntry>)
    ensures |r| == |OwnedStores(stores, ownerId)|
    ensures forall i :: 0 <= i < |r| ==> r[i] == EntryOf(users, ratings, OwnedStores(stores, ownerId)[i])
  {
    var owned := OwnedStores(stores, ownerId);
    seq(|owned|, i requires 0 <= i < |owned| => EntryOf(users, ratings, owned[i]))
  }

  /**
   * The rollup holds exactly the caller's stores: every entry is a store the
   * caller owns, and every store the caller owns has an entry.
   */
  lemma OwnerRollupExactlyOwned(users: seq<UserRow>, stores: seq<StoreRow>, ratings: seq<RatingRow>, ownerId: int)
    ensures var r := GetStoreRatingsForOwner(users, stores, ratings, ownerId);
      && (forall i :: 0 <= i < |r| ==>
            exists s :: s in stores && s.ownerId == Some(ownerId) && r[i].store == Summary(s))
      && (forall s :: s in stores && s.ownerId == Some(ownerId) ==>
            exists i :: 0 <= i < |r| && r[i].store == Summary(s))
  {
    var r := GetStoreRatingsForOwner(users, stores, ratings, ownerId);
    forall i | 0 <= i < |r| ensures exists s :: s in stores && s.ownerId == Some(ownerId) && r[i].store == Summary(s) {
      RollupEntryIsOwned(users, stores, ratings, ownerId, i);
    }
    forall s | s in stores && s.ownerId == Some(ownerId) ensures exists i :: 0 <= i < |r| && r[i].store == Summary(s) {
      OwnedStoreHasEntry(users, stores, ratings, ownerId, s);
    }
  }

  lemma RollupEntryIsOwned(users: seq<UserRow>, stores: seq<StoreRow>, ratings: seq<RatingRow>, ownerId: int, i: int)
    requires 0 <= i < |GetStoreRatingsForOwner(users, stores, ratings, ownerId)|
    ensures var s := OwnedStores(stores, ownerId)[i];
      && s in stores && s.ownerId == Some(ownerId)
      && GetStoreRatingsForOwner(users, stores, ratings, ownerId)[i].store == Summary(s)
  {
    var s := OwnedStores(stores, ownerId)[i];
    assert s in OwnedStores(stores, ownerId);
    Query.FilterMembership(stores, (s: StoreRow) => s.ownerId == Some(ownerId), s);
  }

  lemma OwnedStoreHasEntry(users: seq<UserRow>, stores: seq<StoreRow>, ratings: seq<RatingRow>, ownerId: int, s: StoreRow)
    requires s in stores && s.ownerId == Some(ownerId)
    ensures var r := GetStoreRatingsForOwner(users, stores, ratings, ownerId);
      exists i :: 0 <= i < |r| && r[i].store == Summary(s)
  {
    var owned := OwnedStores(stores, ownerId);
    Query.FilterMembership(stores, (s: StoreRow) => s.ownerId == Some(ownerId), s);
    var i :| 0 <= i < |owned| && owned[i] == s;
    assert GetStoreRatingsForOwner(users, stores, ratings, ownerId)[i].store == Summary(s);
  }

  /**
   * An entry lists its store's ratings, one item each, and its average is
   * the sum of the items' scores divided by their count, or null when there
   * are none.
   */
  lemma EntryOfRatings(users: seq<UserRow>, ratings: seq<RatingRow>, s: StoreRow)
    ensures var e := EntryOf(users, ratings, s);
      var rs := Aggregates.RatingsOfStore(ratings, s.id);
      && e.store == Summary(s)
      && |e.ratings| == |rs|
      && (forall j :: 0 <= j < |rs| ==> e.ratings[j].id == rs[j].id && e.ratings[j].rating == rs[j].rating)
      && ItemsTotal(e.ratings) == Aggregates.Total(rs)
      && Aggregates.IsAverage(e.average, rs)
  {
    ItemsTotalIsTotal(users, Aggregates.RatingsOfStore(ratings, s.id));
  }

  /** Every entry of the rollup is as `EntryOfRatings` states. */
  lemma OwnerRollupEntries(users: seq<UserRow>, stores: seq<StoreRow>, ratings: seq<RatingRow>, ownerId: int)
    ensures var r := GetStoreRatingsForOwner(users, stores, ratings, ownerId);
      forall i :: 0 <= i < |r| ==>
        var rs := Aggregates.RatingsOfStore(ratings, r[i].store.id);
        && |r[i].ratings| == |rs|
        && ItemsTotal(r[i].ratings) == Aggregates.Total(rs)
        && Aggregates.IsAverage(r[i].average, rs)
  {
    var r := GetStoreRatingsForOwner(users, stores, ratings, ownerId);
    forall i | 0 <= i < |r|
      ensures var rs := Aggregates.RatingsOfStore(ratings, r[i].store.id);
        ItemsTotal(r[i].ratings) == Aggregates.Total(rs)
    {
      EntryOfRatings(users, ratings, OwnedStores(stores, ownerId)[i]);
    }
  }

  /** With the foreign keys intact, every item names its rater. */
  lemma OwnerRollupRaters(users: seq<UserRow>, stores: seq<StoreRow>, ratings: seq<RatingRow>, ownerId: int)
    requires forall x :: x in ratings ==> FindUser(users, x.userId).Some?
    ensures var r := GetStoreRatingsForOwner(users, stores, ratings, ownerId);
      forall i, j :: 0 <= i < |r| && 0 <= j < |r[i].ratings| ==> r[i].ratings[j].user.Some?
  {
    var r := GetStoreRatingsForOwner(users, stores, ratings, ownerId);
    forall i, j | 0 <= i < |r| && 0 <= j < |r[i].ratings| ensures r[i].ratings[j].user.Some? {
      var rs := Aggregates.RatingsOfStore(ratings, r[i].store.id);
      Aggregates.RatingsOfStoreMembership(ratings, r[i].store.id, rs[j]);
    }
  }

  /**
   * The owner's view and the public listing agree: an entry's count and mean
   * are the listing's `ratingCount` and `overallRating` for the same store.
   */
  lemma OwnerRollupAgreesWithListing(
    users: seq<UserRow>, stores: seq<StoreRow>, ratings: seq<RatingRow>, ownerId: int, viewer: Option<int>, i: int)
    requires 0 <= i < |GetStoreRatingsForOwner(users, stores, ratings, ownerId)|
    ensures var e := GetStoreRatingsForOwner(users, stores, ratings, ownerId)[i];
      var l := ListingOf(OwnedStores(stores, ownerId)[i], ratings, viewer);
      |e.ratings| == l.ratingCount && e.average == l.overallRating && e.store.id == l.store.id
  {
  }
}
