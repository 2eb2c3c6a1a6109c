/**
 * The rating ledger: submitting a rating for a (user, store) pair either
 * overwrites that pair's row in place or inserts a new row, so the pair stays
 * unique; and reading back the caller's rating for a store.
 */
module RatingsController {
  import opened Wrappers
  import opened Http
  import opened UserModel
  import opened StoreModel
  import opened RatingModel
  import opened Database
  import Validators

  /** The `rating` object of the response: `{ id, rating, storeId }`. */
  datatype RatingReply = RatingReply(id: int, rating: int, storeId: int)

  function Reply(r: RatingRow): RatingReply {
    RatingReply(r.id, r.rating, r.storeId)
  }

  /** The range check as the controller writes it: `rating < 1 || rating > 5` rejects. */
  predicate AdmittedAsWritten(rating: real) {
    !(rating < 1.0 || rating > 5.0)
  }

  /**
   * The check as written lets the fractional score 3.5 through, though the
   * rating rule refuses it; the model's `isInt` then throws and the caller
   * gets a 500 instead of a 400.
   */
  lemma AsWrittenAdmitsFraction()
    ensures AdmittedAsWritten(3.5) && !Validators.RatingValueValid(3.5)
  {
    assert (3.5).Floor == 3;
  }

  /**
   * The corrected gate rejects exactly what the rating rule rejects: it admits
   * what the check as written admits, restricted to whole numbers.
   */
  lemma CorrectedGateIsWholeAsWritten(rating: real)
    ensures Validators.RatingValueValid(rating) <==> AdmittedAsWritten(rating) && Validators.IsWhole(rating)
  {
  }

  /**
   * The Ratings table after `rating` is submitted for (userId, storeId):
   * the pair's row gets the new score in place, or a row with the next id is
   * appended when the pair has none.
   */
  function Upserted(rs: seq<RatingRow>, nextId: int, userId: int, storeId: int, rating: int): (r: seq<RatingRow>)
    ensures |r| == |rs| + (if FindRating(rs, userId, storeId).None? then 1 else 0)
    ensures exists i :: 0 <= i < |r| && IsPair(r[i], userId, storeId) && r[i].rating == rating
  {
    match FindRating(rs, userId, storeId)
    case Some(k) =>
      var r := rs[k := rs[k].(rating := rating)];
      assert IsPair(r[k], userId, storeId) && r[k].rating == rating;
      r
    case None =>
      var r := rs + [RatingRow(nextId, userId, storeId, rating)];
      assert IsPair(r[|rs|], userId, storeId) && r[|rs|].rating == rating;
      r
  }

  /**
   * An existing row keeps its position and id and only its score changes;
   * otherwise exactly one row, for the pair and the score, is added.
   */
  lemma UpsertOverwritesOrAppends(rs: seq<RatingRow>, nextId: int, userId: int, storeId: int, rating: int)
    ensures var rs' := Upserted(rs, nextId, userId, storeId, rating);
      match FindRating(rs, userId, storeId)
      case Some(k) =>
        |rs'| == |rs| && rs'[k].id == rs[k].id && IsPair(rs'[k], userId, storeId) && rs'[k].rating == rating
      case None =>
        |rs'| == |rs| + 1 && rs'[..|rs|] == rs && rs'[|rs|] == RatingRow(nextId, userId, storeId, rating)
  {
  }

  /** Rows of every other pair are left as they were. */
  lemma UpsertLeavesOtherPairs(rs: seq<RatingRow>, nextId: int, userId: int, storeId: int, rating: int)
    ensures var rs' := Upserted(rs, nextId, userId, storeId, rating);
      |rs| <= |rs'| && forall i :: 0 <= i < |rs| && !IsPair(rs[i], userId, storeId) ==> rs'[i] == rs[i]
  {
  }

  /** After a submission, `findOne` for the pair finds a row holding the submitted score. */
  lemma UpsertThenFind(rs: seq<RatingRow>, nextId: int, userId: int, storeId: int, rating: int)
    ensures var rs' := Upserted(rs, nextId, userId, storeId, rating);
      FindRating(rs', userId, storeId).Some? && rs'[FindRating(rs', userId, storeId).value].rating == rating
      && FindRating(rs', userId, storeId).value == if FindRating(rs, userId, storeId).Some? then FindRating(rs, userId, storeId).value else |rs|
  {
    var rs' := Upserted(rs, nextId, userId, storeId, rating);
    var k := if FindRating(rs, userId, storeId).Some? then FindRating(rs, userId, storeId).value else |rs|;
    assert IsPair(rs'[k], userId, storeId);
    assert forall i :: 0 <= i < k ==> rs'[i] == rs[i];
    var k' := FindRating(rs', userId, storeId);
    assert k'.Some? && k'.value == k;
  }

  /** Resubmitting only the last score counts: a second submission overwrites the first. */
  lemma UpsertLastWins(rs: seq<RatingRow>, nextId: int, nextId2: int, userId: int, storeId: int, first: int, second: int)
    ensures Upserted(Upserted(rs, nextId, userId, storeId, first), nextId2, userId, storeId, second)
         == Upserted(rs, nextId, userId, storeId, second)
  {
    UpsertThenFind(rs, nextId, userId, storeId, first);
  }

  /** The next id after a submission: advanced only when a row was inserted. */
  function NextIdAfter(rs: seq<RatingRow>, nextId: int, userId: int, storeId: int): int {
    if FindRating(rs, userId, storeId).Some? then nextId else nextId + 1
  }

  /** A submission keeps the table valid: scores in range, fresh ids, unique pairs. */
  lemma UpsertKeepsValid(rs: seq<RatingRow>, nextId: int, userId: int, storeId: int, rating: int)
    requires RatingsValid(rs, nextId) && ScoreOk(rating)
    ensures RatingsValid(Upserted(rs, nextId, userId, storeId, rating), NextIdAfter(rs, nextId, userId, storeId))
  {
    var rs' := Upserted(rs, nextId, userId, storeId, rating);
    match FindRating(rs, userId, storeId)
    case Some(k) =>
      assert forall i :: 0 <= i < |rs| ==> rs'[i].id == rs[i].id && rs'[i].userId == rs[i].userId && rs'[i].storeId == rs[i].storeId;
    case None =>
      assert forall i :: 0 <= i < |rs| ==> rs'[i] == rs[i];
      assert forall i :: 0 <= i < |rs| ==> !IsPair(rs'[|rs|], rs[i].userId, rs[i].storeId);
      assert forall i :: 0 <= i < |rs| ==> rs'[i].id < nextId == rs'[|rs|].id;
  }

  /**
   * A submission keeps the whole database valid, provided that a new row's
   * user and store exist.
   */
  lemma UpsertKeepsTablesValid(
    users: seq<UserRow>, stores: seq<StoreRow>, rs: seq<RatingRow>, isEmail: string -> bool,
    nextUserId: int, nextStoreId: int, nextId: int, userId: int, storeId: int, rating: int)
    requires TablesValid(users, stores, rs, isEmail, nextUserId, nextStoreId, nextId) && ScoreOk(rating)
    requires FindRating(rs, userId, storeId).None? ==> FindUser(users, userId).Some? && StoreExists(stores, storeId)
    ensures TablesValid(users, stores, Upserted(rs, nextId, userId, storeId, rating), isEmail,
                        nextUserId, nextStoreId, NextIdAfter(rs, nextId, userId, storeId))
  {
    UpsertKeepsValid(rs, nextId, userId, storeId, rating);
    var rs' := Upserted(rs, nextId, userId, storeId, rating);
    forall r | r in rs' ensures FindUser(users, r.userId).Some? && StoreExists(stores, r.storeId) {
      var i :| 0 <= i < |rs'| && rs'[i] == r;
      if i < |rs| {
        assert rs[i] in rs;
        assert r.userId == rs[i].userId && r.storeId == rs[i].storeId;
      }
    }
  }

  /**
   * `getUserRatingForStore`: the pair's row, or NotFound (404) when the pair
   * has no rating.
   */
  function GetUserRatingForStore(rs: seq<RatingRow>, userId: int, storeId: int): (r: Result<RatingReply, ApiError>)
    ensures r.Ok? <==> exists i :: 0 <= i < |rs| && IsPair(rs[i], userId, storeId)
    ensures r.Ok? ==> exists i :: 0 <= i < |rs| && IsPair(rs[i], userId, storeId) && r.value == Reply(rs[i])
    ensures r.Err? ==> r.error == NotFound
  {
    match FindRating(rs, userId, storeId)
    case Some(k) => Ok(Reply(rs[k]))
    case None => Err(NotFound)
  }

  /**
   * After submitting `rating`, reading the pair back gives that score, under
   * the id of the pair's existing row, or the next id when there was none.
   */
  lemma SubmitThenGet(rs: seq<RatingRow>, nextId: int, userId: int, storeId: int, rating: int)
    ensures var r := GetUserRatingForStore(Upserted(rs, nextId, userId, storeId, rating), userId, storeId);
      var found := FindRating(rs, userId, storeId);
      && r.Ok? && r.value.rating == rating && r.value.storeId == storeId
      && r.value.id == (if found.Some? then rs[found.value].id else nextId)
  {
    UpsertThenFind(rs, nextId, userId, storeId, rating);
  }

  /**
   * `submitOrUpdateRating` for the authenticated `userId`. A score the rating
   * rule refuses gets 400 and changes nothing. Otherwise the pair's row is
   * updated in place, or a new row is created; creating one for a user or a
   * store that does not exist violates a foreign key (500) and changes
   * nothing. On success the reply is what reading the pair back returns.
   */
  method SubmitOrUpdateRating(db: Db, userId: int, storeId: int, rating: real)
    returns (res: Result<RatingReply, ApiError>)
    requires db.Valid()
    modifies db
    ensures db.Valid()
    ensures db.users == old(db.users) && db.stores == old(db.stores)
    ensures db.nextUserId == old(db.nextUserId) && db.nextStoreId == old(db.nextStoreId)
    ensures !Validators.RatingValueValid(rating) ==>
      res == Err(BadRequest) && db.ratings == old(db.ratings) && db.nextRatingId == old(db.nextRatingId)
    ensures Validators.RatingValueValid(rating) ==>
      var found := FindRating(old(db.ratings), userId, storeId);
      if found.None? && !(FindUser(old(db.users), userId).Some? && StoreExists(old(db.stores), storeId)) then
        res == Err(ServerError) && db.ratings == old(db.ratings) && db.nextRatingId == old(db.nextRatingId)
      else
        && res.Ok?
        && db.ratings == Upserted(old(db.ratings), old(db.nextRatingId), userId, storeId, rating.Floor)
        && db.nextRatingId == old(db.nextRatingId) + (if found.None? then 1 else 0)
        && res.value.rating == rating.Floor
        && res.value.id == (if found.Some? then old(db.ratings)[found.value].id else old(db.nextRatingId))
        && GetUserRatingForStore(db.ratings, userId, storeId) == Ok(res.value)
  {
    if !Validators.RatingValueValid(rating) {
      return Err(BadRequest);
    }
    var score := rating.Floor;
    var found := FindRating(db.ratings, userId, storeId);
    if found.None? && !(FindUser(db.users, userId).Some? && StoreExists(db.stores, storeId)) {
      return Err(ServerError);
    }
    UpsertKeepsTablesValid(db.users, db.stores, db.ratings, db.isEmail,
      db.nextUserId, db.nextStoreId, db.nextRatingId, userId, storeId, score);
    SubmitThenGet(db.ratings, db.nextRatingId, userId, storeId, score);
    match found
    case Some(k) =>
      db.ratings := db.ratings[k := db.ratings[k].(rating := score)];
      res := Ok(Reply(db.ratings[k]));
    case None =>
      var row := RatingRow(db.nextRatingId, userId, storeId, score);
      db.ratings := db.ratings + [row];
      db.nextRatingId := db.nextRatingId + 1;
      res := Ok(Reply(row));
  }
}
