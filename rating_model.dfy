/**
 * The Ratings table: a row links one user to one store with a score; the
 * score is an integer from 1 to 5, and the composite unique index on
 * (userId, storeId) allows at most one row per pair.
 */
module RatingModel {
  import opened Wrappers

  /** A row of the Ratings table. */
  datatype RatingRow = RatingRow(id: int, userId: int, storeId: int, rating: int)

  /** `INTEGER`, not null, `min: 1`, `max: 5`, `isInt`. */
  predicate ScoreOk(rating: int) {
    1 <= rating <= 5
  }

  /** The row belongs to the pair (userId, storeId). */
  predicate IsPair(r: RatingRow, userId: int, storeId: int) {
    r.userId == userId && r.storeId == storeId
  }

  /** The `unique_user_store_rating` index: no two rows share a (userId, storeId) pair. */
  ghost predicate UniquePairs(rs: seq<RatingRow>) {
    forall i, j :: 0 <= i < j < |rs| ==> !IsPair(rs[j], rs[i].userId, rs[i].storeId)
  }

  /**
   * The Ratings table as a whole: every score is in range, ids are unique,
   * positive and below the next value of the id sequence, and pairs are unique.
   */
  ghost predicate RatingsValid(rs: seq<RatingRow>, nextId: int) {
    && 1 <= nextId
    && (forall i :: 0 <= i < |rs| ==> ScoreOk(rs[i].rating) && 1 <= rs[i].id < nextId)
    && (forall i, j :: 0 <= i < j < |rs| ==> rs[i].id != rs[j].id)
    && UniquePairs(rs)
  }

  /** `findOne({ where: { userId, storeId } })`: the position of the first row of the pair. */
  function FindRating(rs: seq<RatingRow>, userId: int, storeId: int): (k: Option<nat>)
    ensures k.Some? ==> k.value < |rs| && IsPair(rs[k.value], userId, storeId)
    ensures k.Some? ==> forall i :: 0 <= i < k.value ==> !IsPair(rs[i], userId, storeId)
    ensures k.None? ==> forall i :: 0 <= i < |rs| ==> !IsPair(rs[i], userId, storeId)
  {
    if rs == [] then None
    else if IsPair(rs[0], userId, storeId) then Some(0)
    else
      match FindRating(rs[1..], userId, storeId)
      case None => None
      case Some(k) => Some(k + 1)
  }

  /** Under the unique index, the row `findOne` returns is the only row of its pair. */
  lemma FindRatingIsTheRow(rs: seq<RatingRow>, i: int)
    requires UniquePairs(rs) && 0 <= i < |rs|
    ensures FindRating(rs, rs[i].userId, rs[i].storeId) == Some(i)
  {
  }
}
