/**
 * In-memory stand-in for the relational store behind the ORM: the three
 * tables, their auto-increment id sequences, and the invariants the schema
 * and the foreign keys enforce.
 */
module Database {
  import opened Wrappers
  import opened UserModel
  import opened StoreModel
  import opened RatingModel

  /**
   * Every table meets its own constraints, a store's owner is an existing
   * user, and a rating refers to an existing user and an existing store.
   */
  ghost predicate TablesValid(
    users: seq<UserRow>, stores: seq<StoreRow>, ratings: seq<RatingRow>,
    isEmail: string -> bool, nextUserId: int, nextStoreId: int, nextRatingId: int)
  {
    && UsersValid(users, isEmail, nextUserId)
    && StoresValid(stores, isEmail, nextStoreId)
    && RatingsValid(ratings, nextRatingId)
    && (forall s :: s in stores && s.ownerId.Some? ==> FindUser(users, s.ownerId.value).Some?)
    && (forall r :: r in ratings ==> FindUser(users, r.userId).Some? && StoreExists(stores, r.storeId))
  }

  class Db {
    /** The `isEmail` check the schema applies to email columns. */
    const isEmail: string -> bool

    var users: seq<UserRow>
    var stores: seq<StoreRow>
    var ratings: seq<RatingRow>

    /** Next values of the `autoIncrement` id sequences. */
    var nextUserId: int
    var nextStoreId: int
    var nextRatingId: int

    ghost predicate Valid()
      reads this
    {
      TablesValid(users, stores, ratings, isEmail, nextUserId, nextStoreId, nextRatingId)
    }

    /** An empty database whose id sequences start at 1. */
    constructor (isEmail: string -> bool)
      ensures Valid()
      ensures this.isEmail == isEmail
      ensures users == [] && stores == [] && ratings == []
    {
      this.isEmail := isEmail;
      users, stores, ratings := [], [], [];
      nextUserId, nextStoreId, nextRatingId := 1, 1, 1;
    }
  }
}
