# Store ratings: a Dafny model of the backend core and the client guards

The system is a store-rating web application. Users of role `user` rate
stores from 1 to 5, with at most one rating per user and store. Owners see
the ratings of the stores they own. Admins create users and stores and
browse all of them. This project models, in Dafny, the parts that decide
what is stored and what is answered:

- the three tables (`Users`, `Stores`, `Ratings`) and their constraints:
  column rules, the role enumeration and its default, the composite unique
  index on (user, store), and the foreign keys;
- the rating ledger (`submitOrUpdateRating`, `getUserRatingForStore`), with
  its upsert: overwrite the pair's row in place, or append a new one;
- the store endpoints: `createStore`, the public `listAllStores` (search,
  order, paging, per-store `AVG`/`COUNT`, the caller's own score), and
  `getStoreRatingsForOwner`;
- the admin endpoints: `getDashboard`, `createUser`, `listUsers`,
  `listStores` and `getUserDetails` (an owner's mean over all of their stores);
- the request-field rules of the validation chains;
- the two middlewares: `authMiddleware` (bearer token) and `roleMiddleware`
  (401 / 403 / allow);
- on the client, the route guard `ProtectedRoute`, and the admin dashboard's
  `filteredAndSortedUsers` and `requestSort`.

The database is a `class Db` whose table fields are sequences that the
creating methods reassign. Its `Valid()` invariant gathers every schema
constraint and foreign key; `CreateStore`, `CreateUser` and
`SubmitOrUpdateRating` each preserve it. Queries are pure functions over
the table sequences. `filter` is `Query.Filter`; `ORDER BY` is a stable
insertion sort, `Query.SortBy`; `OFFSET`/`LIMIT` is `Query.Page`. Averages
are exact `real`s, absent (`null`) when there is nothing to average. The
dashboard's client-side sort keeps the source's form: the users are copied
into an `array`, sorted in place, then filtered.

Decisions the code forces:

- **Validation chains.** They are declared but never checked
  (`validationResult` is not called). Their sanitizers still rewrite the
  body, so `name`, `email` and a present `address` reach the ORM trimmed.
  The email is then rewritten by `normalizeEmail` (lowercasing, by
  default), so a case variant of a stored email is a 409 in `createUser`.
  A chain without `optional()` reads an absent field as the empty string,
  so an absent `email` reaches the controller as the normalized `""`, which
  the schema's `isEmail` refuses: `createStore` and `createUser` without an
  email are a 500. Any constraint the schema refuses is caught by the
  controller as a 500, not reported as a 400.
- **Association aliases.** The ORM aliases the associations (`ratings`,
  `owner`, `ownedStores`) and uses lower-case foreign keys. The controllers
  use `Rating`, `User`, `Stores`, `UserId` and `StoreId` instead. The model
  gives each join the relation the controller evidently means: a rating's
  store and user, and a user's owned stores.
- **Empty `q` and `role`.** These query parameters are tested with
  JavaScript truthiness, so an empty value applies no filter.
- **Bad role filter.** A role filter naming no enumeration value is refused
  by PostgreSQL, which gives a 500.
- **Ordering.** An `ORDER BY` column must be a column of the table, and
  the direction must be `ASC` or `DESC` in any letter case; anything else
  is a 500. A negative `limit` or `offset` is also a 500.
  - `ASC` puts nulls last, and `DESC` is its exact reverse.
  - The role enumeration sorts in declaration order: admin, owner, user.
  - Rows with equal keys keep table order. The database leaves that order
    open; the model fixes one.

## Model

| member | source | states |
|---|---|---|
| Http.Status | backend/src/controllers/admin.controller.js:13-15 | every error answer is a 4xx or 5xx status, and 500 is exactly the caught server error |
| UserModel.ParseRole | backend/src/models/user.js:45-49 | a role string names an enumeration value exactly when it is `admin`, `owner` or `user`, case-sensitively |
| UserModel.ParseRoleName | backend/src/models/user.js:46 | parsing a role's name gives the role back |
| UserModel.PublicViewDropsOnlyPassword | backend/src/models/user.js:56-59 | the default scope drops the password and nothing else |
| UserModel.WithPassword | backend/src/models/user.js:62-64 | the `withPassword` scope keeps every column, the password included |
| UserModel.FindUser | backend/src/controllers/admin.controller.js:113-117 | `findByPk` returns a row with that id, and returns none only when no row has it |
| UserModel.FindUserUnique | backend/src/models/user.js:14-19 | with a unique primary key, `findByPk` finds exactly the row with that id |
| UserModel.FindUserAppend | backend/src/controllers/admin.controller.js:26-32 | inserting a row hides no existing row from `findByPk`, and the new row is found by its id |
| StoreModel.StoreNameNotBlank | backend/src/models/store.js:19-27 | a valid store name has 1 to 200 characters, and one made only of white space is refused |
| RatingModel.FindRating | backend/src/controllers/ratings.controller.js:14 | `findOne` for a (user, store) pair finds the first row of the pair, or reports that none exists |
| RatingModel.FindRatingIsTheRow | backend/src/models/rating.js:38-42 | under the unique (user, store) index, the row found is the only row of its pair |
| Database.Db.constructor | backend/src/models/index.js:18-39 | an empty database satisfies every table constraint and foreign key |
| Text.ToLower | backend/src/controllers/admin.controller.js:48-50 | lower-casing keeps the length and lower-cases every character, so `iLike` compares case-blind |
| Text.EmptyIsContained | backend/src/controllers/stores.controller.js:26-31 | every string contains the empty search text, ignoring case |
| Text.ContainsItself | frontend/src/pages/AdminDashboard.jsx:68-71 | a string contains itself, ignoring case |
| Text.Trim | backend/src/utils/validators.js:11 | the trimmed text is empty or starts and ends with a non-space character |
| Text.TrimRemovesOnlySpace | backend/src/utils/validators.js:11 | trimming removes only white space: the result is a slice of the input with nothing but white space around it |
| Text.TrimIdempotent | backend/src/utils/validators.js:11 | trimming twice is trimming once |
| Text.TrimIgnoresPadding | backend/src/utils/validators.js:11 | a white-space character added at either end does not survive trimming |
| Text.Split | backend/src/middlewares/auth.middleware.js:18 | splitting gives at least one field, and no field contains the separator |
| Text.JoinSplit | backend/src/middlewares/auth.middleware.js:18 | joining the fields of a split with the separator gives the string back |
| Text.SplitFirstField | backend/src/middlewares/auth.middleware.js:18 | the first field of a split is the text up to the first separator |
| Text.SplitAfterWord | backend/src/middlewares/auth.middleware.js:18 | a separator-free word followed by the separator is a field on its own |
| Query.Filter | backend/src/controllers/stores.controller.js:34-35 | a `WHERE` keeps, with its multiplicity, every row that satisfies it, and no other |
| Query.FilterMembership | backend/src/controllers/stores.controller.js:34-35 | a row is selected exactly when it is in the table and satisfies the condition |
| Query.FilterAll | backend/src/controllers/stores.controller.js:24 | an empty condition selects the whole table, in order |
| Query.FilterSorted | frontend/src/pages/AdminDashboard.jsx:68-71 | filtering a sorted sequence keeps it sorted |
| Query.StrLeTotal | frontend/src/pages/AdminDashboard.jsx:63-64 | any two strings are ordered one way or the other |
| Query.StrLeTransitive | frontend/src/pages/AdminDashboard.jsx:63-64 | string order is transitive |
| Query.StrLeAntisymmetric | frontend/src/pages/AdminDashboard.jsx:63-65 | two strings ordered both ways are equal |
| Query.KeyLeTotal | backend/src/controllers/admin.controller.js:59 | any two column values, nulls included, are ordered one way or the other |
| Query.KeyLeTransitive | backend/src/controllers/admin.controller.js:59 | the column order, nulls last, is transitive |
| Query.InOrderTotal | backend/src/controllers/stores.controller.js:51 | in either direction, any two rows may be put in some order |
| Query.InOrderTransitive | backend/src/controllers/stores.controller.js:51 | the order in either direction is transitive |
| Query.Insert | backend/src/controllers/stores.controller.js:51 | inserting a row into an ordered list adds exactly that row |
| Query.InsertSorted | backend/src/controllers/stores.controller.js:51 | inserting into a sorted list keeps it sorted |
| Query.SortBySorted | backend/src/controllers/stores.controller.js:51 | `ORDER BY` yields rows in order by the column and direction |
| Query.SortByPermutes | backend/src/controllers/stores.controller.js:51 | `ORDER BY` neither drops nor duplicates a row |
| Query.Page | backend/src/controllers/stores.controller.js:49-50 | `OFFSET`/`LIMIT` keeps at most `limit` rows, exactly the ones starting at `offset` |
| Query.PageSorted | backend/src/controllers/stores.controller.js:49-51 | a page of an ordered result is ordered |
| Query.PageAll | backend/src/controllers/stores.controller.js:49-50 | with no offset and a limit the rows fit in, the page is every row |
| Query.ParseDirection | backend/src/controllers/stores.controller.js:51 | the direction word is `ASC` or `DESC` in any letter case |
| Query.ParseParams | backend/src/controllers/stores.controller.js:23 | the query is usable exactly when the column and direction are known and the bounds are not negative; the defaults are `ASC`, 50 and 0 |
| Validators.TrimIfPresent | backend/src/utils/validators.js:29-33 | an optional field stays absent, or is trimmed when present |
| Validators.TrimOrEmpty | backend/src/utils/validators.js:15-16 | a field trimmed without `optional()` always reaches the handler as a string with no white space at either end, the empty string when absent |
| Validators.NameValidIgnoresPadding | backend/src/utils/validators.js:10-13 | surrounding white space does not change whether a name is accepted |
| Validators.PasswordCountsPadding | backend/src/utils/validators.js:21-27 | the password is not trimmed, so padding counts towards its 16-character limit |
| Validators.RoleValidMatchesEnum | backend/src/utils/validators.js:35-38 | the role rule accepts exactly the names of the schema's role enumeration |
| Validators.NameValidMeetsSchema | backend/src/utils/validators.js:10-13 | a name the chain accepts reaches the model trimmed and meets the column rule |
| Validators.StoreNameValidMeetsSchema | backend/src/utils/validators.js:57-62 | a store name the chain accepts reaches the model trimmed and meets the column rule |
| Validators.RatingValueValidMeetsSchema | backend/src/utils/validators.js:67-69 | a rating the chain accepts is a whole score in the model's range |
| Validators.AddressValidMeetsSchema | backend/src/utils/validators.js:29-33 | an address the chain accepts reaches both models trimmed and meets both address columns' rule |
| Validators.PasswordRuleParts | backend/src/utils/validators.js:21-27 | the password rule needs each of its parts: `Secret!Pass1` passes; without an upper-case letter, without a special character, or shorter than 8 it fails |
| Validators.OldPasswordRefusesFalsy | backend/src/utils/validators.js:42-44 | a missing or empty old password is refused and any other is accepted |
| Validators.StoreIdRuleCases | backend/src/utils/validators.js:74-76 | the store id must be digits after at most one sign: `42`, `-7`, `+7` pass; the empty string, a lone sign, `4.2` and `x1` fail |
| RatingsController.AsWrittenAdmitsFraction | backend/src/controllers/ratings.controller.js:9-11 | the range check as written lets 3.5 through, though the rating rule refuses it |
| RatingsController.CorrectedGateIsWholeAsWritten | backend/src/controllers/ratings.controller.js:9-11 | the corrected check admits what the check as written admits, restricted to whole numbers |
| RatingsController.UpsertOverwritesOrAppends | backend/src/controllers/ratings.controller.js:14-21 | an existing pair's row keeps its place and id and takes the new score; otherwise one row for the pair is appended |
| RatingsController.Upserted | backend/src/controllers/ratings.controller.js:14-21 | the table grows by one row exactly when the pair had none, and afterwards holds a row of the pair with the submitted score |
| RatingsController.UpsertLeavesOtherPairs | backend/src/controllers/ratings.controller.js:14-21 | rows of every other pair are unchanged |
| RatingsController.UpsertThenFind | backend/src/controllers/ratings.controller.js:14-21 | after a submission, `findOne` for the pair finds a row with the submitted score |
| RatingsController.UpsertLastWins | backend/src/controllers/ratings.controller.js:14-21 | two submissions for the same pair leave the table as the second one alone would |
| RatingsController.UpsertKeepsValid | backend/src/models/rating.js:35-43 | a submission keeps scores in range, ids fresh and pairs unique |
| RatingsController.UpsertKeepsTablesValid | backend/src/controllers/ratings.controller.js:14-21 | a submission keeps the whole database valid when a new row's user and store exist |
| RatingsController.GetUserRatingForStore | backend/src/controllers/ratings.controller.js:32-50 | the reply is the pair's row when the pair has one, and 404 exactly when it has none |
| RatingsController.SubmitThenGet | backend/src/controllers/ratings.controller.js:3-50 | after submitting a score, reading the pair back gives that score, under the id of the pair's existing row or, for a new pair, the next id |
| RatingsController.SubmitOrUpdateRating | backend/src/controllers/ratings.controller.js:3-30 | 400 for a score the rating rule refuses; a foreign-key failure is a 500 and changes nothing, ids included (see Left out); otherwise the table is the upsert, the id advances only on insert, and the reply is what reading back returns |
| Aggregates.RatingsOfStoreMembership | backend/src/controllers/stores.controller.js:86-89 | a rating is among a store's ratings exactly when it is a row of the table with that store id |
| Aggregates.RatingsOfStoreIsFilter | backend/src/controllers/stores.controller.js:86-89 | the ratings of a store are the generic filter of the table by that store id |
| Aggregates.Average | backend/src/controllers/stores.controller.js:91-93 | the mean is null exactly when there are no rows, and times the count it gives the total |
| Aggregates.TotalBounds | backend/src/models/rating.js:19-28 | with valid scores the total lies between the count and five times the count |
| Aggregates.AverageWithinRange | backend/src/models/rating.js:19-28 | the mean of valid scores lies between 1 and 5 |
| Aggregates.TotalAppend | backend/src/controllers/stores.controller.js:91-93 | the total of a concatenation is the sum of the totals |
| Aggregates.RatingsOfStoreAppend | backend/src/controllers/ratings.controller.js:20 | a new rating joins its own store's ratings and no other store's |
| Aggregates.RatingsOfStoreOverwrite | backend/src/controllers/ratings.controller.js:17-18 | rescoring a row keeps every store's count, and moves its store's total by the difference |
| StoresController.CreateStore | backend/src/controllers/stores.controller.js:5-19 | a store is created exactly when the trimmed fields and the trimmed, normalized email (an absent one read as `""`) meet the schema and a given owner exists; it gets the next id and is appended with that email; a refused row is a 500 and changes nothing, so an absent email is a 500 |
| StoresController.CreateStoreKeepsTablesValid | backend/src/models/store.js:10-45 | adding a valid store with the next id and an existing or absent owner keeps the database valid; the new store exists and no earlier store has its id |
| StoresController.CreateStoreRefusesBlankName | backend/src/models/store.js:19-27 | a store name made only of white space is refused, whatever the other fields |
| StoresController.ParseStoreColumn | backend/src/controllers/stores.controller.js:51 | a store listing can be ordered by exactly the columns id, name, email, address and ownerId |
| StoresController.ViewerRating | backend/src/controllers/stores.controller.js:56-66 | the caller's score is present exactly when there is a caller with a rating of the store, and then it is that rating's score |
| StoresController.ListAllStores | backend/src/controllers/stores.controller.js:22-73 | the listing fails with a 500 exactly when the order or the bounds are unusable, and returns at most `limit` rows |
| StoresController.SearchStoresMembership | backend/src/controllers/stores.controller.js:26-31 | a store is searched in exactly when it is in the table and its name or address contains `q`, ignoring case |
| StoresController.ListAllStoresMatch | backend/src/controllers/stores.controller.js:26-31 | every listed store is a store of the table that matches `q` |
| StoresController.ListAllStoresComplete | backend/src/controllers/stores.controller.js:34-53 | on the first page, when the table fits in the limit, every matching store is listed |
| StoresController.ListAllStoresWindow | backend/src/controllers/stores.controller.js:49-51 | the listing is the `offset`/`limit` window of the ordered search result: its length is what is left after `offset`, cut to `limit`, and row `i` is ordered row `offset + i` with its aggregates and the caller's score |
| StoresController.ListAllStoresSorted | backend/src/controllers/stores.controller.js:51 | the listing is in order by the requested column and direction |
| StoresController.ListingAggregates | backend/src/controllers/stores.controller.js:36-41 | a listing row carries its store's rating count and mean; the mean is null exactly when there are none and lies between 1 and 5 |
| StoresController.ListingOf | backend/src/controllers/stores.controller.js:34-65 | a listing row is its store with the count of its ratings, their mean (times the count, the total), and a score of the caller exactly when the caller has rated it |
| StoresController.ListAllStoresAggregates | backend/src/controllers/stores.controller.js:36-41 | every listed store carries the count of its own ratings and their mean (times the count, the total), null exactly when the count is 0 and between 1 and 5 otherwise |
| StoresController.ListAllStoresUserRating | backend/src/controllers/stores.controller.js:55-67 | every listed store carries the caller's own score for it, or null |
| StoresController.SubmitCount | backend/src/controllers/ratings.controller.js:14-21 | a submission changes a store's count only when it creates a row, and then only that store's, by one |
| StoresController.ResubmitTotal | backend/src/controllers/ratings.controller.js:16-18 | a resubmission moves its store's total by the difference of the scores and no other store's |
| StoresController.Items | backend/src/controllers/stores.controller.js:103-107 | one item per rating, in order, with its id, score and rater |
| StoresController.ItemsTotalIsTotal | backend/src/controllers/stores.controller.js:91-93 | the items' scores add up to the ratings' total |
| StoresController.OwnedStores | backend/src/controllers/stores.controller.js:79-82 | exactly the stores of the table whose owner is the caller |
| StoresController.OwnerRollupExactlyOwned | backend/src/controllers/stores.controller.js:79-82 | the rollup lists exactly the caller's stores |
| StoresController.EntryOfRatings | backend/src/controllers/stores.controller.js:86-108 | an entry holds its store's ratings one by one, and its average is their total over their count, null when there are none |
| StoresController.OwnerRollupEntries | backend/src/controllers/stores.controller.js:84-110 | every entry of the rollup holds its store's ratings and their mean |
| StoresController.OwnerRollupRaters | backend/src/controllers/stores.controller.js:88 | with the foreign keys intact, every rating names its rater |
| StoresController.OwnerRollupAgreesWithListing | backend/src/controllers/stores.controller.js:91-93 | the owner's count and mean for a store are the public listing's |
| AdminController.DashboardCountsRatedPairs | backend/src/controllers/admin.controller.js:6-16 | stands for `GetDashboard` (`getDashboard`): the dashboard counts rows; a resubmission leaves the rating total unchanged, a first submission adds one |
| AdminController.DashboardCountsDistinctPairs | backend/src/controllers/admin.controller.js:10 | under the unique index on (user, store), the rating total is the number of distinct pairs that have been rated |
| AdminController.ResolveRole | backend/src/controllers/admin.controller.js:31 | an absent or empty role gives the default `user`; any other must name an enumeration value |
| AdminController.AsWrittenStoredPassword | backend/src/models/user.js:68-73 | as written, the stored password is the hash of the controller's hash |
| AdminController.AsWrittenLocksOut | backend/src/controllers/admin.controller.js:25-29 | with the double hash, the login check refuses the password the user was created with |
| AdminController.StoredPassword | backend/src/models/user.js:82-84 | hashed once, a non-empty password passes the login check |
| AdminController.NewUserRow | backend/src/controllers/admin.controller.js:25-32 | the inserted row carries the given id and email, the trimmed name and address, the resolved role, and a password that passes the login check |
| AdminController.CreateUser | backend/src/controllers/admin.controller.js:19-38 | the email is looked up trimmed and normalized, so a variant that normalizes to a stored email is a 409; an absent one (the empty string) is a 500 when `isEmail` refuses its normalized form; a row the schema refuses is a 500; otherwise the user is appended with the next id, the trimmed name, the resolved role and a password that passes the login check; failures change nothing |
| AdminController.RefusedEmailNeverStored | backend/src/models/user.js:30-39 | an email `isEmail` refuses is never a stored user's email |
| AdminController.InsertUser | backend/src/controllers/admin.controller.js:21-38 | with the email as the chain leaves it: in use is a 409; a row the schema refuses is a 500; otherwise the user is appended with the next id and found by it; failures change nothing |
| AdminController.RefusedEmailRefused | backend/src/controllers/admin.controller.js:21-36 | an email `isEmail` refuses, such as an absent one, is neither in use nor accepted by the schema, so it is a 500 and never a 409 |
| AdminController.CreateUserKeepsTablesValid | backend/src/models/user.js:30-39 | adding a valid user with a fresh email and the next id keeps the database valid |
| AdminController.ParseUserColumn | backend/src/controllers/admin.controller.js:59 | a user listing can be ordered by exactly the columns id, name, email, password, role and address |
| AdminController.RoleRank | backend/src/models/user.js:46 | a role's rank is the position of its label in the `ENUM('admin', 'owner', 'user')` declaration |
| AdminController.ListUsers | backend/src/controllers/admin.controller.js:41-66 | 500 exactly when the order, the bounds or the role filter are unusable; at most `limit` users otherwise |
| AdminController.ListUsersSelects | backend/src/controllers/admin.controller.js:45-61 | every listed user is the password-free view of a table user passing the role filter and the search |
| AdminController.ListUsersComplete | backend/src/controllers/admin.controller.js:45-61 | on the first page, when the table fits in the limit, every user passing the role filter and the search is listed |
| AdminController.ListUsersWindow | backend/src/controllers/admin.controller.js:56-59 | the listing is the `offset`/`limit` window of the ordered users passing the filters: its length is what is left after `offset`, cut to `limit`, and row `i` is the password-free view of ordered row `offset + i` |
| AdminController.ListUsersRoleExact | backend/src/controllers/admin.controller.js:45 | with a role filter, every listed user has exactly that role |
| AdminController.ListUsersSearch | backend/src/controllers/admin.controller.js:46-52 | with a search text, every listed user has it in the name, email or address, ignoring case |
| AdminController.ListUsersSorted | backend/src/controllers/admin.controller.js:55-61 | the user listing is in order by the requested column and direction |
| AdminController.ListStores | backend/src/controllers/admin.controller.js:69-107 | 500 exactly when the order or the bounds are unusable; at most `limit` stores otherwise |
| AdminController.ListStoresAggregates | backend/src/controllers/admin.controller.js:84-89 | every row carries its store's rating count and mean |
| AdminController.ListedStoresMatch | backend/src/controllers/admin.controller.js:73-79 | a row of the admin store search is a table store whose name, email or address contains `q` |
| AdminController.ListStoresSelects | backend/src/controllers/admin.controller.js:73-101 | every listed store is a table store that matches the search |
| AdminController.ListStoresComplete | backend/src/controllers/admin.controller.js:73-101 | on the first page, when the table fits in the limit, every store matching the search is listed |
| AdminController.ListStoresWindow | backend/src/controllers/admin.controller.js:97-99 | the listing is the `offset`/`limit` window of the ordered search result: its length is what is left after `offset`, cut to `limit`, and row `i` is ordered row `offset + i` with its count and mean |
| AdminController.GetUserDetails | backend/src/controllers/admin.controller.js:110-133 | 404 exactly for an unknown id; otherwise the password-free user, and a rating only for an owner |
| AdminController.OwnerRating | backend/src/controllers/admin.controller.js:119-127 | an owner's rating is the mean of exactly the ratings of the stores they own, null without any, between 1 and 5 |
| AdminController.DetailsListOwnedStores | backend/src/controllers/admin.controller.js:113-116 | the details list exactly the stores the user owns |
| RoleMiddleware.RoleGate | backend/src/middlewares/role.middleware.js:16-37 | 401 exactly without a user; 403 exactly for a user when roles are required and the user's role is not among them; passing on otherwise |
| RoleMiddleware.SingleRoleAdmitsOnlyIt | backend/src/middlewares/role.middleware.js:16-18 | a single role name, made a one-element list, admits exactly the users with that role and refuses the rest with 403 |
| RoleMiddleware.RefusalStatus | backend/src/middlewares/role.middleware.js:20-37 | the reply is 401 exactly without a user, 403 exactly for a role that is not required, and none (the next handler runs) otherwise |
| RoleMiddleware.NoUserIsUnauthenticated | backend/src/middlewares/role.middleware.js:22-24 | without a user the answer is 401, whatever roles are required |
| RoleMiddleware.NoRolesAllowsAnyUser | backend/src/middlewares/role.middleware.js:27-29 | an empty role list lets every authenticated user through |
| RoleMiddleware.MembershipDecides | backend/src/middlewares/role.middleware.js:32-37 | with required roles, a user passes exactly when their role is listed, and is refused with 403 otherwise |
| RoleMiddleware.NoRoleHierarchy | backend/src/middlewares/role.middleware.js:32-34 | membership is exact: an admin is refused where only owners pass, and misspelt names admit nobody |
| AuthMiddleware.FailureMessagesDistinct | backend/src/middlewares/auth.middleware.js:15-43 | the four failures have four different messages |
| AuthMiddleware.Token | backend/src/middlewares/auth.middleware.js:18 | the token is the text after `Bearer ` up to the next space |
| AuthMiddleware.TokenIsSecondField | backend/src/middlewares/auth.middleware.js:18 | after the prefix, the second space-separated field exists and is the text up to the next space |
| AuthMiddleware.Authenticate | backend/src/middlewares/auth.middleware.js:9-45 | a missing header or one without the exact prefix, an expired token, any other bad token and an unknown user are each their own failure; success is the token user's password-free view |
| AuthMiddleware.TrailingFieldsIgnored | backend/src/middlewares/auth.middleware.js:18 | anything after a space following the token is ignored |
| AuthMiddleware.PrefixIsExact | backend/src/middlewares/auth.middleware.js:14-16 | the prefix is case- and space-sensitive |
| AuthMiddleware.Request.constructor | backend/src/middlewares/auth.middleware.js:11 | a request starts with no user, no response and `next` not called |
| AuthMiddleware.Run | backend/src/middlewares/auth.middleware.js:9-45 | success attaches the user and calls `next` once; every failure sends 401 with its message and neither attaches a user nor calls `next` |
| AuthMiddleware.AuthenticatedPassesToRoleGate | backend/src/middlewares/role.middleware.js:22-24 | a request that authenticates is never refused by the role gate as unauthenticated |
| ProtectedRoute.LoggedOutGoesToLogin | frontend/src/components/ProtectedRoute.jsx:25-29 | without a logged-in user the guard redirects to the login page |
| ProtectedRoute.StoresOnlyForLoggedIn | frontend/src/components/ProtectedRoute.jsx:26-37 | the login check comes first: only a logged-in user is ever sent to the stores page |
| ProtectedRoute.NoRolesRendersForAnyone | frontend/src/components/ProtectedRoute.jsx:33-40 | with no roles, or an empty list, every logged-in user sees the page |
| ProtectedRoute.ListedRoleDecides | frontend/src/components/ProtectedRoute.jsx:33-40 | with roles, a logged-in user sees the page exactly when their role is listed, and goes to the stores page otherwise |
| ProtectedRoute.ServerRoles | frontend/src/components/ProtectedRoute.jsx:33 | a route's roles become the server gate's required roles, none when absent |
| ProtectedRoute.Guard | frontend/src/components/ProtectedRoute.jsx:22-41 | the login page exactly when nobody is logged in, the stores page exactly when a logged-in user's role is not in a non-empty list, the page otherwise |
| ProtectedRoute.GuardAgreesWithRoleGate | frontend/src/components/ProtectedRoute.jsx:22-41 | the client guard and the server role gate agree: login redirect is 401, stores redirect is 403, render is allow |
| ProtectedRoute.RouteTable | frontend/src/App.jsx:37-69 | every role reaches the stores page, only admins the admin page, only owners the owner page, and anyone logged in the password page |
| AdminDashboard.CompareOrders | frontend/src/pages/AdminDashboard.jsx:62-66 | the comparator swaps two users exactly when they are out of order for the direction, and ties exactly on equal values |
| AdminDashboard.RequestSort | frontend/src/pages/AdminDashboard.jsx:75-81 | a click sorts by the clicked column, descending exactly when that column was already ascending |
| AdminDashboard.RequestSortToggles | frontend/src/pages/AdminDashboard.jsx:75-81 | clicking the same header again flips the direction, and twice more returns to where it was |
| AdminDashboard.SortInPlace | frontend/src/pages/AdminDashboard.jsx:62-66 | the sort leaves the array in order by the column and direction, a permutation of what it was |
| AdminDashboard.InsertLast | frontend/src/pages/AdminDashboard.jsx:62-66 | one pass of the sort extends the ordered prefix by one element and keeps the array a permutation of what it was |
| AdminDashboard.InsertStep | frontend/src/pages/AdminDashboard.jsx:62-66 | swapping the moving element with a predecessor the comparator puts after it keeps the rest in order and the elements the same |
| AdminDashboard.FilteredAndSortedUsers | frontend/src/pages/AdminDashboard.jsx:59-72 | exactly the users whose name or email contains the search text, ignoring case, each as often as given, in the chosen order; with no column in input order; an empty search shows everyone |
| AdminDashboard.EmptySearchShowsAll | frontend/src/pages/AdminDashboard.jsx:68-71 | an empty search hides nobody |

## Left out

- Password hashing, token signing and checking, `isEmail` and `normalizeEmail` are external. They are parameters: `hash`, `verify`, `isEmail`, `normalize`. Their rules (which letters `normalizeEmail` lowercases, which dots it drops) are not modelled; the controllers apply `normalize` after the chain's trim.
- Salted bcrypt is abstracted as a deterministic `hash`, so the login check is `hash(candidate) == stored`.
- Calls that fail inside the database or the network, other than the constraint, foreign-key and query errors named above, are not modelled. The controllers' `catch` answers them with 500.
- Concurrency is not modelled. Each request runs alone against the tables; `Promise.all` in the listings is not interleaved with writes.
- Query-string values are taken as already parsed. `parseInt` of a non-numeric `limit` or `offset`, or a non-numeric `storeId` or `id` route parameter, is not modelled.
- Text.Trim: white space is the ASCII set (space, tab, line feed, carriage return, vertical tab, form feed). JavaScript `trim()` and the `\s` of the `notEmpty` check also remove U+00A0, U+FEFF, U+2028 and the other Unicode spaces; a name padded with those is trimmed less in the model.
- Text.ToLower: lower-casing covers the ASCII letters A to Z only. It stands for PostgreSQL's `iLike` folding, for JavaScript's `toLowerCase()` in the dashboard's search box, and for the letter case of the direction word `Query.ParseDirection` accepts (`asc`, `Desc`, ...); letters outside ASCII keep their case in all three (JavaScript upper-cases `ſ` to `S`, so `deſc` passes as a direction there and not in the model).
- `iLike` is modelled as an ASCII case-insensitive substring test. `%` and `_` in the search text are taken literally rather than as wildcards, and letters outside ASCII are not case-folded.
- String order is by character code. Database collations are not modelled.
- Ordering by `createdAt`, `updatedAt` or an aggregate alias is treated like an unknown column (500). The timestamps are not modelled.
- Explicit `NULLS FIRST` / `NULLS LAST` are not modelled; only `ASC` and `DESC` are.
- The JSON types of `AVG`/`COUNT` (strings in the database driver) and floating-point rounding are not modelled. Averages are exact rationals.
- `SubmitOrUpdateRating`: the rating arrives as a number (`real`). A JSON string or other non-number body value is not modelled.
- RatingsController.SubmitOrUpdateRating: on a foreign-key failure the model leaves `nextRatingId` as it was. In PostgreSQL the refused `INSERT` has already drawn a value from the id sequence, so the next rating's id skips it. The model promises fresh, increasing ids, not gap-free ones.
- StoresController.CreateStore: likewise, a store refused by the foreign key on `ownerId` leaves `nextStoreId` as it was, while PostgreSQL would have consumed a sequence value. Rows refused by the ORM's own validation never reach the database, so there the model and the database agree.
- `getMyProfile`, login, signup and change password in the user controller are not modelled, and neither are route wiring, the server and configuration.
- The rendering parts of the pages, the other pages and components, and `getUser`'s token decoding and expiry check are not modelled. The guard receives the decoded user, or none.
- AdminDashboard.FilteredAndSortedUsers: the state holding the users is an immutable value (`seq`), so the input is unchanged by construction. Stability of the sort is not stated, only order and permutation. The search box's `toLowerCase()` is modelled by `Text.ToLower`, which lower-cases A to Z only: a user named with a non-ASCII capital ("Élise") is hidden from the search "élise", which JavaScript would show.
- `AuthMiddleware.Run`: the user a token names is looked up in a table given as a value. The request's other fields are not modelled.

## Findings

| source | as written | input that shows it | evidently intended | confidence | as-written member | corrected member |
|---|---|---|---|---|---|---|
| backend/src/controllers/ratings.controller.js:9 | the range check refuses only scores below 1 or above 5, so it admits any fraction between them; the model's `isInt` then throws, so the caller gets a 500 | `rating` = 3.5 | a score that is not a whole number from 1 to 5 is refused with 400, as the rating rule of the validation chain states | not executed | RatingsController.AsWrittenAdmitsFraction | RatingsController.SubmitOrUpdateRating |
| backend/src/controllers/admin.controller.js:25 | the controller hashes the password, and the `beforeCreate` hook hashes the hash again, so the stored value is a hash of a hash and the login check never accepts the user's password | password `Secret!Pass1`, with a hash that prefixes `#` | the password is hashed once, so a user the admin creates can log in with it | not executed | AdminController.AsWrittenLocksOut | AdminController.StoredPassword |
