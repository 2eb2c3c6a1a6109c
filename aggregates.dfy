/**
 * Aggregates over ratings: the rows of one store, their total, and their
 * mean as an exact rational, absent (null) when there are no rows.
 */
module Aggregates {
  import opened Wrappers
  import opened RatingModel
  import Query

  /** The ratings of store `storeId`, in table order (the join on `storeId`). */
  function RatingsOfStore(rs: seq<RatingRow>, storeId: int): (r: seq<RatingRow>)
    ensures |r| <= |rs|
  {
    if rs == [] then []
    else (if rs[0].storeId == storeId then [rs[0]] else []) + RatingsOfStore(rs[1..], storeId)
  }

  /** A row is among the store's ratings exactly when it is in the table and names that store. */
  lemma {:induction false} RatingsOfStoreMembership(rs: seq<RatingRow>, storeId: int, x: RatingRow)
    ensures x in RatingsOfStore(rs, storeId) <==> x in rs && x.storeId == storeId
  {
    if rs != [] {
      RatingsOfStoreMembership(rs[1..], storeId, x);
      assert x in rs <==> x == rs[0] || x in rs[1..] by {
        assert rs == [rs[0]] + rs[1..];
      }
    }
  }

  /** The join on `storeId` is the generic filter with the predicate "names that store". */
  lemma {:induction false} RatingsOfStoreIsFilter(rs: seq<RatingRow>, storeId: int)
    ensures RatingsOfStore(rs, storeId) == Query.Filter(rs, (r: RatingRow) => r.storeId == storeId)
  {
    if rs != [] {
      RatingsOfStoreIsFilter(rs[1..], storeId);
    }
  }

  /** The sum of the scores of `rs`. */
  function Total(rs: seq<RatingRow>): int {
    if rs == [] then 0 else rs[0].rating + Total(rs[1..])
  }

  /**
   * The mean score of `rs`: `AVG(rating)` in SQL and
   * `reduce((a, b) => a + b.rating, 0) / length` in the controllers.
   * It is absent exactly when there are no rows, and times the count it
   * gives back the total.
   */
  function Average(rs: seq<RatingRow>): (m: Option<real>)
    ensures IsAverage(m, rs)
  {
    if rs == [] then None else Some(Total(rs) as real / |rs| as real)
  }

  /**
   * `m` is the mean score of `rs`: absent exactly when there are no rows, and
   * times the count it gives back the total.
   */
  predicate IsAverage(m: Option<real>, rs: seq<RatingRow>) {
    && (m.None? <==> rs == [])
    && (m.Some? ==> m.value * (|rs| as real) == Total(rs) as real)
  }

  ghost predicate AllScoresOk(rs: seq<RatingRow>) {
    forall i :: 0 <= i < |rs| ==> ScoreOk(rs[i].rating)
  }

  /** With every score between 1 and 5, the total lies between the count and five times the count. */
  lemma {:induction false} TotalBounds(rs: seq<RatingRow>)
    requires AllScoresOk(rs)
    ensures |rs| <= Total(rs) <= 5 * |rs|
  {
    if rs != [] {
      assert AllScoresOk(rs[1..]) by {
        forall i | 0 <= i < |rs| - 1 ensures ScoreOk(rs[1..][i].rating) {
          assert rs[1..][i] == rs[i + 1];
        }
      }
      TotalBounds(rs[1..]);
    }
  }

  /** The mean of valid scores is itself between 1 and 5. */
  lemma AverageWithinRange(rs: seq<RatingRow>)
    requires AllScoresOk(rs)
    ensures Average(rs).Some? ==> 1.0 <= Average(rs).value <= 5.0
  {
    if rs != [] {
      TotalBounds(rs);
      MeanBetween(Average(rs).value, |rs| as real, Total(rs) as real);
    }
  }

  /** A mean of `n` values whose total lies between `n` and `5n` lies between 1 and 5. */
  lemma MeanBetween(m: real, n: real, t: real)
    requires 0.0 < n && m * n == t && n <= t <= 5.0 * n
    ensures 1.0 <= m <= 5.0
  {
    assert (m - 1.0) * n == t - n;
    assert (5.0 - m) * n == 5.0 * n - t;
    SignOfProduct(m - 1.0, n);
    SignOfProduct(5.0 - m, n);
  }

  lemma SignOfProduct(a: real, n: real)
    requires 0.0 < n && 0.0 <= a * n
    ensures 0.0 <= a
  {
  }

  /** The total of a concatenation is the sum of the totals. */
  lemma {:induction false} TotalAppend(a: seq<RatingRow>, b: seq<RatingRow>)
    ensures Total(a + b) == Total(a) + Total(b)
  {
    if a == [] {
      assert a + b == b;
    } else {
      assert (a + b)[0] == a[0] && (a + b)[1..] == a[1..] + b;
      TotalAppend(a[1..], b);
    }
  }

  /** Appending a row adds it to its own store's ratings and to no other store's. */
  lemma {:induction false} RatingsOfStoreAppend(rs: seq<RatingRow>, x: RatingRow, storeId: int)
    ensures RatingsOfStore(rs + [x], storeId)
         == RatingsOfStore(rs, storeId) + (if x.storeId == storeId then [x] else [])
  {
    var tail: seq<RatingRow> := if x.storeId == storeId then [x] else [];
    if rs == [] {
      assert rs + [x] == [x] && ([x])[1..] == [];
      assert RatingsOfStore([x], storeId) == tail + RatingsOfStore([], storeId);
    } else {
      var head: seq<RatingRow> := if rs[0].storeId == storeId then [rs[0]] else [];
      assert (rs + [x])[0] == rs[0] && (rs + [x])[1..] == rs[1..] + [x];
      RatingsOfStoreAppend(rs[1..], x, storeId);
      assert RatingsOfStore(rs + [x], storeId) == head + (RatingsOfStore(rs[1..], storeId) + tail);
      assert head + (RatingsOfStore(rs[1..], storeId) + tail) == (head + RatingsOfStore(rs[1..], storeId)) + tail;
    }
  }

  /**
   * Changing the score of row `k` in place leaves every store's count as it
   * was, and moves the total of that row's store by the difference.
   */
  lemma {:induction false} RatingsOfStoreOverwrite(rs: seq<RatingRow>, k: int, score: int, storeId: int)
    requires 0 <= k < |rs|
    ensures var rs' := rs[k := rs[k].(rating := score)];
      && |RatingsOfStore(rs', storeId)| == |RatingsOfStore(rs, storeId)|
      && Total(RatingsOfStore(rs', storeId))
         == Total(RatingsOfStore(rs, storeId)) + (if rs[k].storeId == storeId then score - rs[k].rating else 0)
  {
    var rs' := rs[k := rs[k].(rating := score)];
    if k == 0 {
      assert rs'[1..] == rs[1..];
      var head: seq<RatingRow> := if rs[0].storeId == storeId then [rs[0]] else [];
      var head': seq<RatingRow> := if rs'[0].storeId == storeId then [rs'[0]] else [];
      TotalAppend(head, RatingsOfStore(rs[1..], storeId));
      TotalAppend(head', RatingsOfStore(rs'[1..], storeId));
    } else {
      assert rs'[1..] == rs[1..][k - 1 := rs[k].(rating := score)];
      RatingsOfStoreOverwrite(rs[1..], k - 1, score, storeId);
      var head: seq<RatingRow> := if rs[0].storeId == storeId then [rs[0]] else [];
      TotalAppend(head, RatingsOfStore(rs[1..], storeId));
      TotalAppend(head, RatingsOfStore(rs'[1..], storeId));
    }
  }
}
