/**
 * The pieces of a `findAll` the controllers rely on, over in-memory rows:
 * a `WHERE` filter, `ORDER BY` one column ascending or descending, and
 * `OFFSET` / `LIMIT`.
 */
module Query {
  import opened Wrappers
  import Text

  /** The rows of `xs` that satisfy `p`, in their original order. */
  function Filter<T(!new)>(xs: seq<T>, p: T -> bool): (r: seq<T>)
    ensures |r| <= |xs|
    ensures forall x :: x in r ==> p(x)
    ensures forall x :: multiset(r)[x] == if p(x) then multiset(xs)[x] else 0
  {
    if xs == [] then []
    else
      var rest := Filter(xs[1..], p);
      assert xs == [xs[0]] + xs[1..];
      if p(xs[0]) then [xs[0]] + rest else rest
  }

  /** A row is kept by `Filter` exactly when it is in the input and satisfies `p`. */
  lemma FilterMembership<T(!new)>(xs: seq<T>, p: T -> bool, x: T)
    ensures x in Filter(xs, p) <==> x in xs && p(x)
  {
    var r := Filter(xs, p);
    assert x in r <==> multiset(r)[x] > 0;
    assert x in xs <==> multiset(xs)[x] > 0;
  }

  /** A filter that keeps every row gives the input back. */
  lemma {:induction false} FilterAll<T(!new)>(xs: seq<T>, p: T -> bool)
    requires forall i :: 0 <= i < |xs| ==> p(xs[i])
    ensures Filter(xs, p) == xs
  {
    if xs != [] {
      FilterAll(xs[1..], p);
      assert [xs[0]] + xs[1..] == xs;
    }
  }

  /**
   * Filtering two arrangements of the same rows keeps the same rows: the
   * results are permutations of each other, with the same members.
   */
  lemma FilterPermuted<T(!new)>(xs: seq<T>, ys: seq<T>, p: T -> bool)
    requires multiset(xs) == multiset(ys)
    ensures multiset(Filter(xs, p)) == multiset(Filter(ys, p))
    ensures forall x :: x in Filter(xs, p) <==> x in ys && p(x)
  {
    var fx, fy := Filter(xs, p), Filter(ys, p);
    assert forall x :: multiset(fx)[x] == multiset(fy)[x];
    forall x ensures x in fx <==> x in ys && p(x) {
      FilterMembership(ys, p, x);
      assert x in fx <==> multiset(fx)[x] > 0;
      assert x in fy <==> multiset(fy)[x] > 0;
    }
  }

  /** Lexicographic order on character codes: JavaScript's `<=` on strings. */
  predicate StrLe(a: string, b: string) {
    if a == [] then true
    else if b == [] then false
    else if a[0] != b[0] then a[0] < b[0]
    else StrLe(a[1..], b[1..])
  }

  lemma {:induction false} StrLeTotal(a: string, b: string)
    ensures StrLe(a, b) || StrLe(b, a)
  {
    if a != [] && b != [] && a[0] == b[0] {
      StrLeTotal(a[1..], b[1..]);
    }
  }

  lemma {:induction false} StrLeTransitive(a: string, b: string, c: string)
    requires StrLe(a, b) && StrLe(b, c)
    ensures StrLe(a, c)
  {
    if a != [] && b != [] && c != [] && a[0] == b[0] && b[0] == c[0] {
      StrLeTransitive(a[1..], b[1..], c[1..]);
    }
  }

  lemma {:induction false} StrLeAntisymmetric(a: string, b: string)
    requires StrLe(a, b) && StrLe(b, a)
    ensures a == b
  {
    if a != [] && b != [] {
      StrLeAntisymmetric(a[1..], b[1..]);
      assert a == [a[0]] + a[1..] && b == [b[0]] + b[1..];
    }
  }

  /** The value a row has in the column a query orders by. */
  datatype SortKey = Null | Int(n: int) | Text(s: string)

  /** Ascending order, NULLs last (PostgreSQL's default for `ASC`). */
  predicate KeyLe(a: SortKey, b: SortKey) {
    match (a, b)
    case (_, Null) => true
    case (Null, _) => false
    case (Int(x), Int(y)) => x <= y
    case (Int(_), Text(_)) => true
    case (Text(_), Int(_)) => false
    case (Text(x), Text(y)) => StrLe(x, y)
  }

  lemma KeyLeTotal(a: SortKey, b: SortKey)
    ensures KeyLe(a, b) || KeyLe(b, a)
  {
    if a.Text? && b.Text? { StrLeTotal(a.s, b.s); }
  }

  lemma KeyLeTransitive(a: SortKey, b: SortKey, c: SortKey)
    requires KeyLe(a, b) && KeyLe(b, c)
    ensures KeyLe(a, c)
  {
    if a.Text? && b.Text? && c.Text? { StrLeTransitive(a.s, b.s, c.s); }
  }

  datatype Direction = Asc | Desc

  /**
   * `a` may come before `b` under `dir`. `DESC` is the exact reverse of `ASC`,
   * so in PostgreSQL NULLs come first when descending.
   */
  predicate InOrder(a: SortKey, b: SortKey, dir: Direction) {
    if dir == Asc then KeyLe(a, b) else KeyLe(b, a)
  }

  lemma InOrderTotal(a: SortKey, b: SortKey, dir: Direction)
    ensures InOrder(a, b, dir) || InOrder(b, a, dir)
  {
    KeyLeTotal(a, b);
  }

  lemma InOrderTransitive(a: SortKey, b: SortKey, c: SortKey, dir: Direction)
    requires InOrder(a, b, dir) && InOrder(b, c, dir)
    ensures InOrder(a, c, dir)
  {
    if dir == Asc { KeyLeTransitive(a, b, c); } else { KeyLeTransitive(c, b, a); }
  }

  /** Every earlier row may come before every later one. */
  ghost predicate SortedBy<T>(xs: seq<T>, key: T -> SortKey, dir: Direction) {
    forall i, j :: 0 <= i < j < |xs| ==> InOrder(key(xs[i]), key(xs[j]), dir)
  }

  /** Filtering keeps the relative order of the rows it keeps, so a sorted input stays sorted. */
  lemma {:induction false} FilterSorted<T(!new)>(xs: seq<T>, p: T -> bool, key: T -> SortKey, dir: Direction)
    requires SortedBy(xs, key, dir)
    ensures SortedBy(Filter(xs, p), key, dir)
  {
    if xs != [] {
      SortedTail(xs, key, dir);
      FilterSorted(xs[1..], p, key, dir);
      if p(xs[0]) {
        var rest := Filter(xs[1..], p);
        forall j | 0 <= j < |rest| ensures InOrder(key(xs[0]), key(rest[j]), dir) {
          HeadPrecedesFiltered(xs, p, key, dir, rest[j]);
        }
        SortedCons(xs[0], rest, key, dir);
      }
    }
  }

  lemma SortedTail<T>(xs: seq<T>, key: T -> SortKey, dir: Direction)
    requires xs != [] && SortedBy(xs, key, dir)
    ensures SortedBy(xs[1..], key, dir)
  {
    forall i, j | 0 <= i < j < |xs| - 1 ensures InOrder(key(xs[1..][i]), key(xs[1..][j]), dir) {
      assert xs[1..][i] == xs[i + 1] && xs[1..][j] == xs[j + 1];
    }
  }

  lemma SortedCons<T>(x: T, xs: seq<T>, key: T -> SortKey, dir: Direction)
    requires SortedBy(xs, key, dir)
    requires forall j :: 0 <= j < |xs| ==> InOrder(key(x), key(xs[j]), dir)
    ensures SortedBy([x] + xs, key, dir)
  {
    var r := [x] + xs;
    forall i, j | 0 <= i < j < |r| ensures InOrder(key(r[i]), key(r[j]), dir) {
      assert r[j] == xs[j - 1];
      if i > 0 { assert r[i] == xs[i - 1]; }
    }
  }

  /** In a sorted sequence the head may precede every row the filter keeps from the tail. */
  lemma HeadPrecedesFiltered<T(!new)>(xs: seq<T>, p: T -> bool, key: T -> SortKey, dir: Direction, y: T)
    requires xs != [] && SortedBy(xs, key, dir) && y in Filter(xs[1..], p)
    ensures InOrder(key(xs[0]), key(y), dir)
  {
    FilterMembership(xs[1..], p, y);
    var k :| 0 <= k < |xs[1..]| && xs[1..][k] == y;
    assert xs[k + 1] == y;
  }

  /** Insert `x` in front of the first row it may precede. */
  function Insert<T>(x: T, xs: seq<T>, key: T -> SortKey, dir: Direction): (r: seq<T>)
    ensures multiset(r) == multiset(xs) + multiset{x}
    ensures |r| == |xs| + 1
  {
    if xs == [] || InOrder(key(x), key(xs[0]), dir) then [x] + xs
    else
      assert xs == [xs[0]] + xs[1..];
      [xs[0]] + Insert(x, xs[1..], key, dir)
  }

  /**
   * `ORDER BY key dir`: an insertion sort. Rows with equal keys keep their
   * input order; the database leaves that order open, the model fixes one.
   */
  function SortBy<T>(xs: seq<T>, key: T -> SortKey, dir: Direction): (r: seq<T>)
    ensures |r| == |xs|
  {
    if xs == [] then [] else Insert(xs[0], SortBy(xs[1..], key, dir), key, dir)
  }

  lemma {:induction false} InsertSorted<T>(x: T, xs: seq<T>, key: T -> SortKey, dir: Direction)
    requires SortedBy(xs, key, dir)
    ensures SortedBy(Insert(x, xs, key, dir), key, dir)
  {
    if xs == [] {
    } else if InOrder(key(x), key(xs[0]), dir) {
      forall j | 0 <= j < |xs| ensures InOrder(key(x), key(xs[j]), dir) {
        if j > 0 { InOrderTransitive(key(x), key(xs[0]), key(xs[j]), dir); }
      }
      SortedCons(x, xs, key, dir);
    } else {
      InOrderTotal(key(x), key(xs[0]), dir);
      var rest := Insert(x, xs[1..], key, dir);
      SortedTail(xs, key, dir);
      InsertSorted(x, xs[1..], key, dir);
      forall j | 0 <= j < |rest| ensures InOrder(key(xs[0]), key(rest[j]), dir) {
        HeadPrecedesInserted(x, xs, key, dir, rest[j]);
      }
      SortedCons(xs[0], rest, key, dir);
    }
  }

  /** When `x` goes after the head of a sorted sequence, the head may precede every row of inserting `x` into the tail. */
  lemma HeadPrecedesInserted<T>(x: T, xs: seq<T>, key: T -> SortKey, dir: Direction, y: T)
    requires xs != [] && SortedBy(xs, key, dir) && InOrder(key(xs[0]), key(x), dir)
    requires y in Insert(x, xs[1..], key, dir)
    ensures InOrder(key(xs[0]), key(y), dir)
  {
    assert y in multiset(Insert(x, xs[1..], key, dir));
    assert y == x || y in multiset(xs[1..]);
    if y != x {
      var k :| 0 <= k < |xs[1..]| && xs[1..][k] == y;
      assert xs[k + 1] == y;
    }
  }

  /** `SortBy` orders its rows. */
  lemma {:induction false} SortBySorted<T>(xs: seq<T>, key: T -> SortKey, dir: Direction)
    ensures SortedBy(SortBy(xs, key, dir), key, dir)
  {
    if xs != [] {
      SortBySorted(xs[1..], key, dir);
      InsertSorted(xs[0], SortBy(xs[1..], key, dir), key, dir);
    }
  }

  /** `SortBy` neither drops nor duplicates a row. */
  lemma {:induction false} SortByPermutes<T>(xs: seq<T>, key: T -> SortKey, dir: Direction)
    ensures multiset(SortBy(xs, key, dir)) == multiset(xs)
  {
    if xs != [] {
      SortByPermutes(xs[1..], key, dir);
      assert xs == [xs[0]] + xs[1..];
    }
  }

  const DefaultLimit: nat := 50
  const DefaultOffset: nat := 0

  function Min(a: int, b: int): int { if a <= b then a else b }

  /** `OFFSET offset LIMIT limit`: skip `offset` rows, then keep at most `limit`. */
  function Page<T>(xs: seq<T>, offset: nat, limit: nat): (r: seq<T>)
    ensures |r| <= limit
    ensures |r| == if offset >= |xs| then 0 else Min(limit, |xs| - offset)
    ensures forall i :: 0 <= i < |r| ==> offset + i < |xs| && r[i] == xs[offset + i]
  {
    if offset >= |xs| then [] else xs[offset..Min(offset + limit, |xs|)]
  }

  /** A page of a sorted sequence is sorted. */
  lemma PageSorted<T>(xs: seq<T>, offset: nat, limit: nat, key: T -> SortKey, dir: Direction)
    requires SortedBy(xs, key, dir)
    ensures SortedBy(Page(xs, offset, limit), key, dir)
  {
    var r := Page(xs, offset, limit);
    forall i, j | 0 <= i < j < |r| ensures InOrder(key(r[i]), key(r[j]), dir) {
      assert r[i] == xs[offset + i] && r[j] == xs[offset + j];
    }
  }

  /** Without an offset and with a limit the rows fit in, the page is everything. */
  lemma PageAll<T>(xs: seq<T>, limit: nat)
    requires |xs| <= limit
    ensures Page(xs, 0, limit) == xs
  {
  }

  /**
   * The ordering, limit and offset of a `findAll`, once read from the query
   * string: the column (already resolved), the direction, and the bounds.
   */
  datatype Params<C> = Params(column: C, dir: Direction, limit: nat, offset: nat)

  /**
   * The direction word of `order: [[column, dir]]`. Only `ASC` and `DESC`, in
   * any letter case, are modelled; any other word is refused.
   */
  function ParseDirection(s: string): (d: Option<Direction>)
    ensures d == Some(Asc) <==> Text.ToLower(s) == "asc"
    ensures d == Some(Desc) <==> Text.ToLower(s) == "desc"
  {
    var w := Text.ToLower(s);
    if w == "asc" then Some(Asc) else if w == "desc" then Some(Desc) else None
  }

  /**
   * Resolve the query-string part of a `findAll`: the column (`None` when the
   * name is no column), the direction (default `ASC`), and the limit and
   * offset (defaults 50 and 0; the database refuses a negative one).
   */
  function ParseParams<C>(column: Option<C>, order: Option<string>, limit: Option<int>, offset: Option<int>)
    : (p: Option<Params<C>>)
    ensures p.Some? <==>
      && column.Some?
      && (order.None? || ParseDirection(order.value).Some?)
      && (limit.None? || 0 <= limit.value)
      && (offset.None? || 0 <= offset.value)
    ensures p.Some? ==>
      && p.value.column == column.value
      && p.value.dir == (if order.None? then Asc else ParseDirection(order.value).value)
      && p.value.limit == (if limit.None? then DefaultLimit else limit.value)
      && p.value.offset == (if offset.None? then DefaultOffset else offset.value)
  {
    var dir := if order.None? then Some(Asc) else ParseDirection(order.value);
    if column.None? || dir.None? then None
    else if limit.Some? && limit.value < 0 then None
    else if offset.Some? && offset.value < 0 then None
    else
      Some(Params(column.value, dir.value,
                  if limit.None? then DefaultLimit else limit.value,
                  if offset.None? then DefaultOffset else offset.value))
  }
}
