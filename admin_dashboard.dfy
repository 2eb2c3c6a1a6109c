/**
 * The user table of the admin dashboard: the rows it shows for the search
 * box and the sort chosen by clicking a column header.
 */
module AdminDashboard {
  import opened Wrappers
  import opened UserModel
  import Text
  import opened Query

  /** The columns a header click can sort by. */
  datatype SortField = ByName | ByEmail | ByRole

  /**
   * The sort state: the column (none means the rows keep the order they
   * arrived in) and `ascending` / `descending`.
   */
  datatype SortConfig = SortConfig(key: Option<SortField>, direction: Direction)

  /** Before any click the table is sorted by name, ascending. */
  const InitialSortConfig: SortConfig := SortConfig(Some(ByName), Asc)

  /** `user[key]`: the role arrives as its name. */
  function FieldValue(f: SortField, u: UserView): string {
    match f
    case ByName => u.name
    case ByEmail => u.email
    case ByRole => RoleName(u.role)
  }

  function FieldKey(f: SortField): UserView -> SortKey {
    u => SortKey.Text(FieldValue(f, u))
  }

  /** JavaScript's `<` on strings. */
  predicate StrLt(x: string, y: string) {
    StrLe(x, y) && x != y
  }

  /**
   * The comparator handed to `sort`: negative when `x` goes first, positive
   * when `y` goes first, zero when the values are equal.
   */
  function Compare(x: string, y: string, dir: Direction): int {
    if StrLt(x, y) then (if dir == Asc then -1 else 1)
    else if StrLt(y, x) then (if dir == Asc then 1 else -1)
    else 0
  }

  /**
   * The comparator puts `y` first exactly when `x` may not precede `y` in
   * the direction's order: it orders as `InOrder` does.
   */
  lemma CompareOrders(x: string, y: string, dir: Direction)
    ensures Compare(x, y, dir) > 0 <==> !InOrder(SortKey.Text(x), SortKey.Text(y), dir)
    ensures Compare(x, y, dir) == 0 <==> x == y
  {
    StrLeTotal(x, y);
    if StrLe(x, y) && StrLe(y, x) { StrLeAntisymmetric(x, y); }
  }

  /**
   * `requestSort`: a click on the column already sorted ascending turns it
   * descending; any other click sorts the clicked column ascending.
   */
  function RequestSort(config: SortConfig, key: SortField): (c: SortConfig)
    ensures c.key == Some(key)
    ensures c.direction == Desc <==> config.key == Some(key) && config.direction == Asc
  {
    var direction := if config.key == Some(key) && config.direction == Asc then Desc else Asc;
    SortConfig(Some(key), direction)
  }

  /** Clicking the same header again flips the direction back and forth. */
  lemma RequestSortToggles(config: SortConfig, key: SortField)
    ensures var once := RequestSort(config, key);
      && RequestSort(once, key).key == once.key
      && RequestSort(once, key).direction != once.direction
      && RequestSort(RequestSort(once, key), key) == once
  {
  }

  /** A row matches the search box when its name or email contains the text, ignoring case. */
  predicate Shown(u: UserView, filter: string) {
    Text.ContainsIgnoreCase(u.name, filter) || Text.ContainsIgnoreCase(u.email, filter)
  }

  function ShownBy(filter: string): UserView -> bool {
    u => Shown(u, filter)
  }

  /** The first `n` elements of `s` are in order. */
  ghost predicate SortedPrefix<T>(s: seq<T>, n: int, key: T -> SortKey, dir: Direction) {
    && 0 <= n <= |s|
    && forall p, q :: 0 <= p < q < n ==> InOrder(key(s[p]), key(s[q]), dir)
  }

  /**
   * The element at `j` is being moved down into the ordered `s[..j]`: among
   * the first `n`, all other elements are in order, and it may precede every
   * element after it.
   */
  ghost predicate Inserting<T>(s: seq<T>, j: int, n: int, key: T -> SortKey, dir: Direction) {
    && 0 <= j < n <= |s|
    && (forall p, q :: 0 <= p < q < n && p != j && q != j ==> InOrder(key(s[p]), key(s[q]), dir))
    && (forall q :: j < q < n ==> InOrder(key(s[j]), key(s[q]), dir))
  }

  /** `s` with the neighbours at `j - 1` and `j` exchanged. */
  function Swapped<T>(s: seq<T>, j: int): (t: seq<T>)
    requires 0 < j < |s|
    ensures |t| == |s| && t[j - 1] == s[j] && t[j] == s[j - 1]
    ensures forall k :: 0 <= k < |s| && k != j - 1 && k != j ==> t[k] == s[k]
  {
    s[j - 1 := s[j]][j := s[j - 1]]
  }

  /** Swapping the moving element with its out-of-order predecessor moves it one place down. */
  lemma SwapDown<T>(s: seq<T>, j: int, n: int, key: T -> SortKey, dir: Direction)
    requires Inserting(s, j, n, key, dir) && j > 0 && !InOrder(key(s[j - 1]), key(s[j]), dir)
    ensures Inserting(Swapped(s, j), j - 1, n, key, dir)
  {
    InOrderTotal(key(s[j - 1]), key(s[j]), dir);
    var t := Swapped(s, j);
    forall q | j - 1 < q < n ensures InOrder(key(t[j - 1]), key(t[q]), dir) {
      if q > j { assert t[q] == s[q]; }
    }
  }

  /** Once the moving element is in order with its predecessor, the first `n` are in order. */
  lemma DoneInserting<T>(s: seq<T>, j: int, n: int, key: T -> SortKey, dir: Direction)
    requires Inserting(s, j, n, key, dir) && (j == 0 || InOrder(key(s[j - 1]), key(s[j]), dir))
    ensures SortedPrefix(s, n, key, dir)
  {
    forall p, q | 0 <= p < q < n ensures InOrder(key(s[p]), key(s[q]), dir) {
      if q == j && p < j - 1 {
        InOrderTransitive(key(s[p]), key(s[j - 1]), key(s[j]), dir);
      }
    }
  }

  /** Swapping two neighbours neither drops nor duplicates an element. */
  lemma SwapPermutes<T>(s: seq<T>, j: int)
    requires 0 < j < |s|
    ensures multiset(Swapped(s, j)) == multiset(s)
  {
    var t := s[j - 1 := s[j]];
    assert t[j] == s[j];
    assert multiset(t) == multiset(s) - multiset{s[j - 1]} + multiset{s[j]};
    assert multiset(t[j := s[j - 1]]) == multiset(t) - multiset{s[j]} + multiset{s[j - 1]};
  }

  /** The comparator on a column puts `v` before `u` exactly when `u` may not precede `v`. */
  lemma CompareKeys(f: SortField, u: UserView, v: UserView, dir: Direction)
    ensures Compare(FieldValue(f, u), FieldValue(f, v), dir) > 0 <==> !InOrder(FieldKey(f)(u), FieldKey(f)(v), dir)
  {
    CompareOrders(FieldValue(f, u), FieldValue(f, v), dir);
  }

  /**
   * `Array.prototype.sort` with the comparator `Compare`, as an insertion
   * sort that swaps adjacent elements the comparator puts the other way round.
   */
  method SortInPlace(a: array<UserView>, f: SortField, dir: Direction)
    modifies a
    ensures SortedBy(a[..], FieldKey(f), dir)
    ensures multiset(a[..]) == multiset(old(a[..]))
  {
    var i := 0;
    while i < a.Length
      invariant SortedPrefix(a[..], i, FieldKey(f), dir)
      invariant multiset(a[..]) == multiset(old(a[..]))
    {
      InsertLast(a, i, f, dir);
      i := i + 1;
    }
  }

  /**
   * One step of the insertion: the moving element at `j`, which the comparator
   * puts after its predecessor, changes places with it.
   */
  method InsertStep(a: array<UserView>, j: int, n: int, f: SortField, dir: Direction)
    requires Inserting(a[..], j, n, FieldKey(f), dir)
    requires j > 0 && Compare(FieldValue(f, a[j - 1]), FieldValue(f, a[j]), dir) > 0
    modifies a
    ensures Inserting(a[..], j - 1, n, FieldKey(f), dir)
    ensures multiset(a[..]) == multiset(old(a[..]))
  {
    ghost var s := a[..];
    CompareKeys(f, s[j - 1], s[j], dir);
    SwapDown(s, j, n, FieldKey(f), dir);
    SwapPermutes(s, j);
    a[j - 1], a[j] := a[j], a[j - 1];
    assert a[..] == Swapped(s, j);
  }

  /** Move `a[i]` down into the ordered `a[..i]`, so that the first `i + 1` elements are in order. */
  method InsertLast(a: array<UserView>, i: int, f: SortField, dir: Direction)
    requires 0 <= i < a.Length && SortedPrefix(a[..], i, FieldKey(f), dir)
    modifies a
    ensures SortedPrefix(a[..], i + 1, FieldKey(f), dir)
    ensures multiset(a[..]) == multiset(old(a[..]))
  {
    var j := i;
    while j > 0 && Compare(FieldValue(f, a[j - 1]), FieldValue(f, a[j]), dir) > 0
      invariant Inserting(a[..], j, i + 1, FieldKey(f), dir)
      invariant multiset(a[..]) == multiset(old(a[..]))
    {
      InsertStep(a, j, i + 1, f, dir);
      j := j - 1;
    }
    if j > 0 { CompareKeys(f, a[j - 1], a[j], dir); }
    DoneInserting(a[..], j, i + 1, FieldKey(f), dir);
  }

  /**
   * `filteredAndSortedUsers`: a copy of the users sorted by the chosen column
   * and direction, then narrowed to the rows the search text matches. It
   * shows exactly the matching users, each as often as it arrived, in the
   * chosen order; with no column they keep their order, and an empty search
   * shows every user.
   */
  method FilteredAndSortedUsers(users: seq<UserView>, filter: string, config: SortConfig) returns (r: seq<UserView>)
    ensures forall u :: u in r <==> u in users && Shown(u, filter)
    ensures multiset(r) == multiset(Filter(users, ShownBy(filter)))
    ensures config.key.Some? ==> SortedBy(r, FieldKey(config.key.value), config.direction)
    ensures config.key.None? ==> r == Filter(users, ShownBy(filter))
    ensures filter == [] ==> multiset(r) == multiset(users)
  {
    var sorted := new UserView[|users|](i requires 0 <= i < |users| => users[i]);
    assert sorted[..] == users;
    if config.key.Some? {
      SortInPlace(sorted, config.key.value, config.direction);
      FilterSorted(sorted[..], ShownBy(filter), FieldKey(config.key.value), config.direction);
    }
    r := Filter(sorted[..], ShownBy(filter));
    FilterPermuted(sorted[..], users, ShownBy(filter));
    if filter == [] {
      EmptySearchShowsAll(users);
    }
  }

  /** An empty search box hides nobody. */
  lemma EmptySearchShowsAll(users: seq<UserView>)
    ensures Filter(users, ShownBy([])) == users
  {
    forall i | 0 <= i < |users| ensures ShownBy([])(users[i]) {
      Text.EmptyIsContained(users[i].name);
    }
    FilterAll(users, ShownBy([]));
  }
}
