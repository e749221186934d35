/** The in-memory entity set `FakeAsyncEntitySet<T>`: a thin façade over
    one list. Mutations go straight to the list, `Count` is its length, both
    enumerators walk it, and the query root is built over the list itself
    rather than over a copy of it. `FakeEntitySet<T>` defines `Add`, `Remove`,
    its query root and its asynchronous enumerator the same way, and is
    modelled by the same datatype. */
module EntitySets {
  import opened Lists
  import opened Outcomes
  import opened Enumerators

  /** The shared backing list, in insertion order. No identity check is made
      on the way in, so duplicates are possible. */
  datatype EntitySet<T> = EntitySet(rows: seq<T>)

  /** The number of rows in the backing list, whatever their contents: as
      many as enumerating the set yields. */
  function Count<T>(s: EntitySet<T>): (n: nat)
    ensures n == |Drain(GetEnumerator(s))|
  {
    |s.rows|
  }

  /** Appends `item` after every existing row and hands the same item back. */
  function Add<T>(s: EntitySet<T>, item: T): (r: (EntitySet<T>, T))
    ensures r.1 == item
    ensures Count(r.0) == Count(s) + 1
    ensures r.0.rows[..Count(s)] == s.rows && r.0.rows[Count(s)] == item
  {
    (EntitySet(s.rows + [item]), item)
  }

  /** Removes the first row equal to `item`, keeps the other rows in their
      order, and hands the argument back; absent items leave the set as it
      was. */
  function Remove<T(==)>(s: EntitySet<T>, item: T): (r: (EntitySet<T>, T))
    ensures r.1 == item
    ensures item !in s.rows ==> r.0 == s
    ensures item in s.rows ==> Count(r.0) == Count(s) - 1
    ensures item in s.rows ==>
              exists k :: 0 <= k < Count(s) && s.rows[k] == item
                          && (forall j :: 0 <= j < k ==> s.rows[j] != item)
                          && r.0.rows == s.rows[..k] + s.rows[k + 1..]
  {
    (EntitySet(RemoveFirst(s.rows, item)), item)
  }

  /** Attaching has no tracked state to change here: it appends, as `Add`. */
  function Attach<T>(s: EntitySet<T>, item: T): (r: (EntitySet<T>, T))
    ensures r == Add(s, item)
  {
    (EntitySet(s.rows + [item]), item)
  }

  /** Detaching removes the first equal row, as `Remove`. */
  function Detach<T(==)>(s: EntitySet<T>, item: T): (r: (EntitySet<T>, T))
    ensures r == Remove(s, item)
  {
    (EntitySet(RemoveFirst(s.rows, item)), item)
  }

  /** Adding an item the set did not hold and then removing it restores the
      set. */
  lemma AddThenRemove<T>(s: EntitySet<T>, item: T)
    requires item !in s.rows
    ensures Remove(Add(s, item).0, item).0 == s
  {
  }

  // Enumeration

  /** The synchronous enumerator (generic and non-generic alike): a fresh
      cursor over the backing list. */
  function GetEnumerator<T>(s: EntitySet<T>): (c: Cursor<T>)
    ensures c.current == None
    ensures Drain(c) == s.rows
  {
    Start(s.rows)
  }

  /** The asynchronous enumerator wraps a fresh synchronous enumerator. */
  function GetAsyncEnumerator<T>(s: EntitySet<T>): (a: AsyncCursor<T>)
    ensures CurrentAsync(a) == None
    ensures Drain(a.inner) == s.rows
  {
    AsyncCursor(GetEnumerator(s))
  }

  /** Collecting through the asynchronous enumerator gives the rows in
      insertion order, the same sequence synchronous enumeration gives. */
  method ToListAsync<T>(s: EntitySet<T>) returns (rows: seq<T>)
    ensures rows == s.rows
    ensures rows == Drain(GetEnumerator(s))
  {
    rows := Enumerators.ToListAsync(GetAsyncEnumerator(s));
  }

  // The query root

  /** A deferred query: the root of a set, or a filter stacked on another
      query. It records what to do, never the rows it will run over. */
  datatype Query<!T> = Root | Where(source: Query<T>, keep: T -> bool)

  /** The query root of a set. It is built once, from the list reference,
      and holds no rows: run against the set as it is at any later time, it
      returns exactly that set's rows, so nothing was snapshotted. (Stating
      this for every later set needs rows free of heap references, which
      the immutable rows of this model are.) */
  function AsQueryable<T(!new)>(s: EntitySet<T>): (q: Query<T>)
    ensures forall t: EntitySet<T> :: Execute(q, t) == t.rows
  {
    Root
  }

  /** The elements of `xs` that `keep` accepts, in their order. */
  function Filter<T>(xs: seq<T>, keep: T -> bool): (r: seq<T>)
    ensures |r| <= |xs|
    ensures forall i :: 0 <= i < |r| ==> r[i] in xs && keep(r[i])
    ensures forall i :: 0 <= i < |xs| && keep(xs[i]) ==> xs[i] in r
  {
    if |xs| == 0 then []
    else (if keep(xs[0]) then [xs[0]] else []) + Filter(xs[1..], keep)
  }

  /** Runs a query against the rows the set holds at the time of the run:
      one pass over the rows, in their order, keeping each row that every
      filter accepts, so the stacked filters act as one filter by their
      conjunction. */
  function Execute<T>(q: Query<T>, s: EntitySet<T>): (r: seq<T>)
    ensures r == Filter(s.rows, Passing(q))
    ensures |r| <= |s.rows|
    ensures forall i :: 0 <= i < |r| ==> r[i] in s.rows && Passes(q, r[i])
    ensures forall i :: 0 <= i < |s.rows| && Passes(q, s.rows[i]) ==> s.rows[i] in r
  {
    match q
    case Root =>
      FilterAllKept(s.rows, Passing(q));
      s.rows
    case Where(source, keep) =>
      FilterFilter(s.rows, Passing(source), keep, Passing(q));
      Filter(Execute(source, s), keep)
  }

  /** Whether every filter of the query accepts `x`. */
  predicate Passes<T>(q: Query<T>, x: T)
  {
    match q
    case Root => true
    case Where(source, keep) => Passes(source, x) && keep(x)
  }

  /** `Passes` for the query `q`, as a function value. */
  function Passing<T>(q: Query<T>): T -> bool
  {
    (x: T) => Passes(q, x)
  }

  /** A filter that accepts every element keeps the whole sequence. */
  lemma {:induction false} FilterAllKept<T>(xs: seq<T>, keep: T -> bool)
    requires forall i :: 0 <= i < |xs| ==> keep(xs[i])
    ensures Filter(xs, keep) == xs
    decreases |xs|
  {
    if |xs| > 0 {
      FilterAllKept(xs[1..], keep);
      assert [xs[0]] + xs[1..] == xs;
    }
  }

  /** Filtering by `p` and then by `k` is one filter by `p && k`. */
  lemma {:induction false} FilterFilter<T>(xs: seq<T>, p: T -> bool, k: T -> bool, both: T -> bool)
    requires forall i :: 0 <= i < |xs| ==> both(xs[i]) == (p(xs[i]) && k(xs[i]))
    ensures Filter(Filter(xs, p), k) == Filter(xs, both)
    decreases |xs|
  {
    if |xs| > 0 {
      FilterFilter(xs[1..], p, k, both);
      var rest := Filter(xs[1..], p);
      if p(xs[0]) {
        assert Filter(xs, p) == [xs[0]] + rest;
        assert ([xs[0]] + rest)[0] == xs[0];
        assert ([xs[0]] + rest)[1..] == rest;
      } else {
        assert Filter(xs, p) == [] + rest == rest;
      }
    }
  }

  /** What a filter keeps and what its complement keeps together make up
      the whole sequence: every element lands on exactly one side, as often
      as it occurs. */
  lemma {:induction false} FilterPartition<T>(xs: seq<T>, keep: T -> bool, drop: T -> bool)
    requires forall i :: 0 <= i < |xs| ==> drop(xs[i]) == !keep(xs[i])
    ensures multiset(Filter(xs, keep)) + multiset(Filter(xs, drop)) == multiset(xs)
    decreases |xs|
  {
    if |xs| > 0 {
      var x, tail := xs[0], xs[1..];
      var kept, dropped := Filter(tail, keep), Filter(tail, drop);
      FilterPartition(tail, keep, drop);
      assert xs == [x] + tail;
      if keep(x) {
        assert Filter(xs, keep) == [x] + kept && Filter(xs, drop) == dropped;
      } else {
        assert Filter(xs, keep) == kept && Filter(xs, drop) == [x] + dropped;
      }
      SplitHead(x, tail, kept, dropped, Filter(xs, keep), Filter(xs, drop));
    }
  }

  /** If `kept` and `dropped` split `tail`, then adding `x` to one side
      splits `[x] + tail`. */
  lemma SplitHead<T>(x: T, tail: seq<T>, kept: seq<T>, dropped: seq<T>, k: seq<T>, d: seq<T>)
    requires multiset(kept) + multiset(dropped) == multiset(tail)
    requires (k == [x] + kept && d == dropped) || (k == kept && d == [x] + dropped)
    ensures multiset(k) + multiset(d) == multiset([x] + tail)
  {
  }

  lemma {:induction false} FilterAppend<T>(xs: seq<T>, x: T, keep: T -> bool)
    ensures Filter(xs + [x], keep) == Filter(xs, keep) + (if keep(x) then [x] else [])
    decreases |xs|
  {
    if |xs| == 0 {
      assert xs + [x] == [x];
    } else {
      assert (xs + [x])[0] == xs[0];
      assert (xs + [x])[1..] == xs[1..] + [x];
      FilterAppend(xs[1..], x, keep);
    }
  }

  lemma {:induction false} FilterRemoveFirstRef<T>(xs: seq<T>, x: T, keep: T -> bool)
    ensures Filter(RemoveFirstRef(xs, x), keep)
            == if keep(x) then RemoveFirstRef(Filter(xs, keep), x) else Filter(xs, keep)
    decreases |xs|
  {
    if |xs| == 0 {
    } else if xs[0] == x {
    } else {
      var rest := RemoveFirstRef(xs[1..], x);
      var head := if keep(xs[0]) then [xs[0]] else [];
      var f1 := Filter(xs[1..], keep);
      FilterRemoveFirstRef(xs[1..], x, keep);
      assert ([xs[0]] + rest)[0] == xs[0];
      assert ([xs[0]] + rest)[1..] == rest;
      assert Filter(RemoveFirstRef(xs, x), keep) == head + Filter(rest, keep);
      assert Filter(xs, keep) == head + f1;
      if keep(x) {
        if keep(xs[0]) {
          assert (head + f1)[0] == xs[0];
          assert (head + f1)[1..] == f1;
        } else {
          assert head + f1 == f1;
          assert head + RemoveFirstRef(f1, x) == RemoveFirstRef(f1, x);
        }
      }
    }
  }

  /** Filtering commutes with removing the first occurrence of `x`: `x`
      disappears from the filtered rows when, and only when, the filter
      kept it. */
  lemma FilterRemoveFirst<T>(xs: seq<T>, x: T, keep: T -> bool)
    ensures Filter(RemoveFirst(xs, x), keep)
            == if keep(x) then RemoveFirst(Filter(xs, keep), x) else Filter(xs, keep)
  {
    RemoveFirstMatchesRef(xs, x);
    RemoveFirstMatchesRef(Filter(xs, keep), x);
    FilterRemoveFirstRef(xs, x, keep);
  }

  /** The query root is live: a query run after an `Add` sees the added row
      at the end of its results whenever its filters accept it. */
  lemma {:induction false} ExecuteAfterAdd<T>(q: Query<T>, s: EntitySet<T>, item: T)
    ensures Execute(q, Add(s, item).0) == Execute(q, s) + (if Passes(q, item) then [item] else [])
  {
    match q
    case Root =>
    case Where(source, keep) =>
      ExecuteAfterAdd(source, s, item);
      if Passes(source, item) {
        FilterAppend(Execute(source, s), item, keep);
      } else {
        assert Execute(source, s) + [] == Execute(source, s);
      }
  }

  /** The query root is live: a query run after a `Remove` no longer sees
      the first occurrence of the removed row, and sees every other row it
      saw before, in the same order. */
  lemma {:induction false} ExecuteAfterRemove<T>(q: Query<T>, s: EntitySet<T>, item: T)
    ensures Execute(q, Remove(s, item).0)
            == if Passes(q, item) then RemoveFirst(Execute(q, s), item) else Execute(q, s)
  {
    match q
    case Root =>
    case Where(source, keep) =>
      ExecuteAfterRemove(source, s, item);
      if Passes(source, item) {
        FilterRemoveFirst(Execute(source, s), item, keep);
      }
  }
}
