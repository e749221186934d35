/** The enumerators the entity sets hand out. The synchronous one is the
    backing list's own enumerator; the asynchronous one wraps a fresh
    synchronous enumerator and answers each advance at once with the
    wrapped enumerator's answer (no suspension, no latency). */
module Enumerators {
  import opened Outcomes

  /** `List<T>.Enumerator`: the list it walks, how many elements it has
      yielded so far, and the element last yielded. Once the walk is over
      `index` is |items| + 1 and there is no current element. */
  datatype Cursor<T> = Cursor(items: seq<T>, index: nat, current: Option<T>)

  /** A cursor positioned before the first element. */
  function Start<T>(items: seq<T>): Cursor<T>
  {
    Cursor(items, 0, None)
  }

  /** Advances the cursor: true and the next element as current while one
      is left, false and no current element afterwards. */
  function MoveNext<T>(c: Cursor<T>): (bool, Cursor<T>)
  {
    if c.index < |c.items| then (true, Cursor(c.items, c.index + 1, Some(c.items[c.index])))
    else (false, Cursor(c.items, |c.items| + 1, None))
  }

  /** What a consumer reads from the cursor by calling MoveNext until it
      answers false and taking the current element after every true: the
      elements not yet yielded, in list order. */
  function Drain<T>(c: Cursor<T>): (r: seq<T>)
    ensures c.index < |c.items| ==> r == c.items[c.index..]
    ensures |c.items| <= c.index ==> r == []
    decreases |c.items| - c.index
  {
    var (more, next) := MoveNext(c);
    if more then [next.current.value] + Drain(next) else []
  }

  /** The asynchronous enumerator: a wrapper around a synchronous cursor. */
  datatype AsyncCursor<T> = AsyncCursor(inner: Cursor<T>)

  /** The asynchronous advance; it completes immediately with the wrapped
      cursor's result. */
  function MoveNextAsync<T>(a: AsyncCursor<T>): (bool, AsyncCursor<T>)
  {
    var (more, next) := MoveNext(a.inner);
    (more, AsyncCursor(next))
  }

  function CurrentAsync<T>(a: AsyncCursor<T>): Option<T>
  {
    a.inner.current
  }

  /** One advance splits off the first element still to be yielded. */
  lemma DrainStep<T>(c: Cursor<T>)
    ensures MoveNext(c).0 ==> Drain(c) == [MoveNext(c).1.current.value] + Drain(MoveNext(c).1)
    ensures !MoveNext(c).0 ==> Drain(c) == []
  {
  }

  /** The consumer loop over the asynchronous protocol (await the advance,
      read Current, repeat until the advance answers false) collects
      exactly what synchronous enumeration of the wrapped cursor yields. */
  method ToListAsync<T>(a: AsyncCursor<T>) returns (collected: seq<T>)
    ensures collected == Drain(a.inner)
  {
    collected := [];
    var cursor := a;
    var step := MoveNextAsync(cursor);
    while step.0
      invariant step == MoveNextAsync(cursor)
      invariant collected + Drain(cursor.inner) == Drain(a.inner)
      decreases |cursor.inner.items| - cursor.inner.index
    {
      DrainStep(cursor.inner);
      var rest := Drain(step.1.inner);
      cursor := step.1;
      var item := CurrentAsync(cursor).value;
      assert collected + ([item] + rest) == (collected + [item]) + rest;
      collected := collected + [item];
      step := MoveNextAsync(cursor);
    }
    DrainStep(cursor.inner);
    assert collected + [] == collected;
  }
}
