/** The two operations of `IList<T>` the in-memory entity sets delegate to:
    `Add` (append) and `Remove` (delete the first equal element). `Remove`
    is `IndexOf` followed by `RemoveAt`, as in `List<T>`. Equality is the
    element type's own; for the repository's entity classes that is
    reference identity. */
module Lists {

  /** Position of the first element equal to `x`, or -1 when there is none. */
  function IndexOf<T(==)>(xs: seq<T>, x: T): (i: int)
    ensures -1 <= i < |xs|
    ensures i == -1 <==> x !in xs
    ensures 0 <= i ==> xs[i] == x && forall j :: 0 <= j < i ==> xs[j] != x
  {
    if |xs| == 0 then -1
    else if xs[0] == x then 0
    else
      var j := IndexOf(xs[1..], x);
      if j == -1 then -1 else j + 1
  }

  /** The list with the element at position `k` taken out; the elements
      after it move one place towards the front. */
  function RemoveAt<T>(xs: seq<T>, k: nat): (r: seq<T>)
    requires k < |xs|
    ensures |r| == |xs| - 1
    ensures forall i :: 0 <= i < k ==> r[i] == xs[i]
    ensures forall i :: k <= i < |r| ==> r[i] == xs[i + 1]
  {
    xs[..k] + xs[k + 1..]
  }

  /** `List<T>.Remove` as the list implements it: find the first position
      holding `x`, then take that position out. */
  function IndexThenRemoveAt<T(==)>(xs: seq<T>, x: T): seq<T>
  {
    var k := IndexOf(xs, x);
    if k == -1 then xs else RemoveAt(xs, k)
  }

  /** `List<T>.Remove`: deletes the first element equal to `x` and keeps
      every other element in its original order; a list that does not
      hold `x` comes back unchanged. */
  function RemoveFirst<T(==)>(xs: seq<T>, x: T): (r: seq<T>)
    ensures x !in xs ==> r == xs
    ensures x in xs ==> |r| == |xs| - 1 && multiset(r) == multiset(xs) - multiset{x}
    ensures x in xs ==>
              exists k :: 0 <= k < |xs| && xs[k] == x && (forall j :: 0 <= j < k ==> xs[j] != x)
                          && r == xs[..k] + xs[k + 1..]
  {
    var k := IndexOf(xs, x);
    assert k != -1 ==> xs == xs[..k] + [x] + xs[k + 1..];
    IndexThenRemoveAt(xs, x)
  }

  /** A definition of "remove the first occurrence" that walks the list
      from the front, independent of `IndexOf`. */
  function RemoveFirstRef<T(==)>(xs: seq<T>, x: T): seq<T>
  {
    if |xs| == 0 then []
    else if xs[0] == x then xs[1..]
    else [xs[0]] + RemoveFirstRef(xs[1..], x)
  }

  /** Taking out position j + 1 of a non-empty list keeps its head and takes
      out position j of its tail. */
  lemma RemoveAtTail<T>(xs: seq<T>, j: nat)
    requires j + 1 < |xs|
    ensures RemoveAt(xs, j + 1) == [xs[0]] + RemoveAt(xs[1..], j)
  {
  }

  /** The inductive step when the head differs from `x` and the tail does
      not hold `x`: nothing is removed on either side. */
  lemma AbsentFromTail<T>(xs: seq<T>, x: T)
    requires |xs| > 0 && xs[0] != x && IndexOf(xs[1..], x) == -1
    requires IndexThenRemoveAt(xs[1..], x) == RemoveFirstRef(xs[1..], x)
    ensures IndexThenRemoveAt(xs, x) == RemoveFirstRef(xs, x)
  {
  }

  /** The inductive step when the head differs from `x` and the tail holds
      `x` at position j: both sides keep the head and remove from the tail. */
  lemma PresentInTail<T>(xs: seq<T>, x: T)
    requires |xs| > 0 && xs[0] != x && IndexOf(xs[1..], x) != -1
    requires IndexThenRemoveAt(xs[1..], x) == RemoveFirstRef(xs[1..], x)
    ensures IndexThenRemoveAt(xs, x) == RemoveFirstRef(xs, x)
  {
    var j := IndexOf(xs[1..], x);
    assert IndexOf(xs, x) == j + 1;
    RemoveAtTail(xs, j);
  }

  lemma {:induction false} IndexThenRemoveAtMatchesRef<T>(xs: seq<T>, x: T)
    ensures IndexThenRemoveAt(xs, x) == RemoveFirstRef(xs, x)
  {
    if |xs| == 0 || xs[0] == x {
    } else {
      IndexThenRemoveAtMatchesRef(xs[1..], x);
      if IndexOf(xs[1..], x) == -1 {
        AbsentFromTail(xs, x);
      } else {
        PresentInTail(xs, x);
      }
    }
  }

  /** `IndexOf` followed by `RemoveAt` removes the same element as the
      front-to-back walk. */
  lemma RemoveFirstMatchesRef<T>(xs: seq<T>, x: T)
    ensures RemoveFirst(xs, x) == RemoveFirstRef(xs, x)
  {
    IndexThenRemoveAtMatchesRef(xs, x);
  }

  /** Appending an element the list did not hold and then removing it
      gives back the original list. */
  lemma AppendThenRemoveFirst<T>(xs: seq<T>, x: T)
    requires x !in xs
    ensures RemoveFirst(xs + [x], x) == xs
  {
  }
}
