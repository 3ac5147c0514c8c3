/** The list side of a drop: the indices a drop carries, and moving one
    element of a sequence to another position by remove-then-insert. */
module ListExtensions {

  /** The two indices a completed gesture reports. */
  datatype DropItemEventArgs = DropItemEventArgs(originalItemIndex: int, newItemIndex: int)

  /** Sentinel for "not found" / "no item". */
  const NotFound: int := -1

  function Min(a: int, b: int): int { if a <= b then a else b }

  function Max(a: int, b: int): int { if a <= b then b else a }

  /** Position of the first occurrence of `x` in `xs`, or NotFound. */
  function IndexOf<T(==)>(xs: seq<T>, x: T): (r: int)
    ensures r == NotFound <==> x !in xs
    ensures r != NotFound ==> 0 <= r < |xs| && xs[r] == x
    ensures forall j :: 0 <= j < r ==> xs[j] != x
  {
    if |xs| == 0 then NotFound
    else if xs[0] == x then 0
    else
      var k := IndexOf(xs[1..], x);
      if k == NotFound then NotFound else k + 1
  }

  /** The position that the element at position `i` occupies once the element
      at `from` has been moved to `to`. */
  function Destination(from: int, to: int, i: int): int
  {
    if i == from then to
    else if from < i <= to then i - 1
    else if to <= i < from then i + 1
    else i
  }

  /** Element by element, the list `IList.RemoveAt` leaves behind. */
  lemma RemoveAtFacts<T>(xs: seq<T>, index: int)
    requires 0 <= index < |xs|
    ensures var r := xs[..index] + xs[index + 1..];
      && |r| == |xs| - 1
      && (forall k :: 0 <= k < index ==> r[k] == xs[k])
      && (forall k :: index <= k < |r| ==> r[k] == xs[k + 1])
      && multiset(r) + multiset{xs[index]} == multiset(xs)
  {
    assert xs == xs[..index] + [xs[index]] + xs[index + 1..];
  }

  /** Element by element, the list `IList.Insert` produces. */
  lemma InsertAtFacts<T>(xs: seq<T>, index: int, x: T)
    requires 0 <= index <= |xs|
    ensures var r := xs[..index] + [x] + xs[index..];
      && |r| == |xs| + 1
      && r[index] == x
      && (forall k :: 0 <= k < index ==> r[k] == xs[k])
      && (forall k :: index < k < |r| ==> r[k] == xs[k - 1])
      && multiset(r) == multiset(xs) + multiset{x}
  {
    assert xs == xs[..index] + xs[index..];
  }

  /** Element by element, removing at `from` and then inserting at `to`
      puts every element at its destination. */
  lemma RemoveInsertFacts<T>(xs: seq<T>, from: int, to: int)
    requires 0 <= from < |xs| && 0 <= to < |xs|
    ensures var rest := xs[..from] + xs[from + 1..];
      var r := rest[..to] + [xs[from]] + rest[to..];
      && |r| == |xs|
      && multiset(r) == multiset(xs)
      && forall i :: 0 <= i < |xs| ==> r[Destination(from, to, i)] == xs[i]
  {
    var rest := xs[..from] + xs[from + 1..];
    RemoveAtFacts(xs, from);
    InsertAtFacts(rest, to, xs[from]);
    var r := rest[..to] + [xs[from]] + rest[to..];
    forall i | 0 <= i < |xs|
      ensures r[Destination(from, to, i)] == xs[i]
    {
      if i == from {
      } else if i < from {
        assert rest[i] == xs[i];
      } else {
        assert rest[i - 1] == xs[i];
      }
    }
  }

  /** Removes the element at `from` and inserts it again at `to`. */
  function Move<T>(xs: seq<T>, from: int, to: int): (r: seq<T>)
    requires 0 <= from < |xs| && 0 <= to < |xs|
    ensures |r| == |xs|
    ensures multiset(r) == multiset(xs)
    ensures forall i :: 0 <= i < |xs| ==> r[Destination(from, to, i)] == xs[i]
  {
    var rest := xs[..from] + xs[from + 1..];
    RemoveInsertFacts(xs, from, to);
    rest[..to] + [xs[from]] + rest[to..]
  }

  /** Moves the dragged element from its original index to its new index. */
  function Reorder<T>(xs: seq<T>, args: DropItemEventArgs): (r: seq<T>)
    requires 0 <= args.originalItemIndex < |xs|
    requires 0 <= args.newItemIndex < |xs|
    ensures |r| == |xs| && multiset(r) == multiset(xs)
    ensures r[args.newItemIndex] == xs[args.originalItemIndex]
    ensures forall i :: 0 <= i < |xs| ==>
      r[Destination(args.originalItemIndex, args.newItemIndex, i)] == xs[i]
    ensures forall k ::
              && 0 <= k < |xs|
              && (k < Min(args.originalItemIndex, args.newItemIndex) || Max(args.originalItemIndex, args.newItemIndex) < k)
              ==> r[k] == xs[k]
    ensures forall k :: args.originalItemIndex <= k < args.newItemIndex ==> r[k] == xs[k + 1]
    ensures forall k :: args.newItemIndex < k <= args.originalItemIndex ==> r[k] == xs[k - 1]
    ensures args.originalItemIndex == args.newItemIndex ==> r == xs
  {
    Move(xs, args.originalItemIndex, args.newItemIndex)
  }

  /** Moves the element at the new index back to the original index. */
  function RevertOrder<T>(xs: seq<T>, args: DropItemEventArgs): (r: seq<T>)
    requires 0 <= args.originalItemIndex < |xs|
    requires 0 <= args.newItemIndex < |xs|
    ensures |r| == |xs| && multiset(r) == multiset(xs)
    ensures r[args.originalItemIndex] == xs[args.newItemIndex]
    ensures forall i :: 0 <= i < |xs| ==>
      r[i] == xs[Destination(args.originalItemIndex, args.newItemIndex, i)]
  {
    var r := Move(xs, args.newItemIndex, args.originalItemIndex);
    assert forall i :: 0 <= i < |xs| ==>
      Destination(args.newItemIndex, args.originalItemIndex, Destination(args.originalItemIndex, args.newItemIndex, i)) == i;
    r
  }

  /** Reverting a reorder gives back the original list. */
  lemma RevertOrderUndoesReorder<T>(xs: seq<T>, args: DropItemEventArgs)
    requires 0 <= args.originalItemIndex < |xs|
    requires 0 <= args.newItemIndex < |xs|
    ensures RevertOrder(Reorder(xs, args), args) == xs
  {
  }

  /** Reordering a reverted list gives back the list. */
  lemma ReorderUndoesRevertOrder<T>(xs: seq<T>, args: DropItemEventArgs)
    requires 0 <= args.originalItemIndex < |xs|
    requires 0 <= args.newItemIndex < |xs|
    ensures Reorder(RevertOrder(xs, args), args) == xs
  {
  }
}
