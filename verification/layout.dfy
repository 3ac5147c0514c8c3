/** Per-item styling during a gesture: how far each rendered item is shifted
    and whether it is raised above its siblings. */
module Layout {
  import opened Geometry
  import opened ListExtensions
  import opened Gesture

  /** The load-bearing part of an item's style: the stacking flag and the
      vertical offset in pixels. */
  datatype ItemStyle = ItemStyle(elevated: bool, offset: real)

  /** How far an element moves when the element at `from`, of height
      `height`, is moved to `to`: one height up when the element ends at an
      earlier position, one height down when it ends later, else not at all. */
  function ShiftFor(from: int, to: int, i: int, height: real): real
  {
    var d := Destination(from, to, i);
    if d < i then -height else if i < d then height else 0.0
  }

  /** The style of the item rendered at `itemIndex`. Siblings between the
      original and the new index make room by the dragged item's height. */
  function GetItemStyle(s: GestureState, itemIndex: int): (r: ItemStyle)
    requires Valid(s)
    ensures !Active(s) ==> r == ItemStyle(false, 0.0)
    ensures r.elevated <==> Active(s) && itemIndex == s.originalItemIndex
    ensures r.elevated ==> r.offset == DeltaY(s)
    ensures Active(s) && itemIndex != s.originalItemIndex ==>
              r.offset == ShiftFor(s.originalItemIndex, NewItemIndex(s), itemIndex, s.heights[s.originalItemIndex])
  {
    if !Active(s) then
      ItemStyle(false, 0.0)
    else if itemIndex == s.originalItemIndex then
      ItemStyle(true, DeltaY(s))
    else
      var original, target := s.originalItemIndex, NewItemIndex(s);
      if original < target && original < itemIndex && target >= itemIndex then
        ItemStyle(false, -s.heights[original])
      else if original > target && original > itemIndex && target <= itemIndex then
        ItemStyle(false, s.heights[original])
      else
        ItemStyle(false, 0.0)
  }

  /** `moved` is `heights` with the element at `from` moved to `to`: each
      of its positions holds the element that the move brought there. */
  predicate IsMove(heights: seq<real>, moved: seq<real>, from: int, to: int)
  {
    && 0 <= from < |heights| && 0 <= to < |heights| && |moved| == |heights|
    && forall k {:trigger moved[k]} :: 0 <= k < |moved| ==> moved[k] == heights[Destination(to, from, k)]
  }

  /** `Reorder` performs such a move. */
  lemma ReorderIsMove(heights: seq<real>, args: DropItemEventArgs)
    requires 0 <= args.originalItemIndex < |heights| && 0 <= args.newItemIndex < |heights|
    ensures IsMove(heights, Reorder(heights, args), args.originalItemIndex, args.newItemIndex)
  {
    var moved := Reorder(heights, args);
    forall k | 0 <= k < |moved|
      ensures moved[k] == heights[Destination(args.newItemIndex, args.originalItemIndex, k)]
    {
      var i := Destination(args.newItemIndex, args.originalItemIndex, k);
      assert Destination(args.originalItemIndex, args.newItemIndex, i) == k;
    }
  }

  /** Top edges in the list after moving the element at `from` to `to`,
      expressed in the top edges before the move. */
  lemma {:induction false} TopAfterMove(heights: seq<real>, moved: seq<real>, from: nat, to: nat, k: nat)
    requires IsMove(heights, moved, from, to)
    requires k <= |heights|
    ensures k <= Min(from, to) || Max(from, to) < k ==> Top(moved, k) == Top(heights, k)
    ensures from < to && from <= k <= to ==> Top(moved, k) == Top(heights, k + 1) - heights[from]
    ensures to < from && to < k <= from ==> Top(moved, k) == Top(heights, k - 1) + heights[from]
  {
    if k > 0 {
      TopAfterMove(heights, moved, from, to, k - 1);
    }
  }

  /** Moving the element at `from` to `to` shifts the top edge of every
      other element by the moved element's height, in the direction the
      element itself moves. */
  lemma SiblingTopAfterMove(heights: seq<real>, moved: seq<real>, from: nat, to: nat, i: nat)
    requires IsMove(heights, moved, from, to)
    requires i < |heights| && i != from
    ensures 0 <= Destination(from, to, i) < |heights|
    ensures Top(heights, i) + ShiftFor(from, to, i, heights[from]) == Top(moved, Destination(from, to, i))
  {
    if from < to && from < i <= to {
      TopAfterMove(heights, moved, from, to, i - 1);
    } else if to < from && to <= i < from {
      TopAfterMove(heights, moved, from, to, i + 1);
    } else {
      TopAfterMove(heights, moved, from, to, i);
    }
  }

  /** During a gesture every sibling is drawn exactly where it will sit once
      the list is reordered with the drop the gesture would emit now: its
      unshifted top edge plus its offset is its top edge in the reordered
      list, at the position the reorder moves it to. */
  lemma SiblingPreviewMatchesDrop(s: GestureState, itemIndex: nat)
    requires Valid(s) && Active(s)
    requires itemIndex < |s.heights| && itemIndex != s.originalItemIndex
    ensures
      var args := DropItemEventArgs(s.originalItemIndex, NewItemIndex(s));
      Top(s.heights, itemIndex) + GetItemStyle(s, itemIndex).offset
      == Top(Reorder(s.heights, args), Destination(args.originalItemIndex, args.newItemIndex, itemIndex))
  {
    var original, target := s.originalItemIndex, NewItemIndex(s);
    var args := DropItemEventArgs(original, target);
    ReorderIsMove(s.heights, args);
    SiblingTopAfterMove(s.heights, Reorder(s.heights, args), original, target, itemIndex);
    assert GetItemStyle(s, itemIndex).offset == ShiftFor(original, target, itemIndex, s.heights[original]);
  }

  /** At zero displacement nothing is shifted: with non-negative heights
      the target index is the original one, so no item has an offset. */
  lemma ZeroDisplacementNoOffsets(s: GestureState, itemIndex: int)
    requires Valid(s) && NonNegative(s.heights) && DeltaY(s) == 0.0
    ensures GetItemStyle(s, itemIndex).offset == 0.0
  {
  }

  /** Right after a gesture starts nothing is shifted: with non-negative
      heights every item, the dragged one included, has offset 0. */
  lemma StartShowsNoOffsets<T>(s: GestureState, items: seq<T>, item: T, pageY: real,
                                   touchIdentifier: int, measured: seq<real>, itemIndex: int)
    requires Valid(s) && |measured| == |items| && NonNegative(measured)
    requires !Active(s)
    ensures GetItemStyle(StartDragging(s, items, item, pageY, touchIdentifier, measured), itemIndex).offset == 0.0
  {
  }
}
