/** Vertical geometry of the list: where each item sits in the unshifted
    layout, and the greedy walk that turns the pointer displacement of a
    gesture into the index the dragged item would drop at. */
module Geometry {

  /** Sentinel original index meaning "no gesture is active". */
  const NoItem: int := -1

  /** No item has a negative height. */
  predicate NonNegative(heights: seq<real>)
  {
    forall k :: 0 <= k < |heights| ==> 0.0 <= heights[k]
  }

  /** Top edge of item `k` in the unshifted layout: the total height of the
      items before it. */
  function Top(heights: seq<real>, k: nat): real
    requires k <= |heights|
  {
    if k == 0 then 0.0 else Top(heights, k - 1) + heights[k - 1]
  }

  lemma {:induction false} TopMonotone(heights: seq<real>, j: nat, k: nat)
    requires NonNegative(heights)
    requires j <= k <= |heights|
    ensures Top(heights, j) <= Top(heights, k)
    decreases k - j
  {
    if j < k {
      TopMonotone(heights, j, k - 1);
    }
  }

  /** The walk towards the end of the list, for a non-negative
      displacement: overtake the next item while the remaining displacement
      exceeds half of its height, then subtract that height. */
  function WalkForward(heights: seq<real>, index: nat, deltaY: real): (r: int)
    decreases |heights| - index
    ensures index <= r
    ensures r == index || r < |heights|
  {
    if index < |heights| - 1 && deltaY > heights[index + 1] / 2.0 then
      WalkForward(heights, index + 1, deltaY - heights[index + 1])
    else
      index
  }

  /** The walk towards the start of the list, for a negative displacement:
      the mirror image of WalkForward. */
  function WalkBackward(heights: seq<real>, index: int, deltaY: real): (r: int)
    requires index <= |heights|
    decreases index
    ensures r <= index
    ensures r == index || 0 <= r
  {
    if index > 0 && deltaY < -heights[index - 1] / 2.0 then
      WalkBackward(heights, index - 1, deltaY + heights[index - 1])
    else
      index
  }

  /** Which items the forward walk overtakes, in terms of the unshifted
      layout: item `j` is overtaken exactly when the displacement, less the
      heights of the items already overtaken, exceeds half of item `j`'s
      height; the walk stops at the first item for which that fails. */
  lemma {:induction false} WalkForwardCrossings(heights: seq<real>, index: nat, deltaY: real)
    ensures var r := WalkForward(heights, index, deltaY);
      && (forall j :: index < j <= r ==>
            deltaY - (Top(heights, j) - Top(heights, index + 1)) > heights[j] / 2.0)
      && (r + 1 < |heights| ==>
            deltaY - (Top(heights, r + 1) - Top(heights, index + 1)) <= heights[r + 1] / 2.0)
    decreases |heights| - index
  {
    if index < |heights| - 1 && deltaY > heights[index + 1] / 2.0 {
      WalkForwardCrossings(heights, index + 1, deltaY - heights[index + 1]);
    }
  }

  /** Which items the backward walk overtakes: item `j - 1` exactly when the
      displacement, plus the heights already overtaken, is below minus half
      of its height; the walk stops at the first item for which that fails. */
  lemma {:induction false} WalkBackwardCrossings(heights: seq<real>, index: int, deltaY: real)
    requires index <= |heights|
    ensures var r := WalkBackward(heights, index, deltaY);
      && (forall j :: r < j <= index ==>
            deltaY + (Top(heights, index) - Top(heights, j)) < -heights[j - 1] / 2.0)
      && (0 < r ==>
            deltaY + (Top(heights, index) - Top(heights, r)) >= -heights[r - 1] / 2.0)
    decreases index
  {
    if index > 0 && deltaY < -heights[index - 1] / 2.0 {
      WalkBackwardCrossings(heights, index - 1, deltaY + heights[index - 1]);
    }
  }

  /** The index the dragged item would occupy if released now. A negative
      displacement walks towards the start of the list, any other towards
      the end. The requires are exactly what keeps the walk's height
      lookups in range. */
  function ResolveIndex(original: int, deltaY: real, heights: seq<real>): (r: int)
    requires NoItem <= original
    requires deltaY < 0.0 ==> original <= |heights|
    ensures original == NoItem ==> r == NoItem
    ensures original != NoItem && deltaY < 0.0 ==> 0 <= r <= original
    ensures original != NoItem && 0.0 <= deltaY ==> original <= r && (r == original || r < |heights|)
    ensures 0 <= original < |heights| ==> 0 <= r < |heights|
    ensures NonNegative(heights) && deltaY == 0.0 ==> r == original
  {
    if original == NoItem then NoItem
    else if deltaY < 0.0 then WalkBackward(heights, original, deltaY)
    else WalkForward(heights, original, deltaY)
  }

  /** A larger displacement never gives a smaller target index. It follows
      from the walks' crossing conditions: the walk for the smaller
      displacement cannot cross a midpoint that the other stops before. */
  lemma ResolveIndexMonotone(original: int, d1: real, d2: real, heights: seq<real>)
    requires NoItem <= original
    requires d1 < 0.0 ==> original <= |heights|
    requires d1 <= d2
    ensures d2 < 0.0 ==> original <= |heights|
    ensures ResolveIndex(original, d1, heights) <= ResolveIndex(original, d2, heights)
  {
    if original != NoItem {
      if d2 < 0.0 {
        WalkBackwardCrossings(heights, original, d1);
        WalkBackwardCrossings(heights, original, d2);
      } else if 0.0 <= d1 {
        WalkForwardCrossings(heights, original, d1);
        WalkForwardCrossings(heights, original, d2);
      }
    }
  }

  /** Dragging past the total height of the items after the dragged one
      lands on the last index. */
  lemma ResolveIndexReachesLast(original: nat, deltaY: real, heights: seq<real>)
    requires original < |heights|
    requires NonNegative(heights)
    requires deltaY > Top(heights, |heights|) - Top(heights, original + 1)
    ensures ResolveIndex(original, deltaY, heights) == |heights| - 1
  {
    TopMonotone(heights, original + 1, |heights|);
    WalkForwardCrossings(heights, original, deltaY);
    var r := WalkForward(heights, original, deltaY);
    if r + 1 < |heights| {
      TopMonotone(heights, r + 2, |heights|);
      assert false;
    }
  }

  /** Dragging past the total height of the items before the dragged one
      lands on index 0. */
  lemma ResolveIndexReachesFirst(original: nat, deltaY: real, heights: seq<real>)
    requires original < |heights|
    requires NonNegative(heights)
    requires deltaY < -Top(heights, original)
    ensures ResolveIndex(original, deltaY, heights) == 0
  {
    TopMonotone(heights, 0, original);
    WalkBackwardCrossings(heights, original, deltaY);
    var r := WalkBackward(heights, original, deltaY);
    if 0 < r {
      TopMonotone(heights, 0, r - 1);
      assert false;
    }
  }

  /** The greedy walk as the two while loops of the component, each carrying
      the rest of the walk as its invariant. */
  method ComputeNewItemIndex(original: int, deltaY: real, heights: seq<real>) returns (index: int)
    requires NoItem <= original
    requires deltaY < 0.0 ==> original <= |heights|
    ensures index == ResolveIndex(original, deltaY, heights)
  {
    if original == NoItem {
      return NoItem;
    }
    index := original;
    var d := deltaY;
    if d < 0.0 {
      while index > 0 && d < -heights[index - 1] / 2.0
        invariant 0 <= index <= original
        invariant WalkBackward(heights, index, d) == WalkBackward(heights, original, deltaY)
        decreases index
      {
        index := index - 1;
        d := d + heights[index];
      }
    } else {
      while index < |heights| - 1 && d > heights[index + 1] / 2.0
        invariant original <= index
        invariant WalkForward(heights, index, d) == WalkForward(heights, original, deltaY)
        decreases |heights| - index
      {
        index := index + 1;
        d := d - heights[index];
      }
    }
  }
}
