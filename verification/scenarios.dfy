/** Concrete cases of the index walk and of the list reorder. */
module Scenarios {
  import opened Geometry
  import opened ListExtensions

  const SixHeights: seq<real> := [30.0, 50.0, 70.0, 30.0, 50.0, 70.0]

  /** Dragging the third of six items of heights 30, 50, 70, 30, 50, 70:
      each displacement crosses the midpoints it should. */
  lemma SixItemWalks()
    ensures ResolveIndex(2, -26.0, SixHeights) == 1
    ensures ResolveIndex(2, -66.0, SixHeights) == 0
    ensures ResolveIndex(2, 16.0, SixHeights) == 3
    ensures ResolveIndex(2, 56.0, SixHeights) == 4
  {
  }

  /** Four items of height 100, the second dragged by 240: the walk crosses
      the midpoints of both following items and stops at the last index. */
  lemma FourEqualItemsWalk()
    ensures ResolveIndex(1, 240.0, [100.0, 100.0, 100.0, 100.0]) == 3
  {
  }

  /** Moving "Bar" from index 1 to index 3 of five names. */
  lemma ReorderFiveNames()
    ensures Reorder(["Foo", "Bar", "Baz", "Qux", "Quux"], DropItemEventArgs(1, 3))
            == ["Foo", "Baz", "Qux", "Bar", "Quux"]
  {
  }
}
