# Drag-and-drop list reordering, modelled in Dafny

This project models the reordering logic of `DragAndDropList<TItem>`, a Blazor
list component. A user picks up an item with the mouse or a finger, moves it,
and releases it. The component then reports an `(OriginalItemIndex, NewItemIndex)`
pair, and the caller applies it to its list with `ListExtensions.Reorder`.

The model has three parts. Each is pure and sequential.

- **Gesture state machine** (`gesture.dfy`, module `Gesture`). The state is the
  immutable record `GestureState`. It holds `originalItemIndex` (-1 when no
  gesture is active), `currentTouchIdentifier` (-1 for a mouse), `startY`,
  `currentY` and the measured `heights`. `StartDragging`, `Drag` and
  `StopDragging` are functions from state to state. `StopDragging` also returns
  the `DropItemEventArgs` it emits, if any. Mouse and touch events form one sum
  type, `PointerEvent`. A touch event carries its changed touch points.
- **Index resolution** (`geometry.dfy`, module `Geometry`). `ResolveIndex` is
  the greedy walk of `NewItemIndex`. It is written as two recursive walks and
  also as the component's two `while` loops (`ComputeNewItemIndex`). Both are
  proved to compute the same result. `Top(heights, k)` is the top edge of item
  `k` in the unshifted layout. The walks' contracts use it to say which
  midpoints the displacement has crossed.
- **Layout offsets and list reorder** (`layout.dfy`, `list_extensions.dfy`).
  `GetItemStyle` returns each item's vertical offset and whether it is raised
  above the others. `Reorder` and `RevertOrder` both remove an element and
  insert it again (`Move`). `Destination` says where each element ends up.
  Layout and list are tied together by `SiblingPreviewMatchesDrop`: during a
  gesture, every sibling is drawn exactly where it will sit once the list is
  reordered with the drop the gesture would emit at that moment.

Positions and heights are exact `real`s. The source only adds, subtracts, halves
and compares them. The heights that the host measures from the DOM are an
argument of `StartDragging`.

Behaviour of the code that a reader might not expect, which the model follows:

- Four items of height 100, with the second dragged by 240, resolve to index 3,
  because the displacement crosses both following midpoints
  (`Scenarios.FourEqualItemsWalk`).
- With an empty height list, a negative displacement and a dragged index above 0,
  line 38 of DragAndDropList.cs indexes out of range, so `ResolveIndex` requires
  `original <= |heights|` when the displacement is negative.
- A drop carries only the two indices; the caller reorders with `Reorder`.
- Starting on an item not in `Items` leaves the index at -1 but still records
  the identifier, start position and heights. `StartDragging` models this.

## Model

| member | source | states |
|---|---|---|
| `ListExtensions.IndexOf` | src/VDT.Core.Blazor.DragAndDropList/DragAndDropList.cs:119 | returns -1 exactly when the item is absent; otherwise an in-range index holding the item, with no earlier occurrence |
| `ListExtensions.RemoveAtFacts` | src/VDT.Core.Blazor.DragAndDropList/ListExtensions.cs:18 | removing position `index` shortens the list by one, keeps the elements before it, shifts those after it down by one, and drops exactly one copy of the removed element |
| `ListExtensions.InsertAtFacts` | src/VDT.Core.Blazor.DragAndDropList/ListExtensions.cs:19 | inserting at `index` lengthens the list by one, puts the element at `index`, keeps the elements before it, shifts the rest up by one, and adds exactly one copy of the element |
| `ListExtensions.RemoveInsertFacts` | src/VDT.Core.Blazor.DragAndDropList/ListExtensions.cs:17-19 | removing at `from` and then inserting that element at `to` keeps length and multiset, and puts every element `i` at `Destination(from, to, i)` |
| `ListExtensions.Move` | src/VDT.Core.Blazor.DragAndDropList/ListExtensions.cs:17-19 | remove-then-insert keeps length and multiset; every element `i` ends up at `Destination(from, to, i)` |
| `ListExtensions.Reorder` | src/VDT.Core.Blazor.DragAndDropList/ListExtensions.cs:15-20 | requires both indices in range; the result is a permutation; the dragged element is at the new index; elements outside the moved range stay put; elements inside shift one place toward the original index; equal indices give the identity |
| `ListExtensions.RevertOrder` | src/VDT.Core.Blazor.DragAndDropList/ListExtensions.cs:28-33 | requires both indices in range; a permutation; every position `i` takes back the element that `Reorder` put at `Destination(orig, new, i)` |
| `ListExtensions.RevertOrderUndoesReorder` | src/VDT.Core.Blazor.DragAndDropList/ListExtensions.cs:15-33 | `RevertOrder(Reorder(xs, a), a) == xs` for in-range indices |
| `ListExtensions.ReorderUndoesRevertOrder` | src/VDT.Core.Blazor.DragAndDropList/ListExtensions.cs:15-33 | `Reorder(RevertOrder(xs, a), a) == xs` for in-range indices |
| `Geometry.WalkForward` | src/VDT.Core.Blazor.DragAndDropList/DragAndDropList.cs:42-46 | the forward walk terminates, never moves back, and stays in range once it moves |
| `Geometry.WalkBackward` | src/VDT.Core.Blazor.DragAndDropList/DragAndDropList.cs:37-41 | the backward walk terminates, never moves forward, and never goes below 0 once it moves |
| `Geometry.WalkForwardCrossings` | src/VDT.Core.Blazor.DragAndDropList/DragAndDropList.cs:43-44 | in terms of the unshifted layout: the forward walk overtakes item `j` exactly while the displacement, less the heights already overtaken, exceeds half of item `j`'s height; it stops at the first item where that fails, or at the last index |
| `Geometry.WalkBackwardCrossings` | src/VDT.Core.Blazor.DragAndDropList/DragAndDropList.cs:38-39 | the mirror image: the backward walk overtakes item `j - 1` exactly while the displacement, plus the heights already overtaken, is below minus half of its height; it stops at the first item where that fails, or at index 0 |
| `Geometry.ResolveIndex` | src/VDT.Core.Blazor.DragAndDropList/DragAndDropList.cs:28-50 | -1 with no gesture; a negative displacement gives an index in `[0, original]`; any other gives one at or after `original`; an in-range original gives an in-range result; zero displacement with non-negative heights gives `original` |
| `Geometry.ResolveIndexMonotone` | src/VDT.Core.Blazor.DragAndDropList/DragAndDropList.cs:37-46 | a larger displacement never gives a smaller target index, for a fixed original index and heights |
| `Geometry.ResolveIndexReachesLast` | src/VDT.Core.Blazor.DragAndDropList/DragAndDropList.cs:42-46 | with non-negative heights, a displacement beyond the total height of the following items lands on the last index |
| `Geometry.ResolveIndexReachesFirst` | src/VDT.Core.Blazor.DragAndDropList/DragAndDropList.cs:37-41 | with non-negative heights, a displacement below minus the total height of the preceding items lands on index 0 |
| `Geometry.ComputeNewItemIndex` | src/VDT.Core.Blazor.DragAndDropList/DragAndDropList.cs:28-50 | the two `while` loops compute the same index as the recursive walk |
| `Gesture.InitialIsIdle` | src/VDT.Core.Blazor.DragAndDropList/DragAndDropList.cs:22-27 | a freshly created list has no gesture in progress and is valid |
| `Gesture.DeltaY` | src/VDT.Core.Blazor.DragAndDropList/DragAndDropList.cs:24 | the displacement is zero exactly when the pointer is back at its start, and negative exactly when it is above its start |
| `Gesture.NewItemIndex` | src/VDT.Core.Blazor.DragAndDropList/DragAndDropList.cs:28-50 | for a valid state: -1 when idle; in range when active; follows the sign of the displacement; the original index at zero displacement with non-negative heights |
| `Gesture.StartDragging` | src/VDT.Core.Blazor.DragAndDropList/DragAndDropList.cs:117-125 | does nothing while a gesture is active; otherwise the gesture is active exactly when the item is in the list, at its first occurrence; records the identifier, start position and heights, with zero displacement; keeps the state valid when the heights match the items |
| `Gesture.FindTouch` | src/VDT.Core.Blazor.DragAndDropList/DragAndDropList.cs:130 | returns a touch point with the wanted identifier, or nothing exactly when no touch point has it |
| `Gesture.DragTo` | src/VDT.Core.Blazor.DragAndDropList/DragAndDropList.cs:137-141 | changes only `currentY`, and only for an active gesture with a matching identifier |
| `Gesture.Drag` | src/VDT.Core.Blazor.DragAndDropList/DragAndDropList.cs:127-135 | changes only `currentY`; no change without an active gesture or without the gesture's pointer in the event; otherwise `currentY` becomes the position the event reports for that pointer |
| `Gesture.Reset` | src/VDT.Core.Blazor.DragAndDropList/DragAndDropList.cs:162-165 | the state after a drop is idle and valid, with identifier -1, zero positions and the heights unchanged |
| `Gesture.StopAt` | src/VDT.Core.Blazor.DragAndDropList/DragAndDropList.cs:153-169 | emits a drop exactly for an active gesture with a matching identifier; otherwise nothing changes; a drop carries the original index and the index for the release position, both in range, and the state is reset |
| `Gesture.StopDragging` | src/VDT.Core.Blazor.DragAndDropList/DragAndDropList.cs:143-151 | emits a drop exactly when a gesture is active and its pointer is in the event; without a drop the state is unchanged; with one the state is reset and the drop is computed from the position the event reports |
| `Gesture.TouchGestureDropsOnce` | src/VDT.Core.Blazor.DragAndDropList/DragAndDropList.cs:117-169 | a full touch gesture ignores another finger, follows its own, emits exactly one drop computed from the release position, moves the dragged item to the new index, and ends idle |
| `Layout.GetItemStyle` | src/VDT.Core.Blazor.DragAndDropList/DragAndDropList.cs:171-193 | idle: offset 0, not raised; raised exactly for the dragged item, whose offset is the displacement; a sibling moves up by the dragged item's height when the drop moves it to an earlier position, down when it moves it later, else not at all |
| `Layout.ReorderIsMove` | src/VDT.Core.Blazor.DragAndDropList/ListExtensions.cs:17-19 | every position of the reordered heights holds the height that the move brought there |
| `Layout.TopAfterMove` | src/VDT.Core.Blazor.DragAndDropList/ListExtensions.cs:17-19 | top edges after a move: unchanged outside the moved range, shifted by the moved element's height inside it |
| `Layout.SiblingTopAfterMove` | src/VDT.Core.Blazor.DragAndDropList/DragAndDropList.cs:184-190 | an element other than the moved one: its unshifted top edge plus its shift (one moved-element height up, down or none) is its top edge after the move |
| `Layout.SiblingPreviewMatchesDrop` | src/VDT.Core.Blazor.DragAndDropList/DragAndDropList.cs:182-190 | during a gesture every sibling is drawn at its top edge in the list that `Reorder` would give for the current drop, and that list holds the sibling there |
| `Layout.ZeroDisplacementNoOffsets` | src/VDT.Core.Blazor.DragAndDropList/DragAndDropList.cs:171-193 | in any valid state at zero displacement with non-negative heights, every item has offset 0 |
| `Layout.StartShowsNoOffsets` | src/VDT.Core.Blazor.DragAndDropList/DragAndDropList.cs:117-125 | right after a gesture starts on non-negative heights, every item has offset 0 |
| `Scenarios.SixItemWalks` | src/VDT.Core.Blazor.DragAndDropList/DragAndDropList.cs:37-46 | heights 30, 50, 70, 30, 50, 70 with item 2 dragged: -26 gives 1, -66 gives 0, 16 gives 3, 56 gives 4 |
| `Scenarios.FourEqualItemsWalk` | src/VDT.Core.Blazor.DragAndDropList/DragAndDropList.cs:42-46 | four items of height 100 with item 1 dragged by 240 gives 3 |
| `Scenarios.ReorderFiveNames` | src/VDT.Core.Blazor.DragAndDropList.Tests/ListExtensionsTests.cs:9-13 | moving index 1 to index 3 of Foo, Bar, Baz, Qux, Quux gives Foo, Baz, Qux, Bar, Quux |

## Left out

- JavaScript interop is not modelled: the module import in `OnAfterRenderAsync`, `ModuleReference`, its "only available after render" exception, the `getElementHeights` call, `DisposeAsync` and both `wwwroot` scripts. The measured heights are an argument of `StartDragging`.
- Rendering is not modelled: `BuildRenderTree`, `KeySelector`/`SetKey`, the `GlobalEventHandler` wiring and the CSS strings of `GetItemStyle`. `ItemStyle` keeps only the numeric offset and the raised flag. That flag is the `z-index` branch. It agrees with the active class at line 97 for every rendered index.
- Asynchrony is not modelled. The awaits in `StartDragging` and `OnDropItem.InvokeAsync` are treated as atomic: a start receives its heights at once, and the drop callback is the emitted value. Reset and emission happen in one transition.
- `double` arithmetic is not modelled. Positions and heights are exact reals, so rounding is not represented.
- Touch identifiers are `long` in the source and unbounded integers here. They are only compared, never computed with.
- `Gesture.Drag` and `Gesture.StopDragging` require that at most one changed touch point carries the gesture's identifier. This replaces the exception `SingleOrDefault` throws on duplicates (lines 130 and 146).
- `Gesture.NewItemIndex`, `Gesture.StopAt`, `Gesture.StopDragging` and `Layout.GetItemStyle` require a valid state: the dragged index is -1 or names a measured item. They do not model a list mutated mid-gesture, which desynchronises `Items` from `Heights`.
- `ItemContext` and `DragItemEventArgs` hold data only and are not modelled. `DropItemEventArgs` is modelled as its two indices. It is declared generic but used non-generically.
- `ListExtensions.Reorder` and `ListExtensions.RevertOrder` require both indices in range: the out-of-range indices on which `IList` indexing, `RemoveAt` and `Insert` throw (ListExtensions.cs lines 17-19 and 30-32) are not modelled. They also return a new sequence instead of changing the caller's list in place.
