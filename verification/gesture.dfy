/** The gesture state machine of the list component: one immutable record
    and a pure function per transition. The element heights, measured by the
    host when a gesture starts, are an input to StartDragging. */
module Gesture {
  import opened Wrappers
  import opened Geometry
  import opened ListExtensions

  /** Identifier a mouse gesture carries instead of a touch identifier. */
  const MouseIdentifier: int := -1

  datatype GestureState = GestureState(
    originalItemIndex: int,
    currentTouchIdentifier: int,
    startY: real,
    currentY: real,
    heights: seq<real>)

  /** The state of a freshly created list. */
  const Initial: GestureState := GestureState(NoItem, MouseIdentifier, 0.0, 0.0, [])

  predicate Active(s: GestureState)
  {
    s.originalItemIndex != NoItem
  }

  /** The dragged index is either absent or names a measured item. */
  predicate Valid(s: GestureState)
  {
    NoItem <= s.originalItemIndex < |s.heights|
  }

  /** A freshly created list has no gesture in progress. */
  lemma InitialIsIdle()
    ensures !Active(Initial) && Valid(Initial)
  {
  }

  /** Displacement of the pointer since the gesture started. */
  function DeltaY(s: GestureState): (r: real)
    ensures r == 0.0 <==> s.currentY == s.startY
    ensures r < 0.0 <==> s.currentY < s.startY
  {
    s.currentY - s.startY
  }

  /** The index the dragged item would drop at if released now. */
  function NewItemIndex(s: GestureState): (r: int)
    requires Valid(s)
    ensures !Active(s) ==> r == NoItem
    ensures Active(s) ==> 0 <= r < |s.heights|
    ensures Active(s) && DeltaY(s) < 0.0 ==> r <= s.originalItemIndex
    ensures Active(s) && 0.0 <= DeltaY(s) ==> s.originalItemIndex <= r
    ensures NonNegative(s.heights) && DeltaY(s) == 0.0 ==> r == s.originalItemIndex
  {
    ResolveIndex(s.originalItemIndex, DeltaY(s), s.heights)
  }

  /** Opens a gesture on `item`, unless one is already active. `measured`
      is what the host's height query returns for the rendered items. */
  function StartDragging<T(==)>(s: GestureState, items: seq<T>, item: T, pageY: real,
                                touchIdentifier: int, measured: seq<real>): (r: GestureState)
    ensures Active(s) ==> r == s
    ensures !Active(s) ==> (Active(r) <==> item in items)
    ensures !Active(s) && Active(r) ==>
              && 0 <= r.originalItemIndex < |items|
              && items[r.originalItemIndex] == item
              && forall j :: 0 <= j < r.originalItemIndex ==> items[j] != item
    ensures !Active(s) ==>
              && r.currentTouchIdentifier == touchIdentifier
              && r.startY == pageY
              && DeltaY(r) == 0.0
              && r.heights == measured
    ensures Valid(s) && |measured| == |items| ==> Valid(r)
  {
    if Active(s) then s
    else GestureState(IndexOf(items, item), touchIdentifier, pageY, pageY, measured)
  }

  /** One changed touch point of a touch event. */
  datatype Touch = Touch(identifier: int, pageY: real)

  /** A move or release event as the host delivers it. */
  datatype PointerEvent =
    | MouseEvent(pageY: real)
    | TouchEvent(changedTouches: seq<Touch>)

  /** At most one touch point carries `identifier`. */
  predicate UniqueTouch(touches: seq<Touch>, identifier: int)
  {
    forall i, j ::
      && 0 <= i < |touches| && 0 <= j < |touches|
      && touches[i].identifier == identifier && touches[j].identifier == identifier
      ==> i == j
  }

  /** The event has a pointer with this identifier. */
  ghost predicate Involves(ev: PointerEvent, identifier: int)
  {
    match ev
    case MouseEvent(_) => identifier == MouseIdentifier
    case TouchEvent(ts) => exists k :: 0 <= k < |ts| && ts[k].identifier == identifier
  }

  /** The event reports the pointer with this identifier at position `y`. */
  ghost predicate Carries(ev: PointerEvent, identifier: int, y: real)
  {
    match ev
    case MouseEvent(p) => identifier == MouseIdentifier && y == p
    case TouchEvent(ts) => exists k :: 0 <= k < |ts| && ts[k].identifier == identifier && ts[k].pageY == y
  }

  /** The touch point with the given identifier, if there is one. */
  function FindTouch(touches: seq<Touch>, identifier: int): (r: Option<Touch>)
    ensures r.Some? ==> r.value in touches && r.value.identifier == identifier
    ensures r.None? ==> forall k :: 0 <= k < |touches| ==> touches[k].identifier != identifier
  {
    if |touches| == 0 then None
    else if touches[0].identifier == identifier then Some(touches[0])
    else FindTouch(touches[1..], identifier)
  }

  /** Moves the pointer of the active gesture; anything else is ignored. */
  function DragTo(s: GestureState, currentY: real, touchIdentifier: int): (r: GestureState)
    ensures r == s.(currentY := r.currentY)
    ensures Active(s) && touchIdentifier == s.currentTouchIdentifier ==> r.currentY == currentY
    ensures !Active(s) || touchIdentifier != s.currentTouchIdentifier ==> r == s
  {
    if Active(s) && touchIdentifier == s.currentTouchIdentifier then s.(currentY := currentY) else s
  }

  /** A mouse move, or the touch move of the gesture's own touch point. */
  function Drag(s: GestureState, ev: PointerEvent): (r: GestureState)
    requires ev.TouchEvent? ==> UniqueTouch(ev.changedTouches, s.currentTouchIdentifier)
    ensures r == s.(currentY := r.currentY)
    ensures !Active(s) || !Involves(ev, s.currentTouchIdentifier) ==> r == s
    ensures forall y :: Active(s) && Carries(ev, s.currentTouchIdentifier, y) ==> r == s.(currentY := y)
  {
    match ev
    case MouseEvent(y) => DragTo(s, y, MouseIdentifier)
    case TouchEvent(ts) =>
      match FindTouch(ts, s.currentTouchIdentifier)
      case None => s
      case Some(t) => DragTo(s, t.pageY, t.identifier)
  }

  /** The gesture state after a release: no gesture, offsets zeroed, the
      measured heights kept. */
  function Reset(s: GestureState): (r: GestureState)
    ensures !Active(r) && Valid(r)
    ensures r.currentTouchIdentifier == MouseIdentifier && r.startY == 0.0 && r.currentY == 0.0
    ensures r.heights == s.heights
  {
    GestureState(NoItem, MouseIdentifier, 0.0, 0.0, s.heights)
  }

  /** What a release produces: the next state and the drop it emits, if any. */
  datatype StopResult = StopResult(state: GestureState, drop: Option<DropItemEventArgs>)

  /** Ends the active gesture at `currentY`, when the identifier matches. */
  function StopAt(s: GestureState, currentY: real, touchIdentifier: int): (r: StopResult)
    requires Valid(s)
    ensures r.drop.Some? <==> Active(s) && touchIdentifier == s.currentTouchIdentifier
    ensures r.drop.None? ==> r.state == s
    ensures r.drop.Some? ==> r.state == Reset(s)
    ensures r.drop.Some? ==>
              && r.drop.value.originalItemIndex == s.originalItemIndex
              && r.drop.value.newItemIndex == NewItemIndex(s.(currentY := currentY))
    ensures r.drop.Some? ==>
              && 0 <= r.drop.value.originalItemIndex < |s.heights|
              && 0 <= r.drop.value.newItemIndex < |s.heights|
  {
    if Active(s) && touchIdentifier == s.currentTouchIdentifier then
      var moved := s.(currentY := currentY);
      var args := DropItemEventArgs(moved.originalItemIndex, NewItemIndex(moved));
      StopResult(Reset(moved), Some(args))
    else
      StopResult(s, None)
  }

  /** A mouse release, or the touch end of the gesture's own touch point. */
  function StopDragging(s: GestureState, ev: PointerEvent): (r: StopResult)
    requires Valid(s)
    requires ev.TouchEvent? ==> UniqueTouch(ev.changedTouches, s.currentTouchIdentifier)
    ensures r.drop.Some? <==> Active(s) && Involves(ev, s.currentTouchIdentifier)
    ensures r.drop.None? ==> r.state == s
    ensures r.drop.Some? ==> r.state == Reset(s)
    ensures forall y :: r.drop.Some? && Carries(ev, s.currentTouchIdentifier, y) ==>
              r.drop.value == DropItemEventArgs(s.originalItemIndex, NewItemIndex(s.(currentY := y)))
  {
    match ev
    case MouseEvent(y) => StopAt(s, y, MouseIdentifier)
    case TouchEvent(ts) =>
      match FindTouch(ts, s.currentTouchIdentifier)
      case None => StopResult(s, None)
      case Some(t) => StopAt(s, t.pageY, t.identifier)
  }

  /** A whole touch gesture: start with touch `finger` at `startY`, ignore a
      move of another finger, follow a move of `finger`, release `finger` at
      `endY`. Exactly one drop is emitted, computed from the release
      position alone; it fits the list, moves the dragged item to the new
      index, and the state is idle again. */
  lemma TouchGestureDropsOnce<T>(s: GestureState, items: seq<T>, item: T, measured: seq<real>,
                                 finger: int, other: int, startY: real, moveY: real, endY: real)
    requires Valid(s) && !Active(s)
    requires |measured| == |items| && item in items
    requires other != finger
    ensures
      var original := IndexOf(items, item);
      var started := StartDragging(s, items, item, startY, finger, measured);
      var ignored := Drag(started, TouchEvent([Touch(other, moveY)]));
      var moved := Drag(ignored, TouchEvent([Touch(other, startY), Touch(finger, moveY)]));
      var stopped := StopDragging(moved, TouchEvent([Touch(finger, endY)]));
      && ignored == started
      && moved.currentY == moveY
      && stopped.drop == Some(DropItemEventArgs(original, ResolveIndex(original, endY - startY, measured)))
      && stopped.state == Reset(started)
      && Reorder(items, stopped.drop.value)[stopped.drop.value.newItemIndex] == item
  {
    assert Carries(TouchEvent([Touch(other, startY), Touch(finger, moveY)]), finger, moveY) by {
      assert [Touch(other, startY), Touch(finger, moveY)][1] == Touch(finger, moveY);
    }
    assert Carries(TouchEvent([Touch(finger, endY)]), finger, endY) by {
      assert [Touch(finger, endY)][0] == Touch(finger, endY);
    }
  }
}
