/** Dragging nodes: which nodes a drag moves, the extent a dragged node
    is confined to, and the position it moves to. */
module Drag {
  import opened Common
  import opened Elements
  import opened GraphGeometry
  import opened GraphQueries

  /** `getExtentPadding(padding)`: `[top, right, bottom, left]`, written
      out CSS-style from one to four numbers. */
  function GetExtentPadding(padding: Padding): (r: seq<real>)
    ensures |r| == 4
    ensures padding.Scalar? ==> r == [padding.v, padding.v, padding.v, padding.v]
    ensures padding.Values? ==> var p := padding.vs;
      && (|p| == 1 ==> r == [p[0], p[0], p[0], p[0]])
      && (|p| == 2 ==> r == [p[0], p[1], p[0], p[1]])
      && (|p| == 3 ==> r == [p[0], p[1], p[2], p[1]])
      && (|p| == 4 ==> r == p)
      && (|p| !in {1, 2, 3, 4} ==> r == [0.0, 0.0, 0.0, 0.0])
  {
    match padding
    case Scalar(v) => [v, v, v, v]
    case Values(p) =>
      if |p| == 1 then [p[0], p[0], p[0], p[0]]
      else if |p| == 2 then [p[0], p[1], p[0], p[1]]
      else if |p| == 3 then [p[0], p[1], p[2], p[1]]
      else if |p| == 4 then p
      else [0.0, 0.0, 0.0, 0.0]
  }

  /** A single number and a list of that one number pad alike. */
  lemma PaddingScalarIsSingleton(v: real)
    ensures GetExtentPadding(Scalar(v)) == GetExtentPadding(Values([v]))
  {
  }

  /** The extent is the string `'parent'` or `{ range: 'parent', ... }`. */
  predicate IsParentExtent(e: NodeExtent) {
    e.Parent? || (e.RangeExtent? && e.range.RangeParent?)
  }

  /** `parent?.computedPosition.x || 0` and the same for `y`. */
  function ParentOffset(parent: Option<Node>): (r: Point)
    ensures parent.None? || parent.value.computedPosition.None? ==> r == Point(0.0, 0.0)
    ensures parent.Some? && parent.value.computedPosition.Some? ==>
      r == Point(parent.value.computedPosition.value.x, parent.value.computedPosition.value.y)
  {
    if parent.Some? && parent.value.computedPosition.Some? then
      Point(parent.value.computedPosition.value.x, parent.value.computedPosition.value.y)
    else Point(0.0, 0.0)
  }

  /** A bound shifted by `d`; an infinite bound stays infinite. */
  function Shift(b: Option<real>, d: real): (r: Option<real>)
    ensures r.Some? <==> b.Some?
    ensures b.Some? ==> r.value == b.value + d
  {
    if b.Some? then Some(b.value + d) else None
  }

  /** `getParentExtent(currentExtent, node, parent)`: the parent's box,
      shrunk by the padding of an extent object; `None` (the JavaScript
      `false`) when the parent's position or size is not known. */
  function GetParentExtent(currentExtent: NodeExtent, parent: Option<Node>): (r: Option<CoordinateExtent>)
    ensures r.Some? <==>
      && parent.Some? && parent.value.computedPosition.Some?
      && parent.value.dimensions.width.Some? && parent.value.dimensions.height.Some?
    ensures r.Some? ==> var p := parent.value; var pos := p.computedPosition.value;
      var pad := if currentExtent.RangeExtent? then GetExtentPadding(currentExtent.padding) else [0.0, 0.0, 0.0, 0.0];
      r.value == CoordinateExtent(Some(pos.x + pad[3]), Some(pos.y + pad[0]),
                                  Some(pos.x + p.dimensions.width.value - pad[1]),
                                  Some(pos.y + p.dimensions.height.value - pad[2]))
  {
    var pad := if currentExtent.RangeExtent? then GetExtentPadding(currentExtent.padding) else [0.0, 0.0, 0.0, 0.0];
    var top, right, bottom, left := pad[0], pad[1], pad[2], pad[3];
    if parent.Some? && parent.value.computedPosition.Some?
       && parent.value.dimensions.width.Some? && parent.value.dimensions.height.Some? then
      var pos := parent.value.computedPosition.value;
      var dims := parent.value.dimensions;
      Some(CoordinateExtent(Some(pos.x + left), Some(pos.y + top),
                            Some(pos.x + dims.width.value - right), Some(pos.y + dims.height.value - bottom)))
    else None
  }

  /** What `getExtent` returns: a coordinate extent, or an extent object
      `{ range: 'parent' }` it did not convert. */
  datatype ExtentResult = Confined(coords: CoordinateExtent) | Unconverted(extent: NodeExtent)

  datatype ExtentOutcome = ExtentOutcome(result: ExtentResult, error: Option<Error>)

  /** The fields of a drag item or node that `getExtent` reads. */
  datatype ExtentItem = ExtentItem(id: string, extent: Option<NodeExtent>, expandParent: Option<bool>,
                                   parentNode: Option<string>, dimensions: Dimensions)

  /** `getExtent(item, triggerError, extent, parent)`. A parent extent is
      resolved against a measured parent (or, without a parent or own
      size, replaced by the global extent with `NODE_EXTENT_INVALID`); an
      array extent and an extent object with an array range are shifted
      by the parent's position, the range also padded; `'parent'` left
      over becomes the unbounded box. */
  function GetExtent(item: ExtentItem, extent: CoordinateExtent, parent: Option<Node>): (r: ExtentOutcome)
    ensures r.error.Some? <==>
      item.extent.Some? && IsParentExtent(item.extent.value) && !IsTrue(item.expandParent) &&
      !(Truthy(item.parentNode) && parent.Some? && NonZero(item.dimensions.width) && NonZero(item.dimensions.height))
    ensures r.error.Some? ==> r == ExtentOutcome(Confined(extent), Some(Error(NodeExtentInvalid, Some(item.id), [])))
    ensures item.extent.None? ==> r == ExtentOutcome(Confined(Translate(extent, ParentOffset(parent))), None)
    ensures item.extent.Some? && item.extent.value.Coords? ==>
      r == ExtentOutcome(Confined(Translate(item.extent.value.coords, ParentOffset(parent))), None)
    ensures item.extent == Some(Parent) && IsTrue(item.expandParent) ==> r == ExtentOutcome(Confined(Unbounded), None)
  {
    var current := if item.extent.Some? then item.extent.value else Coords(extent);
    if IsParentExtent(current) && !IsTrue(item.expandParent) then
      if Truthy(item.parentNode) && parent.Some? && NonZero(item.dimensions.width) && NonZero(item.dimensions.height) then
        var parentExtent := GetParentExtent(current, parent);
        var next := if parentExtent.Some? then Coords(parentExtent.value) else current;
        ExtentOutcome(Final(next), None)
      else
        ExtentOutcome(Final(Coords(extent)), Some(Error(NodeExtentInvalid, Some(item.id), [])))
    else if current.Coords? then
      ExtentOutcome(Final(Coords(Translate(current.coords, ParentOffset(parent)))), None)
    else if current.RangeExtent? && current.range.RangeCoords? then
      var pad := GetExtentPadding(current.padding);
      var offset := ParentOffset(parent);
      var c := current.range.coords;
      ExtentOutcome(Final(Coords(CoordinateExtent(Shift(c.x1, offset.x + pad[3]), Shift(c.y1, offset.y + pad[0]),
                                                  Shift(c.x2, offset.x - pad[1]), Shift(c.y2, offset.y - pad[2])))), None)
    else
      ExtentOutcome(Final(current), None)
  }

  /** Both corners moved by a point. */
  function Translate(e: CoordinateExtent, offset: Point): (r: CoordinateExtent)
    ensures WellFormed(e) ==> WellFormed(r)
  {
    CoordinateExtent(Shift(e.x1, offset.x), Shift(e.y1, offset.y), Shift(e.x2, offset.x), Shift(e.y2, offset.y))
  }

  /** The final `currentExtent === 'parent' ? [[-∞, -∞], [∞, ∞]] :
      currentExtent`. */
  function Final(current: NodeExtent): (r: ExtentResult)
    ensures current.Parent? ==> r == Confined(Unbounded)
    ensures current.Coords? ==> r == Confined(current.coords)
    ensures current.RangeExtent? ==> r == Unconverted(current)
  {
    match current
    case Parent => Confined(Unbounded)
    case Coords(c) => Confined(c)
    case RangeExtent(_, _) => Unconverted(current)
  }

  /** A measured parent confines a node with extent `'parent'` to the
      parent's box. */
  lemma ParentExtentIsParentBox(item: ExtentItem, extent: CoordinateExtent, parent: Node)
    requires item.extent == Some(Parent) && !IsTrue(item.expandParent)
    requires Truthy(item.parentNode) && NonZero(item.dimensions.width) && NonZero(item.dimensions.height)
    requires parent.computedPosition.Some? && parent.dimensions.width.Some? && parent.dimensions.height.Some?
    ensures var pos := parent.computedPosition.value;
      GetExtent(item, extent, Some(parent)) == ExtentOutcome(Confined(CoordinateExtent(
        Some(pos.x), Some(pos.y), Some(pos.x + parent.dimensions.width.value), Some(pos.y + parent.dimensions.height.value))), None)
  {
  }

  /** `clampNodeExtent({ width, height }, extent)`: the upper corner moved
      in by the node's size, an unknown side counting as 0. */
  function ClampNodeExtent(dimensions: Dimensions, extent: CoordinateExtent): (r: CoordinateExtent)
    ensures r.x1 == extent.x1 && r.y1 == extent.y1
    ensures r.x2 == Shift(extent.x2, -dimensions.width.GetOr(0.0))
    ensures r.y2 == Shift(extent.y2, -dimensions.height.GetOr(0.0))
  {
    extent.(x2 := Shift(extent.x2, -dimensions.width.GetOr(0.0)),
            y2 := Shift(extent.y2, -dimensions.height.GetOr(0.0)))
  }

  /** `{ position, computedPosition }`. */
  datatype NextPosition = NextPosition(position: Point, computedPosition: Point)

  /** What `calcNextPosition` gives: the new position, or `None` when
      `clampNodeExtent` reads the corners of an unconverted extent object
      and throws; and the error `getExtent` reported. */
  datatype CalcOutcome = CalcOutcome(next: Option<NextPosition>, error: Option<Error>)

  /** `calcNextPosition(node, nextPosition, triggerError, nodeExtent,
      parentNode)`: the next position clamped into the extent reduced by
      the node's size, and the same relative to the parent. */
  function CalcNextPosition(item: ExtentItem, nextPosition: Point, nodeExtent: CoordinateExtent,
                            parentNode: Option<Node>): (r: CalcOutcome)
    ensures r.error == GetExtent(item, nodeExtent, parentNode).error
    ensures r.next.None? <==> GetExtent(item, nodeExtent, parentNode).result.Unconverted?
    ensures r.next.Some? ==> var e := ClampNodeExtent(item.dimensions, GetExtent(item, nodeExtent, parentNode).result.coords);
      && r.next.value.computedPosition == ClampPosition(nextPosition, e)
      && (WellFormed(e) ==> InExtent(r.next.value.computedPosition, e))
      && var offset := ParentOffset(parentNode);
         r.next.value.position == Point(r.next.value.computedPosition.x - offset.x, r.next.value.computedPosition.y - offset.y)
  {
    var extent := GetExtent(item, nodeExtent, parentNode);
    match extent.result
    case Unconverted(_) => CalcOutcome(None, extent.error)
    case Confined(coords) =>
      var clampedPos := ClampPosition(nextPosition, ClampNodeExtent(item.dimensions, coords));
      var offset := ParentOffset(parentNode);
      CalcOutcome(Some(NextPosition(Point(clampedPos.x - offset.x, clampedPos.y - offset.y), clampedPos)), extent.error)
  }

  /** A next position already inside the reduced extent is kept. */
  lemma CalcNextPositionKeepsInside(item: ExtentItem, nextPosition: Point, nodeExtent: CoordinateExtent, parentNode: Option<Node>)
    requires GetExtent(item, nodeExtent, parentNode).result.Confined?
    requires InExtent(nextPosition, ClampNodeExtent(item.dimensions, GetExtent(item, nodeExtent, parentNode).result.coords))
    ensures CalcNextPosition(item, nextPosition, nodeExtent, parentNode).next.value.computedPosition == nextPosition
  {
  }

  /** A node with extent `{ range: 'parent' }` that expands its parent is
      not confined: `getExtent` hands back the object itself, and
      `calcNextPosition` throws. */
  lemma RangeParentUnconverted(item: ExtentItem, nodeExtent: CoordinateExtent, parentNode: Option<Node>, padding: Padding)
    requires item.extent == Some(RangeExtent(RangeParent, padding)) && IsTrue(item.expandParent)
    ensures GetExtent(item, nodeExtent, parentNode).result == Unconverted(RangeExtent(RangeParent, padding))
    ensures CalcNextPosition(item, Point(0.0, 0.0), nodeExtent, parentNode).next.None?
  {
  }

  /** `getExtent` as evidently intended: an extent still naming the
      parent, string or object, becomes the unbounded box. */
  function GetExtentIntended(item: ExtentItem, extent: CoordinateExtent, parent: Option<Node>): (r: CoordinateExtent)
  {
    match GetExtent(item, extent, parent).result
    case Confined(c) => c
    case Unconverted(_) => Unbounded
  }

  /** With the intended extent, a drag always yields a position, inside
      the reduced extent whenever that is well formed, and the extent
      object `{ range: 'parent' }` behaves as `'parent'` does. */
  lemma GetExtentIntendedConfines(item: ExtentItem, nextPosition: Point, extent: CoordinateExtent, parent: Option<Node>,
                                  padding: Padding)
    ensures var e := ClampNodeExtent(item.dimensions, GetExtentIntended(item, extent, parent));
      WellFormed(e) ==> InExtent(ClampPosition(nextPosition, e), e)
    ensures item.extent == Some(RangeExtent(RangeParent, padding)) && IsTrue(item.expandParent) ==>
      GetExtentIntended(item, extent, parent) == GetExtentIntended(item.(extent := Some(Parent)), extent, parent)
  {
  }

  /** A node about to be dragged, with what the drag needs of it. */
  datatype DragItem = DragItem(id: string, position: Point, distance: Point, from: Option<XYZ>,
                               extent: Option<NodeExtent>, parentNode: Option<string>,
                               dimensions: Dimensions, expandParent: Option<bool>)

  /** The three conditions of `getDragItems`: selected or the grabbed
      node, no selected ancestor, and draggable explicitly or by
      default. */
  predicate IsDragged(node: Node, nodesDraggable: bool, findNode: string -> Option<Node>, nodeId: Option<string>, fuel: nat)
    ensures (Truthy(node.parentNode) && findNode(node.parentNode.value).Some?
             && IsTrue(findNode(node.parentNode.value).value.selected))
            ==> !IsDragged(node, nodesDraggable, findNode, nodeId, fuel)
    ensures !Truthy(node.parentNode) ==>
      (IsDragged(node, nodesDraggable, findNode, nodeId, fuel) <==>
         (IsTrue(node.selected) || Some(node.id) == nodeId)
         && (IsTrue(node.draggable) || (nodesDraggable && node.draggable.None?)))
  {
    && (IsTrue(node.selected) || Some(node.id) == nodeId)
    && (!Truthy(node.parentNode) || !IsParentSelected(node, findNode, fuel))
    && (IsTrue(node.draggable) || (nodesDraggable && node.draggable.None?))
  }

  /** The drag item; `mousePos.x - node.computedPosition?.x || 0` is 0
      without a computed position. */
  function ToDragItem(node: Node, mousePos: Point): (r: DragItem)
    ensures r.id == node.id && r.from == node.computedPosition
    ensures node.computedPosition.None? ==> r.distance == Point(0.0, 0.0)
    ensures node.computedPosition.Some? ==>
      r.distance == Point(mousePos.x - node.computedPosition.value.x, mousePos.y - node.computedPosition.value.y)
  {
    var distance := if node.computedPosition.Some? then
      Point(mousePos.x - node.computedPosition.value.x, mousePos.y - node.computedPosition.value.y)
    else Point(0.0, 0.0);
    DragItem(node.id, node.position, distance, node.computedPosition, node.extent, node.parentNode,
             node.dimensions, node.expandParent)
  }

  /** `getDragItems` by its definition. */
  function DragItems(nodes: seq<Node>, nodesDraggable: bool, mousePos: Point, findNode: string -> Option<Node>,
                     nodeId: Option<string>, fuel: nat): seq<DragItem>
    decreases |nodes|
  {
    if nodes == [] then []
    else
      var node := nodes[|nodes| - 1];
      DragItems(nodes[..|nodes| - 1], nodesDraggable, mousePos, findNode, nodeId, fuel) +
      (if IsDragged(node, nodesDraggable, findNode, nodeId, fuel) then [ToDragItem(node, mousePos)] else [])
  }

  /** `getDragItems(nodes, nodesDraggable, mousePos, findNode, nodeId)`;
      `fuel` bounds the climb through `isParentSelected`. */
  method GetDragItems(nodes: seq<Node>, nodesDraggable: bool, mousePos: Point, findNode: string -> Option<Node>,
                      nodeId: Option<string>, fuel: nat) returns (dragItems: seq<DragItem>)
    ensures dragItems == DragItems(nodes, nodesDraggable, mousePos, findNode, nodeId, fuel)
  {
    dragItems := [];
    for i := 0 to |nodes|
      invariant dragItems == DragItems(nodes[..i], nodesDraggable, mousePos, findNode, nodeId, fuel)
    {
      assert nodes[..i + 1][..i] == nodes[..i];
      var node := nodes[i];
      if IsDragged(node, nodesDraggable, findNode, nodeId, fuel) {
        dragItems := dragItems + [ToDragItem(node, mousePos)];
      }
    }
    assert nodes[..|nodes|] == nodes;
  }

  /** `isParentSelected` within the climb is "some ancestor is
      selected", so a node is dragged exactly when it is selected or
      grabbed, no ancestor within reach is selected, and it may be
      dragged. */
  lemma IsDraggedMeans(node: Node, nodesDraggable: bool, findNode: string -> Option<Node>, nodeId: Option<string>, fuel: nat)
    ensures IsDragged(node, nodesDraggable, findNode, nodeId, fuel) <==>
      && (IsTrue(node.selected) || Some(node.id) == nodeId)
      && (!Truthy(node.parentNode) || !exists k :: 1 <= k <= fuel + 1 && SelectedAncestor(node, findNode, k))
      && (IsTrue(node.draggable) || (nodesDraggable && node.draggable.None?))
  {
    IsParentSelectedAncestor(node, findNode, fuel);
  }

  /** The item comes from a node that meets the conditions. */
  ghost predicate DraggedFrom(nodes: seq<Node>, nodesDraggable: bool, mousePos: Point, findNode: string -> Option<Node>,
                              nodeId: Option<string>, fuel: nat, item: DragItem) {
    exists i :: 0 <= i < |nodes| && IsDragged(nodes[i], nodesDraggable, findNode, nodeId, fuel)
      && item == ToDragItem(nodes[i], mousePos)
  }

  /** Every drag item is the item of a node that meets the conditions. */
  lemma {:induction false} DragItemsSound(nodes: seq<Node>, nodesDraggable: bool, mousePos: Point,
                                         findNode: string -> Option<Node>, nodeId: Option<string>, fuel: nat)
    ensures forall item :: item in DragItems(nodes, nodesDraggable, mousePos, findNode, nodeId, fuel) ==>
      DraggedFrom(nodes, nodesDraggable, mousePos, findNode, nodeId, fuel, item)
    decreases |nodes|
  {
    if nodes != [] {
      var init := nodes[..|nodes| - 1];
      DragItemsSound(init, nodesDraggable, mousePos, findNode, nodeId, fuel);
      var prev := DragItems(init, nodesDraggable, mousePos, findNode, nodeId, fuel);
      var items := DragItems(nodes, nodesDraggable, mousePos, findNode, nodeId, fuel);
      forall item | item in items
        ensures DraggedFrom(nodes, nodesDraggable, mousePos, findNode, nodeId, fuel, item)
      {
        if item in prev {
          assert DraggedFrom(init, nodesDraggable, mousePos, findNode, nodeId, fuel, item);
          var i :| 0 <= i < |init| && IsDragged(init[i], nodesDraggable, findNode, nodeId, fuel)
            && item == ToDragItem(init[i], mousePos);
          assert nodes[i] == init[i];
        } else {
          assert IsDragged(nodes[|nodes| - 1], nodesDraggable, findNode, nodeId, fuel);
        }
      }
    }
  }

  /** Every node that meets the conditions gives a drag item. */
  lemma {:induction false} DragItemsComplete(nodes: seq<Node>, nodesDraggable: bool, mousePos: Point,
                                            findNode: string -> Option<Node>, nodeId: Option<string>, fuel: nat, i: nat)
    requires i < |nodes| && IsDragged(nodes[i], nodesDraggable, findNode, nodeId, fuel)
    ensures ToDragItem(nodes[i], mousePos) in DragItems(nodes, nodesDraggable, mousePos, findNode, nodeId, fuel)
    decreases |nodes|
  {
    var init := nodes[..|nodes| - 1];
    if i < |nodes| - 1 {
      assert init[i] == nodes[i];
      DragItemsComplete(init, nodesDraggable, mousePos, findNode, nodeId, fuel, i);
    }
  }

  /** `getEventHandlerParams`'s list: the nodes the store finds for the
      drag items, in drag order. */
  function FoundNodes(dragItems: seq<DragItem>, findNode: string -> Option<Node>): (r: seq<Node>)
    ensures |r| <= |dragItems|
    decreases |dragItems|
  {
    if dragItems == [] then []
    else
      var found := findNode(dragItems[|dragItems| - 1].id);
      FoundNodes(dragItems[..|dragItems| - 1], findNode) + (if found.Some? then [found.value] else [])
  }

  /** `getEventHandlerParams({ id, dragItems, findNode })`: the node with
      `id` (for a truthy `id`, else the first found node) and all found
      nodes. */
  method GetEventHandlerParams(id: Option<string>, dragItems: seq<DragItem>, findNode: string -> Option<Node>)
    returns (node: Option<Node>, extendedDragItems: seq<Node>)
    ensures extendedDragItems == FoundNodes(dragItems, findNode)
    ensures Truthy(id) ==> node == FindNode(extendedDragItems, id.value)
    ensures !Truthy(id) ==> node == if extendedDragItems == [] then None else Some(extendedDragItems[0])
  {
    extendedDragItems := [];
    for i := 0 to |dragItems|
      invariant extendedDragItems == FoundNodes(dragItems[..i], findNode)
    {
      assert dragItems[..i + 1][..i] == dragItems[..i];
      var found := findNode(dragItems[i].id);
      if found.Some? {
        extendedDragItems := extendedDragItems + [found.value];
      }
    }
    assert dragItems[..|dragItems|] == dragItems;
    if Truthy(id) {
      node := FindNode(extendedDragItems, id.value);
    } else if extendedDragItems == [] {
      node := None;
    } else {
      node := Some(extendedDragItems[0]);
    }
  }

  /** The found nodes are exactly the store's nodes for the drag items. */
  lemma {:induction false} FoundNodesMembership(dragItems: seq<DragItem>, findNode: string -> Option<Node>, n: Node)
    ensures n in FoundNodes(dragItems, findNode) <==>
      exists i :: 0 <= i < |dragItems| && findNode(dragItems[i].id) == Some(n)
    decreases |dragItems|
  {
    if dragItems != [] {
      var init := dragItems[..|dragItems| - 1];
      FoundNodesMembership(init, findNode, n);
      assert forall i :: 0 <= i < |init| ==> init[i] == dragItems[i];
    }
  }
}
