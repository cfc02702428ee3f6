/** Change records and how `applyChanges` applies them to an element
    array in place: additions and removals first, then selection,
    position and dimension updates, growing an `expandParent` node's
    parent around it; and `getSelectionChanges`, the selection diff. */
module Changes {
  import opened Common
  import opened Elements

  /** The edge fields `createEdgeRemoveChange` records. */
  datatype EdgeEnds = EdgeEnds(source: string, target: string,
                               sourceHandle: Option<string>, targetHandle: Option<string>)

  /** A change record, by its `type`. */
  datatype Change =
    | Add(item: Element)
    | Remove(id: string, edgeEnds: Option<EdgeEnds>)
    | Select(id: string, selected: bool)
    | PositionUpdate(id: string, position: Option<Point>, dragging: Option<bool>)
    | DimensionsUpdate(id: string, dimensions: Option<Dimensions>, updateStyle: Option<bool>,
                       resizing: Option<bool>)
  {
    /** `change.id`; an addition has none. */
    function ChangeId(): Option<string> {
      if Add? then None else Some(id)
    }
  }

  /** `createSelectionChange`. */
  function CreateSelectionChange(id: string, selected: bool): (r: Change)
    ensures r.Select? && r.ChangeId() == Some(id) && r.selected == selected
  {
    Select(id, selected)
  }

  /** `createAdditionChange`. */
  function CreateAdditionChange(item: Element): (r: Change)
    ensures r.Add? && r.item == item && r.ChangeId().None?
  {
    Add(item)
  }

  /** `createNodeRemoveChange`. */
  function CreateNodeRemoveChange(id: string): (r: Change)
    ensures r.Remove? && r.ChangeId() == Some(id) && r.edgeEnds.None?
  {
    Remove(id, None)
  }

  /** `createEdgeRemoveChange`: a falsy handle is stored as `null`. */
  function CreateEdgeRemoveChange(id: string, source: string, target: string,
                                  sourceHandle: Option<string>, targetHandle: Option<string>): (r: Change)
    ensures r.Remove? && r.ChangeId() == Some(id) && r.edgeEnds.Some?
    ensures r.edgeEnds.value.source == source && r.edgeEnds.value.target == target
    ensures r.edgeEnds.value.sourceHandle.Some? <==> Truthy(sourceHandle)
    ensures r.edgeEnds.value.targetHandle.Some? <==> Truthy(targetHandle)
    ensures r.edgeEnds.value.sourceHandle.Some? ==> r.edgeEnds.value.sourceHandle == sourceHandle
    ensures r.edgeEnds.value.targetHandle.Some? ==> r.edgeEnds.value.targetHandle == targetHandle
  {
    Remove(id, Some(EdgeEnds(source, target,
                             if Truthy(sourceHandle) then sourceHandle else None,
                             if Truthy(targetHandle) then targetHandle else None)))
  }

  // ---------------------------------------------------------------
  // First phase: additions and removals
  // ---------------------------------------------------------------

  predicate IsAddRemove(c: Change) {
    c.Add? || c.Remove?
  }

  /** No two elements share an id. */
  predicate UniqueIds(els: seq<Element>) {
    forall i, j :: 0 <= i < j < |els| ==> els[i].Id() != els[j].Id()
  }

  /** One addition or removal: an addition appends its item unless an
      element with that id exists; a removal splices out the first
      element with that id, if any. */
  function AddRemoveStep(c: Change, els: seq<Element>): (r: seq<Element>)
    ensures c.Add? ==> r == els || (r == els + [c.item] && forall i :: 0 <= i < |els| ==> els[i].Id() != c.item.Id())
    ensures c.Add? ==> exists i :: 0 <= i < |r| && r[i].Id() == c.item.Id()
    ensures c.Remove? ==> |r| <= |els|
    ensures !IsAddRemove(c) ==> r == els
  {
    match c
    case Add(item) =>
      var index := FindIndex(els, item.Id());
      if index == -1 then
        assert (els + [item])[|els|] == item;
        els + [item]
      else els
    case Remove(id, _) =>
      var index := FindIndex(els, id);
      if index != -1 then els[..index] + els[index + 1..] else els
    case _ => els
  }

  /** The elements before the one that fails the filter, with it, filter
      to the elements before it. */
  lemma SpliceFront(els: seq<Element>, k: nat, p: Element -> bool)
    requires k < |els| && !p(els[k])
    requires forall i :: 0 <= i < |els| && i != k ==> p(els[i])
    ensures Filter(els[..k] + [els[k]], p) == els[..k]
  {
    var front := els[..k];
    FilterAppend(front, els[k], p);
    forall i | 0 <= i < |front|
      ensures p(front[i])
    {
      assert front[i] == els[i];
    }
    FilterTrue(front, p);
  }

  /** The elements after the one that fails the filter all pass it. */
  lemma SpliceBack(els: seq<Element>, k: nat, p: Element -> bool)
    requires k < |els|
    requires forall i :: 0 <= i < |els| && i != k ==> p(els[i])
    ensures Filter(els[k + 1..], p) == els[k + 1..]
  {
    var back := els[k + 1..];
    forall i | 0 <= i < |back|
      ensures p(back[i])
    {
      assert back[i] == els[k + 1 + i];
    }
    FilterTrue(back, p);
  }

  /** Splicing out the one element that fails a filter is filtering. */
  lemma SpliceIsFilter(els: seq<Element>, k: nat, p: Element -> bool)
    requires k < |els| && !p(els[k])
    requires forall i :: 0 <= i < |els| && i != k ==> p(els[i])
    ensures Filter(els, p) == els[..k] + els[k + 1..]
  {
    var mid := els[..k] + [els[k]];
    assert els == mid + els[k + 1..];
    FilterConcat(mid, els[k + 1..], p);
    SpliceFront(els, k, p);
    SpliceBack(els, k, p);
  }

  /** The removal is the filter by id when ids are unique; in particular
      an absent id changes nothing. */
  lemma RemoveIsFilter(id: string, ends: Option<EdgeEnds>, els: seq<Element>)
    requires UniqueIds(els)
    ensures AddRemoveStep(Remove(id, ends), els) == Filter(els, (el: Element) => el.Id() != id)
  {
    var p := (el: Element) => el.Id() != id;
    var index := FindIndex(els, id);
    if index == -1 {
      FilterTrue(els, p);
    } else {
      forall i | 0 <= i < |els| && i != index
        ensures p(els[i])
      {
        assert els[i].Id() != els[index].Id();
      }
      assert AddRemoveStep(Remove(id, ends), els) == els[..index] + els[index + 1..];
      SpliceIsFilter(els, index, p);
    }
  }

  /** Additions and removals keep ids unique. */
  lemma AddRemoveKeepsUnique(c: Change, els: seq<Element>)
    requires UniqueIds(els)
    ensures UniqueIds(AddRemoveStep(c, els))
  {
    if c.Remove? {
      var r := AddRemoveStep(c, els);
      var index := FindIndex(els, c.id);
      if index != -1 {
        forall i, j | 0 <= i < j < |r|
          ensures r[i].Id() != r[j].Id()
        {
          var i' := if i < index then i else i + 1;
          var j' := if j < index then j else j + 1;
          assert r[i] == els[i'] && r[j] == els[j'];
        }
      }
    }
  }

  /** The additions and removals, applied in order. */
  function AddRemovePhase(cs: seq<Change>, els: seq<Element>): seq<Element>
    decreases |cs|
  {
    if cs == [] then els
    else AddRemoveStep(cs[|cs| - 1], AddRemovePhase(cs[..|cs| - 1], els))
  }

  lemma {:induction false} AddRemovePhaseKeepsUnique(cs: seq<Change>, els: seq<Element>)
    requires UniqueIds(els)
    ensures UniqueIds(AddRemovePhase(cs, els))
    decreases |cs|
  {
    if cs != [] {
      AddRemovePhaseKeepsUnique(cs[..|cs| - 1], els);
      AddRemoveKeepsUnique(cs[|cs| - 1], AddRemovePhase(cs[..|cs| - 1], els));
    }
  }

  // ---------------------------------------------------------------
  // handleParentExpand
  // ---------------------------------------------------------------

  /** `a + b - c` over sizes that may be unmeasured; `None` is the `NaN`
      JavaScript computes from `undefined`. */
  function Extend(pos: real, size: Option<real>, parentSize: Option<real>): Option<real> {
    if size.Some? && parentSize.Some? then Some(pos + size.value - parentSize.value) else None
  }

  predicate Positive(v: Option<real>) {
    v.Some? && v.value > 0.0
  }

  function AddTo(v: Option<real>, d: real): Option<real> {
    if v.Some? then Some(v.value + d) else None
  }

  /** `parentStyles.width ?? parent.dimensions.width`. */
  function StyleWidth(parent: Node): Option<real> {
    if parent.style.Some? && parent.style.value.width.Some? then parent.style.value.width
    else parent.dimensions.width
  }

  function StyleHeight(parent: Node): Option<real> {
    if parent.style.Some? && parent.style.value.height.Some? then parent.style.value.height
    else parent.dimensions.height
  }

  /** Whether `handleParentExpand` does anything. */
  predicate ExpandTriggered(child: Node, parent: Node) {
    Positive(Extend(child.position.x, child.dimensions.width, parent.dimensions.width))
    || Positive(Extend(child.position.y, child.dimensions.height, parent.dimensions.height))
    || child.position.x < 0.0 || child.position.y < 0.0
  }

  /** The new child and parent after `handleParentExpand(child, parent)`:
      a child sticking out on the right or bottom widens the parent by
      the overhang; a child at a negative offset moves the parent back by
      that amount, widens it by as much, and is put at offset 0. */
  function ParentExpand(child: Node, parent: Node): (r: (Node, Node))
    ensures !ExpandTriggered(child, parent) ==> r == (child, parent)
    ensures r.0.id == child.id && r.0.dimensions == child.dimensions && r.1.id == parent.id
  {
    if !ExpandTriggered(child, parent) then (child, parent)
    else
      var extendWidth := Extend(child.position.x, child.dimensions.width, parent.dimensions.width);
      var extendHeight := Extend(child.position.y, child.dimensions.height, parent.dimensions.height);
      var xDiff := if child.position.x < 0.0 then -child.position.x else 0.0;
      var yDiff := if child.position.y < 0.0 then -child.position.y else 0.0;
      var width := AddTo(StyleWidth(parent), (if Positive(extendWidth) then extendWidth.value else 0.0) + xDiff);
      var height := AddTo(StyleHeight(parent), (if Positive(extendHeight) then extendHeight.value else 0.0) + yDiff);
      (child.(position := Point(child.position.x + xDiff, child.position.y + yDiff)),
       parent.(position := Point(parent.position.x - xDiff, parent.position.y - yDiff),
               dimensions := Dimensions(width, height),
               style := Some(Style(width, height))))
  }

  /** After expansion the child is at a non-negative offset, and the
      parent has moved back by exactly the negative part of the child's
      old offset. */
  lemma ParentExpandOffsets(child: Node, parent: Node)
    ensures var (c, p) := ParentExpand(child, parent);
      && c.position.x >= 0.0 && c.position.y >= 0.0
      && c.position.x == Max(child.position.x, 0.0) && c.position.y == Max(child.position.y, 0.0)
      && p.position.x == parent.position.x - (c.position.x - child.position.x)
      && p.position.y == parent.position.y - (c.position.y - child.position.y)
  {
  }

  /** Once triggered, the parent's style holds its new size, which is
      known exactly when the old one was and never smaller. */
  lemma ParentExpandGrows(child: Node, parent: Node)
    requires ExpandTriggered(child, parent)
    ensures var p := ParentExpand(child, parent).1;
      && p.style == Some(Style(p.dimensions.width, p.dimensions.height))
      && (StyleWidth(parent).Some? <==> p.dimensions.width.Some?)
      && (StyleHeight(parent).Some? <==> p.dimensions.height.Some?)
      && (StyleWidth(parent).Some? ==> p.dimensions.width.value >= StyleWidth(parent).value)
      && (StyleHeight(parent).Some? ==> p.dimensions.height.value >= StyleHeight(parent).value)
  {
  }

  /** When the parent's size comes from its measured dimensions and both
      are measured, the expanded parent holds the child: the child's far
      edge is within the parent's new size. */
  lemma ParentExpandContainsChild(child: Node, parent: Node)
    requires child.dimensions.width.Some? && child.dimensions.height.Some?
    requires parent.dimensions.width.Some? && parent.dimensions.height.Some?
    requires parent.style.None?
    requires child.position.x + child.dimensions.width.value <= parent.dimensions.width.value
          || ExpandTriggered(child, parent)
    requires child.position.y + child.dimensions.height.value <= parent.dimensions.height.value
          || ExpandTriggered(child, parent)
    ensures var (c, p) := ParentExpand(child, parent);
      && p.dimensions.width.Some? && p.dimensions.height.Some?
      && c.position.x + c.dimensions.width.value <= p.dimensions.width.value
      && c.position.y + c.dimensions.height.value <= p.dimensions.height.value
  {
    if !ExpandTriggered(child, parent) {
      assert !(child.position.x < 0.0) && !(child.position.y < 0.0);
      assert !Positive(Extend(child.position.x, child.dimensions.width, parent.dimensions.width));
    }
  }

  /** `handleParentExpand`, step by step as the JavaScript assigns the
      fields: it returns the new child and parent. */
  method HandleParentExpand(updateItem: Node, parent: Node) returns (child': Node, parent': Node)
    ensures (child', parent') == ParentExpand(updateItem, parent)
  {
    child', parent' := updateItem, parent;
    var extendWidth := Extend(updateItem.position.x, updateItem.dimensions.width, parent.dimensions.width);
    var extendHeight := Extend(updateItem.position.y, updateItem.dimensions.height, parent.dimensions.height);
    if Positive(extendWidth) || Positive(extendHeight) || updateItem.position.x < 0.0 || updateItem.position.y < 0.0 {
      var styleWidth := StyleWidth(parent);
      var styleHeight := StyleHeight(parent);
      var parentPosition := parent.position;
      var position := updateItem.position;
      if Positive(extendWidth) {
        styleWidth := AddTo(styleWidth, extendWidth.value);
      }
      if Positive(extendHeight) {
        styleHeight := AddTo(styleHeight, extendHeight.value);
      }
      if position.x < 0.0 {
        var xDiff := Abs(position.x);
        parentPosition := parentPosition.(x := parentPosition.x - xDiff);
        styleWidth := AddTo(styleWidth, xDiff);
        position := position.(x := 0.0);
      }
      if position.y < 0.0 {
        var yDiff := Abs(position.y);
        parentPosition := parentPosition.(y := parentPosition.y - yDiff);
        styleHeight := AddTo(styleHeight, yDiff);
        position := position.(y := 0.0);
      }
      child' := updateItem.(position := position);
      parent' := parent.(position := parentPosition, dimensions := Dimensions(styleWidth, styleHeight),
                         style := Some(Style(styleWidth, styleHeight)));
    }
  }

  // ---------------------------------------------------------------
  // Second phase: updates
  // ---------------------------------------------------------------

  function SelectedOf(el: Element): Option<bool> {
    match el
    case NodeElement(n) => n.selected
    case EdgeElement(e) => e.selected
  }

  /** `element.selected = selected`. */
  function SetSelected(el: Element, selected: bool): (r: Element)
    ensures r.Id() == el.Id() && r.NodeElement? == el.NodeElement?
    ensures SelectedOf(r) == Some(selected)
  {
    match el
    case NodeElement(n) => NodeElement(n.(selected := Some(selected)))
    case EdgeElement(e) => EdgeElement(e.(selected := Some(selected)))
  }

  /** The same ids, in the same places, with the same kinds. */
  predicate SameShape(a: seq<Element>, b: seq<Element>) {
    |a| == |b| && forall k :: 0 <= k < |a| ==> a[k].Id() == b[k].Id() && a[k].NodeElement? == b[k].NodeElement?
  }

  /** The expansion an updated element `i` asks for: its parent is the
      element at the parent's index in `ids`, and must be a graph node;
      with `needsInit`, a parent that is not measured yet is left for a
      later tick, which this model does not reach. */
  function ExpandAt(items: seq<Element>, i: nat, ids: seq<string>, needsInit: bool): (r: seq<Element>)
    requires i < |items| == |ids| && items[i].NodeElement?
    ensures SameShape(r, items)
  {
    var n := items[i].node;
    if IsTrue(n.expandParent) && Truthy(n.parentNode) then
      var p := IndexOf(ids, n.parentNode.value);
      if p == -1 || !IsGraphNode(items[p]) then items
      else
        var parent := items[p].node;
        if needsInit && !(NonZero(parent.dimensions.width) && NonZero(parent.dimensions.height)) then items
        else
          var (c, q) := ParentExpand(n, parent);
          items[i := NodeElement(c)][p := NodeElement(q)]
    else items
  }

  /** A node after a position change: the new position and dragging flag
      where the change has them. */
  function PositionUpdated(n: Node, position: Option<Point>, dragging: Option<bool>): Node {
    n.(position := position.GetOr(n.position),
       dragging := if dragging.Some? then dragging else n.dragging)
  }

  /** The style size a dimensions change writes: the new width and
      height, unset where the change has no dimensions. */
  function StyleOf(dimensions: Option<Dimensions>): Style {
    Style(if dimensions.Some? then dimensions.value.width else None,
          if dimensions.Some? then dimensions.value.height else None)
  }

  /** A node after a dimensions change: the new dimensions and resizing
      flag where the change has them, and the style size when asked. */
  function DimensionsUpdated(n: Node, dimensions: Option<Dimensions>, updateStyle: Option<bool>,
                             resizing: Option<bool>): Node {
    var n1 := n.(dimensions := dimensions.GetOr(n.dimensions));
    var n2 := if IsTrue(updateStyle) then n1.(style := Some(StyleOf(dimensions))) else n1;
    n2.(resizing := if resizing.Some? then resizing else n2.resizing)
  }

  /** One change applied to element `i`, as the inner loop of
      `applyChanges` does. */
  function ApplyOne(items: seq<Element>, i: nat, c: Change, ids: seq<string>): (r: seq<Element>)
    requires i < |items| == |ids|
    ensures SameShape(r, items)
  {
    var el := items[i];
    if c.ChangeId() != Some(el.Id()) then items
    else match c
      case Select(_, selected) => items[i := SetSelected(el, selected)]
      case PositionUpdate(_, position, dragging) =>
        if !IsGraphNode(el) then items
        else
          ExpandAt(items[i := NodeElement(PositionUpdated(el.node, position, dragging))], i, ids, false)
      case DimensionsUpdate(_, dimensions, updateStyle, resizing) =>
        if !IsGraphNode(el) then items
        else
          ExpandAt(items[i := NodeElement(DimensionsUpdated(el.node, dimensions, updateStyle, resizing))], i, ids, true)
      case _ => items
  }

  /** The changes, in order, applied to element `i`. */
  function ApplyAllAt(items: seq<Element>, i: nat, cs: seq<Change>, ids: seq<string>): (r: seq<Element>)
    requires i < |items| == |ids|
    ensures SameShape(r, items)
    decreases |cs|
  {
    if cs == [] then items
    else ApplyOne(ApplyAllAt(items, i, cs[..|cs| - 1], ids), i, cs[|cs| - 1], ids)
  }

  /** Elements `0 .. n - 1` updated in turn. */
  function UpdatePhase(items: seq<Element>, n: nat, cs: seq<Change>, ids: seq<string>): (r: seq<Element>)
    requires n <= |items| == |ids|
    ensures SameShape(r, items)
    decreases n
  {
    if n == 0 then items
    else ApplyAllAt(UpdatePhase(items, n - 1, cs, ids), n - 1, cs, ids)
  }

  /** What `applyChanges` leaves in the array. */
  function ApplyChangesResult(changes: seq<Change>, els: seq<Element>): (r: seq<Element>)
  {
    var mid := AddRemovePhase(Filter(changes, IsAddRemove), els);
    UpdatePhase(mid, |mid|, changes, Map(mid, (el: Element) => el.Id()))
  }

  /** `applyChanges(changes, elements)`, changing the array in place. */
  method ApplyChanges(changes: seq<Change>, elements: ElementArray)
    modifies elements
    ensures elements.items == ApplyChangesResult(changes, old(elements.items))
  {
    var addRemoveChanges := Filter(changes, IsAddRemove);
    ApplyAddRemove(addRemoveChanges, elements);
    var elementIds := Map(elements.items, (el: Element) => el.Id());
    ApplyUpdates(changes, elements, elementIds);
  }

  /** The first loop of `applyChanges`. */
  method ApplyAddRemove(addRemoveChanges: seq<Change>, elements: ElementArray)
    modifies elements
    ensures elements.items == AddRemovePhase(addRemoveChanges, old(elements.items))
  {
    var j := 0;
    while j < |addRemoveChanges|
      invariant 0 <= j <= |addRemoveChanges|
      invariant elements.items == AddRemovePhase(addRemoveChanges[..j], old(elements.items))
    {
      assert addRemoveChanges[..j + 1][..j] == addRemoveChanges[..j];
      var change := addRemoveChanges[j];
      match change {
        case Add(item) =>
          var index := FindIndex(elements.items, item.Id());
          if index == -1 {
            elements.items := elements.items + [item];
          }
        case Remove(id, _) =>
          var index := FindIndex(elements.items, id);
          if index != -1 {
            elements.items := elements.items[..index] + elements.items[index + 1..];
          }
        case _ =>
      }
      j := j + 1;
    }
    assert addRemoveChanges[..j] == addRemoveChanges;
  }

  /** The nested loops of `applyChanges`: every change, for every
      element. */
  method ApplyUpdates(changes: seq<Change>, elements: ElementArray, elementIds: seq<string>)
    requires |elements.items| == |elementIds|
    modifies elements
    ensures elements.items == UpdatePhase(old(elements.items), |elementIds|, changes, elementIds)
  {
    ghost var start := elements.items;
    var i := 0;
    while i < |elements.items|
      invariant |elements.items| == |start| && 0 <= i <= |start|
      invariant elements.items == UpdatePhase(start, i, changes, elementIds)
    {
      ghost var before := elements.items;
      var k := 0;
      while k < |changes|
        invariant 0 <= k <= |changes|
        invariant elements.items == ApplyAllAt(before, i, changes[..k], elementIds)
      {
        assert changes[..k + 1][..k] == changes[..k];
        ApplyChange(elements, i, changes[k], elementIds);
        k := k + 1;
      }
      assert changes[..k] == changes;
      i := i + 1;
    }
  }

  /** The body of the inner loop for one element and one change. */
  method ApplyChange(elements: ElementArray, i: nat, currentChange: Change, elementIds: seq<string>)
    requires i < |elements.items| == |elementIds|
    modifies elements
    ensures elements.items == ApplyOne(old(elements.items), i, currentChange, elementIds)
  {
    var element := elements.items[i];
    if currentChange.ChangeId() != Some(element.Id()) {
      return;
    }
    match currentChange {
      case Select(_, selected) =>
        elements.items := elements.items[i := SetSelected(element, selected)];
      case PositionUpdate(_, position, dragging) =>
        if IsGraphNode(element) {
          ApplyPosition(elements, i, position, dragging, elementIds);
        }
      case DimensionsUpdate(_, dimensions, updateStyle, resizing) =>
        if IsGraphNode(element) {
          ApplyDimensions(elements, i, dimensions, updateStyle, resizing, elementIds);
        }
      case _ =>
    }
  }

  /** The `position` branch for a graph node. */
  method ApplyPosition(elements: ElementArray, i: nat, position: Option<Point>, dragging: Option<bool>,
                       elementIds: seq<string>)
    requires i < |elements.items| == |elementIds| && IsGraphNode(elements.items[i])
    modifies elements
    ensures elements.items == ExpandAt(old(elements.items)[i := NodeElement(PositionUpdated(old(elements.items)[i].node, position, dragging))],
                                       i, elementIds, false)
  {
    var n := elements.items[i].node;
    if position.Some? {
      n := n.(position := position.value);
    }
    if dragging.Some? {
      n := n.(dragging := dragging);
    }
    assert n == PositionUpdated(elements.items[i].node, position, dragging);
    elements.items := elements.items[i := NodeElement(n)];
    ExpandParent(elements, i, elementIds, false);
  }

  /** The `dimensions` branch for a graph node. */
  method ApplyDimensions(elements: ElementArray, i: nat, dimensions: Option<Dimensions>, updateStyle: Option<bool>,
                         resizing: Option<bool>, elementIds: seq<string>)
    requires i < |elements.items| == |elementIds| && IsGraphNode(elements.items[i])
    modifies elements
    ensures elements.items == ExpandAt(old(elements.items)[i := NodeElement(DimensionsUpdated(old(elements.items)[i].node, dimensions, updateStyle, resizing))],
                                       i, elementIds, true)
  {
    var n := elements.items[i].node;
    ghost var n0 := n;
    if dimensions.Some? {
      n := n.(dimensions := dimensions.value);
    }
    ghost var n1 := n;
    assert n1 == n0.(dimensions := dimensions.GetOr(n0.dimensions));
    if updateStyle.Some? && updateStyle.value {
      n := n.(style := Some(StyleOf(dimensions)));
    }
    assert n == if IsTrue(updateStyle) then n1.(style := Some(StyleOf(dimensions))) else n1;
    if resizing.Some? {
      n := n.(resizing := resizing);
    }
    assert n == DimensionsUpdated(elements.items[i].node, dimensions, updateStyle, resizing);
    elements.items := elements.items[i := NodeElement(n)];
    ExpandParent(elements, i, elementIds, true);
  }

  /** The `expandParent` step after a position or dimensions update. */
  method ExpandParent(elements: ElementArray, i: nat, elementIds: seq<string>, needsInit: bool)
    requires i < |elements.items| == |elementIds| && elements.items[i].NodeElement?
    modifies elements
    ensures elements.items == ExpandAt(old(elements.items), i, elementIds, needsInit)
  {
    var element := elements.items[i].node;
    if IsTrue(element.expandParent) && Truthy(element.parentNode) {
      var p := IndexOf(elementIds, element.parentNode.value);
      if p != -1 && IsGraphNode(elements.items[p]) {
        var parent := elements.items[p].node;
        var parentInit := NonZero(parent.dimensions.width) && NonZero(parent.dimensions.height);
        if !needsInit || parentInit {
          var child', parent' := HandleParentExpand(element, parent);
          elements.items := elements.items[i := NodeElement(child')][p := NodeElement(parent')];
        }
      }
    }
  }

  // ---------------------------------------------------------------
  // Properties of the update phase
  // ---------------------------------------------------------------

  /** A change whose id names another element, a removal, or an addition
      leaves the array as it is. */
  lemma OtherChangeUntouched(items: seq<Element>, i: nat, c: Change, ids: seq<string>)
    requires i < |items| == |ids|
    requires c.ChangeId() != Some(items[i].Id()) || IsAddRemove(c)
    ensures ApplyOne(items, i, c, ids) == items
  {
  }

  /** A selection change sets `selected` on the named element and changes
      nothing else. */
  lemma SelectEffect(items: seq<Element>, i: nat, id: string, selected: bool, ids: seq<string>)
    requires i < |items| == |ids| && items[i].Id() == id
    ensures var r := ApplyOne(items, i, Select(id, selected), ids);
      && (forall k :: 0 <= k < |items| && k != i ==> r[k] == items[k])
      && (r[i].NodeElement? ==> r[i].node == items[i].node.(selected := Some(selected)))
      && (r[i].EdgeElement? ==> r[i].edge == items[i].edge.(selected := Some(selected)))
  {
  }

  /** Position and dimension updates only act on graph nodes. */
  lemma UpdatesNeedGraphNode(items: seq<Element>, i: nat, c: Change, ids: seq<string>)
    requires i < |items| == |ids| && !IsGraphNode(items[i])
    requires c.PositionUpdate? || c.DimensionsUpdate?
    ensures ApplyOne(items, i, c, ids) == items
  {
  }

  /** Without parent expansion, a position update writes exactly the
      fields the change defines and nothing else. */
  lemma PositionEffect(items: seq<Element>, i: nat, c: Change, ids: seq<string>)
    requires i < |items| == |ids| && c.PositionUpdate? && c.id == items[i].Id() && IsGraphNode(items[i])
    requires !IsTrue(items[i].node.expandParent)
    ensures var r := ApplyOne(items, i, c, ids);
            var n := items[i].node;
      && (forall k :: 0 <= k < |items| && k != i ==> r[k] == items[k])
      && r[i].node.position == (if c.position.Some? then c.position.value else n.position)
      && r[i].node.dragging == (if c.dragging.Some? then c.dragging else n.dragging)
      && r[i].node.(position := n.position, dragging := n.dragging) == n
  {
  }

  /** Without parent expansion, a dimensions update writes the given
      dimensions and resizing flag, and a style only when asked to. */
  lemma DimensionsEffect(items: seq<Element>, i: nat, c: Change, ids: seq<string>)
    requires i < |items| == |ids| && c.DimensionsUpdate? && c.id == items[i].Id() && IsGraphNode(items[i])
    requires !IsTrue(items[i].node.expandParent)
    ensures var r := ApplyOne(items, i, c, ids);
            var n := items[i].node;
      && (forall k :: 0 <= k < |items| && k != i ==> r[k] == items[k])
      && r[i].node.dimensions == (if c.dimensions.Some? then c.dimensions.value else n.dimensions)
      && r[i].node.resizing == (if c.resizing.Some? then c.resizing else n.resizing)
      && (IsTrue(c.updateStyle) ==>
            r[i].node.style.Some?
            && r[i].node.style.value.width == (if c.dimensions.Some? then c.dimensions.value.width else None))
      && (!IsTrue(c.updateStyle) ==> r[i].node.style == n.style)
      && r[i].node.(dimensions := n.dimensions, resizing := n.resizing, style := n.style) == n
  {
  }

  /** `applyChanges` never changes an element's id or kind, and does all
      additions and removals before any update: its result has the shape
      of the array the additions and removals leave. */
  lemma ApplyChangesShape(changes: seq<Change>, els: seq<Element>)
    ensures SameShape(ApplyChangesResult(changes, els), AddRemovePhase(Filter(changes, IsAddRemove), els))
  {
  }

  /** With unique ids going in, ids stay unique. */
  lemma ApplyChangesKeepsUnique(changes: seq<Change>, els: seq<Element>)
    requires UniqueIds(els)
    ensures UniqueIds(ApplyChangesResult(changes, els))
  {
    AddRemovePhaseKeepsUnique(Filter(changes, IsAddRemove), els);
  }

  // ---------------------------------------------------------------
  // getSelectionChanges
  // ---------------------------------------------------------------

  /** The entries of a JavaScript `Map` from id to node or edge, in
      insertion order; `getSelectionChanges` may set `selected` on them. */
  class ItemMap {
    var entries: seq<(string, Element)>

    constructor(entries: seq<(string, Element)>)
      ensures this.entries == entries
    {
      this.entries := entries;
    }
  }

  /** Whether an entry needs a selection change: its `selected` differs
      from membership, except that an undefined `selected` staying
      unselected counts as no difference. */
  predicate NeedsChange(entry: (string, Element), selectedIds: seq<string>) {
    var willBeSelected := entry.0 in selectedIds;
    var selected := SelectedOf(entry.1);
    !(selected.None? && !willBeSelected) && selected != Some(willBeSelected)
  }

  /** The changes `getSelectionChanges` emits, in entry order. */
  function SelectionChanges(entries: seq<(string, Element)>, selectedIds: seq<string>): (r: seq<Change>)
    ensures |r| <= |entries|
    decreases |entries|
  {
    if entries == [] then []
    else
      var init := entries[..|entries| - 1];
      var entry := entries[|entries| - 1];
      SelectionChanges(init, selectedIds)
        + (if NeedsChange(entry, selectedIds)
           then [CreateSelectionChange(entry.1.Id(), entry.0 in selectedIds)] else [])
  }

  /** The entries after `mutateItem`: each one that got a change now has
      `selected` equal to its membership. */
  function MutatedEntries(entries: seq<(string, Element)>, selectedIds: seq<string>): (r: seq<(string, Element)>)
    ensures |r| == |entries|
  {
    Map(entries, (e: (string, Element)) =>
      if NeedsChange(e, selectedIds) then (e.0, SetSelected(e.1, e.0 in selectedIds)) else e)
  }

  /** `getSelectionChanges(items, selectedIds, mutateItem)`. */
  method GetSelectionChanges(items: ItemMap, selectedIds: seq<string>, mutateItem: bool) returns (changes: seq<Change>)
    modifies items
    ensures changes == SelectionChanges(old(items.entries), selectedIds)
    ensures items.entries == if mutateItem then MutatedEntries(old(items.entries), selectedIds) else old(items.entries)
  {
    changes := [];
    ghost var entries := items.entries;
    var i := 0;
    while i < |items.entries|
      invariant 0 <= i <= |entries| == |items.entries|
      invariant changes == SelectionChanges(entries[..i], selectedIds)
      invariant forall k :: 0 <= k < |entries| ==>
        items.entries[k] == if mutateItem && k < i then MutatedEntries(entries, selectedIds)[k] else entries[k]
    {
      assert entries[..i + 1][..i] == entries[..i];
      var (id, item) := items.entries[i];
      var willBeSelected := id in selectedIds;
      var selected := SelectedOf(item);
      if !(selected.None? && !willBeSelected) && selected != Some(willBeSelected) {
        if mutateItem {
          items.entries := items.entries[i := (id, SetSelected(item, willBeSelected))];
        }
        changes := changes + [CreateSelectionChange(item.Id(), willBeSelected)];
      }
      i := i + 1;
    }
    assert entries[..i] == entries;
    assert mutateItem ==> items.entries == MutatedEntries(entries, selectedIds);
    assert !mutateItem ==> items.entries == entries;
  }

  /** Every emitted change selects or deselects according to membership,
      and exactly the entries that need a change get one. */
  lemma {:induction false} SelectionChangesSound(entries: seq<(string, Element)>, selectedIds: seq<string>, c: Change)
    ensures c in SelectionChanges(entries, selectedIds) <==>
      exists k :: 0 <= k < |entries| && NeedsChange(entries[k], selectedIds)
                  && c == Select(entries[k].1.Id(), entries[k].0 in selectedIds)
    decreases |entries|
  {
    if entries != [] {
      var init := entries[..|entries| - 1];
      SelectionChangesSound(init, selectedIds, c);
      var last := |entries| - 1;
      if exists k :: 0 <= k < |entries| && NeedsChange(entries[k], selectedIds)
                     && c == Select(entries[k].1.Id(), entries[k].0 in selectedIds) {
        var k :| 0 <= k < |entries| && NeedsChange(entries[k], selectedIds)
                 && c == Select(entries[k].1.Id(), entries[k].0 in selectedIds);
        if k < last {
          assert init[k] == entries[k];
        }
      }
      if exists k :: 0 <= k < |init| && NeedsChange(init[k], selectedIds)
                     && c == Select(init[k].1.Id(), init[k].0 in selectedIds) {
        var k :| 0 <= k < |init| && NeedsChange(init[k], selectedIds)
                 && c == Select(init[k].1.Id(), init[k].0 in selectedIds);
        assert entries[k] == init[k];
      }
    }
  }

  /** An entry whose `selected` is undefined and that stays unselected
      never needs a change. */
  lemma UndefinedStaysQuiet(entry: (string, Element), selectedIds: seq<string>)
    requires SelectedOf(entry.1).None? && entry.0 !in selectedIds
    ensures !NeedsChange(entry, selectedIds)
  {
  }

  /** After mutating, there is nothing left to change: running the diff
      again on the mutated entries emits no change. */
  lemma {:induction false} MutatedNeedsNoChange(entries: seq<(string, Element)>, selectedIds: seq<string>)
    ensures SelectionChanges(MutatedEntries(entries, selectedIds), selectedIds) == []
    decreases |entries|
  {
    if entries != [] {
      var init := entries[..|entries| - 1];
      MutatedNeedsNoChange(init, selectedIds);
      var m := MutatedEntries(entries, selectedIds);
      assert m[..|m| - 1] == MutatedEntries(init, selectedIds);
      var e := entries[|entries| - 1];
      if NeedsChange(e, selectedIds) {
        assert SelectedOf(SetSelected(e.1, e.0 in selectedIds)) == Some(e.0 in selectedIds);
      }
    }
  }
}
