/** The read-only graph queries: the bounding rectangle of nodes, the
    nodes inside a pane rectangle, connected edges and nodes, outgoers
    and incomers, and whether a node's ancestor is selected. */
module GraphQueries {
  import opened Common
  import opened Elements
  import opened GraphGeometry

  /** A node that has a computed position and both measured sides. */
  predicate Measured(n: Node) {
    n.computedPosition.Some? && n.dimensions.width.Some? && n.dimensions.height.Some?
  }

  /** `rectToBox({ ...computedPosition, ...dimensions })`. */
  function NodeBox(n: Node): Box
    requires Measured(n)
  {
    RectToBox(Rect(n.computedPosition.value.x, n.computedPosition.value.y,
                   n.dimensions.width.value, n.dimensions.height.value))
  }

  /** The fold of `getRectOfNodes` over a prefix: `None` is the starting
      box with infinite corners. */
  function BoundsOfNodes(nodes: seq<Node>): (r: Option<Box>)
    requires forall i :: 0 <= i < |nodes| ==> Measured(nodes[i])
    ensures r.None? <==> nodes == []
  {
    if nodes == [] then None
    else
      var last := NodeBox(nodes[|nodes| - 1]);
      match BoundsOfNodes(nodes[..|nodes| - 1])
      case None => Some(last)
      case Some(b) => Some(GetBoundsOfBoxes(b, last))
  }

  /** The bounds hold every node's box. */
  lemma {:induction false} BoundsOfNodesContain(nodes: seq<Node>)
    requires forall i :: 0 <= i < |nodes| ==> Measured(nodes[i])
    requires nodes != []
    ensures var b := BoundsOfNodes(nodes).value;
      forall i :: 0 <= i < |nodes| ==>
        var nb := NodeBox(nodes[i]);
        b.x <= nb.x && b.y <= nb.y && nb.x2 <= b.x2 && nb.y2 <= b.y2
    decreases |nodes|
  {
    var init := nodes[..|nodes| - 1];
    if init != [] {
      BoundsOfNodesContain(init);
      assert forall i :: 0 <= i < |init| ==> init[i] == nodes[i];
    }
  }

  /** Each side of the bounds is the side of some node. */
  lemma {:induction false} BoundsOfNodesAttained(nodes: seq<Node>)
    requires forall i :: 0 <= i < |nodes| ==> Measured(nodes[i])
    requires nodes != []
    ensures var b := BoundsOfNodes(nodes).value;
      && (exists i :: 0 <= i < |nodes| && b.x == NodeBox(nodes[i]).x)
      && (exists i :: 0 <= i < |nodes| && b.y == NodeBox(nodes[i]).y)
      && (exists i :: 0 <= i < |nodes| && b.x2 == NodeBox(nodes[i]).x2)
      && (exists i :: 0 <= i < |nodes| && b.y2 == NodeBox(nodes[i]).y2)
    decreases |nodes|
  {
    var init := nodes[..|nodes| - 1];
    var n := |nodes| - 1;
    if init != [] {
      BoundsOfNodesAttained(init);
      var b0 := BoundsOfNodes(init).value;
      var ix :| 0 <= ix < |init| && b0.x == NodeBox(init[ix]).x;
      var iy :| 0 <= iy < |init| && b0.y == NodeBox(init[iy]).y;
      var ix2 :| 0 <= ix2 < |init| && b0.x2 == NodeBox(init[ix2]).x2;
      var iy2 :| 0 <= iy2 < |init| && b0.y2 == NodeBox(init[iy2]).y2;
      assert init[ix] == nodes[ix] && init[iy] == nodes[iy];
      assert init[ix2] == nodes[ix2] && init[iy2] == nodes[iy2];
      var b := BoundsOfNodes(nodes).value;
      assert b == GetBoundsOfBoxes(b0, NodeBox(nodes[n]));
      assert b.x == NodeBox(nodes[ix]).x || b.x == NodeBox(nodes[n]).x;
      assert b.y == NodeBox(nodes[iy]).y || b.y == NodeBox(nodes[n]).y;
      assert b.x2 == NodeBox(nodes[ix2]).x2 || b.x2 == NodeBox(nodes[n]).x2;
      assert b.y2 == NodeBox(nodes[iy2]).y2 || b.y2 == NodeBox(nodes[n]).y2;
    } else {
      assert BoundsOfNodes(nodes).value == NodeBox(nodes[0]);
    }
  }

  /** The bounds hold every node's box, and each side of the bounds is
      the side of some node. */
  lemma BoundsOfNodesTight(nodes: seq<Node>)
    requires forall i :: 0 <= i < |nodes| ==> Measured(nodes[i])
    requires nodes != []
    ensures var b := BoundsOfNodes(nodes).value;
      && (forall i :: 0 <= i < |nodes| ==>
            var nb := NodeBox(nodes[i]);
            b.x <= nb.x && b.y <= nb.y && nb.x2 <= b.x2 && nb.y2 <= b.y2)
      && (exists i :: 0 <= i < |nodes| && b.x == NodeBox(nodes[i]).x)
      && (exists i :: 0 <= i < |nodes| && b.y == NodeBox(nodes[i]).y)
      && (exists i :: 0 <= i < |nodes| && b.x2 == NodeBox(nodes[i]).x2)
      && (exists i :: 0 <= i < |nodes| && b.y2 == NodeBox(nodes[i]).y2)
  {
    BoundsOfNodesContain(nodes);
    BoundsOfNodesAttained(nodes);
  }

  /** `getRectOfNodes`: the bounding rectangle of the nodes; for no nodes
      JavaScript returns a rectangle of infinities, which is `None` here. */
  method GetRectOfNodes(nodes: seq<Node>) returns (r: Option<Rect>)
    requires forall i :: 0 <= i < |nodes| ==> Measured(nodes[i])
    ensures r.None? <==> nodes == []
    ensures r.Some? ==> r.value == BoxToRect(BoundsOfNodes(nodes).value)
  {
    var box: Option<Box> := None;
    var i := 0;
    while i < |nodes|
      invariant 0 <= i <= |nodes|
      invariant box == BoundsOfNodes(nodes[..i])
    {
      assert nodes[..i + 1][..i] == nodes[..i];
      var nb := NodeBox(nodes[i]);
      box := match box
        case None => Some(nb)
        case Some(b) => Some(GetBoundsOfBoxes(b, nb));
      i := i + 1;
    }
    assert nodes[..i] == nodes;
    r := match box
      case None => None
      case Some(b) => Some(BoxToRect(b));
  }

  /** `dimensions.width ?? node.width ?? null`, and the same for the
      height. */
  function KnownWidth(node: Node): Option<real> {
    if node.dimensions.width.Some? then node.dimensions.width else node.width
  }

  function KnownHeight(node: Node): Option<real> {
    if node.dimensions.height.Some? then node.dimensions.height else node.height
  }

  /** The node is skipped before any geometry is looked at. */
  predicate Skipped(node: Node, excludeNonSelectableNodes: bool) {
    (excludeNonSelectableNodes && !node.selectable.GetOr(true)) || node.hidden.GetOr(false)
  }

  /** The visibility test of `getNodesInside` for a node that is not
      skipped. */
  predicate Visible(node: Node, overlappingArea: int, partially: bool) {
    var width := KnownWidth(node);
    var height := KnownHeight(node);
    var notInitialized := width.None? || height.None?;
    var partiallyVisible := partially && overlappingArea > 0;
    var area := width.GetOr(0.0) * height.GetOr(0.0);
    notInitialized || partiallyVisible || overlappingArea as real >= area
  }

  /** Whether `getNodesInside` keeps the node. */
  predicate IsInside(node: Node, paneRect: Rect, partially: bool, excludeNonSelectableNodes: bool) {
    !Skipped(node, excludeNonSelectableNodes)
    && (Visible(node, GetOverlappingArea(paneRect, NodeToRect(node)), partially) || IsTrue(node.dragging))
  }

  /** The pane rectangle in flow coordinates. */
  function PaneRect(rect: Rect, viewport: Viewport): Rect
    requires viewport.zoom != 0.0
  {
    var p := PointToRendererPoint(Point(rect.x, rect.y), viewport, false, None);
    Rect(p.x, p.y, rect.width / viewport.zoom, rect.height / viewport.zoom)
  }

  /** `getNodesInside`: the nodes that pass the visibility test, in order.
      The JavaScript defaults are viewport `{ x: 0, y: 0, zoom: 1 }`,
      `partially = false` and `excludeNonSelectableNodes = false`. */
  method GetNodesInside(nodes: seq<Node>, rect: Rect, viewport: Viewport, partially: bool,
                        excludeNonSelectableNodes: bool) returns (visibleNodes: seq<Node>)
    requires viewport.zoom != 0.0
    ensures var paneRect := PaneRect(rect, viewport);
      visibleNodes == Filter(nodes, (n: Node) => IsInside(n, paneRect, partially, excludeNonSelectableNodes))
  {
    var paneRect := PaneRect(rect, viewport);
    ghost var p := (n: Node) => IsInside(n, paneRect, partially, excludeNonSelectableNodes);
    visibleNodes := [];
    var i := 0;
    while i < |nodes|
      invariant 0 <= i <= |nodes|
      invariant visibleNodes == Filter(nodes[..i], p)
    {
      var node := nodes[i];
      FilterAppend(nodes[..i], node, p);
      assert nodes[..i + 1] == nodes[..i] + [node];
      if !Skipped(node, excludeNonSelectableNodes) {
        var overlappingArea := GetOverlappingArea(paneRect, NodeToRect(node));
        if Visible(node, overlappingArea, partially) || IsTrue(node.dragging) {
          visibleNodes := visibleNodes + [node];
        }
      }
      i := i + 1;
    }
    assert nodes[..i] == nodes;
  }

  /** What the visibility test keeps: hidden nodes never, nodes excluded
      for not being selectable never; otherwise dragged and unmeasured
      nodes always, and a measured node exactly when the pane covers its
      whole area or, with `partially`, any of it. */
  lemma IsInsideCases(node: Node, paneRect: Rect, partially: bool, excludeNonSelectableNodes: bool)
    ensures var inside := IsInside(node, paneRect, partially, excludeNonSelectableNodes);
            var excluded := IsTrue(node.hidden) || (excludeNonSelectableNodes && node.selectable == Some(false));
            var overlappingArea := GetOverlappingArea(paneRect, NodeToRect(node));
      && (excluded ==> !inside)
      && (!excluded && IsTrue(node.dragging) ==> inside)
      && (!excluded && node.dimensions.width.None? && node.width.None? ==> inside)
      && (!excluded && node.dimensions.width.Some? && node.dimensions.height.Some? && !IsTrue(node.dragging) ==>
            (inside <==> (partially && overlappingArea > 0)
                         || overlappingArea as real >= node.dimensions.width.value * node.dimensions.height.value))
  {
  }

  /** A node is among those `getNodesInside` returns exactly when it is
      one of the nodes and passes the test. */
  lemma NodesInsideMembership(node: Node, nodes: seq<Node>, paneRect: Rect, partially: bool,
                              excludeNonSelectableNodes: bool)
    ensures node in Filter(nodes, (n: Node) => IsInside(n, paneRect, partially, excludeNonSelectableNodes))
            <==> node in nodes && IsInside(node, paneRect, partially, excludeNonSelectableNodes)
  {
    FilterMembership(nodes, (n: Node) => IsInside(n, paneRect, partially, excludeNonSelectableNodes), node);
  }

  /** `getConnectedEdges`'s argument: one node id or a list of nodes. */
  datatype NodesOrId = OneId(id: string) | NodeList(nodes: seq<Node>)

  /** The ids `getConnectedEdges` collects. */
  function IdsOf(arg: NodesOrId): seq<string> {
    match arg
    case OneId(id) => [id]
    case NodeList(nodes) => NodeIds(nodes)
  }

  predicate Touches(e: Edge, ids: seq<string>) {
    e.source in ids || e.target in ids
  }

  /** `getConnectedEdges`: exactly the edges with an end among the ids, in
      their original order. */
  method GetConnectedEdges(nodesOrId: NodesOrId, edges: seq<Edge>) returns (r: seq<Edge>)
    ensures r == Filter(edges, (e: Edge) => Touches(e, IdsOf(nodesOrId)))
  {
    var nodeIds: seq<string> := [];
    match nodesOrId {
      case OneId(id) =>
        nodeIds := SetAdd(nodeIds, id);
      case NodeList(nodes) =>
        var i := 0;
        while i < |nodes|
          invariant 0 <= i <= |nodes|
          invariant forall x :: x in nodeIds <==> x in NodeIds(nodes[..i])
        {
          assert NodeIds(nodes[..i + 1]) == NodeIds(nodes[..i]) + [nodes[i].id];
          nodeIds := SetAdd(nodeIds, nodes[i].id);
          i := i + 1;
        }
        assert nodes[..i] == nodes;
    }
    var ids := nodeIds;
    r := Filter(edges, (e: Edge) => Touches(e, ids));
    FilterExt(edges, (e: Edge) => Touches(e, ids), (e: Edge) => Touches(e, IdsOf(nodesOrId)));
  }

  /** An edge is connected exactly when it is among the edges and one of
      its ends is among the ids. */
  lemma ConnectedEdgesMembership(nodesOrId: NodesOrId, edges: seq<Edge>, e: Edge)
    ensures e in Filter(edges, (x: Edge) => Touches(x, IdsOf(nodesOrId)))
            <==> e in edges && (e.source in IdsOf(nodesOrId) || e.target in IdsOf(nodesOrId))
  {
    FilterMembership(edges, (x: Edge) => Touches(x, IdsOf(nodesOrId)), e);
  }

  /** An entry of `getConnectedNodes`'s list: an id or a node. */
  datatype NodeOrId = IdItem(id: string) | NodeItem(node: Node) {
    function Key(): string {
      match this
      case IdItem(id) => id
      case NodeItem(n) => n.id
    }
  }

  function Keys(items: seq<NodeOrId>): (r: seq<string>)
    ensures |r| == |items| && forall i :: 0 <= i < |items| ==> r[i] == items[i].Key()
  {
    Map(items, (x: NodeOrId) => x.Key())
  }

  /** The ids the edges connect to the given ids, in either direction. */
  ghost predicate ConnectedTo(id: string, ids: seq<string>, edges: seq<Edge>) {
    exists e :: e in edges && ((e.source in ids && e.target == id) || (e.target in ids && e.source == id))
  }

  /** One more edge connects what the fewer did, and its own ends. */
  lemma ConnectedToSnoc(id: string, ids: seq<string>, edges: seq<Edge>, e: Edge)
    ensures ConnectedTo(id, ids, edges + [e])
        <==> ConnectedTo(id, ids, edges) || (e.source in ids && e.target == id) || (e.target in ids && e.source == id)
  {
    if ConnectedTo(id, ids, edges + [e]) {
      var x :| x in edges + [e] && ((x.source in ids && x.target == id) || (x.target in ids && x.source == id));
      if x != e {
        assert x in edges;
      }
    }
    if ConnectedTo(id, ids, edges) {
      var x :| x in edges && ((x.source in ids && x.target == id) || (x.target in ids && x.source == id));
      assert x in edges + [e];
    }
    assert e in edges + [e];
  }

  /** `getConnectedNodes`: the entries of `nodes` that an edge links to
      some entry of `nodes`, in order. */
  method GetConnectedNodes(nodes: seq<NodeOrId>, edges: seq<Edge>) returns (r: seq<NodeOrId>)
    ensures r == Filter(nodes, (x: NodeOrId) => ConnectedTo(x.Key(), Keys(nodes), edges))
    ensures forall x :: x in r <==> x in nodes && ConnectedTo(x.Key(), Keys(nodes), edges)
  {
    var nodeIds: seq<string> := [];
    var i := 0;
    while i < |nodes|
      invariant 0 <= i <= |nodes|
      invariant forall x :: x in nodeIds <==> x in Keys(nodes[..i])
    {
      assert Keys(nodes[..i + 1]) == Keys(nodes[..i]) + [nodes[i].Key()];
      nodeIds := SetAdd(nodeIds, nodes[i].Key());
      i := i + 1;
    }
    assert nodes[..i] == nodes;
    var connected: seq<string> := [];
    var j := 0;
    while j < |edges|
      invariant 0 <= j <= |edges|
      invariant forall id :: id in connected <==> ConnectedTo(id, nodeIds, edges[..j])
    {
      var edge := edges[j];
      assert edges[..j + 1] == edges[..j] + [edge];
      if edge.source in nodeIds {
        connected := SetAdd(connected, edge.target);
      }
      if edge.target in nodeIds {
        connected := SetAdd(connected, edge.source);
      }
      forall id
        ensures id in connected <==> ConnectedTo(id, nodeIds, edges[..j + 1])
      {
        ConnectedToSnoc(id, nodeIds, edges[..j], edge);
      }
      j := j + 1;
    }
    assert edges[..j] == edges;
    var ids := connected;
    var p := (x: NodeOrId) => x.Key() in ids;
    r := Filter(nodes, p);
    var q := (x: NodeOrId) => ConnectedTo(x.Key(), Keys(nodes), edges);
    forall i | 0 <= i < |nodes|
      ensures p(nodes[i]) == q(nodes[i])
    {
      assert nodes[i].Key() in ids <==> ConnectedTo(nodes[i].Key(), nodeIds, edges);
      assert forall e :: (e in nodeIds) == (e in Keys(nodes));
    }
    FilterExt(nodes, p, q);
    forall x
      ensures x in r <==> x in nodes && q(x)
    {
      FilterMembership(nodes, q, x);
    }
  }

  /** Which end of an edge `getConnectedElements` reports. */
  datatype Dir = SourceDir | TargetDir

  /** The end of `e` in direction `dir`, and the other end. */
  function EndOf(e: Edge, dir: Dir): string {
    if dir == TargetDir then e.target else e.source
  }

  function OriginOf(e: Edge, dir: Dir): string {
    if dir == TargetDir then e.source else e.target
  }

  predicate Reaches(n: Node, id: string, edges: seq<Edge>, dir: Dir) {
    exists e :: e in edges && OriginOf(e, dir) == id && EndOf(e, dir) == n.id
  }

  /** `getConnectedElements(nodeOrId, nodes, edges, dir)`: the nodes at the
      `dir` end of an edge whose other end is `id`, in node order. */
  method GetConnectedElements(id: string, nodes: seq<Node>, edges: seq<Edge>, dir: Dir) returns (r: seq<Node>)
    ensures r == Filter(nodes, (n: Node) => Reaches(n, id, edges, dir))
    ensures forall n :: n in r <==> n in nodes && Reaches(n, id, edges, dir)
  {
    var connectedIds: seq<string> := [];
    var j := 0;
    while j < |edges|
      invariant 0 <= j <= |edges|
      invariant forall x :: x in connectedIds <==>
        exists e :: e in edges[..j] && OriginOf(e, dir) == id && EndOf(e, dir) == x
    {
      var edge := edges[j];
      assert edges[..j + 1] == edges[..j] + [edge];
      if OriginOf(edge, dir) == id {
        connectedIds := SetAdd(connectedIds, EndOf(edge, dir));
      }
      j := j + 1;
    }
    assert edges[..j] == edges;
    var ids := connectedIds;
    var p := (n: Node) => n.id in ids;
    r := Filter(nodes, p);
    var q := (n: Node) => Reaches(n, id, edges, dir);
    FilterExt(nodes, p, q);
    forall n
      ensures n in r <==> n in nodes && q(n)
    {
      FilterMembership(nodes, q, n);
    }
  }

  /** `getOutgoers(nodeOrId, nodes, edges)`: the targets of the node's
      outgoing edges. */
  method GetOutgoers(id: string, nodes: seq<Node>, edges: seq<Edge>) returns (r: seq<Node>)
    ensures r == Filter(nodes, (n: Node) => Reaches(n, id, edges, TargetDir))
    ensures forall n :: n in r <==> n in nodes && exists e :: e in edges && e.source == id && e.target == n.id
  {
    r := GetConnectedElements(id, nodes, edges, TargetDir);
  }

  /** `getIncomers(nodeOrId, nodes, edges)`: the sources of the node's
      incoming edges. */
  method GetIncomers(id: string, nodes: seq<Node>, edges: seq<Edge>) returns (r: seq<Node>)
    ensures r == Filter(nodes, (n: Node) => Reaches(n, id, edges, SourceDir))
    ensures forall n :: n in r <==> n in nodes && exists e :: e in edges && e.target == id && e.source == n.id
  {
    r := GetConnectedElements(id, nodes, edges, SourceDir);
  }

  /** The first node element with the given id (`elements.find`). */
  function FindNodeElement(elements: seq<Element>, id: string): (r: Option<Node>)
    ensures r.Some? ==> NodeElement(r.value) in elements && r.value.id == id
    ensures r.None? <==> forall i :: 0 <= i < |elements| ==> !(elements[i].NodeElement? && elements[i].node.id == id)
    decreases |elements|
  {
    if elements == [] then None
    else if elements[0].NodeElement? && elements[0].node.id == id then Some(elements[0].node)
    else FindNodeElement(elements[1..], id)
  }

  predicate EdgeFrom(el: Element, id: string, dir: Dir) {
    el.EdgeElement? && OriginOf(el.edge, dir) == id
  }

  /** The two-argument `getOutgoers`/`getIncomers` over a mixed elements
      array: for each matching edge, in edge order, the node at its far
      end, or `undefined` (`None`) when there is none. */
  function ElementEnds(id: string, elements: seq<Element>, dir: Dir): (r: seq<Option<Node>>)
    ensures var es := Filter(elements, (el: Element) => EdgeFrom(el, id, dir));
      |r| == |es| && forall i :: 0 <= i < |es| ==>
        es[i].EdgeElement? && r[i] == FindNodeElement(elements, EndOf(es[i].edge, dir))
  {
    var es := Filter(elements, (el: Element) => EdgeFrom(el, id, dir));
    FilterAll(elements, (el: Element) => EdgeFrom(el, id, dir));
    Map(es, (el: Element) => if el.EdgeElement? then FindNodeElement(elements, EndOf(el.edge, dir)) else None)
  }

  /** `isParentSelected` with at most `fuel` steps up the parent chain (the
      JavaScript recursion has no bound and does not end on a cycle). */
  function IsParentSelected(node: Node, findNode: string -> Option<Node>, fuel: nat): (r: bool)
    ensures r ==> Truthy(node.parentNode) && findNode(node.parentNode.value).Some?
    ensures (Truthy(node.parentNode) && findNode(node.parentNode.value).Some?
             && IsTrue(findNode(node.parentNode.value).value.selected)) ==> r
    decreases fuel
  {
    if !Truthy(node.parentNode) then false
    else match findNode(node.parentNode.value)
      case None => false
      case Some(parent) =>
        if IsTrue(parent.selected) then true
        else if fuel == 0 then false
        else IsParentSelected(parent, findNode, fuel - 1)
  }

  /** The `k`-th ancestor of a node along its `parentNode` links. */
  function Ancestor(node: Node, findNode: string -> Option<Node>, k: nat): Option<Node>
    decreases k
  {
    if k == 0 then Some(node)
    else if !Truthy(node.parentNode) then None
    else match findNode(node.parentNode.value)
      case None => None
      case Some(parent) => Ancestor(parent, findNode, k - 1)
  }

  /** The `k`-th ancestor exists and is selected. */
  predicate SelectedAncestor(node: Node, findNode: string -> Option<Node>, k: nat) {
    var a := Ancestor(node, findNode, k);
    a.Some? && IsTrue(a.value.selected)
  }

  /** `isParentSelected` holds exactly when one of the ancestors within
      reach is selected. */
  lemma {:induction false} IsParentSelectedAncestor(node: Node, findNode: string -> Option<Node>, fuel: nat)
    ensures IsParentSelected(node, findNode, fuel)
        <==> exists k :: 1 <= k <= fuel + 1 && SelectedAncestor(node, findNode, k)
    decreases fuel
  {
    if Truthy(node.parentNode) && findNode(node.parentNode.value).Some? {
      var parent := findNode(node.parentNode.value).value;
      assert Ancestor(node, findNode, 1) == Some(parent);
      forall k | 2 <= k <= fuel + 1
        ensures SelectedAncestor(node, findNode, k) == SelectedAncestor(parent, findNode, k - 1)
      {
        assert Ancestor(node, findNode, k) == Ancestor(parent, findNode, k - 1);
      }
      if IsTrue(parent.selected) {
        assert SelectedAncestor(node, findNode, 1);
      } else if fuel == 0 {
        assert !SelectedAncestor(node, findNode, 1);
      } else {
        IsParentSelectedAncestor(parent, findNode, fuel - 1);
        assert !SelectedAncestor(node, findNode, 1);
        if IsParentSelected(node, findNode, fuel) {
          var k :| 1 <= k <= fuel && SelectedAncestor(parent, findNode, k);
          assert SelectedAncestor(node, findNode, k + 1);
        }
        if exists k :: 1 <= k <= fuel + 1 && SelectedAncestor(node, findNode, k) {
          var k :| 1 <= k <= fuel + 1 && SelectedAncestor(node, findNode, k);
          assert SelectedAncestor(parent, findNode, k - 1);
        }
      }
    } else {
      forall k | 1 <= k <= fuel + 1
        ensures !SelectedAncestor(node, findNode, k)
      {
        assert Ancestor(node, findNode, k).None?;
      }
    }
  }
}
