/** The records the graph utilities work on: nodes, edges, connections,
    the mixed element array and the error codes reported through the
    `triggerError`/`onError` callbacks. Every field a utility reads or
    writes is here; a JavaScript field that may be `undefined` is an
    `Option`. */
module Elements {
  import opened Common

  /** The members of `ErrorCode` the core reports. */
  datatype ErrorCode =
    | NodeInvalid
    | NodeMissingParent
    | NodeExtentInvalid
    | EdgeInvalid
    | EdgeNotFound
    | EdgeSourceMissing
    | EdgeTargetMissing
    | EdgeSourceTargetMissing

  /** A reported error: its code, the id it names (`undefined` for an
      input without one) and the further ids the message mentions. */
  datatype Error = Error(code: ErrorCode, id: Option<string>, detail: seq<string>)

  /** `node.dimensions`; either side may still be unmeasured. */
  datatype Dimensions = Dimensions(width: Option<real>, height: Option<real>)

  /** `computedPosition`: absolute position plus stacking level. */
  datatype XYZ = XYZ(x: real, y: real, z: real)

  /** `[[x1, y1], [x2, y2]]`. A missing lower bound stands for
      `Number.NEGATIVE_INFINITY`, a missing upper bound for
      `Number.POSITIVE_INFINITY`. */
  datatype CoordinateExtent = CoordinateExtent(x1: Option<real>, y1: Option<real>,
                                               x2: Option<real>, y2: Option<real>)

  /** The box that confines nothing. */
  const Unbounded := CoordinateExtent(None, None, None, None)

  /** CSS-style padding: one number, or a list of one to four. */
  datatype Padding = Scalar(v: real) | Values(vs: seq<real>)

  /** What `range` of an extent object may be. */
  datatype Range = RangeParent | RangeCoords(coords: CoordinateExtent)

  /** `node.extent`: the string `'parent'`, a coordinate extent, or an
      object `{ range, padding }`. */
  datatype NodeExtent =
    | Parent
    | Coords(coords: CoordinateExtent)
    | RangeExtent(range: Range, padding: Padding)

  /** The size a resize or expansion writes into `node.style`, in pixels. */
  datatype Style = Style(width: Option<real>, height: Option<real>)

  /** A node as the store keeps it. */
  datatype Node = Node(
    id: string,
    nodeType: Option<string>,
    position: Point,
    computedPosition: Option<XYZ>,
    dimensions: Dimensions,
    width: Option<real>,
    height: Option<real>,
    handleBounds: bool,
    selected: Option<bool>,
    dragging: Option<bool>,
    resizing: Option<bool>,
    draggable: Option<bool>,
    selectable: Option<bool>,
    hidden: Option<bool>,
    parentNode: Option<string>,
    expandParent: Option<bool>,
    extent: Option<NodeExtent>,
    isParent: bool,
    style: Option<Style>)

  /** An edge. */
  datatype Edge = Edge(
    id: string,
    edgeType: Option<string>,
    source: string,
    target: string,
    sourceHandle: Option<string>,
    targetHandle: Option<string>,
    selected: Option<bool>)

  /** The `{ source, target, sourceHandle, targetHandle }` of an edge or of
      a connection the user drew. */
  datatype Connection = Connection(source: string, target: string,
                                   sourceHandle: Option<string>, targetHandle: Option<string>)

  /** What callers pass to `addEdge`: a full edge, or a connection without
      an id, possibly lacking its source or target. */
  datatype EdgeParams = EdgeParams(
    id: Option<string>,
    edgeType: Option<string>,
    source: Option<string>,
    target: Option<string>,
    sourceHandle: Option<string>,
    targetHandle: Option<string>)

  /** An entry of a mixed elements array. */
  datatype Element = NodeElement(node: Node) | EdgeElement(edge: Edge) {
    function Id(): string {
      match this
      case NodeElement(n) => n.id
      case EdgeElement(e) => e.id
    }
  }

  /** `isGraphNode`: a node that already has a computed position. */
  predicate IsGraphNode(el: Element) {
    el.NodeElement? && el.node.computedPosition.Some?
  }

  /** `isEdge` on parameters: `id`, `source` and `target` are all there. */
  predicate ParamsAreEdge(p: EdgeParams) {
    p.id.Some? && p.source.Some? && p.target.Some?
  }

  /** The connection an edge makes. */
  function ConnectionOf(e: Edge): Connection {
    Connection(e.source, e.target, e.sourceHandle, e.targetHandle)
  }

  /** The ids of a node list, in order. */
  function NodeIds(nodes: seq<Node>): (r: seq<string>)
    ensures |r| == |nodes| && forall i :: 0 <= i < |nodes| ==> r[i] == nodes[i].id
  {
    Map(nodes, (n: Node) => n.id)
  }

  /** The first index of an element with the given id (`findIndex`),
      or -1. */
  function FindIndex(s: seq<Element>, id: string): (r: int)
    ensures -1 <= r < |s|
    ensures r == -1 <==> forall i :: 0 <= i < |s| ==> s[i].Id() != id
    ensures r >= 0 ==> s[r].Id() == id && forall i :: 0 <= i < r ==> s[i].Id() != id
    decreases |s|
  {
    if s == [] then -1
    else if s[0].Id() == id then 0
    else
      var k := FindIndex(s[1..], id);
      if k == -1 then -1 else k + 1
  }

  /** `nodes.find(n => n.id === id)`. */
  function FindNode(nodes: seq<Node>, id: string): (r: Option<Node>)
    ensures r.Some? ==> r.value in nodes && r.value.id == id
    ensures r.None? <==> forall i :: 0 <= i < |nodes| ==> nodes[i].id != id
    decreases |nodes|
  {
    if nodes == [] then None
    else if nodes[0].id == id then Some(nodes[0])
    else FindNode(nodes[1..], id)
  }

  /** A JavaScript array of elements that the utilities change in place
      (`push`, `splice`, field assignments) and hand back. */
  class ElementArray {
    var items: seq<Element>

    constructor(items: seq<Element>)
      ensures this.items == items
    {
      this.items := items;
    }
  }
}
