/** The store's derived values (`useGetters`): the component tables for
    node and edge types, the rendered node and edge lists, the selected
    items and the initialization flags, each as a function of one state. */
module Getters {
  import opened Common
  import opened Elements
  import opened GraphGeometry
  import opened GraphQueries

  /** What a type table maps a type name to: a built-in or user component
      (named here by its component name), or, for a type nobody registered,
      the type name itself, which Vue later resolves as a component name. */
  datatype TypeValue = Component(name: string) | TypeName(name: string)

  /** `defaultNodeTypes`. */
  const DefaultNodeTypes: map<string, TypeValue> :=
    map["input" := Component("InputNode"), "default" := Component("DefaultNode"),
        "output" := Component("OutputNode")]

  /** `defaultEdgeTypes`. */
  const DefaultEdgeTypes: map<string, TypeValue> :=
    map["default" := Component("BezierEdge"), "straight" := Component("StraightEdge"),
        "step" := Component("StepEdge"), "smoothstep" := Component("SmoothStepEdge"),
        "simplebezier" := Component("SimpleBezierEdge")]

  /** The part of the store state the getters read. */
  datatype FlowState = FlowState(
    nodes: seq<Node>,
    edges: seq<Edge>,
    nodeTypes: map<string, TypeValue>,
    edgeTypes: map<string, TypeValue>,
    onlyRenderVisibleElements: bool,
    width: real,
    height: real,
    viewport: Viewport)

  // ---------------------------------------------------------------- types

  /** The truthy element types that no key of `known` names. */
  function UnknownTypes(known: set<string>, types: seq<Option<string>>): set<string> {
    set i | 0 <= i < |types| && Truthy(types[i]) && types[i].value !in known :: types[i].value
  }

  /** `merged` with every name of `unknown` mapped to itself. */
  function WithOwnNames(merged: map<string, TypeValue>, unknown: set<string>): map<string, TypeValue> {
    merged + map t | t in unknown :: TypeName(t)
  }

  /** The unknown types of a prefix grow by the next element's type when
      it is truthy and unknown, and stay as they were otherwise. */
  lemma UnknownTypesStep(known: set<string>, types: seq<Option<string>>, i: nat)
    requires i < |types|
    ensures UnknownTypes(known, types[..i + 1])
         == UnknownTypes(known, types[..i])
            + (if Truthy(types[i]) && types[i].value !in known then {types[i].value} else {})
  {
    var before := UnknownTypes(known, types[..i]);
    var after := UnknownTypes(known, types[..i + 1]);
    assert types[..i + 1][i] == types[i];
    forall t | t in after
      ensures t in before || (Truthy(types[i]) && types[i].value !in known && t == types[i].value)
    {
      var j :| 0 <= j < i + 1 && Truthy(types[..i + 1][j]) && types[..i + 1][j].value !in known
               && t == types[..i + 1][j].value;
      if j < i {
        assert types[..i][j] == types[..i + 1][j];
      }
    }
    forall t | t in before
      ensures t in after
    {
      var j :| 0 <= j < i && Truthy(types[..i][j]) && types[..i][j].value !in known && t == types[..i][j].value;
      assert types[..i + 1][j] == types[..i][j];
    }
  }

  /** Adding a name that is not a key of `merged` maps it to itself. */
  lemma WithOwnNamesAdd(merged: map<string, TypeValue>, unknown: set<string>, t: string)
    requires t !in merged
    ensures WithOwnNames(merged, unknown)[t := TypeName(t)] == WithOwnNames(merged, unknown + {t})
  {
  }

  /** The table `{ ...defaults, ...custom }` extended, for every element
      type that is truthy and not among its keys, by that type mapped to
      its own name. */
  function TypeTable(defaults: map<string, TypeValue>, custom: map<string, TypeValue>,
                     types: seq<Option<string>>): (r: map<string, TypeValue>)
    ensures forall k :: k in custom ==> k in r && r[k] == custom[k]
    ensures forall k :: k in defaults && k !in custom ==> k in r && r[k] == defaults[k]
    ensures forall i :: (0 <= i < |types| && Truthy(types[i])
                         && types[i].value !in defaults && types[i].value !in custom) ==>
              types[i].value in r && r[types[i].value] == TypeName(types[i].value)
    ensures forall k :: k in r <==>
              k in defaults || k in custom
              || exists i :: 0 <= i < |types| && Truthy(types[i]) && types[i].value == k
  {
    var merged := defaults + custom;
    var unknown := UnknownTypes(merged.Keys, types);
    assert forall i :: 0 <= i < |types| && Truthy(types[i]) && types[i].value !in merged ==>
             types[i].value in unknown;
    WithOwnNames(merged, unknown)
  }

  /** The loop both type getters run: it adds the unknown element types to
      the merged table one element at a time, against the keys the table
      had before the loop. */
  method AddElementTypes(defaults: map<string, TypeValue>, custom: map<string, TypeValue>,
                         types: seq<Option<string>>) returns (table: map<string, TypeValue>)
    ensures table == TypeTable(defaults, custom, types)
  {
    table := defaults + custom;
    ghost var merged := table;
    var keys := table.Keys;
    assert UnknownTypes(keys, types[..0]) == {};
    var i := 0;
    while i < |types|
      invariant 0 <= i <= |types|
      invariant table == WithOwnNames(merged, UnknownTypes(keys, types[..i]))
    {
      UnknownTypesStep(keys, types, i);
      ghost var before := UnknownTypes(keys, types[..i]);
      ghost var after := UnknownTypes(keys, types[..i + 1]);
      if Truthy(types[i]) && types[i].value !in keys {
        assert after == before + {types[i].value};
        WithOwnNamesAdd(merged, before, types[i].value);
        table := table[types[i].value := TypeName(types[i].value)];
        assert table == WithOwnNames(merged, after);
      } else {
        assert after == before;
        assert table == WithOwnNames(merged, after);
      }
      i := i + 1;
    }
    assert types[..|types|] == types;
  }

  /** `getEdgeTypes`. */
  method GetEdgeTypes(state: FlowState) returns (table: map<string, TypeValue>)
    ensures table == TypeTable(DefaultEdgeTypes, state.edgeTypes, Map(state.edges, (e: Edge) => e.edgeType))
  {
    table := AddElementTypes(DefaultEdgeTypes, state.edgeTypes, Map(state.edges, (e: Edge) => e.edgeType));
  }

  /** `getNodeTypes`. */
  method GetNodeTypes(state: FlowState) returns (table: map<string, TypeValue>)
    ensures table == TypeTable(DefaultNodeTypes, state.nodeTypes, Map(state.nodes, (n: Node) => n.nodeType))
  {
    table := AddElementTypes(DefaultNodeTypes, state.nodeTypes, Map(state.nodes, (n: Node) => n.nodeType));
  }

  /** A user table cannot lose a built-in edge type: every default name is
      a key, and it keeps the default component unless the user replaced it. */
  lemma EdgeTypesKeepDefaults(state: FlowState, k: string)
    requires k in DefaultEdgeTypes
    ensures var table := TypeTable(DefaultEdgeTypes, state.edgeTypes, Map(state.edges, (e: Edge) => e.edgeType));
      k in table && (k !in state.edgeTypes ==> table[k] == DefaultEdgeTypes[k])
  {
  }

  /** An edge whose type nobody registered renders with the component of
      that name. */
  lemma UnknownEdgeTypeIsItsName(state: FlowState, i: int)
    requires 0 <= i < |state.edges| && Truthy(state.edges[i].edgeType)
    requires state.edges[i].edgeType.value !in DefaultEdgeTypes
    requires state.edges[i].edgeType.value !in state.edgeTypes
    ensures var table := TypeTable(DefaultEdgeTypes, state.edgeTypes, Map(state.edges, (e: Edge) => e.edgeType));
      var t := state.edges[i].edgeType.value;
      t in table && table[t] == TypeName(t)
  {
    var types := Map(state.edges, (e: Edge) => e.edgeType);
    assert types[i] == state.edges[i].edgeType;
  }

  // ------------------------------------------------------ rendered lists

  /** The pane, `{ x: 0, y: 0, width, height }`. */
  function Pane(state: FlowState): Rect {
    Rect(0.0, 0.0, state.width, state.height)
  }

  /** Whether `getNodes` keeps the node when only visible elements render
      (`getNodesInside` needs a zoom other than zero). */
  predicate NodeRendered(state: FlowState, n: Node) {
    state.viewport.zoom != 0.0 && IsInside(n, PaneRect(Pane(state), state.viewport), true, false)
  }

  /** `getNodes`: every node, or, when only visible elements render, the
      nodes `getNodesInside` finds (partially) inside the pane. */
  method GetNodes(state: FlowState) returns (nodes: seq<Node>)
    requires state.onlyRenderVisibleElements ==> state.viewport.zoom != 0.0
    ensures !state.onlyRenderVisibleElements ==> nodes == state.nodes
    ensures state.onlyRenderVisibleElements ==>
      nodes == Filter(state.nodes, (n: Node) => NodeRendered(state, n))
  {
    if state.onlyRenderVisibleElements {
      nodes := GetNodesInside(state.nodes, Pane(state), state.viewport, true, false);
      assert Filter(state.nodes, (n: Node) => IsInside(n, PaneRect(Pane(state), state.viewport), true, false))
          == Filter(state.nodes, (n: Node) => NodeRendered(state, n)) by {
        FilterExt(state.nodes, (n: Node) => IsInside(n, PaneRect(Pane(state), state.viewport), true, false),
                  (n: Node) => NodeRendered(state, n));
      }
    } else {
      nodes := state.nodes;
    }
  }

  /** The argument `getEdges` hands to `isEdgeVisible` for one edge: the
      end nodes' positions (the origin while not computed) and sizes, the
      pane size and the viewport. */
  datatype EdgeView = EdgeView(
    sourcePos: Point, targetPos: Point,
    sourceWidth: Option<real>, sourceHeight: Option<real>,
    targetWidth: Option<real>, targetHeight: Option<real>,
    width: real, height: real, viewport: Viewport)

  function PositionOr0(n: Node): Point {
    if n.computedPosition.Some? then Point(n.computedPosition.value.x, n.computedPosition.value.y)
    else Point(0.0, 0.0)
  }

  function ViewOf(source: Node, target: Node, state: FlowState): EdgeView {
    EdgeView(PositionOr0(source), PositionOr0(target),
             source.dimensions.width, source.dimensions.height,
             target.dimensions.width, target.dimensions.height,
             state.width, state.height, state.viewport)
  }

  /** Both end nodes are in the lookup. */
  predicate EndsKnown(e: Edge, nodeLookup: map<string, Node>) {
    e.source in nodeLookup && e.target in nodeLookup
  }

  /** Whether `getEdges` keeps the edge when only visible elements render. */
  predicate EdgeRendered(state: FlowState, nodeLookup: map<string, Node>, isEdgeVisible: EdgeView -> bool, e: Edge) {
    EndsKnown(e, nodeLookup) && isEdgeVisible(ViewOf(nodeLookup[e.source], nodeLookup[e.target], state))
  }

  /** Filtering one more element of a prefix. */
  lemma FilterPrefixStep<T>(s: seq<T>, i: nat, p: T -> bool)
    requires i < |s|
    ensures Filter(s[..i + 1], p) == Filter(s[..i], p) + (if p(s[i]) then [s[i]] else [])
  {
    FilterAppend(s[..i], s[i], p);
    assert s[..i + 1] == s[..i] + [s[i]];
  }

  /** `EdgeRendered` as a filter. */
  function RenderedBy(state: FlowState, nodeLookup: map<string, Node>, isEdgeVisible: EdgeView -> bool): Edge -> bool {
    e => EdgeRendered(state, nodeLookup, isEdgeVisible, e)
  }

  /** The loop of `getEdges` when only visible elements render: the edges
      `isEdgeVisible` accepts, in order, or the `TypeError` (`None`) of an
      edge with an end node missing from the lookup. */
  method VisibleEdges(state: FlowState, nodeLookup: map<string, Node>, isEdgeVisible: EdgeView -> bool)
    returns (edges: Option<seq<Edge>>)
    ensures edges.None? <==> exists i :: 0 <= i < |state.edges| && !EndsKnown(state.edges[i], nodeLookup)
    ensures edges.Some? ==>
      edges.value == Filter(state.edges, RenderedBy(state, nodeLookup, isEdgeVisible))
  {
    ghost var p := RenderedBy(state, nodeLookup, isEdgeVisible);
    var visibleEdges := [];
    var i := 0;
    while i < |state.edges|
      invariant 0 <= i <= |state.edges|
      invariant forall j :: 0 <= j < i ==> EndsKnown(state.edges[j], nodeLookup)
      invariant visibleEdges == Filter(state.edges[..i], p)
    {
      var edge := state.edges[i];
      if edge.source !in nodeLookup || edge.target !in nodeLookup {
        return None;
      }
      var source := nodeLookup[edge.source];
      var target := nodeLookup[edge.target];
      FilterPrefixStep(state.edges, i, p);
      if isEdgeVisible(ViewOf(source, target, state)) {
        visibleEdges := visibleEdges + [edge];
      }
      i := i + 1;
    }
    assert state.edges[..i] == state.edges;
    edges := Some(visibleEdges);
  }

  /** `getEdges`: every edge, or, when only visible elements render, the
      edges `isEdgeVisible` accepts. */
  method GetEdges(state: FlowState, nodeLookup: map<string, Node>, isEdgeVisible: EdgeView -> bool)
    returns (edges: Option<seq<Edge>>)
    ensures !state.onlyRenderVisibleElements ==> edges == Some(state.edges)
    ensures state.onlyRenderVisibleElements ==>
      (edges.None? <==> exists i :: 0 <= i < |state.edges| && !EndsKnown(state.edges[i], nodeLookup))
    ensures state.onlyRenderVisibleElements && edges.Some? ==>
      edges.value == Filter(state.edges, RenderedBy(state, nodeLookup, isEdgeVisible))
  {
    if state.onlyRenderVisibleElements {
      edges := VisibleEdges(state, nodeLookup, isEdgeVisible);
    } else {
      edges := Some(state.edges);
    }
  }

  /** `getElements`: the rendered nodes followed by the rendered edges. */
  method GetElements(state: FlowState, nodeLookup: map<string, Node>, isEdgeVisible: EdgeView -> bool)
    returns (elements: Option<seq<Element>>)
    requires state.onlyRenderVisibleElements ==> state.viewport.zoom != 0.0
    ensures !state.onlyRenderVisibleElements ==>
      elements == Some(Map(state.nodes, (n: Node) => NodeElement(n)) + Map(state.edges, (e: Edge) => EdgeElement(e)))
    ensures state.onlyRenderVisibleElements && elements.Some? ==>
      elements.value == Map(Filter(state.nodes, (n: Node) => NodeRendered(state, n)), (n: Node) => NodeElement(n))
        + Map(Filter(state.edges, RenderedBy(state, nodeLookup, isEdgeVisible)), (e: Edge) => EdgeElement(e))
  {
    var nodes := GetNodes(state);
    var edges := GetEdges(state, nodeLookup, isEdgeVisible);
    if edges.None? {
      return None;
    }
    elements := Some(Map(nodes, (n: Node) => NodeElement(n)) + Map(edges.value, (e: Edge) => EdgeElement(e)));
  }

  // ------------------------------------------------------------ selection

  predicate NodeSelected(n: Node) {
    IsTrue(n.selected)
  }

  predicate EdgeSelected(e: Edge) {
    IsTrue(e.selected)
  }

  /** `getSelectedNodes`. */
  method GetSelectedNodes(state: FlowState) returns (selectedNodes: seq<Node>)
    ensures selectedNodes == Filter(state.nodes, NodeSelected)
    ensures forall n :: n in selectedNodes <==> n in state.nodes && NodeSelected(n)
  {
    selectedNodes := [];
    var i := 0;
    while i < |state.nodes|
      invariant 0 <= i <= |state.nodes|
      invariant selectedNodes == Filter(state.nodes[..i], NodeSelected)
    {
      FilterAppend(state.nodes[..i], state.nodes[i], NodeSelected);
      assert state.nodes[..i + 1] == state.nodes[..i] + [state.nodes[i]];
      if state.nodes[i].selected == Some(true) {
        selectedNodes := selectedNodes + [state.nodes[i]];
      }
      i := i + 1;
    }
    assert state.nodes[..i] == state.nodes;
    forall n ensures n in selectedNodes <==> n in state.nodes && NodeSelected(n) {
      FilterMembership(state.nodes, NodeSelected, n);
    }
  }

  /** `getSelectedEdges`. */
  method GetSelectedEdges(state: FlowState) returns (selectedEdges: seq<Edge>)
    ensures selectedEdges == Filter(state.edges, EdgeSelected)
    ensures forall e :: e in selectedEdges <==> e in state.edges && EdgeSelected(e)
  {
    selectedEdges := [];
    var i := 0;
    while i < |state.edges|
      invariant 0 <= i <= |state.edges|
      invariant selectedEdges == Filter(state.edges[..i], EdgeSelected)
    {
      FilterAppend(state.edges[..i], state.edges[i], EdgeSelected);
      assert state.edges[..i + 1] == state.edges[..i] + [state.edges[i]];
      if state.edges[i].selected == Some(true) {
        selectedEdges := selectedEdges + [state.edges[i]];
      }
      i := i + 1;
    }
    assert state.edges[..i] == state.edges;
    forall e ensures e in selectedEdges <==> e in state.edges && EdgeSelected(e) {
      FilterMembership(state.edges, EdgeSelected, e);
    }
  }

  /** `getSelectedElements`: the selected nodes, then the selected edges. */
  method GetSelectedElements(state: FlowState) returns (selected: seq<Element>)
    ensures selected == Map(Filter(state.nodes, NodeSelected), (n: Node) => NodeElement(n))
                      + Map(Filter(state.edges, EdgeSelected), (e: Edge) => EdgeElement(e))
    ensures forall el :: el in selected <==>
      (el.NodeElement? && el.node in state.nodes && NodeSelected(el.node))
      || (el.EdgeElement? && el.edge in state.edges && EdgeSelected(el.edge))
  {
    var nodes := GetSelectedNodes(state);
    var edges := GetSelectedEdges(state);
    var a := Map(nodes, (n: Node) => NodeElement(n));
    var b := Map(edges, (e: Edge) => EdgeElement(e));
    selected := a + b;
    forall el ensures el in selected <==>
      (el.NodeElement? && el.node in state.nodes && NodeSelected(el.node))
      || (el.EdgeElement? && el.edge in state.edges && EdgeSelected(el.edge))
    {
      if el.NodeElement? {
        assert el in b ==> false;
        if el.node in nodes {
          var j :| 0 <= j < |nodes| && nodes[j] == el.node;
          assert a[j] == el;
        }
      } else {
        assert el in a ==> false;
        if el.edge in edges {
          var j :| 0 <= j < |edges| && edges[j] == el.edge;
          assert b[j] == el;
        }
      }
    }
  }

  // ------------------------------------------------------- initialization

  /** The test of `getNodesInitialized`: both measured sides are non-zero
      and the handle bounds are set. */
  predicate Initialized(n: Node) {
    NonZero(n.dimensions.width) && NonZero(n.dimensions.height) && n.handleBounds
  }

  /** `getNodesInitialized`, which walks all nodes of the state. */
  method GetNodesInitialized(state: FlowState) returns (initializedNodes: seq<Node>)
    ensures initializedNodes == Filter(state.nodes, Initialized)
    ensures forall n :: n in initializedNodes <==> n in state.nodes && Initialized(n)
  {
    initializedNodes := [];
    var i := 0;
    while i < |state.nodes|
      invariant 0 <= i <= |state.nodes|
      invariant initializedNodes == Filter(state.nodes[..i], Initialized)
    {
      var node := state.nodes[i];
      FilterAppend(state.nodes[..i], node, Initialized);
      assert state.nodes[..i + 1] == state.nodes[..i] + [node];
      if NonZero(node.dimensions.width) && NonZero(node.dimensions.height) && node.handleBounds {
        initializedNodes := initializedNodes + [node];
      }
      i := i + 1;
    }
    assert state.nodes[..i] == state.nodes;
    forall n ensures n in initializedNodes <==> n in state.nodes && Initialized(n) {
      FilterMembership(state.nodes, Initialized, n);
    }
  }

  /** A filter keeps its whole input exactly when every element passes. */
  lemma {:induction false} FilterKeepsAll<T>(s: seq<T>, p: T -> bool)
    ensures |Filter(s, p)| == |s| <==> forall i :: 0 <= i < |s| ==> p(s[i])
    decreases |s|
  {
    if s != [] {
      var init := s[..|s| - 1];
      FilterKeepsAll(init, p);
      assert forall i :: 0 <= i < |init| ==> init[i] == s[i];
    }
  }

  /** `areNodesInitialized`: some node renders and the count of
      initialized nodes (over all nodes) equals the count of rendered
      nodes. */
  method AreNodesInitialized(state: FlowState) returns (initialized: bool)
    requires state.onlyRenderVisibleElements ==> state.viewport.zoom != 0.0
    ensures !state.onlyRenderVisibleElements ==>
      (initialized <==> |state.nodes| > 0 && |Filter(state.nodes, Initialized)| == |state.nodes|)
    ensures state.onlyRenderVisibleElements ==>
      (initialized <==> |Filter(state.nodes, (n: Node) => NodeRendered(state, n))| > 0
                        && |Filter(state.nodes, Initialized)| == |Filter(state.nodes, (n: Node) => NodeRendered(state, n))|)
  {
    var nodes := GetNodes(state);
    var initializedNodes := GetNodesInitialized(state);
    initialized := |nodes| > 0 && |initializedNodes| == |nodes|;
  }

  /** With every element rendered, the nodes count as initialized exactly
      when there is at least one node and every node is measured and has
      its handle bounds. */
  lemma AllNodesInitialized(state: FlowState)
    requires !state.onlyRenderVisibleElements
    ensures (|state.nodes| > 0 && |Filter(state.nodes, Initialized)| == |state.nodes|)
        <==> state.nodes != [] && forall i :: 0 <= i < |state.nodes| ==> Initialized(state.nodes[i])
  {
    FilterKeepsAll(state.nodes, Initialized);
  }
}
