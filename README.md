# A verified model of the Vue Flow core

Vue Flow draws node graphs in the browser: nodes are boxes that can be dragged around a pane, and edges are SVG paths between handles on their sides. The components are thin. The work is done by plain functions that the components call. This project models those functions in Dafny and proves what they promise. They fall into four groups.

- **Edge path geometry.** There are several builders: the straight edge, the curvature Bézier edge, the simple Bézier edge and the orthogonal "smooth step" router (the step edge is the router with no corner radius). Each takes two handle points and their sides and returns a path, a label point and a label offset. The anchor circle's centre is shifted by its radius. Coordinates are `real`. A path is a sequence of `M`/`L`/`C`/`Q` commands, and its exact text goes through an abstract number formatter.
- **Graph element lists.** Adding, updating and de-duplicating edges. Applying add/remove/select/position/dimension changes to an element list in place. Selection diffs. The store's node and edge construction, with its error reports. The connection lookup of nested maps, with its diffs and equality tests. Connected-element queries, rectangle and box conversions, viewport transforms, marker ids and the store's getters.
- **Position clamping.** Extent padding shorthand, parent extents, shrinking an extent by a node's size, clamping into it, converting between absolute and parent-relative positions, snap to grid and auto-pan velocity.
- **Small state machines.** The node click selection toggle, the key-combination matcher with its ordered set of pressed keys, and the event hook's listener set, which swaps out a default handler.

Where the source mutates an array, a map or an object in place, the model is a class whose `seq`/`map` fields the methods reassign. Examples are:

- the element list under `applyChanges`, `addEdge` and the `updateEdge` splice;
- the connection lookup;
- the pressed-key set;
- the listener set;
- the store flags touched by a node click.

Pure expression code is modelled as functions. Loops in the source are methods with loop invariants, each proved against a specification function.

| module | file | models |
|---|---|---|
| `Common` | common.dfy | points, sides, `Option`, JS truthiness, ordered sets, `Math.round`/`Math.ceil` via floor, the square-root predicate |
| `Elements` | elements.dfy | nodes, edges, elements, id lookups |
| `EdgeGeneral` | edge_general.dfy | `getSimpleEdgeCenter`, `getBezierEdgeCenter` (JS and TS) |
| `Straight` | straight.dfy | `getStraightPath` (JS and TS) |
| `Bezier` | bezier.dfy | `calculateControlOffset`, `getControlWithCurvature`, `getBezierPath` |
| `SimpleBezier` | simple_bezier.dfy | `getControl`, `getSimpleBezierPath` |
| `SmoothStep` | smoothstep.dfy | `handleDirections`, `getDirection`, `distance`, `getPoints`, `getBend`, `getSmoothStepPath`, the step edge |
| `EdgeAnchor` | edge_anchor.dfy | `shiftX`, `shiftY`, the anchor centre |
| `GraphGeometry` | graph_geometry.dfy | overlap, clamp, rect/box conversions, viewport transforms, `getXYZPos` |
| `GraphQueries` | graph_queries.dfy | `getRectOfNodes`, `getNodesInside`, connected edges/nodes, outgoers/incomers, `isParentSelected` |
| `GraphEdges` | graph_edges.dfy | `getEdgeId`, `connectionExists`, `addEdge`, `updateEdge` |
| `Marker` | marker.dfy | `getMarkerId` |
| `Changes` | changes.dfy | `applyChanges`, `handleParentExpand`, `getSelectionChanges`, change constructors |
| `StoreEdges` | store_edges.dfy | `addEdgeToStore`, `updateEdgeAction`, `createGraphEdges` |
| `StoreNodes` | store_nodes.dfy | `createGraphNodes` |
| `ConnectionLookup` | connection_lookup.dfy | `addConnectionToLookup`, `updateConnectionLookup`, `handleConnectionChange`, `areConnectionMapsEqual`, `areSetsEqual` |
| `Drag` | drag.dfy | `getDragItems`, `getEventHandlerParams`, `getExtentPadding`, `getParentExtent`, `getExtent`, `clampNodeExtent`, `calcNextPosition` |
| `AutoPan` | autopan.dfy | `calcAutoPanVelocity`, `calcAutoPan` |
| `Utils` | utils_general.dfy | `getEventPosition`, `getNodeDimensions`, `snapPosition` |
| `NodeClick` | node_click.dfy | `handleNodeClick` |
| `KeyPress` | key_press.dfy | `isKeyMatch`, `createKeyPredicate`, `useKeyOrCode` |
| `EventHook` | event_hook.dfy | `createExtendedEventHook`: `on`, `off`, the returned off, `trigger`, `hasListeners` |
| `Getters` | getters.dfy | edge/node types, node/edge lists, selected getters, initialized nodes |

Errors that the source reports through `VueFlowError` and the store's error emitter are an `ErrorCode` datatype. They are either returned or appended to an error log that the method updates.

Some behaviour of the code that is easy to misread:

- A right handle at (0,0) facing a left handle at (100,0) gets a smooth-step route without any rounded corner. With the default gap of 20 every point of that route lies on the line y = 0. `getBend` then emits plain line commands, so the path has no `Q` at all. `SmoothStep.RightToLeftCurves` states this: there are no curves when the handles are level, and exactly two otherwise.
- `areNodesInitialized` counts the initialized nodes over all nodes. It compares that count with the number of nodes `getNodes` returns, which may be only the visible ones. `Getters.AreNodesInitialized` follows the code.
- In `createGraphEdges` the combined "source and target missing" test runs first, so the separate `EDGE_SOURCE_MISSING` and `EDGE_TARGET_MISSING` branches (store.js:313-325) can never be reached. `StoreEdges.CreateGraphEdgesValid` proves that neither of those two codes is ever reported.
- In `createGraphNodes` the fallback `|| '[ID UNKNOWN|INDEX i]'` is applied to a freshly constructed error object, so it never takes effect.
- The TypeScript twins `ts/general.ts` and `ts/straight.ts` have exactly the same bodies as the JavaScript files, so one definition models both.

## Model

| member | source | states |
|---|---|---|
| EdgeGeneral.SimpleEdgeCenter | packages/core/src/components/Edges/utils/general.js:19-27 | the centre is the arithmetic midpoint of source and target; the offsets are half the absolute span on each axis, non-negative, equal to the distance from the source to the centre; the centre lies between the two ends on each axis |
| EdgeGeneral.SimpleEdgeCenterSwap | packages/core/src/components/Edges/utils/general.js:19-27 | swapping source and target leaves all four outputs unchanged |
| EdgeGeneral.SimpleEdgeCenterCoincident | packages/core/src/components/Edges/utils/ts/general.ts:15-21 | coincident end points give that point as centre and zero offsets (the TypeScript twin has the same body as the JavaScript one) |
| EdgeGeneral.BezierEdgeCenter | packages/core/src/components/Edges/utils/general.js:54-65 | the centre is the t = 1/2 point of the cubic Bézier curve in Bernstein form, so it lies within the min/max of the four defining values on each axis; the offsets are the absolute distance of the centre from the source, hence non-negative |
| EdgeGeneral.BezierEdgeCenterConstant | packages/core/src/components/Edges/utils/ts/general.ts:45-48 | the weights sum to one: four equal points give that point with zero offsets |
| EdgeGeneral.BezierEdgeCenterReverse | packages/core/src/components/Edges/utils/general.js:54-63 | reversing the curve (ends and controls swapped) keeps the centre |
| Straight.GetStraightPath | packages/core/src/components/Edges/utils/straight.js:14-31 | the path is a moveto at the source and one lineto at the target, with text `M sx,syL tx,ty`; the label is the midpoint of the ends and the offsets are half the absolute deltas |
| Straight.StraightExample | packages/core/src/components/Edges/utils/ts/straight.ts:22-41 | (0,0) to (10,0) gives `M 0,0L 10,0`, label (5,0) and offset (5,0) |
| Straight.StraightSwap | packages/core/src/components/Edges/utils/straight.js:17-30 | swapping the ends keeps label and offsets and reverses the path's points |
| Bezier.CalculateControlOffset | packages/core/src/components/Edges/utils/bezier.js:11-17 | half the distance when the distance is non-negative, else curvature·25·sqrt(−distance); 0 at distance 0; non-negative whenever the curvature is |
| Bezier.GetControlWithCurvature | packages/core/src/components/Edges/utils/bezier.js:19-40 | the control point keeps the handle's cross-axis coordinate, sits at the midpoint when the other end lies ahead of the handle, and for a non-negative curvature moves outward from the handle on its side |
| Bezier.GetBezierPath | packages/core/src/components/Edges/utils/bezier.js:56-101 | absent sides default to bottom/top and the curvature to 0.25; the path is `M s C sc tc t` with both controls from `getControlWithCurvature`, and the label and offsets are the Bézier centre of those four points |
| Bezier.BezierExample | packages/core/src/components/Edges/utils/bezier.js:56-101 | bottom (0,0) to top (0,100) with the defaults gives `M0,0 C0,50 0,50 0,100` and label (0,50) |
| Bezier.CurveExampleText | packages/core/src/components/Edges/utils/bezier.js:94-100 | the path text of that example is `M0,0 C0,50 0,50 0,100` |
| Bezier.BezierSwap | packages/core/src/components/Edges/utils/bezier.js:67-92 | swapping the ends together with their sides keeps the label and reverses the curve |
| SimpleBezier.GetControl | packages/core/src/components/Edges/utils/simple-bezier.js:21-36 | for left/right the control is (midpoint x, own y); for top/bottom it is (own x, midpoint y) |
| SimpleBezier.GetSimpleBezierPath | packages/core/src/components/Edges/utils/simple-bezier.js:51-94 | absent sides default to bottom/top; the target control is `getControl` with the roles swapped; the path is `M s C sc tc t` and the label is the Bézier centre |
| SimpleBezier.SimpleBezierMidpointLabel | packages/core/src/components/Edges/utils/simple-bezier.js:61-85 | when both sides are horizontal, or both vertical, the label is exactly the midpoint of source and target |
| SimpleBezier.SimpleBezierSwap | packages/core/src/components/Edges/utils/simple-bezier.js:61-85 | swapping the ends together with their sides keeps the label and reverses the curve |
| EdgeAnchor.ShiftX | packages/core/src/components/Edges/EdgeAnchor.js:18-26 | left subtracts the shift, right adds it, top and bottom leave x alone; x moves by exactly the shift or not at all |
| EdgeAnchor.ShiftY | packages/core/src/components/Edges/EdgeAnchor.js:35-43 | top subtracts the shift, bottom adds it, left and right leave y alone; y moves by exactly the shift or not at all |
| EdgeAnchor.AnchorCenter | packages/core/src/components/Edges/EdgeAnchor.js:55-66 | absent properties default to radius 10, centre (0,0) and side top; exactly one coordinate moves, by the radius, in the side's direction |
| EdgeAnchor.AnchorCenterDefaults | packages/core/src/components/Edges/EdgeAnchor.js:55-66 | with every property absent the centre is (0, −10) |
| SmoothStep.HandleDirection | packages/core/src/components/Edges/utils/smoothstep.js:11-16 | each side's direction is a unit axis vector, horizontal exactly for left and right |
| SmoothStep.GetDirection | packages/core/src/components/Edges/utils/smoothstep.js:26-31 | left/right sources route along x, others along y; the sign is +1 iff the source is before the target on that axis |
| SmoothStep.Gapped | packages/core/src/components/Edges/utils/smoothstep.js:62-69 | the handle point moves by the offset along its side's own axis only, the other coordinate unchanged, and for a non-negative offset away from the node: left and top decrease, right and bottom increase |
| SmoothStep.Distance | packages/core/src/components/Edges/utils/smoothstep.js:39-41 | for a square root the result is non-negative and its square is the sum of the squared deltas |
| SmoothStep.DistanceAlongAxis | packages/core/src/components/Edges/utils/smoothstep.js:39-41 | two points on one horizontal or vertical line are their coordinate difference apart |
| SmoothStep.SplitPoints | packages/core/src/components/Edges/utils/smoothstep.js:101-117 | the split for opposite handles is two points sharing x = cx (with the stubs' y) or sharing y = cy (with the stubs' x) |
| SmoothStep.CornerPoint | packages/core/src/components/Edges/utils/smoothstep.js:119-127 | the one interior point of a same-side or mixed-side route takes x from one gapped end and y from the other |
| SmoothStep.GapOffsets | packages/core/src/components/Edges/utils/smoothstep.js:129-145 | no stub moves unless both sides are equal and the axis distance is at most the offset; then exactly one stub moves, only along the routing axis, by min(offset − 1, offset − diff) |
| SmoothStep.CornerLabel | packages/core/src/components/Edges/utils/smoothstep.js:177-193 | the label shares a coordinate with the corner and lies within the box spanned by the two gap points and the corner; CornerLabelOnLonger places it on the longer segment |
| SmoothStep.CornerLabelOnLonger | packages/core/src/components/Edges/utils/smoothstep.js:177-193 | for gap points joined to the corner by axis-parallel segments, the label lies on the longer of the two segments (either one on a tie), at its middle unless the three points are in line |
| SmoothStep.GetPoints | packages/core/src/components/Edges/utils/smoothstep.js:54-211 | the point list starts at the raw source, ends at the raw target, has 6 points for opposite handles and 5 otherwise, and returns the straight-centre offsets of the raw ends; where the label goes is stated by GetPointsOpposite and GetPointsCornerLabel |
| SmoothStep.GetPointsOpposite | packages/core/src/components/Edges/utils/smoothstep.js:95-117 | for opposite handles the stubs are the plain gapped points, the two interior points share the override (or midpoint) coordinate, and that centre is the label |
| SmoothStep.OppositeRoute | packages/core/src/components/Edges/utils/smoothstep.js:95-117 | for opposite handles the route is source, gapped source, the split, gapped target, target |
| SmoothStep.GetPointsCorner | packages/core/src/components/Edges/utils/smoothstep.js:119-166 | for same or mixed sides the one interior point is (sourceGapped.x, targetGapped.y) or (targetGapped.x, sourceGapped.y) |
| SmoothStep.GetPointsGapCorrection | packages/core/src/components/Edges/utils/smoothstep.js:129-145 | without the overlap correction the stubs are the gapped points; with it exactly one stub moves, along the routing axis, by the gap size |
| SmoothStep.SameSideStubsOrdered | packages/core/src/components/Edges/utils/smoothstep.js:129-145 | with an offset above 1, two handles on the same side get stubs strictly ordered along the routing direction, so the corrected stubs never overlap |
| SmoothStep.SameSidePoints | packages/core/src/components/Edges/utils/smoothstep.js:169-176 | for handles on one side the stubs are the gapped points plus their gap offsets |
| SmoothStep.StubsOrdered1D | packages/core/src/components/Edges/utils/smoothstep.js:130-143 | the same ordering on the routing axis alone |
| SmoothStep.GetPointsRectilinear | packages/core/src/components/Edges/utils/smoothstep.js:196-208 | every segment of the returned route is horizontal or vertical |
| SmoothStep.GetPointsCornerLabel | packages/core/src/components/Edges/utils/smoothstep.js:169-193 | for same or mixed sides, the route's label lies on the longer of the two segments that meet at the corner, at its middle unless the segments are in line |
| SmoothStep.BendSize | packages/core/src/components/Edges/utils/smoothstep.js:222 | the bend is at most `size` and at most half of each adjoining segment, and non-negative for a non-negative size |
| SmoothStep.GetBend | packages/core/src/components/Edges/utils/smoothstep.js:221-242 | a collinear triple gives a plain `L` to the corner; otherwise a line then one quadratic curve whose control is the corner |
| SmoothStep.BendOnSegments | packages/core/src/components/Edges/utils/smoothstep.js:221-242 | at a right-angled corner the curve starts on the incoming segment and ends on the outgoing one, both the clamped bend size from the corner |
| SmoothStep.SharpBend | packages/core/src/components/Edges/StepEdge.js:31 | with border radius 0 (the step edge) a bend starts, bends and ends at the corner |
| SmoothStep.Segments | packages/core/src/components/Edges/utils/smoothstep.js:284-296 | the fold over the points starts with `M` at the first point and ends with `L` at the last |
| SmoothStep.GetSmoothStepPath | packages/core/src/components/Edges/utils/smoothstep.js:261-299 | defaults bottom/top, radius 5 and offset 20; `M` at the source, one bend per interior point, `L` at the target; the text starts with `M` and the source coordinates and ends with `L` and the target coordinates; label from the route; offsets are the straight-centre offsets of the raw ends |
| SmoothStep.CountQSegments | packages/core/src/components/Edges/utils/smoothstep.js:284-296 | the path has exactly one quadratic curve per turning interior point |
| SmoothStep.RightToLeftRoute | packages/core/src/components/Edges/utils/smoothstep.js:95-117 | a right handle facing a left handle further right routes through the vertical line half way between them, and the label is the midpoint |
| SmoothStep.RightToLeftCurves | packages/core/src/components/Edges/utils/smoothstep.js:261-299 | with the defaults that path has no quadratic curve when the handles are level and exactly two otherwise |
| SmoothStep.CrossOverCorners | packages/core/src/components/Edges/utils/smoothstep.js:221-228 | the crossing route turns at both ends of its vertical run unless the handles are level |
| SmoothStep.StepEdgeSharp | packages/core/src/components/Edges/StepEdge.js:31 | with border radius 0 every quadratic curve in the path ends at its own control point |
| GraphGeometry.NodeToRect | packages/core/src/utils/graph.js:4-10 | the rectangle is the computed position (origin when unset) with the measured size (0 when unset) |
| GraphGeometry.Overlap1D | packages/core/src/utils/graph.js:13-22 | the shared length of two intervals is non-negative and 0 when they are apart |
| GraphGeometry.Overlap1DSymmetric | packages/core/src/utils/graph.js:13-22 | the shared length does not depend on the order of the intervals |
| GraphGeometry.GetOverlappingArea | packages/core/src/utils/graph.js:12-25 | the area is non-negative and is the rounded-up product of the overlaps on the two axes |
| GraphGeometry.OverlapSymmetric | packages/core/src/utils/graph.js:12-25 | the overlap does not depend on the order of the rectangles |
| GraphGeometry.OverlapDisjoint | packages/core/src/utils/graph.js:12-25 | rectangles apart on either axis overlap by 0 |
| GraphGeometry.OverlapSelf | packages/core/src/utils/graph.js:12-25 | a rectangle overlaps itself by its own area rounded up |
| GraphGeometry.Clamp | packages/core/src/utils/graph.js:34-36 | for min ≤ max the result is in [min, max]; a value inside is kept; below min gives min; above max gives max |
| GraphGeometry.ClampIdempotent | packages/core/src/utils/graph.js:34-36 | clamping twice is clamping once |
| GraphGeometry.ClampExtended | packages/core/src/utils/graph.js:34-36 | clamping against bounds that may be infinite keeps the result within the finite ones and keeps a value already inside |
| GraphGeometry.ClampPosition | packages/core/src/utils/graph.js:38-43 | each axis is clamped into the extent: a well-formed extent contains the result, and a point already inside is kept |
| GraphGeometry.PointToRendererPoint | packages/core/src/utils/graph.js:301-313 | without snapping, mapping the result back with `rendererPointToPoint` gives the input point |
| GraphGeometry.TransformRoundTrip | packages/core/src/utils/graph.js:294-313 | for a non-zero zoom and snapping off the two transforms are inverse to each other, in both orders |
| GraphGeometry.RendererPointToPoint | packages/core/src/utils/graph.js:294-299 | for a non-zero zoom, taking off the translation and dividing by the zoom gives the flow point back, so `pointToRendererPoint` without snapping inverts it |
| GraphGeometry.GetBoundsOfBoxes | packages/core/src/utils/graph.js:315-322 | the result contains both boxes and each of its sides is a side of one of them |
| GraphGeometry.RectToBox | packages/core/src/utils/graph.js:324-331 | the box has the rectangle's corner and its far corner is the corner plus the size |
| GraphGeometry.BoxToRect | packages/core/src/utils/graph.js:333-340 | the rectangle has the box's corner and its size is the span between the corners |
| GraphGeometry.RectBoxRoundTrip | packages/core/src/utils/graph.js:324-340 | `boxToRect(rectToBox(r)) = r` and `rectToBox(boxToRect(b)) = b` |
| GraphGeometry.GetBoundsofRects | packages/core/src/utils/graph.js:343-345 | the result contains both rectangles and is the smallest such: its sides are the min and max of the inputs' sides |
| GraphGeometry.GetXYZPos | packages/core/src/utils/graph.js:471-478 | the child position is the parent's plus the relative one on x and y, and z is one above the higher of the two |
| GraphQueries.BoundsOfNodes | packages/core/src/utils/graph.js:347-364 | the fold of the node boxes is empty exactly for no nodes |
| GraphQueries.BoundsOfNodesContain | packages/core/src/utils/graph.js:347-364 | the bounds hold every node's box |
| GraphQueries.BoundsOfNodesAttained | packages/core/src/utils/graph.js:347-364 | each side of the bounds is the side of some node |
| GraphQueries.BoundsOfNodesTight | packages/core/src/utils/graph.js:347-367 | the bounds are the tightest box around all nodes |
| GraphQueries.GetRectOfNodes | packages/core/src/utils/graph.js:347-367 | the loop returns the rectangle of the fold of all node boxes; for no nodes there is none |
| GraphQueries.GetNodesInside | packages/core/src/utils/graph.js:369-408 | the loop returns exactly the nodes that pass the visibility test against the pane rectangle, in order |
| GraphQueries.IsInsideCases | packages/core/src/utils/graph.js:385-405 | hidden and excluded non-selectable nodes never pass; dragged and unmeasured ones always; a measured node passes iff the pane covers all of its area or, with `partially`, any of it |
| GraphQueries.NodesInsideMembership | packages/core/src/utils/graph.js:369-408 | a node is returned iff it is one of the nodes and passes the test |
| GraphQueries.GetConnectedEdges | packages/core/src/utils/graph.js:410-424 | the loop returns exactly the edges whose source or target is among the ids, in their original order |
| GraphQueries.ConnectedEdgesMembership | packages/core/src/utils/graph.js:410-424 | an edge is returned iff it is one of the edges and one of its ends is among the ids |
| GraphQueries.Keys | packages/core/src/utils/graph.js:427 | the ids of the node-or-id entries, position by position |
| GraphQueries.ConnectedToSnoc | packages/core/src/utils/graph.js:429-443 | one more edge connects what the fewer did, and its own ends |
| GraphQueries.GetConnectedNodes | packages/core/src/utils/graph.js:426-448 | the input entries, filtered in their order and with repeats kept, down to those some edge links to an input entry; so an entry is returned iff it is an input linked that way |
| GraphQueries.GetConnectedElements | packages/core/src/utils/graph.js:160-174 | the nodes, filtered in their order and with repeats kept, down to those at the `dir` end of an edge whose other end is the id; membership iff |
| GraphQueries.GetOutgoers | packages/core/src/utils/graph.js:176-180 | with three arguments, the nodes filtered in order down to exactly those some edge from the id points to |
| GraphQueries.GetIncomers | packages/core/src/utils/graph.js:192-196 | with three arguments, the nodes filtered in order down to exactly those with an edge pointing to the id |
| GraphQueries.FindNodeElement | packages/core/src/utils/graph.js:187-189 | the found node is a node element with that id; there is none iff no node element has it |
| GraphQueries.ElementEnds | packages/core/src/utils/graph.js:182-189 | with two arguments, one entry per matching edge, in edge order: the first node element at the far end, or none |
| GraphQueries.IsParentSelectedAncestor | packages/core/src/utils/graph.js:480-495 | `isParentSelected` holds iff one of the ancestors within reach is selected |
| GraphQueries.IsParentSelected | packages/core/src/utils/graph.js:480-495 | true only for a node whose parent id is set and found, and always true when that parent is selected; IsParentSelectedAncestor gives the whole chain |
| GraphEdges.GetEdgeId | packages/core/src/utils/graph.js:208-212 | the id is `vueflow__edge-` followed by source, source handle (empty when absent), `-`, target and target handle |
| GraphEdges.EdgeIdCollision | packages/core/src/utils/graph.js:208-212 | the id is not unique per connection: node `a` with handle `b` and node `ab` without a handle get the same id |
| GraphEdges.ConnectionExists | packages/core/src/utils/graph.js:214-225 | true iff some element is an edge with the same source and target and, per end, an identical handle or two falsy ones |
| GraphEdges.ParseEdge | packages/core/src/utils/graph.js:136-158 | a fresh edge keeps the given id, ends and handles; its type is the parameters' type, else the default options' type, else `'default'` |
| GraphEdges.EdgeFromParams | packages/core/src/utils/graph.js:240-251 | the built edge connects what the parameters name; a full edge keeps its id, a bare connection gets `getEdgeId` |
| GraphEdges.AddEdgeCases | packages/core/src/utils/graph.js:233-259 | nothing changes without a source or a target or when the connection exists; otherwise exactly the new edge is appended at the end |
| GraphEdges.AddEdgeIdempotent | packages/core/src/utils/graph.js:253-258 | after `addEdge` the connection exists, so adding the same parameters again changes nothing |
| GraphEdges.AddEdge | packages/core/src/utils/graph.js:233-259 | the array is changed in place to exactly the result the cases describe |
| GraphEdges.FindEdgeIndex | packages/core/src/utils/graph.js:273 | the index of the first edge element with the id, or −1 iff there is none |
| GraphEdges.ReplacementEdge | packages/core/src/utils/graph.js:280-287 | the replacement keeps the old edge's other fields, takes the new ends and handles, and the generated id |
| GraphEdges.UpdateEdgeCases | packages/core/src/utils/graph.js:267-292 | unchanged without a source or target or an edge with the old id; otherwise the array has the old edge replaced in place, nothing else changed, and the returned list is exactly the elements without the old id |
| GraphEdges.UpdateEdgeDropsSameId | packages/core/src/utils/graph.js:288-291 | when the generated id equals the old id, the edge `splice` put in is removed again by the `filter` |
| GraphEdges.UpdateEdgeIntendedKeepsNewEdge | packages/core/src/utils/graph.js:267-292 | the corrected update always holds the new edge, keeps every element without the old id, and no other element with it |
| GraphEdges.UpdateEdge | packages/core/src/utils/graph.js:267-292 | the array is spliced in place and the filtered copy returned, exactly as the cases describe |
| Marker.StrLeTotal | packages/core/src/utils/graph.js:509 | the code-point string order is total; it is the order `sort` uses for keys up to U+FFFF |
| Marker.StrLeAntisymmetric | packages/core/src/utils/graph.js:509 | the code-point string order is antisymmetric |
| Marker.StrLeTransitive | packages/core/src/utils/graph.js:509 | the code-point string order is transitive |
| Marker.Insert | packages/core/src/utils/graph.js:509 | inserting one key adds exactly that key to the multiset |
| Marker.InsertSorted | packages/core/src/utils/graph.js:509 | inserting into a sorted list keeps it sorted |
| Marker.Sort | packages/core/src/utils/graph.js:508-509 | the sorted keys are a permutation of the keys, in code-point order (the order of `sort` for keys up to U+FFFF) |
| Marker.SortedUnique | packages/core/src/utils/graph.js:509 | there is only one sorted arrangement of a multiset of keys |
| Marker.Join | packages/core/src/utils/graph.js:511 | joining no parts gives the empty string and one part gives that part |
| Marker.Pairs | packages/core/src/utils/graph.js:508-510 | the pair texts are `key=value` for the keys in sorted order |
| Marker.GetMarkerId | packages/core/src/utils/graph.js:497-512 | an undefined marker gives `''`; a string marker is returned verbatim; an object marker gives `vueFlowId__` (when the id is truthy) followed by its sorted `key=value` pairs joined by `&` |
| Marker.LookupEntry | packages/core/src/utils/graph.js:510 | `marker[key]` reads the value of the entry with that key |
| Marker.MarkerIdOrderIndependent | packages/core/src/utils/graph.js:497-512 | the marker id depends only on the object's entries, not on the order its properties were written in |
| Changes.CreateSelectionChange | packages/core/src/utils/changes.js:213-219 | a `select` change for that id with that flag |
| Changes.CreateAdditionChange | packages/core/src/utils/changes.js:221-226 | an `add` change carrying the item, with no id of its own |
| Changes.CreateNodeRemoveChange | packages/core/src/utils/changes.js:228-233 | a `remove` change for that id without edge ends |
| Changes.CreateEdgeRemoveChange | packages/core/src/utils/changes.js:235-250 | a `remove` change for that id with the edge's ends; a falsy handle is stored as `null`, a truthy one as given |
| Changes.AddRemoveStep | packages/core/src/utils/changes.js:110-124 | an addition appends its item iff no element has its id, after which some element has it; a removal never grows the array; other changes are not applied in this phase |
| Changes.SpliceIsFilter | packages/core/src/utils/changes.js:117-122 | splicing out the one element that fails a filter is filtering |
| Changes.RemoveIsFilter | packages/core/src/utils/changes.js:117-122 | with unique ids, a removal deletes exactly the element with that id; an absent id leaves the array unchanged |
| Changes.AddRemoveKeepsUnique | packages/core/src/utils/changes.js:110-124 | one addition or removal keeps ids unique |
| Changes.AddRemovePhaseKeepsUnique | packages/core/src/utils/changes.js:106-124 | the whole first loop keeps ids unique |
| Changes.ParentExpandOffsets | packages/core/src/utils/changes.js:51-77 | after the expansion the child position is ≥ 0 on both axes, and the parent has moved back by exactly the negative part of the child's old offset |
| Changes.ParentExpandContainsChild | packages/core/src/utils/changes.js:6-84 | when the parent's size comes from its measured dimensions, the expanded parent holds the child's far edge |
| Changes.ParentExpand | packages/core/src/utils/changes.js:4-103 | nothing changes unless the child overhangs or has a negative offset; the ids and the child's size are kept; ParentExpandOffsets, ParentExpandGrows and ParentExpandContainsChild state the new positions and sizes |
| Changes.ParentExpandGrows | packages/core/src/utils/changes.js:29-103 | once triggered, the parent's style holds its new width and height; each is known exactly when the old style or measured size was, and is never smaller than it |
| Changes.HandleParentExpand | packages/core/src/utils/changes.js:4-103 | the field-by-field assignments produce exactly the new child and parent of the expansion |
| Changes.SetSelected | packages/core/src/utils/changes.js:136 | setting `selected` keeps the id and kind and makes `selected` the given flag |
| Changes.ExpandAt | packages/core/src/utils/changes.js:148-154 | the parent expansion after an update keeps every id, position and kind in the array |
| Changes.ApplyOne | packages/core/src/utils/changes.js:130-196 | one change applied to one element keeps every id, position and kind |
| Changes.ApplyAllAt | packages/core/src/utils/changes.js:129-197 | all changes applied to one element keep every id, position and kind |
| Changes.UpdatePhase | packages/core/src/utils/changes.js:128-198 | the update loops keep every id, position and kind |
| Changes.ApplyChanges | packages/core/src/utils/changes.js:105-201 | the array is changed in place to the additions and removals followed by the per-element updates |
| Changes.ApplyAddRemove | packages/core/src/utils/changes.js:106-124 | the first loop leaves the array the addition and removal steps give, in order |
| Changes.ApplyUpdates | packages/core/src/utils/changes.js:126-198 | the nested loops leave the array the per-element updates give, in order |
| Changes.ApplyChange | packages/core/src/utils/changes.js:130-196 | the loop body leaves the array one change gives for one element |
| Changes.ApplyPosition | packages/core/src/utils/changes.js:138-156 | a position change on a graph node writes its defined position and dragging flag, then expands the parent |
| Changes.ApplyDimensions | packages/core/src/utils/changes.js:157-195 | a dimensions change on a graph node writes its defined dimensions, the style when `updateStyle`, the resizing flag, then expands a measured parent |
| Changes.ExpandParent | packages/core/src/utils/changes.js:178-193 | the expansion step changes the array exactly as the expansion says |
| Changes.OtherChangeUntouched | packages/core/src/utils/changes.js:130-132 | a change naming another element, or an addition or removal, leaves the element untouched in the update loops |
| Changes.SelectEffect | packages/core/src/utils/changes.js:135-137 | a select change sets `selected` on the matching element only, and every other element is untouched |
| Changes.UpdatesNeedGraphNode | packages/core/src/utils/changes.js:138-139 | position and dimension changes take effect only on graph nodes |
| Changes.PositionEffect | packages/core/src/utils/changes.js:138-147 | without parent expansion a position change writes exactly the fields it defines and nothing else |
| Changes.DimensionsEffect | packages/core/src/utils/changes.js:157-177 | without parent expansion a dimensions change writes its defined dimensions and resizing flag, and a style only when asked to; nothing else changes |
| Changes.ApplyChangesShape | packages/core/src/utils/changes.js:105-201 | all additions and removals come before any update: the result has the ids and kinds of the array the additions and removals leave |
| Changes.ApplyChangesKeepsUnique | packages/core/src/utils/changes.js:105-201 | with unique ids going in, ids stay unique |
| Changes.ItemMap.constructor | packages/core/src/utils/changes.js:252-256 | the map holds the given entries |
| Changes.SelectionChanges | packages/core/src/utils/changes.js:257-277 | at most one change per entry |
| Changes.MutatedEntries | packages/core/src/utils/changes.js:267-272 | mutating keeps the number of entries |
| Changes.GetSelectionChanges | packages/core/src/utils/changes.js:252-278 | the loop emits the selection changes in entry order; with `mutateItem` the entries that got a change have `selected` set to their membership, without it no entry changes |
| Changes.SelectionChangesSound | packages/core/src/utils/changes.js:259-275 | a change is emitted iff some entry's `selected` differs from its membership (a falsy-undefined entry staying unselected excepted), and it selects exactly by membership |
| Changes.UndefinedStaysQuiet | packages/core/src/utils/changes.js:262-264 | an entry with undefined `selected` that stays unselected never gets a change |
| Changes.MutatedNeedsNoChange | packages/core/src/utils/changes.js:267-273 | after mutating, running the diff again emits no change |
| StoreEdges.AsElements | packages/core/src/utils/store.js:44 | the store's edges seen as elements, one per edge in order, for the duplicate test |
| StoreEdges.AddEdgeToStore | packages/core/src/utils/store.js:19-49 | `EDGE_INVALID` (with the given id or `[ID UNKNOWN]`) exactly when the parameters are missing or lack a truthy source or target; a returned edge has the parameters' connection, the own id of a full edge or the generated one otherwise, and no store edge already joins that connection; `false` without an error means some store edge does |
| StoreEdges.AddEdgeToStoreOnce | packages/core/src/utils/store.js:44-46 | once the returned edge is in the store, adding the same parameters again gives `false` with no error |
| StoreEdges.UpdateEdgeAction | packages/core/src/utils/store.js:51-78 | `EDGE_INVALID` when the new connection lacks a truthy source or target, else `EDGE_NOT_FOUND` when there is no previous edge; otherwise the edge moved to the new connection, with the generated id when asked to replace it and its old id else, other fields kept; an edge comes back exactly when no error is reported |
| StoreEdges.UpdateEdgeActionSameConnection | packages/core/src/utils/store.js:68-77 | moving an edge to the connection it already has, keeping its id, gives the same edge |
| StoreEdges.ParseStoreEdge | packages/core/src/utils/store.js:341-344 | the parsed edge keeps the id and ends of the entry and the handles and type it gives; without an existing edge the connection is unchanged and a type is filled in |
| StoreEdges.EdgeStep | packages/core/src/utils/store.js:289-347 | an entry yields an edge only when both its nodes are found, which it carries, and it passed `isValidConnection` when one is given, and then with no error; no entry ever reports `EDGE_SOURCE_MISSING` or `EDGE_TARGET_MISSING` |
| StoreEdges.CreateGraphEdgesResult | packages/core/src/utils/store.js:277-351 | at most one valid edge per entry |
| StoreEdges.ProcessEdge | packages/core/src/utils/store.js:290-347 | the loop body with its early `continue`s computes exactly the addition and errors of one entry |
| StoreEdges.CreateGraphEdges | packages/core/src/utils/store.js:277-351 | the loop over the entries returns the valid edges and reports the errors of the entries, in order |
| StoreEdges.CreateGraphEdgesValid | packages/core/src/utils/store.js:298-325 | every returned edge is what some entry yields and carries the nodes the store finds for its ends; the separate source-missing and target-missing errors are never reported, since the combined check precedes them |
| StoreEdges.CreateGraphEdgesComplete | packages/core/src/utils/store.js:289-351 | every entry whose loop body yields an edge has that edge among the returned ones |
| StoreEdges.CreateGraphEdgesConcat | packages/core/src/utils/store.js:289-351 | the entries are processed independently and in order: the result for two lists run together is the two results run together, edges and errors alike |
| StoreNodes.InputId | packages/core/src/utils/store.js:89 | `node?.id`: the id of a valid input, or whatever id an invalid one has |
| StoreNodes.InitialState | packages/core/src/utils/graph.js:97-128 | a fresh node has the input's id, a type and is not yet a parent |
| StoreNodes.Pick | packages/core/src/utils/graph.js:130-133 | a field the input defines wins over the base's |
| StoreNodes.ParseNode | packages/core/src/utils/graph.js:96-134 | the parsed node has the input's id, position, parent and given type; a new node gets a type, is unselected unless the input says otherwise and sits at the input position unless a computed position is given; an existing node keeps its measured size, its parent flag and, when the input says nothing, its selection |
| StoreNodes.Holes | packages/core/src/utils/store.js:101 | the undefined slots a sparse assignment leaves: `n` of them |
| StoreNodes.FirstPass | packages/core/src/utils/store.js:84-102 | the first loop never makes the array longer than the input |
| StoreNodes.FirstLoop | packages/core/src/utils/store.js:84-102 | the loop with its `continue` and the assignment at index `i` builds the array, the parent keys and the errors of the first pass |
| StoreNodes.ShapeAppend | packages/core/src/utils/store.js:101 | assigning at index `i` past the end leaves holes for the skipped invalid inputs and the parsed node at `i` |
| StoreNodes.FirstPassShape | packages/core/src/utils/store.js:84-102 | after the first loop each slot holds the parsed node of its input or a hole for an invalid one, every input past the end is invalid, and the last slot is filled |
| StoreNodes.ShapedValid | packages/core/src/utils/store.js:95-101 | a valid input keeps that shape |
| StoreNodes.ShapedInvalid | packages/core/src/utils/store.js:87-93 | an invalid input keeps that shape |
| StoreNodes.FirstPassParents | packages/core/src/utils/store.js:97-99 | a key is in `parentNodes` iff some valid input names it as its truthy parent |
| StoreNodes.FirstPassErrors | packages/core/src/utils/store.js:87-93 | the first loop reports one `NODE_INVALID`, with the input's id, per invalid input, in order, and nothing else |
| StoreNodes.FirstPassHoles | packages/core/src/utils/store.js:84-102 | the array has a hole iff an invalid input comes before a valid one |
| StoreNodes.HoleMeansInvalidBeforeValid | packages/core/src/utils/store.js:101 | a hole implies an invalid input before a valid one |
| StoreNodes.InvalidBeforeValidMeansHole | packages/core/src/utils/store.js:101 | an invalid input before a valid one implies a hole |
| StoreNodes.FindInNext | packages/core/src/utils/store.js:107 | `find` on the sparse array: a found node has the id sought and is in the array; it throws only where there is a hole; on an array without holes it finds nothing iff no node has that id |
| StoreNodes.ParentOf | packages/core/src/utils/store.js:105-107 | a found parent is the store's node for the parent id or a node of the new array carrying that id; the lookup fails on a hole only when the array has one; a node without a parent finds none in an array without holes |
| StoreNodes.SecondPass | packages/core/src/utils/store.js:104-128 | a completed second loop has one node per slot |
| StoreNodes.SecondPassThrownStays | packages/core/src/utils/store.js:104-128 | once the loop throws, the further slots change nothing |
| StoreNodes.Marked | packages/core/src/utils/store.js:81-122 | only `isParent` changes; it becomes true when another valid input named the node as its parent, or when the node's id is a name the plain `parentNodes` object inherits from `Object.prototype`, such as `toString` or `constructor` |
| StoreNodes.InheritedIdMarked | packages/core/src/utils/store.js:81-122 | a node with id `toString` is marked as a parent although no node names it |
| StoreNodes.SecondPassStep | packages/core/src/utils/store.js:105-127 | a slot whose parent lookup does not throw adds the node, marked as a parent when `parentNodes[node.id]` is truthy (named, or an inherited name), and `NODE_MISSING_PARENT` when its truthy parent is found nowhere |
| StoreNodes.SecondLoop | packages/core/src/utils/store.js:104-128 | the `for..of` loop computes the second pass, ending with the exception at the first hole |
| StoreNodes.CreateGraphNodes | packages/core/src/utils/store.js:80-131 | the two loops give the outcome of `createGraphNodes`: the first loop's errors, then the second's |
| StoreNodes.SecondPassCompletes | packages/core/src/utils/store.js:104-128 | on an array without holes the second loop completes, marks every node and reports `NODE_MISSING_PARENT` for exactly the nodes whose truthy parent is in neither the store nor the array |
| StoreNodes.CompletesStep | packages/core/src/utils/store.js:104-128 | one more slot of an array without holes keeps that outcome |
| StoreNodes.SecondPassThrows | packages/core/src/utils/store.js:104-109 | a hole makes the second loop throw once it reaches it |
| StoreNodes.CreateGraphNodesThrows | packages/core/src/utils/store.js:80-131 | `createGraphNodes` throws iff an invalid input comes before a valid one; otherwise it returns every input parsed and marked, in order |
| StoreNodes.CreateGraphNodesThrowsExample | packages/core/src/utils/store.js:101 | an invalid entry followed by a valid node makes it throw |
| StoreNodes.IntendedNextNodes | packages/core/src/utils/store.js:101 | pushing the parsed nodes leaves no holes and no more slots than inputs |
| StoreNodes.IntendedNextNodesValues | packages/core/src/utils/store.js:84-102 | the pushed array is the parsed valid inputs in order |
| StoreNodes.CreateGraphNodesIntendedCompletes | packages/core/src/utils/store.js:80-131 | with pushes, `createGraphNodes` never throws and returns every valid input parsed and marked, in input order; it agrees with the original whenever the original does not throw |
| StoreNodes.IntendedMatchesFirstPass | packages/core/src/utils/store.js:101 | without an invalid input before a valid one, pushing and assigning at the index build the same array |
| ConnectionLookup.MapSet | packages/core/src/utils/store.js:156 | `Map.set` keeps a map well formed and stores the value under the key; an existing key keeps its place in the insertion order |
| ConnectionLookup.Placements | packages/core/src/utils/store.js:151-166 | an end is stored under `nodeId` and `nodeId-type`, and under `nodeId-type-handleId` exactly when the handle is truthy |
| ConnectionLookup.InsertAllFacts | packages/core/src/utils/store.js:154-166 | the `set` calls add the connection under each key, add only those keys, keep every map well formed and keep every other entry unchanged |
| ConnectionLookup.InsertAllValid | packages/core/src/utils/store.js:154-166 | the inner maps stay well formed |
| ConnectionLookup.InsertAllKeys | packages/core/src/utils/store.js:154-166 | the lookup's keys afterwards are the old keys and the given ones |
| ConnectionLookup.InsertAllAdds | packages/core/src/utils/store.js:154-166 | the connection is stored under the connection key at each given key |
| ConnectionLookup.InsertAllOnly | packages/core/src/utils/store.js:154-166 | any entry afterwards is the new one at a given key or an old entry unchanged |
| ConnectionLookup.InsertAllKeeps | packages/core/src/utils/store.js:154-166 | no old entry is lost |
| ConnectionLookup.AddEdgeFacts | packages/core/src/utils/store.js:172-206 | one edge stores its connection at the source end's places under the target key and at the target end's places under the source key, and changes nothing else |
| ConnectionLookup.BuildLookupValid | packages/core/src/utils/store.js:169-207 | every map of the rebuilt lookup is well formed |
| ConnectionLookup.Lookup.Clear | packages/core/src/utils/store.js:170 | the lookup is emptied |
| ConnectionLookup.Lookup.AddConnectionToLookup | packages/core/src/utils/store.js:143-167 | the lookup afterwards is the old one with the connection added at the end's places |
| ConnectionLookup.Lookup.UpdateConnectionLookup | packages/core/src/utils/store.js:169-207 | the lookup afterwards depends on the edges alone: the table built from them, whatever it held before |
| ConnectionLookup.BuildLookupComplete | packages/core/src/utils/store.js:169-207 | every end of every edge is found at each of its places under the far end's key |
| ConnectionLookup.BuildLookupSound | packages/core/src/utils/store.js:169-207 | every entry of the lookup is the connection of some edge stored at one of that edge's own places |
| ConnectionLookup.DiffKeysMembership | packages/core/src/utils/store.js:221-225 | the diff over some keys holds exactly the values of those keys that `b` lacks |
| ConnectionLookup.DiffMembership | packages/core/src/utils/store.js:219-225 | the diff holds exactly the connections stored in `a` under a key `b` does not have |
| ConnectionLookup.HandleConnectionChange | packages/core/src/utils/store.js:214-230 | the callback is called once, with the diff, exactly when there is a callback and the diff is non-empty |
| ConnectionLookup.AreConnectionMapsEqual | packages/core/src/utils/store.js:235-255 | true iff both maps are missing, or both exist with as many keys and every key of `a` in `b` |
| ConnectionLookup.ConnectionMapsEqualKeys | packages/core/src/utils/store.js:235-255 | that test is equality of the key sets; the connections stored are not compared |
| ConnectionLookup.AreSetsEqual | packages/core/src/utils/store.js:260-272 | true iff the sets have the same size and every item of `a` is in `b` |
| ConnectionLookup.AreSetsEqualIsEquality | packages/core/src/utils/store.js:260-272 | on sets without repeats that test is set equality, both ways |
| Drag.GetExtentPadding | packages/core/src/utils/drag.js:72-89 | four paddings: a number or a one-element list gives four copies, two give `[a, b, a, b]`, three give `[a, b, c, b]`, four are kept, any other length gives zeros |
| Drag.PaddingScalarIsSingleton | packages/core/src/utils/drag.js:75-88 | a number and a list of that one number pad alike |
| Drag.ParentOffset | packages/core/src/utils/drag.js:141-142 | the parent's computed position, or the origin without a parent |
| Drag.Shift | packages/core/src/utils/drag.js:158-166 | a finite bound moves by the offset; an infinite bound stays infinite |
| Drag.GetParentExtent | packages/core/src/utils/drag.js:91-114 | a box exactly when the parent's position and both sizes are known: the parent's box shrunk by the paddings of an extent object (none for the string `'parent'`) |
| Drag.GetExtent | packages/core/src/utils/drag.js:116-176 | `NODE_EXTENT_INVALID` exactly when a parent extent of a node that does not expand its parent lacks the parent node, the parent or a non-zero own size, and then the global extent untranslated; an array extent (own or global) is moved by the parent's position; `'parent'` with `expandParent` is the unbounded box |
| Drag.Translate | packages/core/src/utils/drag.js:144-147 | moving both corners keeps an extent well formed |
| Drag.Final | packages/core/src/utils/drag.js:170-175 | a remaining `'parent'` becomes the unbounded box, an array stays as it is, an extent object is handed back unconverted |
| Drag.ParentExtentIsParentBox | packages/core/src/utils/drag.js:119-134 | a measured parent confines a sized child with extent `'parent'` to exactly the parent's box |
| Drag.ClampNodeExtent | packages/core/src/utils/drag.js:178-183 | the lower corner is kept and the upper corner moves in by the width and height, a missing one counting as 0 |
| Drag.CalcNextPosition | packages/core/src/utils/drag.js:185-206 | the error is the one `getExtent` reports; the computed position is the next position clamped into the size-reduced extent, inside it when it is well formed, and the position is that minus the parent's computed position; there is no result exactly when `getExtent` returns an unconverted extent object |
| Drag.CalcNextPositionKeepsInside | packages/core/src/utils/drag.js:192-204 | a next position already inside the reduced extent is kept |
| Drag.RangeParentUnconverted | packages/core/src/utils/drag.js:116-183 | an extent `{ range: 'parent' }` on a node that expands its parent comes back from `getExtent` unconverted, so `calcNextPosition` cannot index it |
| Drag.GetExtentIntendedConfines | packages/core/src/utils/drag.js:170-175 | with the extent object treated like the string `'parent'`, every drag gives a position inside the reduced extent when that is well formed, and `{ range: 'parent' }` with `expandParent` behaves exactly as `'parent'` |
| Drag.ToDragItem | packages/core/src/utils/drag.js:35-48 | the item keeps the node's id and computed position; its distance is the mouse position minus the computed position, or zero without one |
| Drag.GetDragItems | packages/core/src/utils/drag.js:20-54 | the loop yields the drag items of the nodes that meet the three conditions, in node order |
| Drag.IsDraggedMeans | packages/core/src/utils/drag.js:29-34 | a node is dragged iff it is selected or grabbed, no ancestor within reach is selected, and it is draggable explicitly or by default |
| Drag.IsDragged | packages/core/src/utils/drag.js:29-34 | a node whose parent is found and selected is not dragged; a node without a parent is dragged exactly when it is selected or grabbed and draggable; IsDraggedMeans states the whole condition |
| Drag.DragItemsSound | packages/core/src/utils/drag.js:28-51 | every drag item is the item of a node that meets the conditions |
| Drag.DragItemsComplete | packages/core/src/utils/drag.js:28-51 | every node that meets the conditions gives a drag item |
| Drag.FoundNodes | packages/core/src/utils/drag.js:57-64 | no more nodes than drag items |
| Drag.GetEventHandlerParams | packages/core/src/utils/drag.js:56-70 | the found nodes in drag order, and the one with the given id, or the first found node when the id is falsy |
| Drag.FoundNodesMembership | packages/core/src/utils/drag.js:57-64 | a node is among the found nodes iff the store finds it for some drag item |
| AutoPan.CalcAutoPanVelocity | packages/core/src/utils/autopan.js:5-15 | 0 inside `[min, max]`; below `min` (with `min` at least 1) a velocity in `[1/min, 1]`; above `max` one in `[-1, -1/min]`; no number (the `NaN` of `0/0`) exactly when `min` is 0 outside the band |
| AutoPan.CalcAutoPan | packages/core/src/utils/autopan.js:17-24 | on each axis: no movement inside the band `distance` from each edge; `NaN` exactly when the distance is 0 and the cursor is outside the pane; for a distance of at least 1 and a positive speed, movement towards the near edge and away from the far edge |
| AutoPan.Quotient | packages/core/src/utils/autopan.js:7 | a distance clamped to `[1, min]` and divided by `min` lies in `[1/min, 1]` |
| AutoPan.VelocitySign | packages/core/src/utils/autopan.js:6-12 | below the band the velocity is positive, above it negative |
| AutoPan.DefaultAutoPan | packages/core/src/utils/autopan.js:17-24 | with speed 15 and distance 40, a cursor at least 40 from both sides does not pan horizontally, and one nearer a side pans at between 15/40 and 15, towards that side |
| AutoPan.AxesIndependent | packages/core/src/utils/autopan.js:18-21 | the horizontal movement depends only on `pos.x` and the width, the vertical only on `pos.y` and the height |
| Utils.GetEventPosition | packages/core/src/utils/general.js:9-19 | the mouse's client point, or the first touch point, minus the bounds' left and top (0 without bounds); a touch event without touches has no position |
| Utils.GetNodeDimensions | packages/core/src/utils/general.js:24-29 | per side the measured size, else the given size, else 0 |
| Utils.SnapAxis | packages/core/src/utils/general.js:33-34 | the snapped coordinate is a whole multiple of the step, within half a step of the input |
| Utils.NearestMultiple | packages/core/src/utils/general.js:33-34 | a rounded quotient multiplied back lies within half a step |
| Utils.SnapPosition | packages/core/src/utils/general.js:31-36 | each coordinate becomes a whole multiple of its grid step (default `[1, 1]`) within half a step |
| Utils.SnapAxisMultiple | packages/core/src/utils/general.js:33-34 | a multiple of the step is left where it is |
| Utils.SnapIdempotent | packages/core/src/utils/general.js:31-36 | snapping twice is snapping once |
| Utils.SnapDefaultIntegral | packages/core/src/utils/general.js:31-36 | the default grid rounds both coordinates to the nearest integer, halves upwards |
| NodeClick.ClickActionFor | packages/core/src/utils/node.js:35-43 | an unselected node is added to the selection; a selected one is removed when `unselect` or multi-selection is on; otherwise neither callback runs |
| NodeClick.HandleNodeClick | packages/core/src/utils/node.js:24-44 | the selection box flag is always cleared, and the callback invoked is the one above |
| NodeClick.ClickToggles | packages/core/src/utils/node.js:35-39 | with multi-selection on a click toggles the node's selection, so two clicks restore it |
| NodeClick.ClickKeepsSelected | packages/core/src/utils/node.js:35-43 | without multi-selection or `unselect`, a click always leaves the node selected |
| KeyPress.IndexOfText | packages/core/src/composables/useKeyPress.js:28-29 | `indexOf` for a string: the first index where the pattern occurs, or -1 when it occurs nowhere |
| KeyPress.Split | packages/core/src/composables/useKeyPress.js:30 | `split` at a one-character separator: at least one piece, no piece holds the separator, the pieces join back to the string, and there is one piece iff the separator does not occur |
| KeyPress.SplitCons | packages/core/src/composables/useKeyPress.js:30 | the split at the first separator is the piece before it followed by the split of the rest |
| KeyPress.SplitJoin | packages/core/src/composables/useKeyPress.js:30 | splitting a join of separator-free parts gives the parts back |
| KeyPress.TrimStart | packages/core/src/composables/useKeyPress.js:31 | the longest suffix that does not start with white space, only white space removed |
| KeyPress.TrimEnd | packages/core/src/composables/useKeyPress.js:31 | the longest prefix that does not end with white space, only white space removed |
| KeyPress.Trim | packages/core/src/composables/useKeyPress.js:31 | `trim`: no white space at either end, and a string without any there is kept |
| KeyPress.Lower | packages/core/src/composables/useKeyPress.js:31 | `toLowerCase` character by character |
| KeyPress.LowerKeepsPlus | packages/core/src/composables/useKeyPress.js:31 | lower-casing neither creates nor removes a plus sign |
| KeyPress.KeyCombination | packages/core/src/composables/useKeyPress.js:27-31 | a filter parses into at least one part |
| KeyPress.MatchChar | packages/core/src/composables/useKeyPress.js:28 | a one-character pattern occurs exactly where that character is |
| KeyPress.FindChar | packages/core/src/composables/useKeyPress.js:28 | searching for a one-character string finds the first index of the character |
| KeyPress.SecondReplaceNoop | packages/core/src/composables/useKeyPress.js:29 | the second `replace` changes nothing without two line breaks in a row |
| KeyPress.BreakPairAt | packages/core/src/composables/useKeyPress.js:29 | a match of two line breaks is two line breaks |
| KeyPress.ReplaceKeepsBreak | packages/core/src/composables/useKeyPress.js:28-29 | after the first `replace` there is a line break iff there was a plus sign or a line break; the second keeps a line break |
| KeyPress.SingleKeyFilter | packages/core/src/composables/useKeyPress.js:27-35 | a filter is a single key iff it holds neither a plus sign nor a line break, and then it is that key trimmed and lower-cased |
| KeyPress.FirstReplace | packages/core/src/composables/useKeyPress.js:28 | the first `replace` turns only the first plus sign into a line break |
| KeyPress.SplitAtFirstPlus | packages/core/src/composables/useKeyPress.js:27-31 | only the first plus sign separates: `a+b` gives `a` and `b` trimmed and lower-cased, with any plus sign in `b` left in it |
| KeyPress.TrimLowerKey | packages/core/src/composables/useKeyPress.js:31 | a plain key name parses to itself |
| KeyPress.PlusPartsParse | packages/core/src/composables/useKeyPress.js:27-31 | `a+b` with plain names gives exactly `[a, b]` |
| KeyPress.CtrlPlusPlus | packages/core/src/composables/useKeyPress.js:27-31 | `'ctrl++'` gives `['ctrl', '+']` |
| KeyPress.ComboMatchesPrefix | packages/core/src/composables/useKeyPress.js:42-46 | a combination matches iff it is a prefix of the pressed keys in insertion order |
| KeyPress.KeyMatchSingle | packages/core/src/composables/useKeyPress.js:33-35 | a single-key filter is a case-insensitive comparison and leaves the pressed keys alone |
| KeyPress.KeyMatchDown | packages/core/src/composables/useKeyPress.js:38-46 | on keydown a combination adds the lower-cased key first, nothing else, and matches iff it is a prefix of the keys then pressed |
| KeyPress.KeyMatchUp | packages/core/src/composables/useKeyPress.js:42-50 | on keyup a combination matches against the keys as they were and afterwards removes the key, nothing else |
| KeyPress.KeyMatchDistinct | packages/core/src/composables/useKeyPress.js:38-50 | the pressed keys stay a set |
| KeyPress.KeyMatch | packages/core/src/composables/useKeyPress.js:26-53 | a single key leaves the pressed keys as they were; on keydown no pressed key is forgotten, on keyup none is added |
| KeyPress.IsKeyMatch | packages/core/src/composables/useKeyPress.js:26-53 | the method on the shared set gives the match and the new set `isKeyMatch` defines |
| KeyPress.KeyDownStateIrrelevant | packages/core/src/composables/useKeyPress.js:38-46 | on keydown, an earlier entry adding the same key does not change a later entry's answer |
| KeyPress.AnyAtExists | packages/core/src/composables/useKeyPress.js:65-67 | some entry answers true on the starting state iff one exists that does |
| KeyPress.SomeWithStateStable | packages/core/src/composables/useKeyPress.js:65-67 | when each entry's answer does not depend on what earlier entries did to the set, the stateful `some` is the plain one |
| KeyPress.KeyDownAnyMatch | packages/core/src/composables/useKeyPress.js:64-68 | on keydown an array filter matches exactly when one of its entries matches on its own |
| KeyPress.AnyKeyMatch | packages/core/src/composables/useKeyPress.js:64-68 | an empty array matches nothing and leaves the keys alone; a first entry naming the pressed single key matches without touching the keys; KeyDownAnyMatch and AnyKeyMatchStep give the rest |
| KeyPress.UseKeyOrCode | packages/core/src/composables/useKeyPress.js:80-88 | the event's code is read iff the filter equals it or, for an array, contains it; otherwise its key |
| KeyPress.KeyPredicateResult | packages/core/src/composables/useKeyPress.js:55-78 | false, the set untouched, for an event with neither code nor key and for an empty array filter; a throw only when the key is missing, with the set untouched |
| KeyPress.AnyKeyMatchDistinct | packages/core/src/composables/useKeyPress.js:65-67 | the array filter keeps the pressed keys a set |
| KeyPress.KeyPredicateKeepsSet | packages/core/src/composables/useKeyPress.js:55-78 | whatever the event, the pressed keys stay a set |
| KeyPress.AnyKeyMatchStep | packages/core/src/composables/useKeyPress.js:65-67 | `some` stops at the first entry that matches, and otherwise goes on with the set that entry left |
| KeyPress.AnyIsKeyMatch | packages/core/src/composables/useKeyPress.js:65-67 | the early-exit loop over the entries gives the answer and the set of the stateful `some` |
| KeyPress.KeyPredicate | packages/core/src/composables/useKeyPress.js:55-78 | the predicate on the shared set gives the outcome and the new set `createKeyPredicate` defines |
| KeyPress.PlusPartNeverMatches | packages/core/src/composables/useKeyPress.js:42-46 | a combination does not match when no pressed key is named like its second part |
| KeyPress.CtrlShiftAParse | packages/core/src/composables/useKeyPress.js:27-31 | as written, `'ctrl+shift+a'` parses as `['ctrl', 'shift+a']` |
| KeyPress.ThreeKeyComboNeverMatches | packages/core/src/composables/useKeyPress.js:27-46 | as written, any three-key filter parses into two parts, the second holding a plus sign, and matches only if one pressed key is named like that second part as a whole |
| KeyPress.DeleteSecond | packages/core/src/composables/useKeyPress.js:49 | deleting the second of two keys leaves the first |
| KeyPress.OtherModifierKeyUp | packages/core/src/composables/useKeyPress.js:42-50 | releasing `x` while a different modifier is held misses `m+x` and forgets `x` |
| KeyPress.SameModifierKeyUp | packages/core/src/composables/useKeyPress.js:42-50 | releasing `x` while `m` is held matches `m+x`; once `x` is forgotten it no longer does |
| KeyPress.KeyUpArrayMisses | packages/core/src/composables/useKeyPress.js:64-68 | as written, `[m1+x, m2+x]` misses the release of `x` while `m2` is held, though `m2+x` alone matches |
| KeyPress.StepIsKeyMatch | packages/core/src/composables/useKeyPress.js:66 | one step of the `some` is one `isKeyMatch` call |
| KeyPress.SomeWithStateTwo | packages/core/src/composables/useKeyPress.js:65-67 | the stateful `some` over two entries tries the second on the set the first left |
| KeyPress.AnyKeyMatchIntended | packages/core/src/composables/useKeyPress.js:64-68 | intended: an array filter matches iff some entry matches against the same pressed keys, and a combination records the key on keydown and forgets it on keyup once |
| KeyPress.AnyKeyMatchIntendedAgrees | packages/core/src/composables/useKeyPress.js:64-68 | on keydown the source already answers as intended |
| KeyPress.KeyUpArrayIntended | packages/core/src/composables/useKeyPress.js:64-68 | the intended match sees the release of `x` that the source misses, and forgets `x` |
| KeyPress.ReplaceChar | packages/core/src/composables/useKeyPress.js:28 | replacing every occurrence of a character, nothing else |
| KeyPress.KeyCombinationIntended | packages/core/src/composables/useKeyPress.js:27-31 | intended: every plus sign separates; the parse has at least one part |
| KeyPress.JoinReplace | packages/core/src/composables/useKeyPress.js:28 | replacing every plus sign of a join by a line break joins the parts by line breaks |
| KeyPress.JoinNoDoubleBreak | packages/core/src/composables/useKeyPress.js:29 | a join of non-empty parts has no two line breaks in a row |
| KeyPress.SplitsAtEveryPlus | packages/core/src/composables/useKeyPress.js:27-31 | the intended parse of a join of key names is the names trimmed and lower-cased |
| KeyPress.PlainNoBreak | packages/core/src/composables/useKeyPress.js:31 | a plain key name holds no line break |
| KeyPress.PlainKeysParse | packages/core/src/composables/useKeyPress.js:31 | plain key names parse to themselves |
| KeyPress.IntendedParse | packages/core/src/composables/useKeyPress.js:27-31 | a join of plain key names parses, as intended, into those names |
| KeyPress.ThreeKeyComboIntended | packages/core/src/composables/useKeyPress.js:27-46 | intended: a three-key filter parses as its three names, which match when pressed in that order |
| EventHook.OnResult | packages/core/src/utils/createExtendedEventHook.js:24-29 | `fn` is registered, the default handler is gone unless it is `fn`, every other listener stays, and the set stays a set |
| EventHook.ReturnedOffResult | packages/core/src/utils/createExtendedEventHook.js:31-37 | `fn` is gone, unless it is the default handler, which is back when there is one; every other listener stays |
| EventHook.DeleteAdded | packages/core/src/utils/createExtendedEventHook.js:29-32 | deleting what was just added to a set without it restores the set |
| EventHook.DeleteAbsent | packages/core/src/utils/createExtendedEventHook.js:21 | deleting an absent listener changes nothing |
| EventHook.DeleteAppend | packages/core/src/utils/createExtendedEventHook.js:21 | deleting the last-added listener is deleting it before it was added |
| EventHook.OnThenOffRestoresDefault | packages/core/src/utils/createExtendedEventHook.js:15-37 | a fresh hook with a default handler, then `on(fn)` and the returned off, holds only the default handler again |
| EventHook.OnThenOffWithoutDefault | packages/core/src/utils/createExtendedEventHook.js:20-37 | without a default handler, `on(fn)` then the returned off restores the set exactly |
| EventHook.DefaultBackBesideOthers | packages/core/src/utils/createExtendedEventHook.js:24-37 | with two listeners registered, the returned off of one brings the default handler back beside the other |
| EventHook.ExtendedEventHook.constructor | packages/core/src/utils/createExtendedEventHook.js:8-18 | the set holds exactly the default handler when one is given, and nothing otherwise |
| EventHook.ExtendedEventHook.HasListeners | packages/core/src/utils/createExtendedEventHook.js:13 | true iff some listener is registered |
| EventHook.ExtendedEventHook.Off | packages/core/src/utils/createExtendedEventHook.js:20-22 | removes `fn` and nothing else |
| EventHook.ExtendedEventHook.On | packages/core/src/utils/createExtendedEventHook.js:24-44 | the set afterwards is `OnResult` of the set before |
| EventHook.ExtendedEventHook.ReturnedOff | packages/core/src/utils/createExtendedEventHook.js:31-37 | the set afterwards is `ReturnedOffResult` of the set before |
| EventHook.ExtendedEventHook.Trigger | packages/core/src/utils/createExtendedEventHook.js:46-48 | every registered listener is called exactly once, with the parameter, in registration order |
| Getters.UnknownTypesStep | packages/core/src/store/getters.js:24-26 | one more element adds its type to the unknown ones exactly when the type is truthy and not a key of the merged table |
| Getters.WithOwnNamesAdd | packages/core/src/store/getters.js:25 | mapping one more unknown name to itself extends the table by that entry |
| Getters.TypeTable | packages/core/src/store/getters.js:16-29 | a user type wins, a default type stays when the user did not replace it, every truthy element type no table knows maps to its own name, and the keys are exactly the defaults, the user's and the truthy element types |
| Getters.AddElementTypes | packages/core/src/store/getters.js:22-26 | the loop that fills unknown element types into the merged table, against the keys it had before the loop, builds that table |
| Getters.GetEdgeTypes | packages/core/src/store/getters.js:16-29 | the edge types are the table of the default and user edge types over the edges' types |
| Getters.GetNodeTypes | packages/core/src/store/getters.js:31-44 | the node types are the table of the default and user node types over the nodes' types |
| Getters.EdgeTypesKeepDefaults | packages/core/src/store/getters.js:16-26 | a built-in edge type is always a key and keeps its component unless the user replaced it |
| Getters.UnknownEdgeTypeIsItsName | packages/core/src/store/getters.js:24-26 | an edge type nobody registered maps to its own name |
| Getters.GetNodes | packages/core/src/store/getters.js:46-62 | all nodes when not only visible elements render; otherwise exactly the nodes (partially) inside the pane, in order |
| Getters.FilterPrefixStep | packages/core/src/store/getters.js:97-106 | filtering one more element of a prefix appends it exactly when it passes |
| Getters.VisibleEdges | packages/core/src/store/getters.js:65-89 | the edges `isEdgeVisible` accepts, in order, or the `TypeError` of an edge with an end node the lookup does not have — exactly when there is one |
| Getters.GetEdges | packages/core/src/store/getters.js:64-93 | all edges when not only visible elements render; otherwise the visible edges, or the error of a missing end node |
| Getters.GetElements | packages/core/src/store/getters.js:95 | the rendered nodes followed by the rendered edges |
| Getters.GetSelectedNodes | packages/core/src/store/getters.js:97-106 | exactly the selected nodes, in store order |
| Getters.GetSelectedEdges | packages/core/src/store/getters.js:108-117 | exactly the selected edges, in store order |
| Getters.GetSelectedElements | packages/core/src/store/getters.js:119-122 | the selected nodes followed by the selected edges, and nothing else |
| Getters.GetNodesInitialized | packages/core/src/store/getters.js:127-141 | exactly the nodes with a non-zero width and height and handle bounds, of all nodes, in order |
| Getters.FilterKeepsAll | packages/core/src/store/getters.js:146-150 | a filter keeps its whole input iff every element passes |
| Getters.AreNodesInitialized | packages/core/src/store/getters.js:146-150 | true iff some node renders and the count of initialized nodes over all nodes equals the count of rendered nodes |
| Getters.AllNodesInitialized | packages/core/src/store/getters.js:146-150 | with every element rendered, true iff there is a node and every node is initialized |
| Elements.FindIndex | packages/core/src/utils/changes.js:112 | `findIndex` by id: the first index with that id, or -1 iff there is none |
| Elements.NodeIds | packages/core/src/utils/graph.js:410-424 | the ids of the nodes, one per node in order |
| Elements.FindNode | packages/core/src/utils/drag.js:67 | `find` by id: a found node is in the list with that id; nothing is found iff no node has it |
| Common.Round | packages/core/src/utils/general.js:33-34 | `Math.round`: the integer within half of the input, halves going up |
| Common.SetAdd | packages/core/src/composables/useKeyPress.js:39 | `Set.add`: the item is present afterwards, every item before stays, nothing else joins, and the set stays a set |
| Common.SetDelete | packages/core/src/composables/useKeyPress.js:49 | `Set.delete`: the item is gone, every other item stays, nothing joins, and the set stays a set |
| Common.Ceil | packages/core/src/utils/graph.js:24 | `Math.ceil`: the least integer not below the input |

## Left out

- The DOM and event-listener code is not modelled: `useKeyPress` itself with its listeners and `createKeyFilterFn`, `isInputDOMNode`, `wasModifierPressed`, drag.js `hasSelector`, node.js `getHandleBounds`, graph.js `getHostForElement` and `getDimensions`, and `isMacOs`. These read the document, the platform or event targets. The key matcher's pressed-key set is modelled as the state those listeners keep.
- The `nextTick` blur in `handleNodeClick` is not modelled. It is a deferred DOM focus change.
- The `nextTick` deferral of `handleParentExpand` in the dimensions branch of `applyChanges` is modelled as not happening within the call. The deferred expansion runs after `applyChanges` has returned.
- `tryOnScopeDispose` in `createExtendedEventHook` is not modelled. It belongs to the framework's lifecycle.
- EventHook.ExtendedEventHook.Trigger: the `Promise.all` is modelled as calling each handler once, in set order. Asynchrony and the rejection that `Promise.all` returns are not modelled.
- Floating point is not modelled. Coordinates are `real`, with no IEEE rounding, NaN or Infinity. Where the JavaScript would produce NaN from an undefined operand, or would throw, the model returns `None`.
- `Math.sqrt` is a parameter `sqrt: real -> real`. Properties that depend on its value require `Common.IsSqrt`. No axioms are allowed, so there is no fixed square-root function.
- The text of a path uses a number formatter `fmt: real -> string`, passed as a parameter. The exact JavaScript number-to-string conversion is not modelled.
- `Math.round` and `Math.ceil` are defined through floor on reals.
- Lower-casing in the key matcher maps only the ASCII letters A to Z. Unicode case mapping is not modelled.
- GraphGeometry.PointToRendererPoint: requires a non-zero zoom and non-zero snap steps, because the JavaScript divides by them.
- GraphQueries.GetNodesInside: requires a non-zero zoom for the same reason.
- Getters.GetNodes: requires a non-zero zoom when only visible elements are rendered, because the pane is converted through `getNodesInside`.
- Getters.GetElements: requires a non-zero zoom when only visible elements are rendered, for the same reason.
- Getters.AreNodesInitialized: requires a non-zero zoom when only visible elements are rendered, for the same reason.
- Utils.SnapPosition: requires non-zero grid steps, because the JavaScript divides by them.
- `isEdgeVisible`, which decides whether an edge is rendered, is a parameter of the edge getters. Its geometry is not part of this model.
- The deprecated `getNode` and `getEdge` getters (getters.js:9, 14) are not modelled. They only look a node or edge up by id, which `Elements.FindNode` already models.
- `handleBounds` is a boolean "defined" flag. The handle rectangles themselves come from the DOM.
- `isParentSelected` climbs through parents with a `fuel` bound. The node lookup has finitely many entries, so the bound is the lookup's size. A parent cycle makes the JavaScript recurse until the stack overflows. That is not modelled.
- Marker.StrLe: keys are compared by code point, as Dafny characters are. `Array.prototype.sort` (graph.js:509) compares UTF-16 code units. The two orders agree on keys whose characters are all at most U+FFFF. They can disagree otherwise: `"\u{10000}"` (code units D800 DC00) sorts before `"｡"` (FF61) in JavaScript, but after it here. So Marker.StrLeTotal, Marker.Sort and Marker.GetMarkerId follow the JavaScript order only on such keys.
- StoreNodes.FirstPass: a parent named `__proto__` is recorded as a parent id. In the JavaScript, `parentNodes['__proto__'] = true` creates no own key. The second loop gives the same result, because `__proto__` is one of the inherited names that `StoreNodes.Marked` already treats as truthy.
- Getters.TypeTable: an element type `__proto__` is added as its own name. In the JavaScript, `edgeTypes['__proto__'] = '__proto__'` (getters.js:25) assigns a string to the prototype slot, which is ignored, so the type is not added. The other inherited names are not own keys, so the `keys.includes` test passes for them and they are added as own properties in both.
- GraphQueries.GetRectOfNodes: requires every node to have a computed position and dimensions. The JavaScript accepts any node and yields a NaN rectangle for an unmeasured one (graph.js:355-364). Every store node meets the requirement, because `parseNode` always sets both fields (graph.js:100-107).
- Drag.ParentOffset and Drag.GetParentExtent: a parent without `computedPosition` makes the JavaScript throw when it reads `parent.computedPosition.x` (drag.js:99-100, 141-142, 155-156). The model uses the origin, or no parent box, instead. Every store node has the field.
- Dynamic object handling is modelled as records with optional fields: `Object.assign` merges in `parseNode` and `parseEdge`, `markRaw`, `isNode`/`isEdge` duck typing, and spreading into new objects. The model is a fixed record update.
- Node styles in `handleParentExpand` are plain numbers. The `"px"` strings and function-valued styles are not modelled.
- `handleParentExpand` mutates the change's position object, which may be shared. This aliasing is not modelled: the model returns the new positions.
- Changes.GetSelectionChanges: with `mutateItem`, the JavaScript writes `selected` into the item objects themselves (changes.js:269), and these are the store's own node objects. The model updates its `ItemMap` only. The aliasing between that map and the store's nodes is not modelled.
- `createGraphNodes` also marks the store's existing parent node, which is its own object. That write is not modelled. The model marks only the parent in the new list.
- `calcNextPosition` reads `parent?.computedPosition` as 0 on both axes when there is no parent.
- `getTransformForBounds` (graph.js:450-469) is not modelled. It is a zoom-fitting computation used only by the viewport helpers.
- errors.js and log.js are not modelled: the message table, the Error subclass and the console warning. Errors are `Elements.Error` values, with a code and the arguments that name the id.
- A touch event whose touch list is empty makes `getEventPosition` throw. The model returns `None`. Events with no touch list at all are not modelled.
- Some default arguments are not modelled; the model's callers always pass the value. These are `clamp`'s `min = 0, max = 1` (graph.js:34), `getSelectionChanges`'s `selectedIds = new Set()` and `mutateItem = false` (changes.js:254-255) and `handleNodeClick`'s `unselect = false` (node.js:30).
- `getMarkerId(null)` throws in `Object.keys(null)` (graph.js:507-508). The marker type has no `null` case, so this throw is not modelled.
- Vue components, reactive watchers, mouse, touch and drag composables, the rendering of the edge components and the example applications are not part of this model.

## Findings

| source | as written | input that shows it | evidently intended | confidence | as-written member | corrected member |
|---|---|---|---|---|---|---|
| packages/core/src/utils/graph.js:288-291 | after splicing the new edge into the old edge's place, `updateEdge` filters out every element with the old edge's id | a connection whose `getEdgeId` equals the old edge's id: the replacement edge is removed, so the update deletes the edge | the new edge replaces the old one | not executed | GraphEdges.UpdateEdgeDropsSameId | GraphEdges.UpdateEdgeIntendedKeepsNewEdge |
| packages/core/src/utils/store.js:101 | valid nodes are stored at `nextNodes[i]`, so an invalid entry leaves a hole in the array | `[invalid node, valid node]`: the second pass gets the hole as its first `node`, and evaluating `node.parentNode` for the `findNode` call throws a TypeError (a hole met later, inside the `find` callback of an earlier node's parent lookup, throws on `n.id` instead) | invalid entries are skipped and the valid nodes are processed | not executed | StoreNodes.CreateGraphNodesThrowsExample | StoreNodes.CreateGraphNodesIntendedCompletes |
| packages/core/src/utils/drag.js:170-175 | only the string `'parent'` is turned into the unbounded box; an object extent `{ range: 'parent' }` of an `expandParent` node is returned as it is | a node with `extent: { range: 'parent' }` and `expandParent: true`: `clampNodeExtent` indexes the object as an array and fails | an extent naming the parent, as string or object, becomes the unbounded box | not executed | Drag.RangeParentUnconverted | Drag.GetExtentIntendedConfines |
| packages/core/src/composables/useKeyPress.js:27-31 | a filter is split at its first `+` only | `'ctrl+shift+a'` parses as `['ctrl', 'shift+a']`, so it matches only if one pressed key is named `shift+a` as a whole, and no key is; holding `ctrl`, `shift` and `a` together does not match | every `+` after a key name separates two keys | not executed | KeyPress.ThreeKeyComboNeverMatches | KeyPress.ThreeKeyComboIntended |
| packages/core/src/composables/useKeyPress.js:64-68 | each entry of an array filter is matched in turn on the shared pressed-key set, and on key-up a combination entry deletes the key | `['ctrl+a', 'shift+a']` with shift held: releasing `a` is missed, because the first entry deletes `a` before the second entry looks | the array matches if any one entry would match on its own | not executed | KeyPress.KeyUpArrayMisses | KeyPress.KeyUpArrayIntended |
