/** Rectangle, box and viewport arithmetic of the graph utilities:
    overlap areas, clamping, rect/box conversion, bounds, the two
    viewport transforms and the absolute position of a child node. */
module GraphGeometry {
  import opened Common
  import opened Elements
  import Utils

  /** `{ x, y, width, height }`. */
  datatype Rect = Rect(x: real, y: real, width: real, height: real)

  /** `{ x, y, x2, y2 }`: the two corners. */
  datatype Box = Box(x: real, y: real, x2: real, y2: real)

  /** `{ x, y, zoom }`. */
  datatype Viewport = Viewport(x: real, y: real, zoom: real)

  /** `nodeToRect`: the computed position (origin when unset) and the
      measured size (0 when unset or 0). */
  function NodeToRect(node: Node): (r: Rect)
    ensures node.computedPosition.Some? ==>
      r.x == node.computedPosition.value.x && r.y == node.computedPosition.value.y
    ensures node.computedPosition.None? ==> r.x == 0.0 && r.y == 0.0
    ensures r.width == node.dimensions.width.GetOr(0.0) && r.height == node.dimensions.height.GetOr(0.0)
  {
    var p := match node.computedPosition
      case Some(c) => Point(c.x, c.y)
      case None => Point(0.0, 0.0);
    Rect(p.x, p.y, node.dimensions.width.GetOr(0.0), node.dimensions.height.GetOr(0.0))
  }

  /** The length two intervals `[a, a + la]` and `[b, b + lb]` share. */
  function Overlap1D(a: real, la: real, b: real, lb: real): (r: real)
    ensures r >= 0.0
    ensures a + la <= b || b + lb <= a ==> r == 0.0
  {
    Max(0.0, Min(a + la, b + lb) - Max(a, b))
  }

  /** The shared length does not depend on the order of the intervals. */
  lemma Overlap1DSymmetric(a: real, la: real, b: real, lb: real)
    ensures Overlap1D(a, la, b, lb) == Overlap1D(b, lb, a, la)
  {
  }

  /** `getOverlappingArea`: the area of the intersection, rounded up. */
  function GetOverlappingArea(rectA: Rect, rectB: Rect): (r: int)
    ensures r >= 0
    ensures var xOverlap := Overlap1D(rectA.x, rectA.width, rectB.x, rectB.width);
            var yOverlap := Overlap1D(rectA.y, rectA.height, rectB.y, rectB.height);
      xOverlap * yOverlap <= r as real < xOverlap * yOverlap + 1.0
  {
    var xOverlap := Overlap1D(rectA.x, rectA.width, rectB.x, rectB.width);
    var yOverlap := Overlap1D(rectA.y, rectA.height, rectB.y, rectB.height);
    assert xOverlap * yOverlap >= 0.0;
    Ceil(xOverlap * yOverlap)
  }

  /** The overlap does not depend on the order of the rectangles. */
  lemma OverlapSymmetric(a: Rect, b: Rect)
    ensures GetOverlappingArea(a, b) == GetOverlappingArea(b, a)
  {
    Overlap1DSymmetric(a.x, a.width, b.x, b.width);
    Overlap1DSymmetric(a.y, a.height, b.y, b.height);
  }

  /** Rectangles apart on either axis do not overlap. */
  lemma OverlapDisjoint(a: Rect, b: Rect)
    requires a.x + a.width <= b.x || b.x + b.width <= a.x
          || a.y + a.height <= b.y || b.y + b.height <= a.y
    ensures GetOverlappingArea(a, b) == 0
  {
    var xo := Overlap1D(a.x, a.width, b.x, b.width);
    var yo := Overlap1D(a.y, a.height, b.y, b.height);
    assert xo == 0.0 || yo == 0.0;
    assert xo * yo == 0.0;
  }

  /** A rectangle of non-negative size overlaps itself by its own area
      (rounded up). */
  lemma OverlapSelf(a: Rect)
    requires a.width >= 0.0 && a.height >= 0.0
    ensures GetOverlappingArea(a, a) == Ceil(a.width * a.height)
  {
    assert Overlap1D(a.x, a.width, a.x, a.width) == a.width;
    assert Overlap1D(a.y, a.height, a.y, a.height) == a.height;
  }

  /** `clamp(val, min, max)`: `Math.min(Math.max(val, min), max)`. */
  function Clamp(val: real, min: real, max: real): (r: real)
    ensures min <= max ==> min <= r <= max
    ensures min <= val <= max ==> r == val
    ensures val < min && min <= max ==> r == min
    ensures max < val ==> r == max
  {
    Min(Max(val, min), max)
  }

  /** Clamping twice is clamping once. */
  lemma ClampIdempotent(val: real, min: real, max: real)
    requires min <= max
    ensures Clamp(Clamp(val, min, max), min, max) == Clamp(val, min, max)
  {
  }

  /** `clamp` against bounds that may be infinite. */
  function ClampExtended(val: real, min: Option<real>, max: Option<real>): (r: real)
    ensures min.Some? ==> r >= min.value || (max.Some? && r == max.value)
    ensures max.Some? ==> r <= max.value
    ensures (min.None? || min.value <= val) && (max.None? || val <= max.value) ==> r == val
  {
    var low := if min.Some? then Max(val, min.value) else val;
    if max.Some? then Min(low, max.value) else low
  }

  /** The lower corner is not above the upper one where both are finite. */
  predicate WellFormed(e: CoordinateExtent) {
    (e.x1.Some? && e.x2.Some? ==> e.x1.value <= e.x2.value)
    && (e.y1.Some? && e.y2.Some? ==> e.y1.value <= e.y2.value)
  }

  /** The point lies in the extent. */
  predicate InExtent(p: Point, e: CoordinateExtent) {
    (e.x1.None? || e.x1.value <= p.x) && (e.x2.None? || p.x <= e.x2.value)
    && (e.y1.None? || e.y1.value <= p.y) && (e.y2.None? || p.y <= e.y2.value)
  }

  /** `clampPosition`: each axis clamped into the extent, so a well-formed
      extent contains the result, and a point already inside is kept. */
  function ClampPosition(position: Point, extent: CoordinateExtent): (r: Point)
    ensures WellFormed(extent) ==> InExtent(r, extent)
    ensures InExtent(position, extent) ==> r == position
  {
    Point(ClampExtended(position.x, extent.x1, extent.x2), ClampExtended(position.y, extent.y1, extent.y2))
  }

  /** `rendererPointToPoint`: from flow coordinates to the screen. */
  function RendererPointToPoint(p: Point, viewport: Viewport): (r: Point)
    ensures viewport.zoom != 0.0 ==>
      (r.x - viewport.x) / viewport.zoom == p.x && (r.y - viewport.y) / viewport.zoom == p.y
  {
    Point(p.x * viewport.zoom + viewport.x, p.y * viewport.zoom + viewport.y)
  }

  /** Multiplying back undoes a division. */
  lemma DivMul(a: real, z: real, q: real)
    requires z != 0.0 && q == a / z
    ensures q * z == a
  {
  }

  /** `pointToRendererPoint`: from the screen to flow coordinates,
      snapped when asked. A zero zoom divides by zero in the JavaScript
      and is excluded. */
  function PointToRendererPoint(p: Point, viewport: Viewport, snapToGrid: bool,
                                snapGrid: Option<(real, real)>): (r: Point)
    requires viewport.zoom != 0.0
    requires snapGrid.None? || (snapGrid.value.0 != 0.0 && snapGrid.value.1 != 0.0)
    ensures !snapToGrid ==> RendererPointToPoint(r, viewport) == p
  {
    var qx := (p.x - viewport.x) / viewport.zoom;
    var qy := (p.y - viewport.y) / viewport.zoom;
    DivMul(p.x - viewport.x, viewport.zoom, qx);
    DivMul(p.y - viewport.y, viewport.zoom, qy);
    var position := Point(qx, qy);
    assert RendererPointToPoint(position, viewport) == Point(qx * viewport.zoom + viewport.x, qy * viewport.zoom + viewport.y);
    if snapToGrid then Utils.SnapPosition(position, snapGrid) else position
  }

  /** Without snapping the two transforms are inverse to each other, in
      both orders. */
  lemma TransformRoundTrip(p: Point, viewport: Viewport)
    requires viewport.zoom != 0.0
    ensures PointToRendererPoint(RendererPointToPoint(p, viewport), viewport, false, None) == p
    ensures RendererPointToPoint(PointToRendererPoint(p, viewport, false, None), viewport) == p
  {
    var z := viewport.zoom;
    assert (p.x * z + viewport.x - viewport.x) / z == p.x * z / z;
    assert (p.y * z + viewport.y - viewport.y) / z == p.y * z / z;
  }

  /** `getBoundsOfBoxes`. */
  function GetBoundsOfBoxes(box1: Box, box2: Box): (r: Box)
    ensures r.x <= box1.x && r.x <= box2.x && r.y <= box1.y && r.y <= box2.y
    ensures r.x2 >= box1.x2 && r.x2 >= box2.x2 && r.y2 >= box1.y2 && r.y2 >= box2.y2
    ensures (r.x == box1.x || r.x == box2.x) && (r.y == box1.y || r.y == box2.y)
    ensures (r.x2 == box1.x2 || r.x2 == box2.x2) && (r.y2 == box1.y2 || r.y2 == box2.y2)
  {
    Box(Min(box1.x, box2.x), Min(box1.y, box2.y), Max(box1.x2, box2.x2), Max(box1.y2, box2.y2))
  }

  function RectToBox(r: Rect): (b: Box)
    ensures b.x == r.x && b.y == r.y && b.x2 - b.x == r.width && b.y2 - b.y == r.height
  {
    Box(r.x, r.y, r.x + r.width, r.y + r.height)
  }

  function BoxToRect(b: Box): (r: Rect)
    ensures r.x == b.x && r.y == b.y && r.x + r.width == b.x2 && r.y + r.height == b.y2
  {
    Rect(b.x, b.y, b.x2 - b.x, b.y2 - b.y)
  }

  /** The two conversions are inverse to each other. */
  lemma RectBoxRoundTrip(r: Rect, b: Box)
    ensures BoxToRect(RectToBox(r)) == r
    ensures RectToBox(BoxToRect(b)) == b
  {
  }

  /** `inner` lies within `outer`. */
  predicate Contains(outer: Rect, inner: Rect) {
    outer.x <= inner.x && outer.y <= inner.y
    && inner.x + inner.width <= outer.x + outer.width
    && inner.y + inner.height <= outer.y + outer.height
  }

  /** `getBoundsofRects`: the smallest rectangle around both. */
  function GetBoundsofRects(rect1: Rect, rect2: Rect): (r: Rect)
    ensures Contains(r, rect1) && Contains(r, rect2)
    ensures r.x == Min(rect1.x, rect2.x) && r.y == Min(rect1.y, rect2.y)
    ensures r.x + r.width == Max(rect1.x + rect1.width, rect2.x + rect2.width)
    ensures r.y + r.height == Max(rect1.y + rect1.height, rect2.y + rect2.height)
  {
    BoxToRect(GetBoundsOfBoxes(RectToBox(rect1), RectToBox(rect2)))
  }

  /** `getXYZPos`: a child's absolute position from its parent's, one
      level above the higher of the two. */
  function GetXYZPos(parentPos: XYZ, computedPosition: XYZ): (r: XYZ)
    ensures r.x - parentPos.x == computedPosition.x && r.y - parentPos.y == computedPosition.y
    ensures r.z == Max(parentPos.z, computedPosition.z) + 1.0
    ensures r.z > parentPos.z && r.z > computedPosition.z
  {
    XYZ(computedPosition.x + parentPos.x, computedPosition.y + parentPos.y,
        (if parentPos.z > computedPosition.z then parentPos.z else computedPosition.z) + 1.0)
  }
}
