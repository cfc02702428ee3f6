/** Cursor positions, node sizes and snapping to a grid. */
module Utils {
  import opened Common
  import opened Elements

  /** The two kinds of screen events the pane reads: a mouse event with
      its client coordinates, or a touch event with its touch points. */
  datatype ScreenEvent = MouseEvent(clientX: real, clientY: real) | TouchEvent(touches: seq<Point>)

  /** The `left`/`top` of a bounding client rect. */
  datatype Bounds = Bounds(left: real, top: real)

  /** `getEventPosition`: the cursor relative to the bounds (or to the
      page when there are none). A touch event without a touch point
      makes the JavaScript throw; that is `None` here. */
  function GetEventPosition(event: ScreenEvent, bounds: Option<Bounds>): (r: Option<Point>)
    ensures r.None? <==> event.TouchEvent? && event.touches == []
    ensures r.Some? ==>
      var client := if event.MouseEvent? then Point(event.clientX, event.clientY) else event.touches[0];
      var left := if bounds.Some? then bounds.value.left else 0.0;
      var top := if bounds.Some? then bounds.value.top else 0.0;
      r.value.x + left == client.x && r.value.y + top == client.y
  {
    var left := if bounds.Some? then bounds.value.left else 0.0;
    var top := if bounds.Some? then bounds.value.top else 0.0;
    match event
    case MouseEvent(cx, cy) => Some(Point(cx - left, cy - top))
    case TouchEvent(touches) =>
      if touches == [] then None else Some(Point(touches[0].x - left, touches[0].y - top))
  }

  /** A `{ width, height }` pair. */
  datatype Size = Size(width: real, height: real)

  /** `getNodeDimensions`: the measured size, else the size the user gave,
      else 0, per side. */
  function GetNodeDimensions(node: Node): (r: Size)
    ensures node.dimensions.width.Some? ==> r.width == node.dimensions.width.value
    ensures node.dimensions.width.None? && node.width.Some? ==> r.width == node.width.value
    ensures node.dimensions.width.None? && node.width.None? ==> r.width == 0.0
    ensures node.dimensions.height.Some? ==> r.height == node.dimensions.height.value
    ensures node.dimensions.height.None? && node.height.Some? ==> r.height == node.height.value
    ensures node.dimensions.height.None? && node.height.None? ==> r.height == 0.0
  {
    Size(node.dimensions.width.GetOr(node.width.GetOr(0.0)),
         node.dimensions.height.GetOr(node.height.GetOr(0.0)))
  }

  /** `v` is a whole multiple of `step`. */
  ghost predicate MultipleOf(v: real, step: real) {
    exists k: int :: v == Scale(k, step)
  }

  function Scale(k: int, step: real): real {
    k as real * step
  }

  /** `step * Math.round(v / step)`, one axis of `snapPosition`. */
  function SnapAxis(v: real, step: real): (r: real)
    requires step != 0.0
    ensures MultipleOf(r, step)
    ensures Abs(r - v) <= Abs(step) / 2.0
  {
    var k := Round(v / step);
    NearestMultiple(v, step, k);
    assert step * k as real == Scale(k, step);
    step * k as real
  }

  /** A rounded quotient multiplied back is within half a step. */
  lemma NearestMultiple(v: real, step: real, k: int)
    requires step != 0.0 && v / step - 0.5 < k as real <= v / step + 0.5
    ensures step * k as real == k as real * step
    ensures Abs(step * k as real - v) <= Abs(step) / 2.0
  {
    var q := v / step;
    var d := k as real - q;
    assert -0.5 < d <= 0.5;
    assert q * step == v;
    assert step * k as real - v == step * d;
    if step > 0.0 {
      assert -0.5 * step <= step * d <= 0.5 * step;
    } else {
      assert 0.5 * step <= step * d <= -0.5 * step;
    }
  }

  /** `snapPosition`; the grid defaults to `[1, 1]`. A zero step divides
      by zero in the JavaScript and is excluded. */
  function SnapPosition(position: Point, snapGrid: Option<(real, real)>): (r: Point)
    requires snapGrid.None? || (snapGrid.value.0 != 0.0 && snapGrid.value.1 != 0.0)
    ensures var g := snapGrid.GetOr((1.0, 1.0));
      && MultipleOf(r.x, g.0) && MultipleOf(r.y, g.1)
      && Abs(r.x - position.x) <= Abs(g.0) / 2.0 && Abs(r.y - position.y) <= Abs(g.1) / 2.0
  {
    var g := snapGrid.GetOr((1.0, 1.0));
    Point(SnapAxis(position.x, g.0), SnapAxis(position.y, g.1))
  }

  /** Snapping a multiple of the step leaves it where it is. */
  lemma SnapAxisMultiple(k: int, step: real)
    requires step != 0.0
    ensures SnapAxis(Scale(k, step), step) == Scale(k, step)
  {
    var q := Scale(k, step) / step;
    assert q * step == k as real * step;
    assert (q - k as real) * step == 0.0;
    assert q == k as real;
    assert Round(k as real) == k;
  }

  /** Snapping is idempotent. */
  lemma SnapIdempotent(position: Point, snapGrid: Option<(real, real)>)
    requires snapGrid.None? || (snapGrid.value.0 != 0.0 && snapGrid.value.1 != 0.0)
    ensures SnapPosition(SnapPosition(position, snapGrid), snapGrid) == SnapPosition(position, snapGrid)
  {
    var g := snapGrid.GetOr((1.0, 1.0));
    var p := SnapPosition(position, snapGrid);
    var kx :| p.x == Scale(kx, g.0);
    var ky :| p.y == Scale(ky, g.1);
    SnapAxisMultiple(kx, g.0);
    SnapAxisMultiple(ky, g.1);
  }

  /** The default grid rounds both coordinates to integers. */
  lemma SnapDefaultIntegral(position: Point)
    ensures var r := SnapPosition(position, None);
      r.x == Round(position.x) as real && r.y == Round(position.y) as real
  {
  }
}
