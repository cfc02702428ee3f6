/** `getBezierPath`: a cubic curve whose control points leave each handle
    in the direction it faces, by an amount set by the curvature. */
module Bezier {
  import opened Common
  import opened EdgeGeneral

  /** `calculateControlOffset`: half the distance when the other end lies
      ahead of the handle, otherwise `curvature * 25 * sqrt(-distance)`. */
  function CalculateControlOffset(distance: real, curvature: real, sqrt: real -> real): (r: real)
    ensures distance >= 0.0 ==> r == 0.5 * distance
    ensures distance < 0.0 ==> r == curvature * 25.0 * sqrt(-distance)
    ensures distance == 0.0 ==> r == 0.0
    ensures IsSqrt(sqrt) && curvature >= 0.0 ==> r >= 0.0
  {
    if distance >= 0.0 then 0.5 * distance
    else curvature * 25.0 * sqrt(-distance)
  }

  /** `getControlWithCurvature`: the control point of the handle at `p1`
      on side `pos`, for a curve towards `p2`. */
  function GetControlWithCurvature(pos: Position, p1: Point, p2: Point, c: real, sqrt: real -> real): (r: Point)
    // the coordinate across the handle's axis is kept
    ensures (pos == Left || pos == Right) ==> r.y == p1.y
    ensures (pos == Top || pos == Bottom) ==> r.x == p1.x
    // the control point sits halfway to the other end when that end lies ahead
    ensures pos == Left && p2.x <= p1.x ==> r.x == (p1.x + p2.x) / 2.0
    ensures pos == Right && p1.x <= p2.x ==> r.x == (p1.x + p2.x) / 2.0
    ensures pos == Top && p2.y <= p1.y ==> r.y == (p1.y + p2.y) / 2.0
    ensures pos == Bottom && p1.y <= p2.y ==> r.y == (p1.y + p2.y) / 2.0
    // with a non-negative curvature it always moves outwards
    ensures IsSqrt(sqrt) && c >= 0.0 ==>
      (pos == Left ==> r.x <= p1.x) && (pos == Right ==> r.x >= p1.x)
      && (pos == Top ==> r.y <= p1.y) && (pos == Bottom ==> r.y >= p1.y)
  {
    match pos
    case Left => Point(p1.x - CalculateControlOffset(p1.x - p2.x, c, sqrt), p1.y)
    case Right => Point(p1.x + CalculateControlOffset(p2.x - p1.x, c, sqrt), p1.y)
    case Top => Point(p1.x, p1.y - CalculateControlOffset(p1.y - p2.y, c, sqrt))
    case Bottom => Point(p1.x, p1.y + CalculateControlOffset(p2.y - p1.y, c, sqrt))
  }

  /** `getBezierPath`; absent sides default to bottom (source) and top
      (target), an absent curvature to 0.25. */
  function GetBezierPath(source: Point, sourcePosition: Option<Position>,
                         target: Point, targetPosition: Option<Position>,
                         curvature: Option<real>, sqrt: real -> real, fmt: real -> string): (r: EdgePath)
    ensures var c := curvature.GetOr(0.25);
            var sc := GetControlWithCurvature(sourcePosition.GetOr(Bottom), source, target, c, sqrt);
            var tc := GetControlWithCurvature(targetPosition.GetOr(Top), target, source, c, sqrt);
      r.cmds == [M(source), C(sc, tc, target)]
      && r.text == CurveText(source, sc, tc, target, fmt)
      && r.labelX == CubicBezier(0.5, source.x, sc.x, tc.x, target.x)
      && r.labelY == CubicBezier(0.5, source.y, sc.y, tc.y, target.y)
      && r.offsetX == Abs(r.labelX - source.x) && r.offsetY == Abs(r.labelY - source.y)
  {
    var c := curvature.GetOr(0.25);
    var sc := GetControlWithCurvature(sourcePosition.GetOr(Bottom), source, target, c, sqrt);
    var tc := GetControlWithCurvature(targetPosition.GetOr(Top), target, source, c, sqrt);
    var center := BezierEdgeCenter(source, target, sc, tc);
    EdgePath([M(source), C(sc, tc, target)], CurveText(source, sc, tc, target, fmt),
             center.centerX, center.centerY, center.offsetX, center.offsetY)
  }

  /** Bottom (0,0) to top (0,100) with the defaults gives
      `M0,0 C0,50 0,50 0,100` and label (0,50). */
  lemma BezierExample(sqrt: real -> real, fmt: real -> string)
    requires fmt(0.0) == "0" && fmt(50.0) == "50" && fmt(100.0) == "100"
    ensures var r := GetBezierPath(Point(0.0, 0.0), None, Point(0.0, 100.0), None, None, sqrt, fmt);
      r.cmds == [M(Point(0.0, 0.0)), C(Point(0.0, 50.0), Point(0.0, 50.0), Point(0.0, 100.0))]
      && r.text == "M0,0 C0,50 0,50 0,100"
      && r.labelX == 0.0 && r.labelY == 50.0
  {
    var sc := GetControlWithCurvature(Bottom, Point(0.0, 0.0), Point(0.0, 100.0), 0.25, sqrt);
    var tc := GetControlWithCurvature(Top, Point(0.0, 100.0), Point(0.0, 0.0), 0.25, sqrt);
    assert sc == Point(0.0, 50.0) && tc == Point(0.0, 50.0);
    CurveExampleText(fmt);
  }

  lemma CurveExampleText(fmt: real -> string)
    requires fmt(0.0) == "0" && fmt(50.0) == "50" && fmt(100.0) == "100"
    ensures CurveText(Point(0.0, 0.0), Point(0.0, 50.0), Point(0.0, 50.0), Point(0.0, 100.0), fmt)
         == "M0,0 C0,50 0,50 0,100"
  {
    assert Coords(Point(0.0, 0.0), fmt) == "0,0";
    assert Coords(Point(0.0, 50.0), fmt) == "0,50";
    assert Coords(Point(0.0, 100.0), fmt) == "0,100";
  }

  /** Swapping the ends together with their sides keeps the label and
      reverses the curve. */
  lemma BezierSwap(source: Point, sourcePosition: Position, target: Point, targetPosition: Position,
                   curvature: Option<real>, sqrt: real -> real, fmt: real -> string)
    ensures var r := GetBezierPath(source, Some(sourcePosition), target, Some(targetPosition), curvature, sqrt, fmt);
            var s := GetBezierPath(target, Some(targetPosition), source, Some(sourcePosition), curvature, sqrt, fmt);
      s.labelX == r.labelX && s.labelY == r.labelY
      && s.cmds[0] == M(target) && s.cmds[1] == C(r.cmds[1].c2, r.cmds[1].c1, source)
  {
  }
}
