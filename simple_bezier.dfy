/** `getSimpleBezierPath`: a cubic curve whose control points sit halfway
    between the ends on each handle's axis, with no curvature parameter. */
module SimpleBezier {
  import opened Common
  import opened EdgeGeneral

  /** `getControl`: the handle point with its axis coordinate moved to the
      midpoint of the two ends. */
  function GetControl(pos: Position, p1: Point, p2: Point): (r: Point)
    ensures (pos == Left || pos == Right) ==> r == Point(SimpleEdgeCenter(p1, p2).centerX, p1.y)
    ensures (pos == Top || pos == Bottom) ==> r == Point(p1.x, SimpleEdgeCenter(p1, p2).centerY)
  {
    match pos
    case Left | Right => Point(0.5 * (p1.x + p2.x), p1.y)
    case Top | Bottom => Point(p1.x, 0.5 * (p1.y + p2.y))
  }

  predicate Horizontal(pos: Position) {
    pos == Left || pos == Right
  }

  /** `getSimpleBezierPath`; absent sides default to bottom (source) and
      top (target). */
  function GetSimpleBezierPath(source: Point, sourcePosition: Option<Position>,
                               target: Point, targetPosition: Option<Position>,
                               fmt: real -> string): (r: EdgePath)
    ensures var sc := GetControl(sourcePosition.GetOr(Bottom), source, target);
            var tc := GetControl(targetPosition.GetOr(Top), target, source);
      r.cmds == [M(source), C(sc, tc, target)]
      && r.text == CurveText(source, sc, tc, target, fmt)
      && r.labelX == CubicBezier(0.5, source.x, sc.x, tc.x, target.x)
      && r.labelY == CubicBezier(0.5, source.y, sc.y, tc.y, target.y)
      && r.offsetX == Abs(r.labelX - source.x) && r.offsetY == Abs(r.labelY - source.y)
  {
    var sc := GetControl(sourcePosition.GetOr(Bottom), source, target);
    var tc := GetControl(targetPosition.GetOr(Top), target, source);
    var center := BezierEdgeCenter(source, target, sc, tc);
    EdgePath([M(source), C(sc, tc, target)], CurveText(source, sc, tc, target, fmt),
             center.centerX, center.centerY, center.offsetX, center.offsetY)
  }

  /** When both sides are horizontal, or both vertical, the label is the
      midpoint of the two ends. */
  lemma SimpleBezierMidpointLabel(source: Point, sourcePosition: Position,
                                  target: Point, targetPosition: Position, fmt: real -> string)
    requires Horizontal(sourcePosition) == Horizontal(targetPosition)
    ensures var r := GetSimpleBezierPath(source, Some(sourcePosition), target, Some(targetPosition), fmt);
      r.labelX == (source.x + target.x) / 2.0 && r.labelY == (source.y + target.y) / 2.0
  {
  }

  /** Swapping the ends together with their sides keeps the label and
      reverses the curve. */
  lemma SimpleBezierSwap(source: Point, sourcePosition: Position,
                         target: Point, targetPosition: Position, fmt: real -> string)
    ensures var r := GetSimpleBezierPath(source, Some(sourcePosition), target, Some(targetPosition), fmt);
            var s := GetSimpleBezierPath(target, Some(targetPosition), source, Some(sourcePosition), fmt);
      s.labelX == r.labelX && s.labelY == r.labelY
      && s.cmds[0] == M(target) && s.cmds[1] == C(r.cmds[1].c2, r.cmds[1].c1, source)
  {
  }
}
