/** `getSmoothStepPath`: an orthogonal route between two handles. Each end
    first leaves its node by a fixed gap along the side it sits on; the
    route then turns once (same or mixed sides) or twice (opposite sides)
    and every interior corner is rounded by a quadratic curve whose size
    is clamped to half of the adjoining segments. */
module SmoothStep {
  import opened Common
  import opened EdgeGeneral

  datatype Axis = X | Y

  /** `handleDirections`: the unit vector each side points along, away
      from its node. */
  function HandleDirection(pos: Position): (d: Point)
    ensures Abs(d.x) + Abs(d.y) == 1.0 && (d.x == 0.0 || d.y == 0.0)
    ensures (pos == Left || pos == Right) <==> d.x != 0.0
  {
    match pos
    case Left => Point(-1.0, 0.0)
    case Right => Point(1.0, 0.0)
    case Top => Point(0.0, -1.0)
    case Bottom => Point(0.0, 1.0)
  }

  /** The side facing the other way. */
  function Opposite(pos: Position): Position {
    match pos
    case Left => Right
    case Right => Left
    case Top => Bottom
    case Bottom => Top
  }

  predicate Horizontal(pos: Position) {
    pos == Left || pos == Right
  }

  /** `p[axis]`. */
  function Coord(p: Point, a: Axis): real {
    if a == X then p.x else p.y
  }

  function OtherAxis(a: Axis): Axis {
    if a == X then Y else X
  }

  /** The point with `p[axis]` replaced by `v`. */
  function WithCoord(p: Point, a: Axis, v: real): (r: Point)
    ensures Coord(r, a) == v && Coord(r, OtherAxis(a)) == Coord(p, OtherAxis(a))
  {
    if a == X then Point(v, p.y) else Point(p.x, v)
  }

  function Add(p: Point, q: Point): Point {
    Point(p.x + q.x, p.y + q.y)
  }

  lemma CoordAdd(p: Point, q: Point, a: Axis)
    ensures Coord(Add(p, q), a) == Coord(p, a) + Coord(q, a)
  {
  }

  /** `getDirection`: along x for a left or right source, along y
      otherwise, pointing from source towards target (and backwards when
      they are level). */
  function GetDirection(source: Point, sourcePosition: Position, target: Point): (d: Point)
    ensures Horizontal(sourcePosition) ==> d.y == 0.0 && (d.x == 1.0 || d.x == -1.0)
                                           && (d.x == 1.0 <==> source.x < target.x)
    ensures !Horizontal(sourcePosition) ==> d.x == 0.0 && (d.y == 1.0 || d.y == -1.0)
                                            && (d.y == 1.0 <==> source.y < target.y)
  {
    if sourcePosition == Left || sourcePosition == Right then
      (if source.x < target.x then Point(1.0, 0.0) else Point(-1.0, 0.0))
    else
      (if source.y < target.y then Point(0.0, 1.0) else Point(0.0, -1.0))
  }

  /** `distance`: the Euclidean distance, with `sqrt` for `Math.sqrt`. */
  function Distance(a: Point, b: Point, sqrt: real -> real): (r: real)
    ensures IsSqrt(sqrt) ==> r >= 0.0
    ensures IsSqrt(sqrt) ==> r * r == (b.x - a.x) * (b.x - a.x) + (b.y - a.y) * (b.y - a.y)
  {
    var dx := b.x - a.x;
    var dy := b.y - a.y;
    sqrt(dx * dx + dy * dy)
  }

  /** Between two points on one horizontal or vertical line the distance
      is the difference of the other coordinate. */
  lemma DistanceAlongAxis(a: Point, b: Point, sqrt: real -> real)
    requires IsSqrt(sqrt)
    ensures a.y == b.y ==> Distance(a, b, sqrt) == Abs(b.x - a.x)
    ensures a.x == b.x ==> Distance(a, b, sqrt) == Abs(b.y - a.y)
  {
    var r := Distance(a, b, sqrt);
    if a.y == b.y {
      assert (b.y - a.y) * (b.y - a.y) == 0.0;
      NonNegativeRoot(r, b.x - a.x);
    }
    if a.x == b.x {
      assert (b.x - a.x) * (b.x - a.x) == 0.0;
      NonNegativeRoot(r, b.y - a.y);
    }
  }

  /** The handle point pushed `offset` away from its node. */
  function Gapped(p: Point, pos: Position, offset: real): (r: Point)
    ensures pos == Left ==> r == Point(p.x - offset, p.y)
    ensures pos == Right ==> r == Point(p.x + offset, p.y)
    ensures pos == Top ==> r == Point(p.x, p.y - offset)
    ensures pos == Bottom ==> r == Point(p.x, p.y + offset)
  {
    var d := HandleDirection(pos);
    Point(p.x + d.x * offset, p.y + d.y * offset)
  }

  /** `dirAccessor`: the axis the route starts along, which is the source
      side's own axis. */
  function RoutingAxis(sourcePosition: Position): Axis {
    if Horizontal(sourcePosition) then X else Y
  }

  /** The product of two direction components, each -1, 0 or 1, written
      out by cases. */
  function UnitProduct(a: real, b: real): (r: real)
    ensures (a == 0.0 || a == 1.0 || a == -1.0) && (b == 0.0 || b == 1.0 || b == -1.0) ==> r == a * b
  {
    if a == 0.0 || b == 0.0 then 0.0 else if a == b then 1.0 else -1.0
  }

  /** The shape `getPoints` returns. */
  datatype Route = Route(points: seq<Point>, centerX: real, centerY: real, offsetX: real, offsetY: real)

  /** The two interior points for opposite handles: a vertical split at
      `cx` or a horizontal split at `cy`. */
  function SplitPoints(sg: Point, tg: Point, sourceDir: Point, acc: Axis, currDir: real,
                       cx: real, cy: real): (r: seq<Point>)
    ensures |r| == 2
    ensures (r[0].x == cx && r[1].x == cx && r[0].y == sg.y && r[1].y == tg.y)
         || (r[0].y == cy && r[1].y == cy && r[0].x == sg.x && r[1].x == tg.x)
  {
    var verticalSplit := [Point(cx, sg.y), Point(cx, tg.y)];
    var horizontalSplit := [Point(sg.x, cy), Point(tg.x, cy)];
    if Coord(sourceDir, acc) == currDir then
      (if acc == X then verticalSplit else horizontalSplit)
    else
      (if acc == X then horizontalSplit else verticalSplit)
  }

  /** The one interior corner for same or mixed sides: x from one gapped
      end and y from the other, flipped for mixed sides by the relative
      position of the gapped ends across the routing axis. */
  function CornerPoint(sourcePosition: Position, targetPosition: Position, sg: Point, tg: Point,
                       acc: Axis, currDir: real): (r: Point)
    ensures r == Point(sg.x, tg.y) || r == Point(tg.x, sg.y)
  {
    var sourceDir := HandleDirection(sourcePosition);
    var targetDir := HandleDirection(targetPosition);
    var sourceTarget := Point(sg.x, tg.y);
    var targetSource := Point(tg.x, sg.y);
    var straight :=
      if acc == X then (if sourceDir.x == currDir then targetSource else sourceTarget)
      else (if sourceDir.y == currDir then sourceTarget else targetSource);
    if sourcePosition != targetPosition then
      var opp := OtherAxis(acc);
      var isSameDir := Coord(sourceDir, acc) == Coord(targetDir, opp);
      var sourceGtTargetOppo := Coord(sg, opp) > Coord(tg, opp);
      var sourceLtTargetOppo := Coord(sg, opp) < Coord(tg, opp);
      var flipSourceTarget :=
        (Coord(sourceDir, acc) == 1.0
           && ((!isSameDir && sourceGtTargetOppo) || (isSameDir && sourceLtTargetOppo)))
        || (Coord(sourceDir, acc) != 1.0
           && ((!isSameDir && sourceLtTargetOppo) || (isSameDir && sourceGtTargetOppo)));
      if flipSourceTarget then (if acc == X then sourceTarget else targetSource) else straight
    else straight
  }

  /** `gapOffset`: how far `sourceGapOffset`/`targetGapOffset` move the
      stubs of two handles on the same side whose distance along the
      routing axis is at most `offset`. */
  function GapSize(source: Point, target: Point, acc: Axis, offset: real): real {
    Min(offset - 1.0, offset - Abs(Coord(source, acc) - Coord(target, acc)))
  }

  /** Whether the overlap correction applies. */
  predicate NeedsGapCorrection(source: Point, sourcePosition: Position, target: Point,
                               targetPosition: Position, acc: Axis, offset: real) {
    sourcePosition == targetPosition && Abs(Coord(source, acc) - Coord(target, acc)) <= offset
  }

  /** The pair `(sourceGapOffset, targetGapOffset)`. */
  function GapOffsets(source: Point, sourcePosition: Position, target: Point, targetPosition: Position,
                      sg: Point, tg: Point, acc: Axis, currDir: real, offset: real): (r: (Point, Point))
    // nothing moves unless the correction applies; then exactly one end
    // moves, along the routing axis only, by the gap size
    ensures !NeedsGapCorrection(source, sourcePosition, target, targetPosition, acc, offset) ==>
      r == (Point(0.0, 0.0), Point(0.0, 0.0))
    ensures NeedsGapCorrection(source, sourcePosition, target, targetPosition, acc, offset) ==>
      var g := GapSize(source, target, acc, offset);
      (r.1 == Point(0.0, 0.0) && Coord(r.0, OtherAxis(acc)) == 0.0 && Abs(Coord(r.0, acc)) == Abs(g))
      || (r.0 == Point(0.0, 0.0) && Coord(r.1, OtherAxis(acc)) == 0.0 && Abs(Coord(r.1, acc)) == Abs(g))
  {
    var zero := Point(0.0, 0.0);
    if NeedsGapCorrection(source, sourcePosition, target, targetPosition, acc, offset) then
      var gapOffset := GapSize(source, target, acc, offset);
      if Coord(HandleDirection(sourcePosition), acc) == currDir then
        (WithCoord(zero, acc, (if Coord(sg, acc) > Coord(source, acc) then -1.0 else 1.0) * gapOffset), zero)
      else
        (zero, WithCoord(zero, acc, (if Coord(tg, acc) > Coord(target, acc) then -1.0 else 1.0) * gapOffset))
    else (zero, zero)
  }

  /** The label for same or mixed sides: the middle of the longer of the
      two segments that meet at the corner. */
  function CornerLabel(sgp: Point, tgp: Point, corner: Point): (r: Point)
    ensures r.x == corner.x || r.y == corner.y
  {
    var maxXDistance := Max(Abs(sgp.x - corner.x), Abs(tgp.x - corner.x));
    var maxYDistance := Max(Abs(sgp.y - corner.y), Abs(tgp.y - corner.y));
    if maxXDistance >= maxYDistance then Point((sgp.x + tgp.x) / 2.0, corner.y)
    else Point(corner.x, (sgp.y + tgp.y) / 2.0)
  }

  /** `getPoints`. */
  function GetPoints(source: Point, sourcePosition: Position, target: Point, targetPosition: Position,
                     centerX: Option<real>, centerY: Option<real>, offset: real): (r: Route)
    ensures |r.points| == if targetPosition == Opposite(sourcePosition) then 6 else 5
    ensures r.points[0] == source && r.points[|r.points| - 1] == target
    ensures var c := SimpleEdgeCenter(source, target);
      r.offsetX == c.offsetX && r.offsetY == c.offsetY
  {
    var sourceDir := HandleDirection(sourcePosition);
    var targetDir := HandleDirection(targetPosition);
    var sg := Gapped(source, sourcePosition, offset);
    var tg := Gapped(target, targetPosition, offset);
    var dir := GetDirection(sg, sourcePosition, tg);
    var acc := if dir.x != 0.0 then X else Y;
    var currDir := Coord(dir, acc);
    var default := SimpleEdgeCenter(source, target);
    if UnitProduct(Coord(sourceDir, acc), Coord(targetDir, acc)) == -1.0 then
      var cx := centerX.GetOr(default.centerX);
      var cy := centerY.GetOr(default.centerY);
      Route([source, sg] + SplitPoints(sg, tg, sourceDir, acc, currDir, cx, cy) + [tg, target],
            cx, cy, default.offsetX, default.offsetY)
    else
      var corner := CornerPoint(sourcePosition, targetPosition, sg, tg, acc, currDir);
      var (sourceGapOffset, targetGapOffset) :=
        GapOffsets(source, sourcePosition, target, targetPosition, sg, tg, acc, currDir, offset);
      var sgp := Add(sg, sourceGapOffset);
      var tgp := Add(tg, targetGapOffset);
      var labelPoint := CornerLabel(sgp, tgp, corner);
      Route([source, sgp, corner, tgp, target], labelPoint.x, labelPoint.y, default.offsetX, default.offsetY)
  }

  /** Opposite handles: the stubs are the plain gapped points, the two
      interior points share x = cx or y = cy, where cx and cy are the
      overrides or else the straight midpoint, and (cx, cy) is the label. */
  lemma GetPointsOpposite(source: Point, sourcePosition: Position, target: Point,
                          centerX: Option<real>, centerY: Option<real>, offset: real)
    ensures var r := GetPoints(source, sourcePosition, target, Opposite(sourcePosition), centerX, centerY, offset);
            var cx := centerX.GetOr((source.x + target.x) / 2.0);
            var cy := centerY.GetOr((source.y + target.y) / 2.0);
      && r.points[1] == Gapped(source, sourcePosition, offset)
      && r.points[4] == Gapped(target, Opposite(sourcePosition), offset)
      && ((r.points[2].x == cx && r.points[3].x == cx) || (r.points[2].y == cy && r.points[3].y == cy))
      && r.centerX == cx && r.centerY == cy
  {
  }

  /** The route for opposite sides, in full. */
  lemma OppositeRoute(source: Point, sourcePosition: Position, target: Point,
                      centerX: Option<real>, centerY: Option<real>, offset: real)
    ensures var sg := Gapped(source, sourcePosition, offset);
            var tg := Gapped(target, Opposite(sourcePosition), offset);
            var acc := RoutingAxis(sourcePosition);
            var currDir := Coord(GetDirection(sg, sourcePosition, tg), acc);
            var cx := centerX.GetOr((source.x + target.x) / 2.0);
            var cy := centerY.GetOr((source.y + target.y) / 2.0);
            var c := SimpleEdgeCenter(source, target);
      GetPoints(source, sourcePosition, target, Opposite(sourcePosition), centerX, centerY, offset)
        == Route([source, sg] + SplitPoints(sg, tg, HandleDirection(sourcePosition), acc, currDir, cx, cy)
                   + [tg, target], cx, cy, c.offsetX, c.offsetY)
  {
    var sg := Gapped(source, sourcePosition, offset);
    var tg := Gapped(target, Opposite(sourcePosition), offset);
    var dir := GetDirection(sg, sourcePosition, tg);
    assert RoutingAxis(sourcePosition) == if dir.x != 0.0 then X else Y;
  }

  /** Same or mixed sides: one interior corner built from the x of one
      gapped end and the y of the other. */
  lemma GetPointsCorner(source: Point, sourcePosition: Position, target: Point, targetPosition: Position,
                        centerX: Option<real>, centerY: Option<real>, offset: real)
    requires targetPosition != Opposite(sourcePosition)
    ensures var r := GetPoints(source, sourcePosition, target, targetPosition, centerX, centerY, offset);
            var sg := Gapped(source, sourcePosition, offset);
            var tg := Gapped(target, targetPosition, offset);
      r.points[2] == Point(sg.x, tg.y) || r.points[2] == Point(tg.x, sg.y)
  {
  }

  /** The overlap correction: without it the stubs are the gapped points;
      with it exactly one stub moves, along the routing axis, by
      `min(offset - 1, offset - diff)`. */
  lemma GetPointsGapCorrection(source: Point, sourcePosition: Position, target: Point, targetPosition: Position,
                               centerX: Option<real>, centerY: Option<real>, offset: real)
    requires targetPosition != Opposite(sourcePosition)
    ensures var r := GetPoints(source, sourcePosition, target, targetPosition, centerX, centerY, offset);
            var sg := Gapped(source, sourcePosition, offset);
            var tg := Gapped(target, targetPosition, offset);
            var acc := RoutingAxis(sourcePosition);
            var g := GapSize(source, target, acc, offset);
      if NeedsGapCorrection(source, sourcePosition, target, targetPosition, acc, offset) then
        (r.points[3] == tg && Coord(r.points[1], OtherAxis(acc)) == Coord(sg, OtherAxis(acc))
           && Abs(Coord(r.points[1], acc) - Coord(sg, acc)) == Abs(g))
        || (r.points[1] == sg && Coord(r.points[3], OtherAxis(acc)) == Coord(tg, OtherAxis(acc))
           && Abs(Coord(r.points[3], acc) - Coord(tg, acc)) == Abs(g))
      else r.points[1] == sg && r.points[3] == tg
  {
    var sg := Gapped(source, sourcePosition, offset);
    var tg := Gapped(target, targetPosition, offset);
    var acc := RoutingAxis(sourcePosition);
    var dir := GetDirection(sg, sourcePosition, tg);
    assert acc == if dir.x != 0.0 then X else Y;
    var r := GetPoints(source, sourcePosition, target, targetPosition, centerX, centerY, offset);
    var gaps := GapOffsets(source, sourcePosition, target, targetPosition, sg, tg, acc, Coord(dir, acc), offset);
    assert r.points[1] == Add(sg, gaps.0) && r.points[3] == Add(tg, gaps.1);
    CoordAdd(sg, gaps.0, acc);
    CoordAdd(tg, gaps.1, acc);
    CoordAdd(sg, gaps.0, OtherAxis(acc));
    CoordAdd(tg, gaps.1, OtherAxis(acc));
  }

  /** Two handles on the same side never get overlapping stubs: with an
      offset above 1 the corrected source stub ends strictly before the
      corrected target stub in the routing direction. */
  lemma SameSideStubsOrdered(source: Point, pos: Position, target: Point,
                             centerX: Option<real>, centerY: Option<real>, offset: real)
    requires offset > 1.0
    ensures var r := GetPoints(source, pos, target, pos, centerX, centerY, offset);
            var acc := RoutingAxis(pos);
            var currDir := Coord(GetDirection(Gapped(source, pos, offset), pos, Gapped(target, pos, offset)), acc);
      (Coord(r.points[3], acc) - Coord(r.points[1], acc)) * currDir > 0.0
  {
    SameSidePoints(source, pos, target, centerX, centerY, offset);
    SameSideGapsOrdered(source, pos, target, offset);
  }

  /** The same ordering on the corrected gap points themselves. */
  lemma SameSideGapsOrdered(source: Point, pos: Position, target: Point, offset: real)
    requires offset > 1.0
    ensures var sg, tg := Gapped(source, pos, offset), Gapped(target, pos, offset);
            var acc := RoutingAxis(pos);
            var currDir := Coord(GetDirection(sg, pos, tg), acc);
            var gaps := GapOffsets(source, pos, target, pos, sg, tg, acc, currDir, offset);
      (Coord(Add(tg, gaps.1), acc) - Coord(Add(sg, gaps.0), acc)) * currDir > 0.0
  {
    var sg := Gapped(source, pos, offset);
    var tg := Gapped(target, pos, offset);
    var acc := RoutingAxis(pos);
    var currDir := Coord(GetDirection(sg, pos, tg), acc);
    var gaps := GapOffsets(source, pos, target, pos, sg, tg, acc, currDir, offset);
    var d := Coord(HandleDirection(pos), acc);
    var S, T := Coord(source, acc), Coord(target, acc);
    assert Coord(sg, acc) == S + d * offset && Coord(tg, acc) == T + d * offset;
    assert currDir == if S + d * offset < T + d * offset then 1.0 else -1.0;
    CoordAdd(sg, gaps.0, acc);
    CoordAdd(tg, gaps.1, acc);
    StubsOrdered1D(S, T, d, offset);
  }

  /** For handles on one side the route is the two corrected stubs around
      the corner. */
  lemma SameSidePoints(source: Point, pos: Position, target: Point,
                       centerX: Option<real>, centerY: Option<real>, offset: real)
    ensures var r := GetPoints(source, pos, target, pos, centerX, centerY, offset);
            var sg := Gapped(source, pos, offset);
            var tg := Gapped(target, pos, offset);
            var acc := RoutingAxis(pos);
            var currDir := Coord(GetDirection(sg, pos, tg), acc);
            var gaps := GapOffsets(source, pos, target, pos, sg, tg, acc, currDir, offset);
      r.points[1] == Add(sg, gaps.0) && r.points[3] == Add(tg, gaps.1)
  {
    var sg := Gapped(source, pos, offset);
    var tg := Gapped(target, pos, offset);
    var dir := GetDirection(sg, pos, tg);
    assert RoutingAxis(pos) == if dir.x != 0.0 then X else Y;
  }

  /** The ordering argument on the routing axis alone: `S`, `T` are the
      handle coordinates, `d` the common side direction, `o` the offset. */
  lemma StubsOrdered1D(S: real, T: real, d: real, o: real)
    requires d == 1.0 || d == -1.0
    requires o > 1.0
    ensures var currDir := if S + d * o < T + d * o then 1.0 else -1.0;
            var diff := Abs(S - T);
            var g := Min(o - 1.0, o - diff);
            var so := if diff <= o && d == currDir then (if S + d * o > S then -1.0 else 1.0) * g else 0.0;
            var to := if diff <= o && d != currDir then (if T + d * o > T then -1.0 else 1.0) * g else 0.0;
      ((T + d * o + to) - (S + d * o + so)) * currDir > 0.0
  {
  }

  /** Consecutive points differ along one axis at most. */
  predicate Rectilinear(ps: seq<Point>) {
    forall i :: 0 <= i < |ps| - 1 ==> ps[i].x == ps[i + 1].x || ps[i].y == ps[i + 1].y
  }

  /** The route `getPoints` returns is made of horizontal and vertical
      segments only. */
  lemma GetPointsRectilinear(source: Point, sourcePosition: Position, target: Point, targetPosition: Position,
                             centerX: Option<real>, centerY: Option<real>, offset: real)
    ensures Rectilinear(GetPoints(source, sourcePosition, target, targetPosition, centerX, centerY, offset).points)
  {
    var r := GetPoints(source, sourcePosition, target, targetPosition, centerX, centerY, offset);
    var sg := Gapped(source, sourcePosition, offset);
    var tg := Gapped(target, targetPosition, offset);
    var dir := GetDirection(sg, sourcePosition, tg);
    var acc := if dir.x != 0.0 then X else Y;
    var currDir := Coord(dir, acc);
    var default := SimpleEdgeCenter(source, target);
    if UnitProduct(Coord(HandleDirection(sourcePosition), acc), Coord(HandleDirection(targetPosition), acc)) == -1.0 {
      var cx, cy := centerX.GetOr(default.centerX), centerY.GetOr(default.centerY);
      var split := SplitPoints(sg, tg, HandleDirection(sourcePosition), acc, currDir, cx, cy);
      assert r.points == [source, sg] + split + [tg, target];
      SplitRouteRectilinear(source, sourcePosition, target, targetPosition, offset, split, cx, cy);
    } else {
      var gaps := GapOffsets(source, sourcePosition, target, targetPosition, sg, tg, acc, currDir, offset);
      assert r.points == [source, Add(sg, gaps.0), CornerPoint(sourcePosition, targetPosition, sg, tg, acc, currDir),
                          Add(tg, gaps.1), target];
      CornerRouteRectilinear(source, sourcePosition, target, targetPosition, offset);
    }
  }

  /** The six points of an opposite-handle route. */
  lemma SplitRouteRectilinear(source: Point, sourcePosition: Position, target: Point, targetPosition: Position,
                              offset: real, split: seq<Point>, cx: real, cy: real)
    requires |split| == 2
    requires var sg, tg := Gapped(source, sourcePosition, offset), Gapped(target, targetPosition, offset);
      (split[0].x == cx && split[1].x == cx && split[0].y == sg.y && split[1].y == tg.y)
      || (split[0].y == cy && split[1].y == cy && split[0].x == sg.x && split[1].x == tg.x)
    ensures Rectilinear([source, Gapped(source, sourcePosition, offset)] + split
                        + [Gapped(target, targetPosition, offset), target])
  {
    var ps := [source, Gapped(source, sourcePosition, offset)] + split + [Gapped(target, targetPosition, offset), target];
    assert ps[2] == split[0] && ps[3] == split[1];
  }

  /** The five points of a same- or mixed-side route. */
  lemma CornerRouteRectilinear(source: Point, sourcePosition: Position, target: Point, targetPosition: Position, offset: real)
    ensures var sg, tg := Gapped(source, sourcePosition, offset), Gapped(target, targetPosition, offset);
            var dir := GetDirection(sg, sourcePosition, tg);
            var acc := if dir.x != 0.0 then X else Y;
            var gaps := GapOffsets(source, sourcePosition, target, targetPosition, sg, tg, acc, Coord(dir, acc), offset);
      Rectilinear([source, Add(sg, gaps.0), CornerPoint(sourcePosition, targetPosition, sg, tg, acc, Coord(dir, acc)),
                   Add(tg, gaps.1), target])
  {
  }

  /** The length of an axis-parallel segment. */
  function SegLen(a: Point, b: Point): real {
    Abs(a.x - b.x) + Abs(a.y - b.y)
  }

  function Mid(a: Point, b: Point): Point {
    Point((a.x + b.x) / 2.0, (a.y + b.y) / 2.0)
  }

  predicate Within(v: real, a: real, b: real) {
    Min(a, b) <= v <= Max(a, b)
  }

  /** `p` lies on the horizontal or vertical segment from `a` to `b`. */
  predicate OnSeg(p: Point, a: Point, b: Point) {
    (p.x == a.x && a.x == b.x && Within(p.y, a.y, b.y)) || (p.y == a.y && a.y == b.y && Within(p.x, a.x, b.x))
  }

  /** The corner label lies on the longer of the two segments meeting at
      the corner, and is its middle when the route really turns there. */
  lemma CornerLabelOnLonger(sgp: Point, tgp: Point, corner: Point)
    requires Rectilinear([sgp, corner, tgp])
    ensures var lab := CornerLabel(sgp, tgp, corner);
      (OnSeg(lab, sgp, corner) && SegLen(sgp, corner) >= SegLen(corner, tgp))
      || (OnSeg(lab, corner, tgp) && SegLen(corner, tgp) >= SegLen(sgp, corner))
    ensures var lab := CornerLabel(sgp, tgp, corner);
      !Collinear(sgp, corner, tgp) ==>
        (lab == Mid(sgp, corner) && SegLen(sgp, corner) >= SegLen(corner, tgp))
        || (lab == Mid(corner, tgp) && SegLen(corner, tgp) >= SegLen(sgp, corner))
  {
    var ps := [sgp, corner, tgp];
    assert ps[0].x == ps[1].x || ps[0].y == ps[1].y;
    assert ps[1].x == ps[2].x || ps[1].y == ps[2].y;
  }

  /** Same or mixed sides: the label goes on the longer of the two
      segments that meet at the corner. */
  lemma GetPointsCornerLabel(source: Point, sourcePosition: Position, target: Point, targetPosition: Position,
                             centerX: Option<real>, centerY: Option<real>, offset: real)
    requires targetPosition != Opposite(sourcePosition)
    ensures var r := GetPoints(source, sourcePosition, target, targetPosition, centerX, centerY, offset);
            var p1, c, p3 := r.points[1], r.points[2], r.points[3];
            var lab := Point(r.centerX, r.centerY);
      && ((OnSeg(lab, p1, c) && SegLen(p1, c) >= SegLen(c, p3))
          || (OnSeg(lab, c, p3) && SegLen(c, p3) >= SegLen(p1, c)))
      && (!Collinear(p1, c, p3) ==>
            (lab == Mid(p1, c) && SegLen(p1, c) >= SegLen(c, p3))
            || (lab == Mid(c, p3) && SegLen(c, p3) >= SegLen(p1, c)))
  {
    var r := GetPoints(source, sourcePosition, target, targetPosition, centerX, centerY, offset);
    var sg := Gapped(source, sourcePosition, offset);
    var tg := Gapped(target, targetPosition, offset);
    var dir := GetDirection(sg, sourcePosition, tg);
    var acc := if dir.x != 0.0 then X else Y;
    var currDir := Coord(dir, acc);
    assert UnitProduct(Coord(HandleDirection(sourcePosition), acc), Coord(HandleDirection(targetPosition), acc)) != -1.0;
    GetPointsRectilinear(source, sourcePosition, target, targetPosition, centerX, centerY, offset);
    var p1, c, p3 := r.points[1], r.points[2], r.points[3];
    assert Point(r.centerX, r.centerY) == CornerLabel(p1, p3, c);
    assert [p1, c, p3] == r.points[1..4];
    assert Rectilinear([p1, c, p3]) by {
      assert r.points[1].x == r.points[2].x || r.points[1].y == r.points[2].y;
      assert r.points[2].x == r.points[3].x || r.points[2].y == r.points[3].y;
    }
    CornerLabelOnLonger(p1, p3, c);
  }

  /** `bendSize`: the corner radius, capped at half of each adjoining
      segment. */
  function BendSize(a: Point, b: Point, c: Point, size: real, sqrt: real -> real): (s: real)
    ensures s <= size && s <= Distance(a, b, sqrt) / 2.0 && s <= Distance(b, c, sqrt) / 2.0
    ensures IsSqrt(sqrt) && size >= 0.0 ==> s >= 0.0
  {
    Min(Min(Distance(a, b, sqrt) / 2.0, Distance(b, c, sqrt) / 2.0), size)
  }

  /** The three points lie on one horizontal or one vertical line. */
  predicate Collinear(a: Point, b: Point, c: Point) {
    (a.x == b.x && b.x == c.x) || (a.y == b.y && b.y == c.y)
  }

  /** `getBend`: a plain line to `b` for a straight pass, otherwise a line
      to where the curve starts and a quadratic curve around `b`. */
  function GetBend(a: Point, b: Point, c: Point, size: real, sqrt: real -> real): (r: seq<PathCmd>)
    ensures Collinear(a, b, c) ==> r == [L(b)]
    ensures !Collinear(a, b, c) ==> |r| == 2 && r[0].L? && r[1].Q? && r[1].c == b
  {
    var bendSize := BendSize(a, b, c, size, sqrt);
    if Collinear(a, b, c) then [L(b)]
    else if a.y == b.y then
      var xDir := if a.x < c.x then -1.0 else 1.0;
      var yDir := if a.y < c.y then 1.0 else -1.0;
      [L(Point(b.x + bendSize * xDir, b.y)), Q(b, Point(b.x, b.y + bendSize * yDir))]
    else
      var xDir := if a.x < c.x then 1.0 else -1.0;
      var yDir := if a.y < c.y then -1.0 else 1.0;
      [L(Point(b.x, b.y + bendSize * yDir)), Q(b, Point(b.x + bendSize * xDir, b.y))]
  }

  /** The text of `getBend`. */
  function BendText(a: Point, b: Point, c: Point, size: real, sqrt: real -> real, fmt: real -> string): string {
    var bendSize := BendSize(a, b, c, size, sqrt);
    if Collinear(a, b, c) then "L" + fmt(b.x) + " " + fmt(b.y)
    else if a.y == b.y then
      var xDir := if a.x < c.x then -1.0 else 1.0;
      var yDir := if a.y < c.y then 1.0 else -1.0;
      "L " + fmt(b.x + bendSize * xDir) + "," + fmt(b.y) + "Q " + fmt(b.x) + "," + fmt(b.y)
        + " " + fmt(b.x) + "," + fmt(b.y + bendSize * yDir)
    else
      var xDir := if a.x < c.x then 1.0 else -1.0;
      var yDir := if a.y < c.y then -1.0 else 1.0;
      "L " + fmt(b.x) + "," + fmt(b.y + bendSize * yDir) + "Q " + fmt(b.x) + "," + fmt(b.y)
        + " " + fmt(b.x + bendSize * xDir) + "," + fmt(b.y)
  }

  /** `b` moved by `s` towards `a`, along the axis they share. */
  function Toward(b: Point, a: Point, s: real): Point {
    Point(b.x + s * Sign(a.x - b.x), b.y + s * Sign(a.y - b.y))
  }

  function Sign(v: real): real {
    if v < 0.0 then -1.0 else if v > 0.0 then 1.0 else 0.0
  }

  /** At a right-angled corner of a rectilinear route the curve starts on
      the incoming segment and ends on the outgoing one, both at the
      clamped bend size from the corner, which is between 0 and half of
      either segment. */
  lemma BendOnSegments(a: Point, b: Point, c: Point, size: real, sqrt: real -> real)
    requires IsSqrt(sqrt) && size >= 0.0
    requires (a.x == b.x || a.y == b.y) && (b.x == c.x || b.y == c.y)
    ensures var s := BendSize(a, b, c, size, sqrt);
      || GetBend(a, b, c, size, sqrt) == [L(b)]
      || (GetBend(a, b, c, size, sqrt) == [L(Toward(b, a, s)), Q(b, Toward(b, c, s))]
          && 0.0 <= s <= size
          && s <= Abs(a.x - b.x + a.y - b.y) / 2.0 && s <= Abs(c.x - b.x + c.y - b.y) / 2.0)
  {
    var s := BendSize(a, b, c, size, sqrt);
    if !Collinear(a, b, c) {
      if a.y == b.y {
        assert b.x == c.x && a.x != b.x && c.y != b.y;
        DistanceAlongAxis(a, b, sqrt);
        DistanceAlongAxis(b, c, sqrt);
        assert Distance(a, b, sqrt) == Abs(b.x - a.x);
        assert Distance(b, c, sqrt) == Abs(c.y - b.y);
      } else {
        assert a.x == b.x && b.y == c.y && a.y != b.y && c.x != b.x;
        DistanceAlongAxis(a, b, sqrt);
        DistanceAlongAxis(b, c, sqrt);
        assert Distance(a, b, sqrt) == Abs(b.y - a.y);
        assert Distance(b, c, sqrt) == Abs(c.x - b.x);
      }
    }
  }

  /** With a zero radius (the step edge) every corner is sharp: the curve
      starts, bends and ends at the corner itself. */
  lemma SharpBend(a: Point, b: Point, c: Point, sqrt: real -> real)
    requires IsSqrt(sqrt)
    ensures GetBend(a, b, c, 0.0, sqrt) == [L(b)] || GetBend(a, b, c, 0.0, sqrt) == [L(b), Q(b, b)]
  {
    assert BendSize(a, b, c, 0.0, sqrt) == 0.0;
  }

  /** The `reduce` step for point `i`: `M` for the first point, `L` for the
      last, a bend for every other. */
  function Segment(points: seq<Point>, i: nat, size: real, sqrt: real -> real): seq<PathCmd>
    requires i < |points|
  {
    if 0 < i < |points| - 1 then GetBend(points[i - 1], points[i], points[i + 1], size, sqrt)
    else if i == 0 then [M(points[i])]
    else [L(points[i])]
  }

  function SegmentText(points: seq<Point>, i: nat, size: real, sqrt: real -> real, fmt: real -> string): string
    requires i < |points|
  {
    if 0 < i < |points| - 1 then BendText(points[i - 1], points[i], points[i + 1], size, sqrt, fmt)
    else (if i == 0 then "M" else "L") + fmt(points[i].x) + " " + fmt(points[i].y)
  }

  /** The `reduce` over the first `n` points. */
  function Segments(points: seq<Point>, n: nat, size: real, sqrt: real -> real): (r: seq<PathCmd>)
    requires n <= |points|
    ensures 0 < n ==> |r| > 0 && r[0] == M(points[0])
    ensures 1 < n == |points| ==> r[|r| - 1] == L(points[n - 1])
  {
    if n == 0 then [] else Segments(points, n - 1, size, sqrt) + Segment(points, n - 1, size, sqrt)
  }

  /** The text of the `reduce` over the first `n` points: it starts with
      the move to the first point and, once every point is in, ends with
      the line to the last. */
  function SegmentsText(points: seq<Point>, n: nat, size: real, sqrt: real -> real, fmt: real -> string): (r: string)
    requires n <= |points|
    ensures 0 < n ==> var h := "M" + fmt(points[0].x) + " " + fmt(points[0].y);
      |h| <= |r| && r[..|h|] == h
    ensures 1 < n == |points| ==> var t := "L" + fmt(points[n - 1].x) + " " + fmt(points[n - 1].y);
      |t| <= |r| && r[|r| - |t|..] == t
  {
    if n == 0 then ""
    else
      var prev := SegmentsText(points, n - 1, size, sqrt, fmt);
      var last := SegmentText(points, n - 1, size, sqrt, fmt);
      var h := "M" + fmt(points[0].x) + " " + fmt(points[0].y);
      assert n == 1 ==> prev == "" && last == h;
      assert n > 1 ==> (prev + last)[..|h|] == prev[..|h|];
      assert (prev + last)[|prev + last| - |last|..] == last;
      prev + last
  }

  /** `getSmoothStepPath`; absent parameters default to source side bottom,
      target side top, border radius 5 and offset 20. */
  function GetSmoothStepPath(source: Point, sourcePosition: Option<Position>,
                             target: Point, targetPosition: Option<Position>,
                             borderRadius: Option<real>, centerX: Option<real>, centerY: Option<real>,
                             offset: Option<real>, sqrt: real -> real, fmt: real -> string): (r: EdgePath)
    ensures var route := GetPoints(source, sourcePosition.GetOr(Bottom), target, targetPosition.GetOr(Top),
                                   centerX, centerY, offset.GetOr(20.0));
      && r.cmds == Segments(route.points, |route.points|, borderRadius.GetOr(5.0), sqrt)
      && r.labelX == route.centerX && r.labelY == route.centerY
    ensures |r.cmds| >= 2 && r.cmds[0] == M(source) && r.cmds[|r.cmds| - 1] == L(target)
    ensures var h := "M" + fmt(source.x) + " " + fmt(source.y);
            var t := "L" + fmt(target.x) + " " + fmt(target.y);
      |h| <= |r.text| && r.text[..|h|] == h && |t| <= |r.text| && r.text[|r.text| - |t|..] == t
    ensures var c := SimpleEdgeCenter(source, target);
      r.offsetX == c.offsetX && r.offsetY == c.offsetY
  {
    var size := borderRadius.GetOr(5.0);
    var route := GetPoints(source, sourcePosition.GetOr(Bottom), target, targetPosition.GetOr(Top),
                           centerX, centerY, offset.GetOr(20.0));
    var n := |route.points|;
    EdgePath(Segments(route.points, n, size, sqrt), SegmentsText(route.points, n, size, sqrt, fmt),
             route.centerX, route.centerY, route.offsetX, route.offsetY)
  }

  /** The number of quadratic curves in a path. */
  function CountQ(cmds: seq<PathCmd>): nat {
    if cmds == [] then 0 else CountQ(cmds[..|cmds| - 1]) + (if cmds[|cmds| - 1].Q? then 1 else 0)
  }

  lemma {:induction false} CountQAppend(a: seq<PathCmd>, b: seq<PathCmd>)
    ensures CountQ(a + b) == CountQ(a) + CountQ(b)
    decreases |b|
  {
    if b == [] {
      assert a + b == a;
    } else {
      CountQAppend(a, b[..|b| - 1]);
      assert (a + b)[..|a + b| - 1] == a + b[..|b| - 1];
    }
  }

  /** The number of interior points where the route turns. */
  function Corners(points: seq<Point>, n: nat): nat
    requires n <= |points|
  {
    if n == 0 then 0
    else Corners(points, n - 1)
         + (if 0 < n - 1 < |points| - 1 && !Collinear(points[n - 2], points[n - 1], points[n]) then 1 else 0)
  }

  /** Every turn of the route becomes exactly one quadratic curve and
      nothing else does. */
  lemma {:induction false} CountQSegments(points: seq<Point>, n: nat, size: real, sqrt: real -> real)
    requires n <= |points|
    ensures CountQ(Segments(points, n, size, sqrt)) == Corners(points, n)
    decreases n
  {
    if n > 0 {
      CountQSegments(points, n - 1, size, sqrt);
      CountQAppend(Segments(points, n - 1, size, sqrt), Segment(points, n - 1, size, sqrt));
      CountQSegment(points, n - 1, size, sqrt);
    }
  }

  lemma CountQSegment(points: seq<Point>, i: nat, size: real, sqrt: real -> real)
    requires i < |points|
    ensures CountQ(Segment(points, i, size, sqrt))
         == if 0 < i < |points| - 1 && !Collinear(points[i - 1], points[i], points[i + 1]) then 1 else 0
  {
    var seg := Segment(points, i, size, sqrt);
    if 0 < i < |points| - 1 && !Collinear(points[i - 1], points[i], points[i + 1]) {
      assert |seg| == 2 && seg[1].Q? && !seg[0].Q?;
      assert seg[..1] == [seg[0]];
      assert seg[..1][..0] == [];
      assert CountQ(seg[..1]) == 0;
    } else {
      assert seg[..0] == [];
    }
  }

  /** A right handle facing a left handle further right than both gaps:
      the route leaves each node by `offset`, runs to the vertical line
      half way between the handles and crosses over on it; the label is
      the straight midpoint. */
  lemma RightToLeftRoute(source: Point, target: Point, offset: real)
    requires source.x + offset < target.x - offset
    ensures var cx := (source.x + target.x) / 2.0;
            var route := GetPoints(source, Right, target, Left, None, None, offset);
      && route.points == [source, Point(source.x + offset, source.y), Point(cx, source.y),
                          Point(cx, target.y), Point(target.x - offset, target.y), target]
      && route.centerX == cx && route.centerY == (source.y + target.y) / 2.0
  {
    var sg := Gapped(source, Right, offset);
    var tg := Gapped(target, Left, offset);
    assert sg == Point(source.x + offset, source.y) && tg == Point(target.x - offset, target.y);
    assert GetDirection(sg, Right, tg) == Point(1.0, 0.0);
    OppositeRoute(source, Right, target, None, None, offset);
  }

  /** With the default offset and radius, a right handle facing a left
      handle further right gets no rounded corner when both are level and
      exactly two (one per turn) otherwise; the label is the midpoint. */
  lemma RightToLeftCurves(source: Point, target: Point, sqrt: real -> real, fmt: real -> string)
    requires source.x + 20.0 < target.x - 20.0
    ensures var r := GetSmoothStepPath(source, Some(Right), target, Some(Left),
                                       None, None, None, None, sqrt, fmt);
      && CountQ(r.cmds) == (if source.y == target.y then 0 else 2)
      && r.labelX == (source.x + target.x) / 2.0 && r.labelY == (source.y + target.y) / 2.0
  {
    RightToLeftRoute(source, target, 20.0);
    CrossOverCorners(source, target, 20.0, 5.0, sqrt);
  }

  /** The crossing route has a turn at each end of its vertical run
      unless both handles are level. */
  lemma CrossOverCorners(source: Point, target: Point, offset: real, size: real, sqrt: real -> real)
    requires source.x + offset < target.x - offset
    ensures var cx := (source.x + target.x) / 2.0;
            var ps := [source, Point(source.x + offset, source.y), Point(cx, source.y),
                       Point(cx, target.y), Point(target.x - offset, target.y), target];
      CountQ(Segments(ps, 6, size, sqrt)) == if source.y == target.y then 0 else 2
  {
    var cx := (source.x + target.x) / 2.0;
    var ps := [source, Point(source.x + offset, source.y), Point(cx, source.y),
               Point(cx, target.y), Point(target.x - offset, target.y), target];
    CountQSegments(ps, 6, size, sqrt);
    CrossOverTurns(ps, source, target, offset);
  }

  /** The turns of the crossing route's six points. */
  lemma CrossOverTurns(ps: seq<Point>, source: Point, target: Point, offset: real)
    requires source.x + offset < target.x - offset
    requires var cx := (source.x + target.x) / 2.0;
      ps == [source, Point(source.x + offset, source.y), Point(cx, source.y),
             Point(cx, target.y), Point(target.x - offset, target.y), target]
    ensures Corners(ps, 6) == if source.y == target.y then 0 else 2
  {
    assert Corners(ps, 1) == 0;
    assert Collinear(ps[0], ps[1], ps[2]) && Collinear(ps[3], ps[4], ps[5]);
    assert Corners(ps, 2) == 0;
    var k := if source.y == target.y then 0 else 1;
    assert Corners(ps, 3) == k;
    assert Corners(ps, 4) == 2 * k;
    assert Corners(ps, 6) == 2 * k;
  }

  /** Every segment of a path built from points is a line,
      a move or a quadratic curve with control point `c` and end `p`
      satisfying `P`. */
  predicate AllQ(cmds: seq<PathCmd>, P: (Point, Point) -> bool) {
    forall i :: 0 <= i < |cmds| && cmds[i].Q? ==> P(cmds[i].c, cmds[i].p)
  }

  /** The step edge (border radius 0) has only sharp corners: every
      quadratic curve in its path is degenerate and ends at its control
      point. */
  lemma {:induction false} StepEdgeSharp(points: seq<Point>, n: nat, sqrt: real -> real)
    requires IsSqrt(sqrt) && n <= |points|
    ensures AllQ(Segments(points, n, 0.0, sqrt), (c: Point, p: Point) => c == p)
    decreases n
  {
    if n > 0 {
      StepEdgeSharp(points, n - 1, sqrt);
      if 0 < n - 1 < |points| - 1 {
        SharpBend(points[n - 2], points[n - 1], points[n], sqrt);
      }
    }
  }
}
