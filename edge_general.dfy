/** Shared shapes of the edge path builders and the two label-centre
    calculators: the straight midpoint and the cubic Bézier point at
    t = 1/2. */
module EdgeGeneral {
  import opened Common

  /** One command of an SVG path: moveto, lineto, cubic and quadratic
      curveto (control points first, end point last). */
  datatype PathCmd =
    | M(p: Point)
    | L(p: Point)
    | C(c1: Point, c2: Point, p: Point)
    | Q(c: Point, p: Point)

  /** What every path builder returns: the path as commands and as SVG
      text, the label point, and the offset from the source handle to the
      label. */
  datatype EdgePath = EdgePath(
    cmds: seq<PathCmd>,
    text: string,
    labelX: real,
    labelY: real,
    offsetX: real,
    offsetY: real)

  /** `x,y` in path text, with `fmt` standing for JavaScript's
      number-to-string conversion. */
  function Coords(p: Point, fmt: real -> string): string {
    fmt(p.x) + "," + fmt(p.y)
  }

  /** The text of the one-curve paths the two Bézier builders return:
      `Msx,sy Cscx,scy tcx,tcy tx,ty`. */
  function CurveText(source: Point, sourceControl: Point, targetControl: Point, target: Point,
                     fmt: real -> string): string
  {
    "M" + Coords(source, fmt) + " C" + Coords(sourceControl, fmt) + " "
      + Coords(targetControl, fmt) + " " + Coords(target, fmt)
  }

  /** `[centerX, centerY, offsetX, offsetY]`. */
  datatype Center = Center(centerX: real, centerY: real, offsetX: real, offsetY: real)

  /** `getSimpleEdgeCenter`: the midpoint of the segment, with half the span
      on each axis as offsets. */
  function SimpleEdgeCenter(source: Point, target: Point): (c: Center)
    ensures c.centerX == (source.x + target.x) / 2.0
    ensures c.centerY == (source.y + target.y) / 2.0
    ensures c.offsetX == Abs(target.x - source.x) / 2.0 >= 0.0
    ensures c.offsetY == Abs(target.y - source.y) / 2.0 >= 0.0
    ensures c.offsetX == Abs(c.centerX - source.x) && c.offsetY == Abs(c.centerY - source.y)
    ensures Min(source.x, target.x) <= c.centerX <= Max(source.x, target.x)
    ensures Min(source.y, target.y) <= c.centerY <= Max(source.y, target.y)
  {
    var xOffset := Abs(target.x - source.x) / 2.0;
    var centerX := if target.x < source.x then target.x + xOffset else target.x - xOffset;
    var yOffset := Abs(target.y - source.y) / 2.0;
    var centerY := if target.y < source.y then target.y + yOffset else target.y - yOffset;
    Center(centerX, centerY, xOffset, yOffset)
  }

  /** The centre does not depend on which end is the source. */
  lemma SimpleEdgeCenterSwap(source: Point, target: Point)
    ensures SimpleEdgeCenter(source, target) == SimpleEdgeCenter(target, source)
  {
  }

  /** Coincident end points give that point and no offset. */
  lemma SimpleEdgeCenterCoincident(p: Point)
    ensures SimpleEdgeCenter(p, p) == Center(p.x, p.y, 0.0, 0.0)
  {
  }

  /** The cubic Bézier curve with control values `p0`..`p3`, in Bernstein
      form, at parameter `t`: the reference the label centre is checked
      against. */
  function CubicBezier(t: real, p0: real, p1: real, p2: real, p3: real): real {
    var u := 1.0 - t;
    u * u * u * p0 + 3.0 * u * u * t * p1 + 3.0 * u * t * t * p2 + t * t * t * p3
  }

  /** `getBezierEdgeCenter`: the point of the cubic curve at t = 1/2 (not
      the arc-length midpoint), which lies in the hull of its four
      defining values, with the distance to the source as offset. */
  function BezierEdgeCenter(source: Point, target: Point, sourceControl: Point, targetControl: Point): (c: Center)
    ensures c.centerX == CubicBezier(0.5, source.x, sourceControl.x, targetControl.x, target.x)
    ensures c.centerY == CubicBezier(0.5, source.y, sourceControl.y, targetControl.y, target.y)
    ensures Min(Min(source.x, sourceControl.x), Min(targetControl.x, target.x)) <= c.centerX
              <= Max(Max(source.x, sourceControl.x), Max(targetControl.x, target.x))
    ensures Min(Min(source.y, sourceControl.y), Min(targetControl.y, target.y)) <= c.centerY
              <= Max(Max(source.y, sourceControl.y), Max(targetControl.y, target.y))
    ensures c.offsetX == Abs(c.centerX - source.x) >= 0.0
    ensures c.offsetY == Abs(c.centerY - source.y) >= 0.0
  {
    var centerX := source.x * 0.125 + sourceControl.x * 0.375 + targetControl.x * 0.375 + target.x * 0.125;
    var centerY := source.y * 0.125 + sourceControl.y * 0.375 + targetControl.y * 0.375 + target.y * 0.125;
    Center(centerX, centerY, Abs(centerX - source.x), Abs(centerY - source.y))
  }

  /** The weights sum to one: four equal points give that point. */
  lemma BezierEdgeCenterConstant(p: Point)
    ensures BezierEdgeCenter(p, p, p, p) == Center(p.x, p.y, 0.0, 0.0)
  {
  }

  /** Reversing the curve (end points and controls swapped) keeps the
      centre. */
  lemma BezierEdgeCenterReverse(source: Point, target: Point, sourceControl: Point, targetControl: Point)
    ensures BezierEdgeCenter(target, source, targetControl, sourceControl).centerX
         == BezierEdgeCenter(source, target, sourceControl, targetControl).centerX
    ensures BezierEdgeCenter(target, source, targetControl, sourceControl).centerY
         == BezierEdgeCenter(source, target, sourceControl, targetControl).centerY
  {
  }
}
