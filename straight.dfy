/** `getStraightPath`: a single segment from the source handle to the
    target handle, labelled at its midpoint. */
module Straight {
  import opened Common
  import opened EdgeGeneral

  function GetStraightPath(source: Point, target: Point, fmt: real -> string): (r: EdgePath)
    ensures r.cmds == [M(source), L(target)]
    ensures r.text == "M " + Coords(source, fmt) + "L " + Coords(target, fmt)
    ensures r.labelX == (source.x + target.x) / 2.0 && r.labelY == (source.y + target.y) / 2.0
    ensures r.offsetX == Abs(target.x - source.x) / 2.0 >= 0.0
    ensures r.offsetY == Abs(target.y - source.y) / 2.0 >= 0.0
  {
    var c := SimpleEdgeCenter(source, target);
    EdgePath([M(source), L(target)], "M " + Coords(source, fmt) + "L " + Coords(target, fmt),
             c.centerX, c.centerY, c.offsetX, c.offsetY)
  }

  /** (0,0) to (10,0): `M 0,0L 10,0`, label (5,0), offset (5,0). */
  lemma StraightExample(fmt: real -> string)
    requires fmt(0.0) == "0" && fmt(10.0) == "10"
    ensures var r := GetStraightPath(Point(0.0, 0.0), Point(10.0, 0.0), fmt);
      r.text == "M 0,0L 10,0" && r.cmds == [M(Point(0.0, 0.0)), L(Point(10.0, 0.0))]
      && r.labelX == 5.0 && r.labelY == 0.0 && r.offsetX == 5.0 && r.offsetY == 0.0
  {
    var r := GetStraightPath(Point(0.0, 0.0), Point(10.0, 0.0), fmt);
    assert Coords(Point(0.0, 0.0), fmt) == "0,0";
    assert Coords(Point(10.0, 0.0), fmt) == "10,0";
  }

  /** Swapping the ends keeps label and offsets and reverses the points. */
  lemma StraightSwap(source: Point, target: Point, fmt: real -> string)
    ensures var r := GetStraightPath(source, target, fmt);
            var s := GetStraightPath(target, source, fmt);
      s.labelX == r.labelX && s.labelY == r.labelY
      && s.offsetX == r.offsetX && s.offsetY == r.offsetY
      && s.cmds == [M(r.cmds[1].p), L(r.cmds[0].p)]
  {
  }
}
