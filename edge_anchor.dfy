/** The centre of the circular grab handle drawn at each end of an
    updatable edge: the end point pushed outwards along its side by the
    circle's radius. */
module EdgeAnchor {
  import opened Common

  /** `shiftX`: left moves towards smaller x, right towards larger x,
      top and bottom leave x alone. */
  function ShiftX(x: real, shift: real, position: Position): (r: real)
    ensures position == Left ==> r == x - shift
    ensures position == Right ==> r == x + shift
    ensures (position == Top || position == Bottom) ==> r == x
    ensures Abs(r - x) == if position == Left || position == Right then Abs(shift) else 0.0
  {
    if position == Left then x - shift
    else if position == Right then x + shift
    else x
  }

  /** `shiftY`: top moves towards smaller y, bottom towards larger y,
      left and right leave y alone. */
  function ShiftY(y: real, shift: real, position: Position): (r: real)
    ensures position == Top ==> r == y - shift
    ensures position == Bottom ==> r == y + shift
    ensures (position == Left || position == Right) ==> r == y
    ensures Abs(r - y) == if position == Top || position == Bottom then Abs(shift) else 0.0
  {
    if position == Top then y - shift
    else if position == Bottom then y + shift
    else y
  }

  /** The circle centre `(cx, cy)` of the anchor, with the defaults radius
      10, centre (0,0) and side top for absent properties. */
  function AnchorCenter(radius: Option<real>, centerX: Option<real>, centerY: Option<real>,
                        position: Option<Position>): (r: Point)
    ensures var rad := radius.GetOr(10.0);
            var c := Point(centerX.GetOr(0.0), centerY.GetOr(0.0));
            var pos := position.GetOr(Top);
      // exactly one coordinate moves, by the radius, away from the node
      && (pos == Left || pos == Right ==> r.y == c.y && Abs(r.x - c.x) == Abs(rad))
      && (pos == Top || pos == Bottom ==> r.x == c.x && Abs(r.y - c.y) == Abs(rad))
      && (rad > 0.0 ==> (pos == Left ==> r.x < c.x) && (pos == Right ==> r.x > c.x)
                        && (pos == Top ==> r.y < c.y) && (pos == Bottom ==> r.y > c.y))
  {
    var rad := radius.GetOr(10.0);
    var pos := position.GetOr(Top);
    Point(ShiftX(centerX.GetOr(0.0), rad, pos), ShiftY(centerY.GetOr(0.0), rad, pos))
  }

  /** With every property absent the anchor sits at (0, -10). */
  lemma AnchorCenterDefaults()
    ensures AnchorCenter(None, None, None, None) == Point(0.0, -10.0)
  {
  }
}
