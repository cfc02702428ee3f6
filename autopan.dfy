/** Automatic panning while a drag nears the edge of the pane. */
module AutoPan {
  import opened Common
  import opened GraphGeometry

  /** `calcAutoPanVelocity(value, min, max)`: 0 inside `[min, max]`;
      below `min` the distance to `min`, clamped to `[1, min]` and divided
      by `min`; above `max` the same, negated, with the distance to `max`.
      `None` is the `NaN` of a division by a zero `min`. */
  function CalcAutoPanVelocity(value: real, min: real, max: real): (r: Option<real>)
    ensures r.None? <==> min == 0.0 && (value < min || value > max)
    ensures min <= value <= max ==> r == Some(0.0)
    ensures value < min && min >= 1.0 ==> r.Some? && 1.0 / min <= r.value <= 1.0
    ensures value > max && min >= 1.0 && value >= min ==> r.Some? && -1.0 <= r.value <= -1.0 / min
  {
    if value < min then
      if min == 0.0 then None
      else
        var c := Clamp(Abs(value - min), 1.0, min);
        Quotient(c, min);
        Some(c / min)
    else if value > max then
      if min == 0.0 then None
      else
        var c := Clamp(Abs(value - max), 1.0, min);
        Quotient(c, min);
        Some(-c / min)
    else Some(0.0)
  }

  /** A number in `[1, m]` divided by `m` lies in `[1/m, 1]`. */
  lemma Quotient(c: real, m: real)
    requires m != 0.0
    ensures m >= 1.0 && 1.0 <= c <= m ==> 1.0 / m <= c / m <= 1.0
    ensures -c / m == -(c / m)
  {
    if m >= 1.0 && 1.0 <= c <= m {
      assert c / m * m == c;
      assert 1.0 / m * m == 1.0;
    }
  }

  /** Below the band the pane moves towards the cursor, above it away;
      the direction is the sign of the velocity. */
  lemma VelocitySign(value: real, min: real, max: real)
    requires min >= 1.0 && min <= max
    ensures value < min ==> CalcAutoPanVelocity(value, min, max).value > 0.0
    ensures value > max ==> CalcAutoPanVelocity(value, min, max).value < 0.0
  {
    if value < min {
      assert 1.0 / min > 0.0;
    }
    if value > max {
      assert 1.0 / min > 0.0;
    }
  }

  const DefaultSpeed := 15.0
  const DefaultDistance := 40.0

  /** `bounds`: the pane's size. */
  datatype Size = Size(width: real, height: real)

  /** `vel * speed`, keeping a `NaN` a `NaN`. */
  function Scale(v: Option<real>, speed: real): Option<real> {
    if v.Some? then Some(v.value * speed) else None
  }

  /** `calcAutoPan(pos, bounds, speed = 15, distance = 40)`: the velocity
      along each axis, scaled by the speed. */
  function CalcAutoPan(pos: Point, bounds: Size, speed: Option<real>, distance: Option<real>): (r: (Option<real>, Option<real>))
    ensures var d := distance.GetOr(DefaultDistance);
      && (d <= pos.x <= bounds.width - d ==> r.0 == Some(0.0))
      && (d <= pos.y <= bounds.height - d ==> r.1 == Some(0.0))
    ensures var d := distance.GetOr(DefaultDistance);
      && (r.0.None? <==> d == 0.0 && (pos.x < 0.0 || pos.x > bounds.width))
      && (r.1.None? <==> d == 0.0 && (pos.y < 0.0 || pos.y > bounds.height))
    ensures var d, s := distance.GetOr(DefaultDistance), speed.GetOr(DefaultSpeed);
      d >= 1.0 && s > 0.0 ==>
        && (pos.x < d ==> r.0.value > 0.0) && (pos.x > bounds.width - d && pos.x >= d ==> r.0.value < 0.0)
        && (pos.y < d ==> r.1.value > 0.0) && (pos.y > bounds.height - d && pos.y >= d ==> r.1.value < 0.0)
  {
    var s := speed.GetOr(DefaultSpeed);
    var d := distance.GetOr(DefaultDistance);
    (Scale(CalcAutoPanVelocity(pos.x, d, bounds.width - d), s),
     Scale(CalcAutoPanVelocity(pos.y, d, bounds.height - d), s))
  }

  /** With the defaults, a cursor more than 40 from every edge does not
      pan, and one nearer an edge pans at a speed between 15/40 and 15. */
  lemma DefaultAutoPan(pos: Point, bounds: Size)
    requires bounds.width >= 80.0 && bounds.height >= 80.0
    ensures 40.0 <= pos.x <= bounds.width - 40.0 ==> CalcAutoPan(pos, bounds, None, None).0 == Some(0.0)
    ensures pos.x < 40.0 ==> var m := CalcAutoPan(pos, bounds, None, None).0;
      m.Some? && 15.0 / 40.0 <= m.value <= 15.0
    ensures pos.x > bounds.width - 40.0 ==> var m := CalcAutoPan(pos, bounds, None, None).0;
      m.Some? && -15.0 <= m.value <= -15.0 / 40.0
  {
    var v := CalcAutoPanVelocity(pos.x, 40.0, bounds.width - 40.0);
    assert CalcAutoPan(pos, bounds, None, None).0 == Scale(v, 15.0);
    if pos.x < 40.0 {
      assert 1.0 / 40.0 <= v.value <= 1.0;
      assert v.value * 15.0 >= 15.0 / 40.0;
    }
    if pos.x > bounds.width - 40.0 {
      assert -1.0 <= v.value <= -1.0 / 40.0;
      assert v.value * 15.0 <= -15.0 / 40.0;
    }
  }

  /** Horizontal movement depends only on `pos.x` and the width, vertical
      movement only on `pos.y` and the height. */
  lemma AxesIndependent(p: Point, q: Point, a: Size, b: Size, speed: Option<real>, distance: Option<real>)
    ensures p.x == q.x && a.width == b.width ==> CalcAutoPan(p, a, speed, distance).0 == CalcAutoPan(q, b, speed, distance).0
    ensures p.y == q.y && a.height == b.height ==> CalcAutoPan(p, a, speed, distance).1 == CalcAutoPan(q, b, speed, distance).1
  {
  }
}
