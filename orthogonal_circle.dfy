/**
 The geometric meaning of the predicate, as an independent reference.

 A weighted point (p, w) and a circle (c, r2) are orthogonal when their power
 product |p - c|^2 - r2 - w is zero.  For two weighted points p and q at
 different places, the circles orthogonal to both have their centres on the
 radical axis of p and q; the smallest of them is centred where that axis
 meets the line pq.  The predicate's expression is |p - q|^2 times the power
 product of t with that smallest circle, so its sign tells on which side of
 the smallest orthogonal circle of p and q the weighted point t lies.
 */
module OrthogonalCircle {
  import opened Expression

  datatype Point = Point(x: real, y: real)
  datatype WeightedPoint = WeightedPoint(p: Point, w: real)
  datatype Circle = Circle(center: Point, sqRadius: real)

  function SqDist(a: Point, b: Point): real {
    (a.x - b.x) * (a.x - b.x) + (a.y - b.y) * (a.y - b.y)
  }

  /** The power product of a circle and a weighted point. */
  function PowerProduct(c: Circle, wp: WeightedPoint): real {
    SqDist(wp.p, c.center) - c.sqRadius - wp.w
  }

  ghost predicate Orthogonal(c: Circle, wp: WeightedPoint) {
    PowerProduct(c, wp) == 0.0
  }

  /** The three weighted points the nine operands stand for. */
  function P(o: Operands<real>): WeightedPoint { WeightedPoint(Point(o.px, o.py), o.pw) }
  function Q(o: Operands<real>): WeightedPoint { WeightedPoint(Point(o.qx, o.qy), o.qw) }
  function T(o: Operands<real>): WeightedPoint { WeightedPoint(Point(o.tx, o.ty), o.tw) }

  /**
   p and q are at different places: their squared distance is not zero.
   (Stated on the squared distance so that the arithmetic below stays linear in it.)
   */
  predicate Apart(p: WeightedPoint, q: WeightedPoint) {
    SqDist(p.p, q.p) != 0.0
  }

  /** Where the centre of the smallest orthogonal circle sits on the line from q to p (q + k (p - q)). */
  function CenterRatio(p: WeightedPoint, q: WeightedPoint): real
    requires Apart(p, q)
  {
    var d := SqDist(p.p, q.p);
    (d - p.w + q.w) / (2.0 * d)
  }

  /** The smallest circle orthogonal to both p and q. */
  function SmallestOrthogonalCircle(p: WeightedPoint, q: WeightedPoint): (c: Circle)
    requires Apart(p, q)
    ensures Orthogonal(c, p) && Orthogonal(c, q)
  {
    var k := CenterRatio(p, q);
    var center := Point(q.p.x + k * (p.p.x - q.p.x), q.p.y + k * (p.p.y - q.p.y));
    var c := Circle(center, SqDist(q.p, center) - q.w);
    assert Orthogonal(c, p) by { SmallestIsOrthogonalToP(p, q); }
    c
  }

  lemma SqDistNonNegative(a: Point, b: Point)
    ensures SqDist(a, b) >= 0.0
  {
    SquareNonNegative(a.x - b.x);
    SquareNonNegative(a.y - b.y);
  }

  lemma SquareNonNegative(x: real)
    ensures x * x >= 0.0
  {
  }

  /** The defining equation of the centre ratio: 2 k |p - q|^2 == |p - q|^2 - pw + qw. */
  lemma CenterRatioEquation(p: WeightedPoint, q: WeightedPoint)
    requires Apart(p, q)
    ensures 2.0 * CenterRatio(p, q) * SqDist(p.p, q.p) == SqDist(p.p, q.p) - p.w + q.w
  {
  }

  /** |u - k d|^2 expanded, for u = (ux, uy) and d = (dx, dy). */
  lemma ExpandShifted(ux: real, uy: real, dx: real, dy: real, k: real)
    ensures (ux - k * dx) * (ux - k * dx) + (uy - k * dy) * (uy - k * dy)
         == (ux * ux + uy * uy) - 2.0 * k * (ux * dx + uy * dy) + k * k * (dx * dx + dy * dy)
  {
  }

  lemma SmallestIsOrthogonalToP(p: WeightedPoint, q: WeightedPoint)
    requires Apart(p, q)
    ensures var k := CenterRatio(p, q);
            var center := Point(q.p.x + k * (p.p.x - q.p.x), q.p.y + k * (p.p.y - q.p.y));
            PowerProduct(Circle(center, SqDist(q.p, center) - q.w), p) == 0.0
  {
    var k := CenterRatio(p, q);
    var dx, dy := p.p.x - q.p.x, p.p.y - q.p.y;
    var center := Point(q.p.x + k * dx, q.p.y + k * dy);
    var d := dx * dx + dy * dy;
    CenterRatioEquation(p, q);
    ExpandShifted(dx, dy, dx, dy, k);
    assert SqDist(p.p, center) == d - 2.0 * k * d + k * k * d;
    ExpandShifted(0.0, 0.0, dx, dy, k);
    assert SqDist(q.p, center) == k * k * d;
  }

  /** The power product of t with the smallest orthogonal circle, in coordinates relative to q. */
  lemma PowerWithSmallest(p: WeightedPoint, q: WeightedPoint, t: WeightedPoint)
    requires Apart(p, q)
    ensures var k := CenterRatio(p, q);
            var dpx, dpy, dtx, dty := p.p.x - q.p.x, p.p.y - q.p.y, t.p.x - q.p.x, t.p.y - q.p.y;
            PowerProduct(SmallestOrthogonalCircle(p, q), t)
              == (dtx * dtx + dty * dty) - 2.0 * k * (dtx * dpx + dty * dpy) - t.w + q.w
  {
    var k := CenterRatio(p, q);
    var dpx, dpy, dtx, dty := p.p.x - q.p.x, p.p.y - q.p.y, t.p.x - q.p.x, t.p.y - q.p.y;
    var dpz := dpx * dpx + dpy * dpy;
    var center := Point(q.p.x + k * dpx, q.p.y + k * dpy);
    ExpandShifted(dtx, dty, dpx, dpy, k);
    assert SqDist(t.p, center) == (dtx * dtx + dty * dty) - 2.0 * k * (dtx * dpx + dty * dpy) + k * k * dpz;
    ExpandShifted(0.0, 0.0, dpx, dpy, k);
    assert SqDist(q.p, center) == k * k * dpz;
  }

  /** d (a - 2 k e) == a d - (2 k d) e, the last step of the identity below. */
  lemma FactorScale(a: real, e: real, d: real, k: real)
    ensures d * (a - 2.0 * k * e) == a * d - (2.0 * k * d) * e
  {
  }

  /**
   When p and q are at different places, the predicate's exact value is
   |p - q|^2 times the power product of t with the smallest orthogonal circle of p and q.
   */
  lemma ExpressionIsScaledPowerProduct(o: Operands<real>)
    requires Apart(P(o), Q(o))
    ensures ExactValue(o) == SqDist(P(o).p, Q(o).p) * PowerProduct(SmallestOrthogonalCircle(P(o), Q(o)), T(o))
  {
    var p, q, t := P(o), Q(o), T(o);
    var k := CenterRatio(p, q);
    var dpx, dpy, dtx, dty := o.px - o.qx, o.py - o.qy, o.tx - o.qx, o.ty - o.qy;
    var d := SqDist(p.p, q.p);
    var a := dtx * dtx + dty * dty - o.tw + o.qw;
    var e := dpx * dtx + dpy * dty;
    CenterRatioEquation(p, q);
    assert 2.0 * k * d == d - o.pw + o.qw;
    ExactValueIsPolynomial(o);
    assert ExactValue(o) == a * d - (d - o.pw + o.qw) * e;
    PowerWithSmallest(p, q, t);
    assert PowerProduct(SmallestOrthogonalCircle(p, q), t) == a - 2.0 * k * e;
    FactorScale(a, e, d, k);
  }

  /**
   Hence the predicate returns the side of t with respect to the smallest
   orthogonal circle of p and q (positive power product: ON_POSITIVE_SIDE).
   */
  lemma SideOfSmallestOrthogonalCircle(o: Operands<real>)
    requires Apart(P(o), Q(o))
    ensures ExactSide(o) == SideOf(PowerProduct(SmallestOrthogonalCircle(P(o), Q(o)), T(o)))
  {
    var d := SqDist(P(o).p, Q(o).p);
    var power := PowerProduct(SmallestOrthogonalCircle(P(o), Q(o)), T(o));
    SqDistNonNegative(P(o).p, Q(o).p);
    ExpressionIsScaledPowerProduct(o);
    if power > 0.0 {
      assert d * power > 0.0;
    } else if power < 0.0 {
      assert d * power < 0.0;
    }
  }
}
