/** Integer points, real lines, and the exact integer comparisons the optimal segmenter
    makes (cross products and slope comparisons), each tied to what it says about lines. */
module Geometry {

  datatype Point = Point(x: int, y: int)

  datatype Line = Line(slope: real, intercept: real)

  function At(l: Line, x: int): real {
    l.slope * (x as real) + l.intercept
  }

  /** The cross product of oa and ob, positive exactly for a left turn at a. */
  function Cross(o: Point, a: Point, b: Point): int {
    (a.x - o.x) * (b.y - o.y) - (a.y - o.y) * (b.x - o.x)
  }

  /** Compares the slopes of ab and cd without dividing. */
  predicate SlopeLess(a: Point, b: Point, c: Point, d: Point) {
    (b.y - a.y) * (d.x - c.x) < (d.y - c.y) * (b.x - a.x)
  }

  ghost function Slope(a: Point, b: Point): real {
    if a.x == b.x then 0.0 else (b.y - a.y) as real / (b.x - a.x) as real
  }

  ghost function Through(a: Point, b: Point): Line {
    Line(Slope(a, b), a.y as real - Slope(a, b) * (a.x as real))
  }

  ghost predicate Hits(l: Line, p: Point) {
    At(l, p.x) == p.y as real
  }

  /** p is on or below the line. */
  ghost predicate Under(p: Point, l: Line) {
    p.y as real <= At(l, p.x)
  }

  ghost predicate Over(p: Point, l: Line) {
    p.y as real >= At(l, p.x)
  }

  lemma ScaledReal(a: int, b: int)
    ensures (a * b) as real == (a as real) * (b as real)
  {
  }

  /** How a line's value changes between two abscissas. */
  lemma Rise(l: Line, x1: int, x2: int)
    ensures At(l, x2) == At(l, x1) + l.slope * ((x2 - x1) as real)
  {
  }

  lemma MulMono(a: real, b: real, d: real)
    requires a <= b && d >= 0.0
    ensures a * d <= b * d
  {
  }

  lemma MulStrict(a: real, b: real, d: real)
    requires a < b && d > 0.0
    ensures a * d < b * d
  {
  }

  lemma ThroughHits(a: Point, b: Point)
    requires a.x != b.x
    ensures Hits(Through(a, b), a) && Hits(Through(a, b), b)
  {
    Rise(Through(a, b), a.x, b.x);
    var dx := (b.x - a.x) as real;
    assert Slope(a, b) * dx == (b.y - a.y) as real;
  }

  lemma SlopesFromRises(m: real, n: real, d: real, f1: real, g1: real, f2: real, g2: real)
    requires d > 0.0 && f2 == f1 + m * d && g2 == g1 + n * d && f1 >= g1 && f2 <= g2
    ensures m <= n
  {
    if m > n { MulStrict(n, m, d); }
  }

  lemma OrderFromRises(m: real, n: real, d: real, f1: real, g1: real, f2: real, g2: real)
    requires d >= 0.0 && f2 == f1 + m * d && g2 == g1 + n * d && m <= n
    ensures f1 <= g1 ==> f2 <= g2
    ensures f2 >= g2 ==> f1 >= g1
  {
    MulMono(m, n, d);
  }

  /** Two lines at x1 <= x2, ordered by slope: an order that agrees carries over. */
  lemma Carry(f: Line, g: Line, x1: int, x2: int)
    requires x1 <= x2 && f.slope <= g.slope
    ensures At(f, x1) <= At(g, x1) ==> At(f, x2) <= At(g, x2)
    ensures At(f, x2) >= At(g, x2) ==> At(f, x1) >= At(g, x1)
  {
    Rise(f, x1, x2);
    Rise(g, x1, x2);
    OrderFromRises(f.slope, g.slope, (x2 - x1) as real, At(f, x1), At(g, x1), At(f, x2), At(g, x2));
  }

  /** If f is at or above g on the left and at or below it on the right, the order is
      settled everywhere outside the two abscissas. */
  lemma Crossing(f: Line, g: Line, x1: int, x2: int, x: int)
    requires x1 < x2 && At(f, x1) >= At(g, x1) && At(f, x2) <= At(g, x2)
    ensures x2 <= x ==> At(f, x) <= At(g, x)
    ensures x <= x1 ==> At(f, x) >= At(g, x)
    ensures f.slope <= g.slope
  {
    assert f.slope <= g.slope by {
      Rise(f, x1, x2);
      Rise(g, x1, x2);
      SlopesFromRises(f.slope, g.slope, (x2 - x1) as real, At(f, x1), At(g, x1), At(f, x2), At(g, x2));
    }
    if x2 <= x { Carry(f, g, x2, x); }
    if x <= x1 { Carry(f, g, x, x1); }
  }

  lemma SlopeLessIsSlopeOrder(a: Point, b: Point, c: Point, d: Point)
    requires a.x < b.x && c.x < d.x
    ensures SlopeLess(a, b, c, d) <==> Slope(a, b) < Slope(c, d)
  {
    var dx1, dx2 := (b.x - a.x) as real, (d.x - c.x) as real;
    var m1, m2 := Slope(a, b), Slope(c, d);
    assert m1 * dx1 == (b.y - a.y) as real && m2 * dx2 == (d.y - c.y) as real;
    ScaledReal(b.y - a.y, d.x - c.x);
    ScaledReal(d.y - c.y, b.x - a.x);
    var p := dx1 * dx2;
    assert p > 0.0;
    assert ((b.y - a.y) * (d.x - c.x)) as real == m1 * p by { Regroup(m1, dx1, dx2); }
    assert ((d.y - c.y) * (b.x - a.x)) as real == m2 * p by { Regroup(m2, dx2, dx1); }
    if m1 < m2 { MulStrict(m1, m2, p); } else { MulMono(m2, m1, p); }
  }

  lemma Regroup(m: real, u: real, v: real)
    ensures (m * u) * v == m * (u * v) && u * v == v * u
  {
  }

  /** Where a point right of a line's contact lies, by comparing slopes from the contact. */
  lemma SideBySlope(l: Line, p: Point, q: Point)
    requires Hits(l, p) && p.x < q.x
    ensures Slope(p, q) < l.slope <==> (q.y as real) < At(l, q.x)
    ensures Slope(p, q) > l.slope <==> (q.y as real) > At(l, q.x)
  {
    var dx := (q.x - p.x) as real;
    var m := Slope(p, q);
    assert m * dx == (q.y - p.y) as real;
    Rise(l, p.x, q.x);
    if m < l.slope { MulStrict(m, l.slope, dx); }
    if m > l.slope { MulStrict(l.slope, m, dx); }
  }

  /** Where a point left of a line's contact lies, by comparing slopes to the contact. */
  lemma SideBySlopeLeft(l: Line, p: Point, q: Point)
    requires Hits(l, q) && p.x < q.x
    ensures Slope(p, q) < l.slope <==> (p.y as real) > At(l, p.x)
    ensures Slope(p, q) > l.slope <==> (p.y as real) < At(l, p.x)
  {
    var dx := (q.x - p.x) as real;
    var m := Slope(p, q);
    assert m * dx == (q.y - p.y) as real;
    Rise(l, p.x, q.x);
    if m < l.slope { MulStrict(m, l.slope, dx); }
    if m > l.slope { MulStrict(l.slope, m, dx); }
  }

  lemma SlopeIsThroughSlope(l: Line, a: Point, b: Point)
    requires a.x < b.x && Hits(l, a) && Hits(l, b)
    ensures l.slope == Slope(a, b)
  {
    SideBySlope(l, a, b);
  }

  /** The turn at a between o and b, in terms of the chord from o to b. */
  lemma CrossIsSide(o: Point, a: Point, b: Point)
    requires o.x < a.x < b.x
    ensures Cross(o, a, b) >= 0 <==> Under(a, Through(o, b))
    ensures Cross(o, a, b) <= 0 <==> Over(a, Through(o, b))
  {
    var l := Through(o, b);
    ThroughHits(o, b);
    SideBySlope(l, o, a);
    assert l.slope == Slope(o, b);
    SlopeLessIsSlopeOrder(o, a, o, b);
    SlopeLessIsSlopeOrder(o, b, o, a);
  }

  /** For three points left to right, the long slope lies between the two short ones. */
  lemma Mediant(a: Point, b: Point, c: Point)
    requires a.x < b.x < c.x
    ensures Slope(a, b) < Slope(a, c) <==> Slope(a, c) < Slope(b, c)
    ensures Slope(a, b) > Slope(a, c) <==> Slope(a, c) > Slope(b, c)
    ensures Slope(a, b) < Slope(b, c) <==> Slope(a, c) < Slope(b, c)
    ensures Slope(a, b) > Slope(b, c) <==> Slope(a, c) > Slope(b, c)
  {
    var l := Through(a, c);
    ThroughHits(a, c);
    SideBySlope(l, a, b);
    SideBySlopeLeft(l, b, c);
  }

  /** Two lines meeting at x2: the one with the smaller slope is higher on the left. */
  lemma Fan(f: Line, g: Line, x2: int, x: int)
    requires At(f, x2) == At(g, x2) && f.slope <= g.slope
    ensures x <= x2 ==> At(f, x) >= At(g, x)
    ensures x2 <= x ==> At(f, x) <= At(g, x)
  {
    if x <= x2 { Carry(f, g, x, x2); }
    if x2 <= x { Carry(f, g, x2, x); }
  }

  /** The line a fraction t of the way from f to g. */
  ghost function Mix(f: Line, g: Line, t: real): Line {
    Line(f.slope + t * (g.slope - f.slope), f.intercept + t * (g.intercept - f.intercept))
  }

  lemma MixAt(f: Line, g: Line, t: real, x: int, d: real)
    requires d == At(g, x) - At(f, x)
    ensures At(Mix(f, g, t), x) == At(f, x) + t * d
  {
    MixCore(f.slope, g.slope, f.intercept, g.intercept, t, x as real, d);
  }

  lemma MixCore(m: real, n: real, a: real, b: real, t: real, x: real, d: real)
    requires d == (n * x + b) - (m * x + a)
    ensures (m + t * (n - m)) * x + (a + t * (b - a)) == m * x + a + t * d
  {
    assert t * d == t * ((n * x + b) - (m * x + a));
  }

  /** Reflection in the horizontal axis, which swaps upper and lower. */
  ghost function Flip(p: Point): Point {
    Point(p.x, -p.y)
  }

  ghost function FlipLine(l: Line): Line {
    Line(-l.slope, -l.intercept)
  }

  lemma FlipCross(a: Point, b: Point, c: Point)
    ensures Cross(Flip(a), Flip(b), Flip(c)) == -Cross(a, b, c)
  {
    assert (b.x - a.x) * (-c.y - -a.y) == -((b.x - a.x) * (c.y - a.y));
    assert (-b.y - -a.y) * (c.x - a.x) == -((b.y - a.y) * (c.x - a.x));
  }

  lemma FlipAt(l: Line, x: int)
    ensures At(FlipLine(l), x) == -At(l, x)
  {
  }
}
