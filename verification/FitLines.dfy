/** Lines that pass within eps of every point of a run, the shallowest and the steepest of
    them, and what those two decide about the next point. */
module FitLines {
  import opened Geometry

  ghost predicate Fits(l: Line, p: Point, eps: int) {
    (p.y - eps) as real <= At(l, p.x) <= (p.y + eps) as real
  }

  ghost predicate FitsAll(l: Line, pts: seq<Point>, eps: int) {
    forall i :: 0 <= i < |pts| ==> Fits(l, pts[i], eps)
  }

  /** Some real line passes within eps of every point. */
  ghost predicate Fittable(pts: seq<Point>, eps: int) {
    exists l :: FitsAll(l, pts, eps)
  }

  ghost predicate Rightward(pts: seq<Point>) {
    forall i, j :: 0 <= i < j < |pts| ==> pts[i].x < pts[j].x
  }

  function UpperEnd(p: Point, eps: int): Point {
    Point(p.x, p.y + eps)
  }

  function LowerEnd(p: Point, eps: int): Point {
    Point(p.x, p.y - eps)
  }

  /** A fitting line from an upper endpoint down to a later lower endpoint. */
  ghost predicate IsShallow(l: Line, left: Point, right: Point, pts: seq<Point>, eps: int) {
    && FitsAll(l, pts, eps) && Hits(l, left) && Hits(l, right)
    && exists a, b :: 0 <= a < b < |pts| && left == UpperEnd(pts[a], eps) && right == LowerEnd(pts[b], eps)
  }

  /** A fitting line from a lower endpoint up to a later upper endpoint. */
  ghost predicate IsSteep(l: Line, left: Point, right: Point, pts: seq<Point>, eps: int) {
    && FitsAll(l, pts, eps) && Hits(l, left) && Hits(l, right)
    && exists a, b :: 0 <= a < b < |pts| && left == LowerEnd(pts[a], eps) && right == UpperEnd(pts[b], eps)
  }

  /** A shallow line is lowest among all fitting lines from its right contact on. */
  lemma ShallowIsLowest(s: Line, left: Point, right: Point, l: Line, pts: seq<Point>, eps: int, x: int)
    requires Rightward(pts) && IsShallow(s, left, right, pts, eps) && FitsAll(l, pts, eps) && right.x <= x
    ensures At(s, x) <= At(l, x)
  {
    var a, b :| 0 <= a < b < |pts| && left == UpperEnd(pts[a], eps) && right == LowerEnd(pts[b], eps);
    assert Fits(l, pts[a], eps) && Fits(l, pts[b], eps);
    Crossing(s, l, left.x, right.x, x);
  }

  lemma SteepIsHighest(t: Line, left: Point, right: Point, l: Line, pts: seq<Point>, eps: int, x: int)
    requires Rightward(pts) && IsSteep(t, left, right, pts, eps) && FitsAll(l, pts, eps) && right.x <= x
    ensures At(l, x) <= At(t, x)
  {
    var a, b :| 0 <= a < b < |pts| && left == LowerEnd(pts[a], eps) && right == UpperEnd(pts[b], eps);
    assert Fits(l, pts[a], eps) && Fits(l, pts[b], eps);
    Crossing(l, t, left.x, right.x, x);
  }

  lemma MixFits(f: Line, g: Line, t: real, pts: seq<Point>, eps: int)
    requires FitsAll(f, pts, eps) && FitsAll(g, pts, eps) && 0.0 <= t <= 1.0
    ensures FitsAll(Mix(f, g, t), pts, eps)
  {
    forall i | 0 <= i < |pts| ensures Fits(Mix(f, g, t), pts[i], eps) {
      assert Fits(f, pts[i], eps) && Fits(g, pts[i], eps);
      MixBetween(f, g, t, pts[i].x);
    }
  }

  lemma MixBetween(f: Line, g: Line, t: real, x: int)
    requires 0.0 <= t <= 1.0
    ensures At(f, x) <= At(Mix(f, g, t), x) <= At(g, x) || At(g, x) <= At(Mix(f, g, t), x) <= At(f, x)
  {
    hide *;
    var d := At(g, x) - At(f, x);
    MixAt(f, g, t, x, d);
    if d >= 0.0 { PartOfRise(t, d); } else { PartOfFall(t, d); }
  }

  lemma PartOfRise(t: real, d: real)
    requires 0.0 <= t <= 1.0 && d >= 0.0
    ensures 0.0 <= t * d <= d
  {
    MulMono(t, 1.0, d);
  }

  lemma PartOfFall(t: real, d: real)
    requires 0.0 <= t <= 1.0 && d <= 0.0
    ensures d <= t * d <= 0.0
  {
    MulMono(t, 1.0, -d);
    assert t * d == -(t * (-d));
  }

  /** Every height between two fitting lines is reached by a fitting line. */
  lemma LineAtHeight(f: Line, g: Line, x: int, v: real, pts: seq<Point>, eps: int) returns (l: Line)
    requires FitsAll(f, pts, eps) && FitsAll(g, pts, eps) && At(f, x) <= v <= At(g, x)
    ensures FitsAll(l, pts, eps) && At(l, x) == v
  {
    var d := At(g, x) - At(f, x);
    if d == 0.0 { return f; }
    var t := (v - At(f, x)) / d;
    assert t * d == v - At(f, x);
    if t < 0.0 { MulStrict(t, 0.0, d); }
    if t > 1.0 { MulStrict(1.0, t, d); }
    MixFits(f, g, t, pts, eps);
    MixAt(f, g, t, x, d);
    return Mix(f, g, t);
  }

  lemma FitsAppend(l: Line, pts: seq<Point>, p: Point, eps: int)
    ensures FitsAll(l, pts + [p], eps) <==> FitsAll(l, pts, eps) && Fits(l, p, eps)
  {
    if FitsAll(l, pts + [p], eps) {
      assert (pts + [p])[|pts|] == p;
      forall i | 0 <= i < |pts| ensures Fits(l, pts[i], eps) { assert (pts + [p])[i] == pts[i]; }
    }
  }

  /** The two extreme lines decide the next point exactly. */
  lemma NextPointFits(s: Line, sl: Point, sr: Point, t: Line, tl: Point, tr: Point, pts: seq<Point>, p: Point, eps: int)
    requires eps >= 0 && Rightward(pts + [p]) && Rightward(pts)
    requires IsShallow(s, sl, sr, pts, eps) && IsSteep(t, tl, tr, pts, eps)
    ensures Fittable(pts + [p], eps) <==>
      At(s, p.x) <= (p.y + eps) as real && (p.y - eps) as real <= At(t, p.x)
  {
    ContactsBefore(pts, p, eps, sl, sr, s);
    ContactsBeforeSteep(pts, p, eps, tl, tr, t);
    if Fittable(pts + [p], eps) {
      var l :| FitsAll(l, pts + [p], eps);
      FitsAppend(l, pts, p, eps);
      ShallowIsLowest(s, sl, sr, l, pts, eps, p.x);
      SteepIsHighest(t, tl, tr, l, pts, eps, p.x);
    } else if At(s, p.x) <= (p.y + eps) as real && (p.y - eps) as real <= At(t, p.x) {
      SteepIsHighest(t, tl, tr, s, pts, eps, p.x);
      var v := if At(s, p.x) >= (p.y - eps) as real then At(s, p.x) else (p.y - eps) as real;
      var l := LineAtHeight(s, t, p.x, v, pts, eps);
      FitsAppend(l, pts, p, eps);
    }
  }

  lemma ContactsBefore(pts: seq<Point>, p: Point, eps: int, left: Point, right: Point, l: Line)
    requires Rightward(pts + [p]) && IsShallow(l, left, right, pts, eps)
    ensures left.x < right.x < p.x
  {
    var a, b :| 0 <= a < b < |pts| && left == UpperEnd(pts[a], eps) && right == LowerEnd(pts[b], eps);
    var q := pts + [p];
    assert q[a] == pts[a] && q[b] == pts[b] && q[|pts|] == p;
  }

  lemma ContactsBeforeSteep(pts: seq<Point>, p: Point, eps: int, left: Point, right: Point, l: Line)
    requires Rightward(pts + [p]) && IsSteep(l, left, right, pts, eps)
    ensures left.x < right.x < p.x
  {
    var a, b :| 0 <= a < b < |pts| && left == LowerEnd(pts[a], eps) && right == UpperEnd(pts[b], eps);
    var q := pts + [p];
    assert q[a] == pts[a] && q[b] == pts[b] && q[|pts|] == p;
  }

  /** The steep line comes down to the new upper endpoint and pivots on the lower endpoint
      it then touches first. */
  lemma Pivot(l: Line, pts: seq<Point>, p: Point, c: nat, eps: int)
    requires eps >= 0 && Rightward(pts + [p]) && c < |pts|
    requires FitsAll(l, pts, eps) && At(l, p.x) == (p.y + eps) as real
    requires forall i :: 0 <= i < |pts| ==>
      Slope(LowerEnd(pts[c], eps), UpperEnd(p, eps)) <= Slope(LowerEnd(pts[i], eps), UpperEnd(p, eps))
    ensures IsSteep(Through(LowerEnd(pts[c], eps), UpperEnd(p, eps)), LowerEnd(pts[c], eps), UpperEnd(p, eps),
                    pts + [p], eps)
  {
    var lo, hi := LowerEnd(pts[c], eps), UpperEnd(p, eps);
    var t := Through(lo, hi);
    var q := pts + [p];
    assert q[c] == pts[c] && q[|pts|] == p;
    ThroughHits(lo, hi);
    assert Fits(l, pts[c], eps);
    SideBySlopeLeft(l, lo, hi);
    forall i | 0 <= i < |q| ensures Fits(t, q[i], eps) {
      if i < |pts| {
        assert q[i] == pts[i] && pts[i].x < p.x && Fits(l, pts[i], eps);
        SideBySlopeLeft(t, LowerEnd(pts[i], eps), hi);
        Fan(l, t, p.x, pts[i].x);
      }
    }
    assert lo == LowerEnd(q[c], eps) && hi == UpperEnd(q[|pts|], eps);
  }

  /** A line already fitting stays extreme when it also fits the new point. */
  lemma StaysShallow(l: Line, left: Point, right: Point, pts: seq<Point>, p: Point, eps: int)
    requires IsShallow(l, left, right, pts, eps) && Fits(l, p, eps)
    ensures IsShallow(l, left, right, pts + [p], eps)
  {
    FitsAppend(l, pts, p, eps);
    var a, b :| 0 <= a < b < |pts| && left == UpperEnd(pts[a], eps) && right == LowerEnd(pts[b], eps);
    assert left == UpperEnd((pts + [p])[a], eps) && right == LowerEnd((pts + [p])[b], eps);
  }

  lemma StaysSteep(l: Line, left: Point, right: Point, pts: seq<Point>, p: Point, eps: int)
    requires IsSteep(l, left, right, pts, eps) && Fits(l, p, eps)
    ensures IsSteep(l, left, right, pts + [p], eps)
  {
    FitsAppend(l, pts, p, eps);
    var a, b :| 0 <= a < b < |pts| && left == LowerEnd(pts[a], eps) && right == UpperEnd(pts[b], eps);
    assert left == LowerEnd((pts + [p])[a], eps) && right == UpperEnd((pts + [p])[b], eps);
  }

  ghost function FlipAll(s: seq<Point>): seq<Point> {
    seq(|s|, i requires 0 <= i < |s| => Flip(s[i]))
  }

  lemma FlipFits(l: Line, pts: seq<Point>, eps: int)
    ensures FitsAll(FlipLine(l), FlipAll(pts), eps) <==> FitsAll(l, pts, eps)
  {
    forall i | 0 <= i < |pts| ensures Fits(FlipLine(l), FlipAll(pts)[i], eps) <==> Fits(l, pts[i], eps) {
      FlipAt(l, pts[i].x);
    }
    if FitsAll(FlipLine(l), FlipAll(pts), eps) {
      forall i | 0 <= i < |pts| ensures Fits(l, pts[i], eps) { assert Fits(FlipLine(l), FlipAll(pts)[i], eps); }
    }
  }

  /** Reflection turns the steep line into a shallow one and back. */
  lemma FlipExtremes(l: Line, left: Point, right: Point, pts: seq<Point>, eps: int)
    ensures IsShallow(FlipLine(l), Flip(left), Flip(right), FlipAll(pts), eps) <==> IsSteep(l, left, right, pts, eps)
    ensures IsSteep(FlipLine(l), Flip(left), Flip(right), FlipAll(pts), eps) <==> IsShallow(l, left, right, pts, eps)
  {
    var f := FlipAll(pts);
    FlipFits(l, pts, eps);
    FlipAt(l, left.x);
    FlipAt(l, right.x);
    forall i | 0 <= i < |pts|
      ensures Flip(left) == UpperEnd(f[i], eps) <==> left == LowerEnd(pts[i], eps)
      ensures Flip(left) == LowerEnd(f[i], eps) <==> left == UpperEnd(pts[i], eps)
      ensures Flip(right) == UpperEnd(f[i], eps) <==> right == LowerEnd(pts[i], eps)
      ensures Flip(right) == LowerEnd(f[i], eps) <==> right == UpperEnd(pts[i], eps)
    {
    }
  }
}
