/** O'Rourke's optimal segmenter (cpp/segmented_model.h, namespace optimal_segmentation):
    decides exactly, one point at a time, whether a single line still passes within eps of
    every point added so far, keeping only two extreme lines and two pruned hulls. */
module OptimalSegmenter {
  import opened Geometry
  import opened FitLines
  import opened HullSide
  import opened Segments

  /** The endpoint the new steep line touches first. */
  lemma PivotFromCover(hull: seq<Point>, start: nat, best: nat, pts: seq<Point>, p: Point, eps: int, s: Line, t: Line)
    requires eps >= 0 && Rightward(pts + [p]) && FitsAll(s, pts, eps) && FitsAll(t, pts, eps)
    requires At(s, p.x) <= UpperEnd(p, eps).y as real <= At(t, p.x)
    requires start <= best < |hull| && IsLowerEnd(hull[best], pts, eps)
    requires AllCovered(hull, start, pts, eps, UpperEnd(p, eps))
    requires forall j :: start <= j < |hull| && hull[j].x < p.x ==>
      Slope(hull[best], UpperEnd(p, eps)) <= Slope(hull[j], UpperEnd(p, eps))
    ensures IsSteep(Through(hull[best], UpperEnd(p, eps)), hull[best], UpperEnd(p, eps), pts + [p], eps)
  {
    var hi := UpperEnd(p, eps);
    var l := LineAtHeight(s, t, p.x, hi.y as real, pts, eps);
    var c :| 0 <= c < |pts| && hull[best] == LowerEnd(pts[c], eps);
    forall i | 0 <= i < |pts| ensures Slope(LowerEnd(pts[c], eps), hi) <= Slope(LowerEnd(pts[i], eps), hi) {
      assert CoveredAt(hull, start, pts, eps, hi, i);
    }
    Pivot(l, pts, p, c, eps);
  }

  /** Lines that fit the same points are no wider than the extreme ones. */
  lemma Tightens(s: Line, sl: Point, sr: Point, t: Line, tl: Point, tr: Point, s': Line, t': Line,
                 pts: seq<Point>, p: Point, eps: int)
    requires Rightward(pts + [p]) && Rightward(pts)
    requires IsShallow(s, sl, sr, pts, eps) && IsSteep(t, tl, tr, pts, eps)
    requires FitsAll(s', pts, eps) && FitsAll(t', pts, eps)
    ensures forall x :: x > pts[|pts| - 1].x ==> At(s, x) <= At(s', x) && At(t', x) <= At(t, x)
  {
    ContactsWithin(s, sl, sr, t, tl, tr, pts, eps);
    forall x | x > pts[|pts| - 1].x ensures At(s, x) <= At(s', x) && At(t', x) <= At(t, x) {
      ShallowIsLowest(s, sl, sr, s', pts, eps, x);
      SteepIsHighest(t, tl, tr, t', pts, eps, x);
    }
  }

  lemma ContactsWithin(s: Line, sl: Point, sr: Point, t: Line, tl: Point, tr: Point, pts: seq<Point>, eps: int)
    requires Rightward(pts) && IsShallow(s, sl, sr, pts, eps) && IsSteep(t, tl, tr, pts, eps)
    ensures |pts| >= 2 && sl.x < sr.x <= pts[|pts| - 1].x && tl.x < tr.x <= pts[|pts| - 1].x
  {
    hide FitsAll, Hits, At;
    var a, b :| 0 <= a < b < |pts| && sl == UpperEnd(pts[a], eps) && sr == LowerEnd(pts[b], eps);
    var c, d :| 0 <= c < d < |pts| && tl == LowerEnd(pts[c], eps) && tr == UpperEnd(pts[d], eps);
  }

  /** A hull trimmed to `end` with one endpoint appended, or left alone. */
  function Pushed(hull: seq<Point>, push: bool, end: nat, n: Point): seq<Point>
    requires push ==> end <= |hull|
  {
    if push then hull[..end] + [n] else hull
  }

  /** One point on one side, start moved first (the order the lower hull is updated in). */
  lemma MoveThenPush(hull: seq<Point>, start: nat, best: nat, push: bool, end: nat, pts: seq<Point>, p: Point, eps: int,
                     s: Line, sl: Point, sr: Point, t: Line, tl: Point, tr: Point, s': Line, t': Line)
    requires SideOk(hull, start, pts, eps, s, t) && Rightward(pts + [p]) && Rightward(pts)
    requires IsShallow(s, sl, sr, pts, eps) && IsSteep(t, tl, tr, pts, eps)
    requires FitsAll(s', pts, eps) && FitsAll(t', pts, eps)
    requires start <= best < |hull| && (best != start ==> Hits(t', hull[best]))
    requires if push then Trimmed(hull, best, end, LowerEnd(p, eps)) else s' == s && Under(LowerEnd(p, eps), s)
    ensures SideOk(Pushed(hull, push, end, LowerEnd(p, eps)), best, pts + [p], eps, s', t')
  {
    Tightens(s, sl, sr, t, tl, tr, s', t', pts, p, eps);
    RetargetKeepsSide(hull, start, best, pts, eps, s, t, s', t');
    if push {
      PushKeepsSide(hull, best, end, pts, p, eps, s', t');
    } else {
      SkipKeepsSide(hull, best, pts, p, eps, s', sl, sr, t');
    }
  }

  /** One point on one side, pushed before the start moves (the order of the upper hull). */
  lemma PushThenMove(hull: seq<Point>, start: nat, best: nat, push: bool, end: nat, pts: seq<Point>, p: Point, eps: int,
                     s: Line, sl: Point, sr: Point, t: Line, tl: Point, tr: Point, s': Line, t': Line)
    requires SideOk(hull, start, pts, eps, s, t) && Rightward(pts + [p]) && Rightward(pts)
    requires IsShallow(s, sl, sr, pts, eps) && IsSteep(t, tl, tr, pts, eps)
    requires FitsAll(s', pts + [p], eps) && FitsAll(t', pts + [p], eps)
    requires if push then Trimmed(hull, start, end, LowerEnd(p, eps)) else Under(LowerEnd(p, eps), s)
    requires var kept := Pushed(hull, push, end, LowerEnd(p, eps));
      start <= best < |kept| && (best != start ==> Hits(t', kept[best]))
    ensures SideOk(Pushed(hull, push, end, LowerEnd(p, eps)), best, pts + [p], eps, s', t')
  {
    var kept := Pushed(hull, push, end, LowerEnd(p, eps));
    if push {
      PushKeepsSide(hull, start, end, pts, p, eps, s, t);
    } else {
      SkipKeepsSide(hull, start, pts, p, eps, s, sl, sr, t);
    }
    FitsAppend(s', pts, p, eps);
    FitsAppend(t', pts, p, eps);
    Tightens(s, sl, sr, t, tl, tr, s', t', pts, p, eps);
    LastIsRightmost(pts, p);
    RetargetKeepsSide(kept, start, best, pts + [p], eps, s, t, s', t');
  }

  /** After a push, the pivots for the other endpoint of the same point are still there. */
  lemma CoverAfterPush(hull: seq<Point>, start: nat, push: bool, end: nat, pts: seq<Point>, p: Point, eps: int,
                       s: Line, t: Line)
    requires eps >= 0 && SideOk(hull, start, pts, eps, s, t) && Rightward(pts + [p])
    requires Admissible(UpperEnd(p, eps), s, t, pts[|pts| - 1].x)
    requires push ==> Trimmed(hull, start, end, LowerEnd(p, eps))
    ensures AllCovered(Pushed(hull, push, end, LowerEnd(p, eps)), start, pts, eps, UpperEnd(p, eps))
  {
    var hi, n := UpperEnd(p, eps), LowerEnd(p, eps);
    var kept := Pushed(hull, push, end, n);
    HullBefore(hull, start, pts, p, eps);
    assert AllCovered(hull, start, pts, eps, hi);
    forall k | 0 <= k < |pts| ensures CoveredAt(kept, start, pts, eps, hi, k) {
      assert CoveredAt(hull, start, pts, eps, hi, k);
      if push { TrimKeepsCover(hull, start, end, n, LowerEnd(pts[k], eps), hi); }
    }
  }

  /** Scans the lower hull for the steepest line through hi that stays above it. */
  method ScanLower(hull: seq<Point>, start: nat, hi: Point) returns (best: nat)
    requires start < |hull| && Chain(hull, start) && hull[|hull| - 1].x < hi.x
    ensures start <= best < |hull|
    ensures forall j :: start <= j < |hull| ==> Slope(hull[best], hi) <= Slope(hull[j], hi)
  {
    best := start;
    var i := start + 1;
    while i < |hull|
      invariant start < i <= |hull| && best == i - 1
      invariant forall j :: start <= j < i ==> Slope(hull[best], hi) <= Slope(hull[j], hi)
    {
      SlopeLessIsSlopeOrder(hull[best], hi, hull[i], hi);
      if SlopeLess(hull[best], hi, hull[i], hi) {
        forall j | i <= j < |hull| ensures Slope(hull[best], hi) <= Slope(hull[j], hi) {
          RisesOn(hull, start, best, j, hi);
        }
        break;
      }
      best := i;
      i := i + 1;
    }
  }

  lemma FlipSlopeLess(a: Point, b: Point, c: Point, d: Point)
    ensures SlopeLess(a, b, c, d) <==> SlopeLess(Flip(c), Flip(d), Flip(a), Flip(b))
  {
    NegateProduct(b.y - a.y, d.x - c.x);
    NegateProduct(d.y - c.y, b.x - a.x);
  }

  lemma NegateProduct(u: int, v: int)
    ensures (-u) * v == -(u * v)
  {
  }

  /** Scans the upper hull for the shallowest line through lo that stays below it. The last
      hull point may be directly above lo; the comparison treats that drop as shallowest. */
  method ScanUpper(hull: seq<Point>, start: nat, lo: Point) returns (best: nat)
    requires start < |hull| && Chain(FlipAll(hull), start) && hull[start].x < lo.x
    requires forall j :: start <= j < |hull| ==> hull[j].x < lo.x || (hull[j].x == lo.x && lo.y < hull[j].y)
    ensures start <= best < |hull| && hull[best].x < lo.x
    ensures forall j :: start <= j < |hull| && hull[j].x < lo.x ==>
      Slope(FlipAll(hull)[best], Flip(lo)) <= Slope(FlipAll(hull)[j], Flip(lo))
  {
    best := start;
    var i := start + 1;
    ghost var f := FlipAll(hull);
    while i < |hull|
      invariant start < i <= |hull| && best == i - 1 && hull[best].x < lo.x
      invariant forall j :: start <= j < i ==> Slope(f[best], Flip(lo)) <= Slope(f[j], Flip(lo))
    {
      assert f[best].x < f[i].x;
      if hull[i].x == lo.x {
        VerticalDrop(hull[i], hull[best], lo);
      } else {
        FlipSlopeLess(hull[i], lo, hull[best], lo);
        SlopeLessIsSlopeOrder(f[best], Flip(lo), f[i], Flip(lo));
      }
      if SlopeLess(hull[i], lo, hull[best], lo) {
        forall j | i <= j < |hull| && hull[j].x < lo.x ensures Slope(f[best], Flip(lo)) <= Slope(f[j], Flip(lo)) {
          assert f[i].x <= f[j].x;
          RisesOn(f, start, best, j, Flip(lo));
        }
        break;
      }
      best := i;
      i := i + 1;
    }
  }

  lemma VerticalDrop(a: Point, b: Point, lo: Point)
    requires a.x == lo.x && lo.y < a.y && b.x < lo.x
    ensures SlopeLess(a, lo, b, lo)
  {
    assert (lo.y - a.y) * (lo.x - b.x) < 0;
    assert (lo.y - b.y) * (lo.x - a.x) == 0;
  }

  lemma DroppedFlip(hull: seq<Point>, j: nat, hi: Point)
    requires 1 <= j < |hull|
    ensures DroppedAt(FlipAll(hull), j, Flip(hi)) <==> Cross(hull[j - 1], hull[j], hi) <= 0
  {
    FlipCross(hull[j - 1], hull[j], hi);
  }

  /** How much of the upper hull survives before hi is pushed. */
  method TrimUpper(hull: seq<Point>, start: nat, hi: Point) returns (end: nat)
    requires start < |hull|
    ensures start < end <= |hull|
    ensures Trimmed(FlipAll(hull), start, end, Flip(hi))
  {
    end := |hull|;
    while end >= start + 2 && Cross(hull[end - 2], hull[end - 1], hi) <= 0
      invariant start + 1 <= end <= |hull|
      invariant forall j :: end <= j < |hull| ==> DroppedAt(FlipAll(hull), j, Flip(hi))
    {
      DroppedFlip(hull, end - 1, hi);
      end := end - 1;
    }
    if end >= start + 2 { DroppedFlip(hull, end - 1, hi); }
  }

  method TrimLower(hull: seq<Point>, start: nat, lo: Point) returns (end: nat)
    requires start < |hull|
    ensures start < end <= |hull|
    ensures Trimmed(hull, start, end, lo)
  {
    end := |hull|;
    while end >= start + 2 && Cross(hull[end - 2], hull[end - 1], lo) >= 0
      invariant start + 1 <= end <= |hull|
      invariant forall j :: end <= j < |hull| ==> DroppedAt(hull, j, lo)
    {
      end := end - 1;
    }
  }

  /** The integer slope comparisons, as the side of a line through two contacts. */
  lemma Comparisons(l: Line, left: Point, right: Point, q: Point)
    requires Hits(l, left) && Hits(l, right) && left.x < right.x < q.x
    ensures SlopeLess(right, q, left, right) <==> (q.y as real) < At(l, q.x)
    ensures SlopeLess(left, q, left, right) <==> (q.y as real) < At(l, q.x)
    ensures SlopeLess(left, right, right, q) <==> (q.y as real) > At(l, q.x)
    ensures SlopeLess(left, right, left, q) <==> (q.y as real) > At(l, q.x)
  {
    SlopeIsThroughSlope(l, left, right);
    SideBySlope(l, right, q);
    SideBySlope(l, left, q);
    SlopeLessIsSlopeOrder(right, q, left, right);
    SlopeLessIsSlopeOrder(left, q, left, right);
    SlopeLessIsSlopeOrder(left, right, right, q);
    SlopeLessIsSlopeOrder(left, right, left, q);
  }

  /** Everything the segmenter knows about two or more points. */
  ghost predicate Tracks(pts: seq<Point>, eps: int, upper: seq<Point>, upperStart: nat, lower: seq<Point>, lowerStart: nat,
                         s: Line, sl: Point, sr: Point, t: Line, tl: Point, tr: Point) {
    && IsShallow(s, sl, sr, pts, eps) && IsSteep(t, tl, tr, pts, eps)
    && SideOk(lower, lowerStart, pts, eps, s, t) && lower[lowerStart] == tl
    && SideOk(FlipAll(upper), upperStart, FlipAll(pts), eps, FlipLine(t), FlipLine(s)) && upper[upperStart] == sl
  }

  /** Reflecting a run of points, and one more point. */
  lemma FlipRun(pts: seq<Point>, p: Point)
    requires Rightward(pts + [p])
    ensures FlipAll(pts + [p]) == FlipAll(pts) + [Flip(p)]
    ensures Rightward(FlipAll(pts)) && Rightward(FlipAll(pts) + [Flip(p)])
  {
    var q := pts + [p];
    assert FlipAll(q) == FlipAll(pts) + [Flip(p)];
    forall i, j | 0 <= i < j < |pts| ensures FlipAll(pts)[i].x < FlipAll(pts)[j].x {
      assert q[i] == pts[i] && q[j] == pts[j];
    }
    forall i, j | 0 <= i < j < |q| ensures FlipAll(q)[i].x < FlipAll(q)[j].x { assert q[i].x < q[j].x; }
  }

  /** Reflecting a hull after an optional push. */
  lemma FlipPush(hull: seq<Point>, push: bool, end: nat, p: Point)
    requires push ==> end <= |hull|
    ensures FlipAll(Pushed(hull, push, end, p)) == Pushed(FlipAll(hull), push, end, Flip(p))
  {
  }

  lemma FlipTwice(l: Line)
    ensures FlipLine(FlipLine(l)) == l
  {
  }

  /** The new steep line when the upper endpoint of p is below the old one. */
  lemma NewSteep(lower: seq<Point>, start: nat, best: nat, pts: seq<Point>, p: Point, eps: int, s: Line, t: Line)
    requires eps >= 0 && Rightward(pts + [p]) && FitsAll(s, pts, eps) && FitsAll(t, pts, eps)
    requires SideOk(lower, start, pts, eps, s, t) && start <= best < |lower|
    requires At(s, p.x) <= UpperEnd(p, eps).y as real < At(t, p.x)
    requires forall j :: start <= j < |lower| ==> Slope(lower[best], UpperEnd(p, eps)) <= Slope(lower[j], UpperEnd(p, eps))
    ensures IsSteep(Through(lower[best], UpperEnd(p, eps)), lower[best], UpperEnd(p, eps), pts + [p], eps)
  {
    LastIsRightmost(pts, p);
    assert Admissible(UpperEnd(p, eps), s, t, pts[|pts| - 1].x);
    PivotFromCover(lower, start, best, pts, p, eps, s, t);
  }

  ghost function ShallowThrough(u: Point, lo: Point): Line {
    FlipLine(Through(Flip(u), Flip(lo)))
  }

  /** The endpoint the new steep line touches first, on a hull the same point was just pushed to. */
  lemma PivotAfterPush(hull: seq<Point>, start: nat, push: bool, end: nat, best: nat, pts: seq<Point>, p: Point, eps: int,
                       s: Line, t: Line)
    requires eps >= 0 && Rightward(pts + [p]) && FitsAll(s, pts, eps) && FitsAll(t, pts, eps)
    requires SideOk(hull, start, pts, eps, s, t)
    requires At(s, p.x) <= UpperEnd(p, eps).y as real < At(t, p.x)
    requires push ==> Trimmed(hull, start, end, LowerEnd(p, eps))
    requires var kept := Pushed(hull, push, end, LowerEnd(p, eps));
      && start <= best < |kept| && kept[best].x < p.x
      && forall j :: start <= j < |kept| && kept[j].x < p.x ==> Slope(kept[best], UpperEnd(p, eps)) <= Slope(kept[j], UpperEnd(p, eps))
    ensures var q := Pushed(hull, push, end, LowerEnd(p, eps))[best];
      IsSteep(Through(q, UpperEnd(p, eps)), q, UpperEnd(p, eps), pts + [p], eps)
  {
    LastIsRightmost(pts, p);
    assert push ==> start < end <= |hull|;
    hide Slope, FitsAll, Rightward, IsSteep, Through, Trimmed, AllCovered, IsLowerEnd, Chain, Pushed;
    CoverAfterPush(hull, start, push, end, pts, p, eps, s, t);
    KeptIsOld(hull, start, push, end, pts, p, eps, best);
    PivotFromCover(Pushed(hull, push, end, LowerEnd(p, eps)), start, best, pts, p, eps, s, t);
  }

  /** The new shallow line when the lower endpoint of p is above the old one. */
  lemma NewShallow(upper: seq<Point>, start: nat, best: nat, push: bool, end: nat, pts: seq<Point>, p: Point, eps: int,
                   s: Line, t: Line)
    requires eps >= 0 && Rightward(pts + [p]) && FitsAll(s, pts, eps) && FitsAll(t, pts, eps)
    requires SideOk(FlipAll(upper), start, FlipAll(pts), eps, FlipLine(t), FlipLine(s))
    requires At(s, p.x) < LowerEnd(p, eps).y as real <= At(t, p.x)
    requires push ==> Trimmed(FlipAll(upper), start, end, Flip(UpperEnd(p, eps)))
    requires var kept := Pushed(upper, push, end, UpperEnd(p, eps));
      && start <= best < |kept| && kept[best].x < p.x
      && forall j :: start <= j < |kept| && kept[j].x < p.x ==>
           Slope(FlipAll(kept)[best], Flip(LowerEnd(p, eps))) <= Slope(FlipAll(kept)[j], Flip(LowerEnd(p, eps)))
    ensures var kept := Pushed(upper, push, end, UpperEnd(p, eps));
      IsShallow(ShallowThrough(kept[best], LowerEnd(p, eps)), kept[best], LowerEnd(p, eps), pts + [p], eps)
  {
    hide Slope, FitsAll, Rightward, IsSteep, IsShallow, Through, At;
    assert |pts| > 0;
    assert push ==> end <= |upper|;
    var lo := LowerEnd(p, eps);
    FlipRun(pts, p);
    FlipPush(upper, push, end, UpperEnd(p, eps));
    FlipLowerEnd(pts, p, eps, s, t);
    var kept := Pushed(upper, push, end, UpperEnd(p, eps));
    PivotAfterPush(FlipAll(upper), start, push, end, best, FlipAll(pts), Flip(p), eps, FlipLine(t), FlipLine(s));
    FlipSteepBack(Through(Flip(kept[best]), Flip(lo)), kept[best], lo, pts + [p], eps);
  }

  /** Reflected, the lower endpoint of p is an upper endpoint between the extreme lines. */
  lemma FlipLowerEnd(pts: seq<Point>, p: Point, eps: int, s: Line, t: Line)
    requires |pts| > 0 && Rightward(pts + [p]) && FitsAll(s, pts, eps) && FitsAll(t, pts, eps)
    requires At(s, p.x) < LowerEnd(p, eps).y as real <= At(t, p.x)
    ensures var fp, lo := FlipAll(pts), Flip(LowerEnd(p, eps));
      && FitsAll(FlipLine(t), fp, eps) && FitsAll(FlipLine(s), fp, eps)
      && At(FlipLine(t), p.x) <= lo.y as real < At(FlipLine(s), p.x)
      && Admissible(lo, FlipLine(t), FlipLine(s), fp[|fp| - 1].x)
  {
    FlipRun(pts, p);
    LastIsRightmost(FlipAll(pts), Flip(p));
    hide FitsAll, Rightward;
    FlipFits(s, pts, eps);
    FlipFits(t, pts, eps);
    FlipAt(s, p.x);
    FlipAt(t, p.x);
  }

  lemma FlipSteepBack(f: Line, left: Point, right: Point, pts: seq<Point>, eps: int)
    requires IsSteep(f, Flip(left), Flip(right), FlipAll(pts), eps)
    ensures IsShallow(FlipLine(f), left, right, pts, eps)
  {
    FlipTwice(f);
    FlipExtremes(FlipLine(f), left, right, pts, eps);
  }

  /** A kept endpoint left of p comes from an earlier point. */
  lemma KeptIsOld(hull: seq<Point>, start: nat, push: bool, end: nat, pts: seq<Point>, p: Point, eps: int, best: nat)
    requires FromPoints(hull, start, pts, eps) && start < |hull| && (push ==> start < end <= |hull|)
    requires var kept := Pushed(hull, push, end, LowerEnd(p, eps));
      start <= best < |kept| && kept[best].x < p.x
    ensures IsLowerEnd(Pushed(hull, push, end, LowerEnd(p, eps))[best], pts, eps)
  {
    if push { assert best < end; }
    assert IsLowerEnd(hull[best], pts, eps);
  }

  /** The upper side after a point, in unreflected terms. */
  lemma UpperSide(upper: seq<Point>, start: nat, best: nat, push: bool, end: nat, pts: seq<Point>, p: Point, eps: int,
                  s: Line, sl: Point, sr: Point, t: Line, tl: Point, tr: Point, s': Line, t': Line)
    requires SideOk(FlipAll(upper), start, FlipAll(pts), eps, FlipLine(t), FlipLine(s))
    requires Rightward(pts + [p]) && Rightward(pts)
    requires IsShallow(s, sl, sr, pts, eps) && IsSteep(t, tl, tr, pts, eps)
    requires FitsAll(s', pts + [p], eps) && FitsAll(t', pts + [p], eps)
    requires if push then Trimmed(FlipAll(upper), start, end, Flip(UpperEnd(p, eps))) else Over(UpperEnd(p, eps), t)
    requires var kept := Pushed(upper, push, end, UpperEnd(p, eps));
      start <= best < |kept| && (best != start ==> Hits(s', kept[best]))
    ensures var kept := Pushed(upper, push, end, UpperEnd(p, eps));
      SideOk(FlipAll(kept), best, FlipAll(pts + [p]), eps, FlipLine(t'), FlipLine(s'))
  {
    var hi := UpperEnd(p, eps);
    var kept := Pushed(upper, push, end, hi);
    var fp, fh, fk := FlipAll(pts), FlipAll(upper), FlipAll(kept);
    assert LowerEnd(Flip(p), eps) == Flip(hi);
    FlipContact(s', kept[best]);
    FlipOver(t, hi);
    FlipPush(upper, push, end, hi);
    assert |fk| == |kept| && fk[best] == Flip(kept[best]);
    assert push ==> end <= |fh|;
    hide *;
    FlipRun(pts, p);
    FlipExtremes(t, tl, tr, pts, eps);
    FlipExtremes(s, sl, sr, pts, eps);
    FlipFits(t', pts + [p], eps);
    FlipFits(s', pts + [p], eps);
    PushThenMove(fh, start, best, push, end, fp, Flip(p), eps,
                 FlipLine(t), Flip(tl), Flip(tr), FlipLine(s), Flip(sl), Flip(sr), FlipLine(t'), FlipLine(s'));
  }

  lemma FlipContact(l: Line, q: Point)
    ensures Hits(FlipLine(l), Flip(q)) <==> Hits(l, q)
  {
    FlipAt(l, q.x);
  }

  lemma FlipOver(l: Line, q: Point)
    ensures Under(Flip(q), FlipLine(l)) <==> Over(q, l)
  {
    FlipAt(l, q.x);
  }

  /** Two points: both extreme lines exist and nothing is pruned. */
  lemma TwoPoints(p0: Point, p1: Point, eps: int)
    requires eps >= 0 && p0.x < p1.x
    ensures var s, t := Through(UpperEnd(p0, eps), LowerEnd(p1, eps)), Through(LowerEnd(p0, eps), UpperEnd(p1, eps));
      Tracks([p0, p1], eps, [UpperEnd(p0, eps), UpperEnd(p1, eps)], 0, [LowerEnd(p0, eps), LowerEnd(p1, eps)], 0,
             s, UpperEnd(p0, eps), LowerEnd(p1, eps), t, LowerEnd(p0, eps), UpperEnd(p1, eps))
  {
    var pts := [p0, p1];
    var u0, l1, l0, u1 := UpperEnd(p0, eps), LowerEnd(p1, eps), LowerEnd(p0, eps), UpperEnd(p1, eps);
    var s, t := Through(u0, l1), Through(l0, u1);
    ThroughHits(u0, l1);
    ThroughHits(l0, u1);
    assert u0 == UpperEnd(pts[0], eps) && l1 == LowerEnd(pts[1], eps);
    assert l0 == LowerEnd(pts[0], eps) && u1 == UpperEnd(pts[1], eps);
    TwoPointSide(p0, p1, eps, s, t);
    TwoPointSide(Flip(p0), Flip(p1), eps, FlipLine(t), FlipLine(s));
    assert FlipAll(pts) == [Flip(p0), Flip(p1)];
    assert FlipAll([u0, u1]) == [LowerEnd(Flip(p0), eps), LowerEnd(Flip(p1), eps)];
  }

  /** The four integer tests of Add, as positions relative to the extreme lines. */
  lemma CutTests(s: Line, sl: Point, sr: Point, t: Line, tl: Point, tr: Point, pts: seq<Point>, p: Point, eps: int)
    requires eps >= 0 && Rightward(pts + [p])
    requires IsShallow(s, sl, sr, pts, eps) && IsSteep(t, tl, tr, pts, eps)
    ensures var hi, lo := UpperEnd(p, eps), LowerEnd(p, eps);
      && (SlopeLess(sr, hi, sl, sr) <==> (hi.y as real) < At(s, p.x))
      && (SlopeLess(tl, tr, tr, lo) <==> (lo.y as real) > At(t, p.x))
      && (SlopeLess(tl, hi, tl, tr) <==> (hi.y as real) < At(t, p.x))
      && (SlopeLess(sl, sr, sl, lo) <==> (lo.y as real) > At(s, p.x))
  {
    ContactsBefore(pts, p, eps, sl, sr, s);
    ContactsBeforeSteep(pts, p, eps, tl, tr, t);
    hide At;
    Comparisons(s, sl, sr, UpperEnd(p, eps));
    Comparisons(s, sl, sr, LowerEnd(p, eps));
    Comparisons(t, tl, tr, UpperEnd(p, eps));
    Comparisons(t, tl, tr, LowerEnd(p, eps));
  }

  /** The steep line comes down to hi: finds its new pivot. */
  method PivotSteep(lower: seq<Point>, start: nat, hi: Point, ghost pts: seq<Point>, ghost p: Point, eps: int,
                    ghost s: Line, ghost t: Line) returns (best: nat)
    requires eps >= 1 && Rightward(pts + [p]) && hi == UpperEnd(p, eps)
    requires FitsAll(s, pts, eps) && FitsAll(t, pts, eps) && SideOk(lower, start, pts, eps, s, t)
    requires At(s, p.x) <= hi.y as real < At(t, p.x)
    ensures start <= best < |lower|
    ensures IsSteep(Through(lower[best], hi), lower[best], hi, pts + [p], eps)
  {
    LowerBefore(lower, start, pts, p, eps, s, t);
    best := ScanLower(lower, start, hi);
    NewSteep(lower, start, best, pts, p, eps, s, t);
  }

  /** The shallow line comes up to lo: finds its new pivot on the hull after the first branch. */
  method PivotShallow(hull: seq<Point>, start: nat, lo: Point, ghost upper: seq<Point>, ghost push: bool, ghost end: nat,
                      ghost pts: seq<Point>, ghost p: Point, eps: int, ghost s: Line, ghost t: Line) returns (best: nat)
    requires eps >= 1 && Rightward(pts + [p]) && lo == LowerEnd(p, eps)
    requires FitsAll(s, pts, eps) && FitsAll(t, pts, eps)
    requires SideOk(FlipAll(upper), start, FlipAll(pts), eps, FlipLine(t), FlipLine(s))
    requires At(s, p.x) < lo.y as real <= At(t, p.x)
    requires push ==> Trimmed(FlipAll(upper), start, end, Flip(UpperEnd(p, eps)))
    requires hull == Pushed(upper, push, end, UpperEnd(p, eps))
    ensures start <= best < |hull|
    ensures IsShallow(ShallowThrough(hull[best], lo), hull[best], lo, pts + [p], eps)
  {
    UpperBefore(upper, start, pts, p, eps, s, t);
    FlipPush(upper, push, end, UpperEnd(p, eps));
    if push { TrimmedChain(FlipAll(upper), start, end, Flip(UpperEnd(p, eps))); }
    best := ScanUpper(hull, start, lo);
    NewShallow(upper, start, best, push, end, pts, p, eps, s, t);
  }

  /** Both sides of the state after a point that fits. */
  lemma Extended(upper: seq<Point>, us: nat, us': nat, cutSteep: bool, ue: nat,
                 lower: seq<Point>, ls: nat, ls': nat, cutShallow: bool, le: nat,
                 pts: seq<Point>, p: Point, eps: int, s: Line, sl: Point, sr: Point, t: Line, tl: Point, tr: Point,
                 s': Line, sl': Point, sr': Point, t': Line, tl': Point, tr': Point)
    requires eps >= 1 && Rightward(pts) && Rightward(pts + [p])
    requires Tracks(pts, eps, upper, us, lower, ls, s, sl, sr, t, tl, tr)
    requires IsShallow(s', sl', sr', pts + [p], eps) && IsSteep(t', tl', tr', pts + [p], eps)
    requires if cutSteep then Trimmed(FlipAll(upper), us, ue, Flip(UpperEnd(p, eps)))
             else t' == t && us <= |upper| && Over(UpperEnd(p, eps), t)
    requires if cutShallow then Trimmed(lower, ls', le, LowerEnd(p, eps))
             else s' == s && Under(LowerEnd(p, eps), s)
    requires var kept := Pushed(upper, cutSteep, ue, UpperEnd(p, eps));
      us <= us' < |kept| && kept[us'] == sl' && (!cutShallow ==> us' == us)
    requires ls <= ls' < |lower| && lower[ls'] == tl' && (!cutSteep ==> ls' == ls)
    ensures Tracks(pts + [p], eps, Pushed(upper, cutSteep, ue, UpperEnd(p, eps)), us',
                   Pushed(lower, cutShallow, le, LowerEnd(p, eps)), ls', s', sl', sr', t', tl', tr')
  {
    FitsAppend(s', pts, p, eps);
    FitsAppend(t', pts, p, eps);
    var kept := Pushed(upper, cutSteep, ue, UpperEnd(p, eps));
    hide At, SideOk, FitsAll;
    MoveThenPush(lower, ls, ls', cutShallow, le, pts, p, eps, s, sl, sr, t, tl, tr, s', t');
    UpperSide(upper, us, us', cutSteep, ue, pts, p, eps, s, sl, sr, t, tl, tr, s', t');
  }

  /** A line through two contacts, written relative to another key. */
  method Relative(ghost l: Line, left: Point, right: Point, startKey: int) returns (slope: real, atStart: real)
    requires Hits(l, left) && Hits(l, right) && left.x < right.x
    ensures slope == l.slope && atStart == At(l, startKey)
  {
    slope := (right.y - left.y) as real / ((right.x - startKey) as real - (left.x - startKey) as real);
    atStart := left.y as real - slope * (left.x - startKey) as real;
    SlopeIsThroughSlope(l, left, right);
    Rise(l, startKey, left.x);
  }

  /** The average of two fitting lines fits: at each point it is the midpoint of two values in the gap. */
  lemma AverageFits(f: Line, g: Line, pts: seq<Point>, eps: int, s: Segment, fAt: real, gAt: real)
    requires FitsAll(f, pts, eps) && FitsAll(g, pts, eps)
    requires At(f, s.startKey) == fAt && At(g, s.startKey) == gAt
    requires s.slope == (f.slope + g.slope) / 2.0
    requires s.intercept == (fAt + gAt) / 2.0 - s.slope * s.startKey as real
    ensures FitsAll(LineOf(s), pts, eps)
  {
    var m := Mix(f, g, 0.5);
    assert m.slope == s.slope && m.intercept == (f.intercept + g.intercept) / 2.0;
    assert At(m, s.startKey) == (fAt + gAt) / 2.0 by { MixAt(f, g, 0.5, s.startKey, gAt - fAt); }
    assert LineOf(s) == m;
    MixFits(f, g, 0.5, pts, eps);
  }

  class Segmenter {
    const eps: int
    var count: nat
    var upper: seq<Point> // of the upper endpoints, the hull from below
    var lower: seq<Point> // of the lower endpoints, the hull from above
    var upperStart: nat   // the hull is used from here on
    var lowerStart: nat
    var shallowLeft: Point
    var shallowRight: Point
    var steepLeft: Point
    var steepRight: Point

    ghost var pts: seq<Point> // the points of the current segment
    ghost var shallow: Line
    ghost var steep: Line

    ghost predicate Valid()
      reads this
    {
      && eps >= 1 && count == |pts| && Rightward(pts)
      && (count == 1 ==>
            && upper == [UpperEnd(pts[0], eps)] && lower == [LowerEnd(pts[0], eps)] && upperStart == lowerStart == 0
            && shallowLeft == UpperEnd(pts[0], eps) && steepLeft == LowerEnd(pts[0], eps))
      && (count >= 2 ==> Tracks(pts, eps, upper, upperStart, lower, lowerStart,
                                shallow, shallowLeft, shallowRight, steep, steepLeft, steepRight))
    }

    constructor (eps: int)
      requires eps >= 1
      ensures Valid() && pts == [] && this.eps == eps
    {
      this.eps := eps;
      count, upper, lower, upperStart, lowerStart := 0, [], [], 0, 0;
      shallowLeft, shallowRight, steepLeft, steepRight := Point(0, 0), Point(0, 0), Point(0, 0), Point(0, 0);
      pts, shallow, steep := [], Line(0.0, 0.0), Line(0.0, 0.0);
    }

    /** The line handed out lies halfway between the two extreme ones. */
    method LineFrom(startKey: int) returns (s: Segment)
      requires Valid() && |pts| >= 1
      ensures s.startKey == startKey && FitsAll(LineOf(s), pts, eps)
    {
      if count == 1 {
        s := Segment(startKey, 0.0, ((shallowLeft.y + steepLeft.y) / 2) as real);
        return;
      }
      ContactsWithin(shallow, shallowLeft, shallowRight, steep, steepLeft, steepRight, pts, eps);
      // relative to startKey, as the source works to keep its long doubles exact
      var shallowSlope, shallowAtStart := Relative(shallow, shallowLeft, shallowRight, startKey);
      var steepSlope, steepAtStart := Relative(steep, steepLeft, steepRight, startKey);
      var slope := (shallowSlope + steepSlope) / 2.0;
      var atStart := (shallowAtStart + steepAtStart) / 2.0;
      s := Segment(startKey, slope, atStart - slope * startKey as real);
      assert FitsAll(shallow, pts, eps) && FitsAll(steep, pts, eps);
      AverageFits(shallow, steep, pts, eps, s, shallowAtStart, steepAtStart);
    }

    method Reset()
      requires Valid()
      modifies this
      ensures Valid() && pts == []
    {
      count := 0;
      pts := [];
    }

    /** Adds (x, y) exactly when some line still fits every point; otherwise changes nothing. */
    method Add(x: int, y: int) returns (ok: bool)
      requires Valid() && (|pts| > 0 ==> pts[|pts| - 1].x < x)
      modifies this
      ensures Valid()
      ensures ok <==> Fittable(old(pts) + [Point(x, y)], eps)
      ensures ok ==> pts == old(pts) + [Point(x, y)]
      ensures !ok ==> unchanged(this)
    {
      var hi, lo := Point(x, y + eps), Point(x, y - eps);
      ghost var p := Point(x, y);
      RightwardAppend(pts, p);
      if count <= 1 {
        AddFirst(hi, lo, p);
        return true;
      }
      hide At, FitsAll, IsShallow, IsSteep, SideOk, Rightward, SlopeLess;
      NextPointFits(shallow, shallowLeft, shallowRight, steep, steepLeft, steepRight, pts, p, eps);
      CutTests(shallow, shallowLeft, shallowRight, steep, steepLeft, steepRight, pts, p, eps);
      if SlopeLess(shallowRight, hi, shallowLeft, shallowRight) { return false; } // hi is under the shallow line
      if SlopeLess(steepLeft, steepRight, steepRight, lo) { return false; } // lo is over the steep line
      Extend(hi, lo, p);
      ok := true;
    }

    /** The first two points always fit. */
    method AddFirst(hi: Point, lo: Point, ghost p: Point)
      requires Valid() && count <= 1 && Rightward(pts + [p])
      requires hi == UpperEnd(p, eps) && lo == LowerEnd(p, eps)
      modifies this
      ensures Valid() && pts == old(pts) + [p] && Fittable(pts, eps)
    {
      hide At, SideOk, Slope, Through, Chain, Fittable, FitsAll, Tracks;
      if count == 0 {
        upper, lower, upperStart, lowerStart := [hi], [lo], 0, 0;
        shallowLeft, steepLeft := hi, lo;
        count, pts := 1, pts + [p];
        OnePoint(p, eps);
        assert pts == [p] && |pts| == 1;
      } else {
        assert pts == [pts[0]] && pts + [p] == [pts[0], p] && pts[0].x < p.x by {
          assert (pts + [p])[0].x < (pts + [p])[1].x;
        }
        TwoPoints(pts[0], p, eps);
        shallow, steep := Through(shallowLeft, lo), Through(steepLeft, hi);
        shallowRight, steepRight := lo, hi;
        upper, lower := upper + [hi], lower + [lo];
        count, pts := 2, pts + [p];
        assert upper == [UpperEnd(pts[0], eps), hi] && lower == [LowerEnd(pts[0], eps), lo];
        assert pts == [pts[0], p];
        TracksFacts(pts, eps, upper, upperStart, lower, lowerStart, shallow, shallowLeft, shallowRight, steep, steepLeft, steepRight);
      }
    }

    /** The top of the gap may be below the steepest line, which then has to come down. */
    method LowerSteep(hi: Point, ghost p: Point) returns (ghost cut: bool, ghost end: nat)
      requires Valid() && count >= 2 && Rightward(pts + [p]) && hi == UpperEnd(p, eps)
      requires At(shallow, p.x) <= hi.y as real && (p.y - eps) as real <= At(steep, p.x)
      modifies this`steep, this`steepLeft, this`steepRight, this`lowerStart, this`upper
      ensures IsSteep(steep, steepLeft, steepRight, pts + [p], eps)
      ensures old(lowerStart) <= lowerStart < |lower| && lower[lowerStart] == steepLeft
      ensures if cut then Trimmed(FlipAll(old(upper)), upperStart, end, Flip(hi))
              else steep == old(steep) && Over(hi, steep) && lowerStart == old(lowerStart)
      ensures cut ==> end <= |old(upper)|
      ensures upper == Pushed(old(upper), cut, end, hi)
    {
      ghost var s, t := shallow, steep;
      TracksFacts(pts, eps, upper, upperStart, lower, lowerStart, s, shallowLeft, shallowRight, t, steepLeft, steepRight);
      CutTests(s, shallowLeft, shallowRight, t, steepLeft, steepRight, pts, p, eps);
      hide At, SlopeLess, FitsAll, IsShallow, IsSteep, SideOk, Rightward, Trimmed, Through, FlipAll;
      cut, end := SlopeLess(steepLeft, hi, steepLeft, steepRight), 0;
      if SlopeLess(steepLeft, hi, steepLeft, steepRight) {
        var best := PivotSteep(lower, lowerStart, hi, pts, p, eps, s, t);
        steep := Through(lower[best], hi);
        steepLeft, steepRight, lowerStart := lower[best], hi, best;
        var kept := TrimUpper(upper, upperStart, hi);
        end := kept;
        upper := upper[..kept] + [hi];
      } else {
        StaysSteep(t, steepLeft, steepRight, pts, p, eps);
      }
    }

    /** The bottom of the gap may be above the shallowest line, which then has to come up.
        Runs after LowerSteep, which may already have pushed hi on the upper hull. */
    method RaiseShallow(lo: Point, ghost p: Point, ghost up0: seq<Point>, ghost push: bool, ghost upEnd: nat, ghost t: Line)
      returns (ghost cut: bool, ghost end: nat)
      requires eps >= 1 && Rightward(pts + [p]) && lo == LowerEnd(p, eps)
      requires IsShallow(shallow, shallowLeft, shallowRight, pts, eps) && FitsAll(t, pts, eps)
      requires SideOk(FlipAll(up0), upperStart, FlipAll(pts), eps, FlipLine(t), FlipLine(shallow))
      requires SlopeLess(shallowLeft, shallowRight, shallowLeft, lo) <==> (lo.y as real) > At(shallow, p.x)
      requires At(shallow, p.x) <= (p.y + eps) as real && lo.y as real <= At(t, p.x)
      requires push ==> Trimmed(FlipAll(up0), upperStart, upEnd, Flip(UpperEnd(p, eps))) && upEnd <= |up0|
      requires upper == Pushed(up0, push, upEnd, UpperEnd(p, eps)) && upperStart < |upper|
      requires up0[upperStart] == shallowLeft && upper[upperStart] == shallowLeft && lowerStart < |lower|
      modifies this`shallow, this`shallowLeft, this`shallowRight, this`upperStart, this`lower
      ensures IsShallow(shallow, shallowLeft, shallowRight, pts + [p], eps)
      ensures old(upperStart) <= upperStart < |upper| && upper[upperStart] == shallowLeft
      ensures if cut then Trimmed(old(lower), lowerStart, end, lo)
              else shallow == old(shallow) && Under(lo, shallow) && upperStart == old(upperStart)
      ensures cut ==> end <= |old(lower)|
      ensures lower == Pushed(old(lower), cut, end, lo)
    {
      hide SlopeLess, FitsAll, SideOk, Rightward, Trimmed, ShallowThrough, Through, FlipAll;
      ghost var s := shallow;
      assert FitsAll(s, pts, eps);
      hide At, IsShallow;
      cut, end := SlopeLess(shallowLeft, shallowRight, shallowLeft, lo), 0;
      if SlopeLess(shallowLeft, shallowRight, shallowLeft, lo) {
        var best := PivotShallow(upper, upperStart, lo, up0, push, upEnd, pts, p, eps, s, t);
        shallow := ShallowThrough(upper[best], lo);
        shallowLeft, shallowRight, upperStart := upper[best], lo, best;
        var kept := TrimLower(lower, lowerStart, lo);
        end := kept;
        lower := lower[..kept] + [lo];
      } else {
        StaysShallow(s, shallowLeft, shallowRight, pts, p, eps);
      }
    }

    /** The rest of Add, for a point known to fit: pivots the lines it cuts into. */
    method Extend(hi: Point, lo: Point, ghost p: Point)
      requires Valid() && count >= 2 && Rightward(pts + [p])
      requires hi == UpperEnd(p, eps) && lo == LowerEnd(p, eps)
      requires At(shallow, p.x) <= hi.y as real && lo.y as real <= At(steep, p.x)
      modifies this
      ensures Valid() && pts == old(pts) + [p]
    {
      hide At, SlopeLess, Over, Under, FitsAll, IsShallow, IsSteep, SideOk, Rightward, Trimmed, FlipAll;
      ghost var s, sl, sr, t, tl, tr := shallow, shallowLeft, shallowRight, steep, steepLeft, steepRight;
      ghost var up0, us0, low0, ls0, pts0 := upper, upperStart, lower, lowerStart, pts;
      TracksFacts(pts, eps, upper, upperStart, lower, lowerStart, s, sl, sr, t, tl, tr);
      CutTests(s, sl, sr, t, tl, tr, pts, p, eps);
      ghost var cutSteep, upperEnd := LowerSteep(hi, p);
      PushedKeepsStart(up0, us0, cutSteep, upperEnd, hi);
      ghost var cutShallow, lowerEnd := RaiseShallow(lo, p, up0, cutSteep, upperEnd, t);
      Extended(up0, us0, upperStart, cutSteep, upperEnd, low0, ls0, lowerStart, cutShallow, lowerEnd, pts0, p, eps,
               s, sl, sr, t, tl, tr, shallow, shallowLeft, shallowRight, steep, steepLeft, steepRight);
      count := count + 1;
      pts := pts + [p];
    }
  }

  lemma PushedKeepsStart(hull: seq<Point>, start: nat, push: bool, end: nat, n: Point)
    requires start < |hull| && (push ==> Trimmed(FlipAll(hull), start, end, Flip(n)) && end <= |hull|)
    ensures start < |Pushed(hull, push, end, n)| && Pushed(hull, push, end, n)[start] == hull[start]
  {
  }

  lemma TracksFacts(pts: seq<Point>, eps: int, upper: seq<Point>, us: nat, lower: seq<Point>, ls: nat,
                    s: Line, sl: Point, sr: Point, t: Line, tl: Point, tr: Point)
    requires Tracks(pts, eps, upper, us, lower, ls, s, sl, sr, t, tl, tr)
    ensures FitsAll(s, pts, eps) && FitsAll(t, pts, eps) && Fittable(pts, eps) && us < |upper| && ls < |lower|
    ensures upper[us] == sl && lower[ls] == tl
  {
  }

  lemma OnePoint(p: Point, eps: int)
    requires eps >= 0
    ensures Fittable([p], eps)
  {
    var l := Line(0.0, p.y as real);
    assert FitsAll(l, [p], eps);
  }

  lemma RightwardAppend(pts: seq<Point>, p: Point)
    requires Rightward(pts) && (|pts| > 0 ==> pts[|pts| - 1].x < p.x)
    ensures Rightward(pts + [p])
  {
  }

  lemma LowerBefore(lower: seq<Point>, start: nat, pts: seq<Point>, p: Point, eps: int, s: Line, t: Line)
    requires SideOk(lower, start, pts, eps, s, t) && Rightward(pts + [p])
    ensures lower[|lower| - 1].x < p.x
  {
    HullBefore(lower, start, pts, p, eps);
  }

  lemma UpperBefore(upper: seq<Point>, start: nat, pts: seq<Point>, p: Point, eps: int, s: Line, t: Line)
    requires SideOk(FlipAll(upper), start, FlipAll(pts), eps, FlipLine(t), FlipLine(s)) && Rightward(pts + [p])
    ensures forall j :: start <= j < |upper| ==> upper[j].x < p.x
  {
    FlipRun(pts, p);
    HullBefore(FlipAll(upper), start, FlipAll(pts), Flip(p), eps);
    forall j | start <= j < |upper| ensures upper[j].x < p.x { assert FlipAll(upper)[j].x == upper[j].x; }
  }
}
