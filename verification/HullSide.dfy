/** One side of the optimal segmenter's state: the pruned hull of the lower endpoints, from
    its start index on. The invariant says what pruning may never lose: for every upper
    endpoint that could still bring the steep line down, some kept endpoint is at least as
    good a pivot as every endpoint ever added. The other side is the same statement about
    the points reflected in the horizontal axis. */
module HullSide {
  import opened Geometry
  import opened FitLines

  /** An upper endpoint right of `last` on or above the shallow line and below the steep one. */
  ghost predicate Admissible(hi: Point, s: Line, t: Line, last: int) {
    hi.x > last && hi.y as real >= At(s, hi.x) && (hi.y as real) < At(t, hi.x)
  }

  /** Some kept endpoint left of hi is at least as good a pivot for hi as q. */
  ghost predicate Covered(hull: seq<Point>, start: nat, q: Point, hi: Point) {
    exists h :: start <= h < |hull| && hull[h].x < hi.x && Slope(hull[h], hi) <= Slope(q, hi)
  }

  /** Strictly rightward and strictly turning right from `start` on. */
  ghost predicate Chain(hull: seq<Point>, start: nat) {
    && (forall i, j :: start <= i < j < |hull| ==> hull[i].x < hull[j].x)
    && (forall i :: start <= i && i + 2 < |hull| ==> TurnsRight(hull, i))
  }

  ghost predicate TurnsRight(hull: seq<Point>, i: nat)
    requires i + 2 < |hull|
  {
    Cross(hull[i], hull[i + 1], hull[i + 2]) < 0
  }

  /** Every kept endpoint is a lower endpoint of one of the points. */
  ghost predicate FromPoints(hull: seq<Point>, start: nat, pts: seq<Point>, eps: int) {
    forall h :: start <= h < |hull| ==> IsLowerEnd(hull[h], pts, eps)
  }

  ghost predicate IsLowerEnd(q: Point, pts: seq<Point>, eps: int) {
    exists k :: 0 <= k < |pts| && q == LowerEnd(pts[k], eps)
  }

  ghost predicate AllCovered(hull: seq<Point>, start: nat, pts: seq<Point>, eps: int, hi: Point) {
    forall k :: 0 <= k < |pts| ==> CoveredAt(hull, start, pts, eps, hi, k)
  }

  ghost predicate CoveredAt(hull: seq<Point>, start: nat, pts: seq<Point>, eps: int, hi: Point, k: nat)
    requires k < |pts|
  {
    Covered(hull, start, LowerEnd(pts[k], eps), hi)
  }

  ghost predicate SideOk(hull: seq<Point>, start: nat, pts: seq<Point>, eps: int, s: Line, t: Line) {
    && start < |hull| && |pts| > 0
    && Chain(hull, start)
    && FromPoints(hull, start, pts, eps)
    && forall hi :: Admissible(hi, s, t, pts[|pts| - 1].x) ==> AllCovered(hull, start, pts, eps, hi)
  }

  /** Along the chain, slopes to a fixed point on the right keep rising once they rise. */
  lemma {:induction false} RisesOn(hull: seq<Point>, start: nat, i: nat, j: nat, hi: Point)
    requires Chain(hull, start) && start <= i && i + 1 <= j < |hull|
    requires hull[j].x < hi.x && Slope(hull[i], hi) < Slope(hull[i + 1], hi)
    ensures Slope(hull[i], hi) < Slope(hull[j], hi)
    ensures Slope(hull[j - 1], hi) < Slope(hull[j], hi)
  {
    if i + 1 < j {
      RisesOn(hull, start, i, j - 1, hi);
      assert TurnsRight(hull, j - 2);
      RisesNext(hull[j - 2], hull[j - 1], hull[j], hi);
    }
  }

  lemma RisesNext(a: Point, b: Point, c: Point, hi: Point)
    requires a.x < b.x < c.x < hi.x && Cross(a, b, c) < 0 && Slope(a, hi) < Slope(b, hi)
    ensures Slope(b, hi) < Slope(c, hi)
  {
    TurnSlopes(a, b, c);
    Mediant(a, b, hi);
    Mediant(b, c, hi);
  }

  lemma TurnSlopes(a: Point, b: Point, c: Point)
    requires a.x < b.x < c.x
    ensures Cross(a, b, c) < 0 <==> Slope(b, c) < Slope(a, b)
    ensures Cross(a, b, c) >= 0 <==> Slope(a, b) <= Slope(b, c)
  {
    CrossIsSide(a, b, c);
    ThroughHits(a, c);
    SideBySlope(Through(a, c), a, b);
    Mediant(a, b, c);
  }

  /** Dropping a hull point that a new endpoint makes redundant loses no pivot. */
  lemma DroppedIsCovered(prev: Point, q: Point, n: Point, hi: Point)
    requires prev.x < q.x < n.x && Cross(prev, q, n) >= 0
    requires n.x < hi.x || (n.x == hi.x && n.y <= hi.y)
    ensures Slope(prev, hi) <= Slope(q, hi) || (n.x < hi.x && Slope(n, hi) <= Slope(q, hi))
  {
    TurnSlopes(prev, q, n);
    Mediant(prev, q, hi);
    if n.x < hi.x {
      Mediant(q, n, hi);
    } else {
      SteeperToHigher(q, n, hi);
    }
  }

  lemma SteeperToHigher(q: Point, n: Point, hi: Point)
    requires q.x < n.x == hi.x && n.y <= hi.y
    ensures Slope(q, n) <= Slope(q, hi)
  {
    ThroughHits(q, hi);
    SideBySlope(Through(q, hi), q, n);
  }

  /** The trimming loop's result: the kept prefix ends where the turn at its end is right. */
  ghost predicate Trimmed(hull: seq<Point>, start: nat, end: nat, n: Point) {
    && start + 1 <= end <= |hull|
    && (forall j :: end <= j < |hull| ==> DroppedAt(hull, j, n))
    && (end >= start + 2 ==> Cross(hull[end - 2], hull[end - 1], n) < 0)
  }

  ghost predicate DroppedAt(hull: seq<Point>, j: nat, n: Point)
    requires j < |hull|
  {
    1 <= j && Cross(hull[j - 1], hull[j], n) >= 0
  }

  lemma {:induction false} DroppedStaysCovered(hull: seq<Point>, start: nat, end: nat, n: Point, j: nat, hi: Point)
    requires Chain(hull, start) && Trimmed(hull, start, end, n) && start <= j < |hull|
    requires hull[|hull| - 1].x < n.x
    requires n.x < hi.x || (n.x == hi.x && n.y <= hi.y)
    ensures Covered(hull[..end] + [n], start, hull[j], hi)
    decreases j
  {
    var kept := hull[..end] + [n];
    if j < end {
      assert kept[j] == hull[j];
    } else {
      assert DroppedAt(hull, j, n);
      DroppedIsCovered(hull[j - 1], hull[j], n, hi);
      if Slope(hull[j - 1], hi) <= Slope(hull[j], hi) {
        DroppedStaysCovered(hull, start, end, n, j - 1, hi);
      } else {
        assert kept[end] == n;
      }
    }
  }

  /** Trimming and appending keeps every covered endpoint covered. */
  lemma TrimKeepsCover(hull: seq<Point>, start: nat, end: nat, n: Point, q: Point, hi: Point)
    requires Chain(hull, start) && Trimmed(hull, start, end, n) && hull[|hull| - 1].x < n.x
    requires n.x < hi.x || (n.x == hi.x && n.y <= hi.y)
    requires Covered(hull, start, q, hi)
    ensures Covered(hull[..end] + [n], start, q, hi)
  {
    var h :| start <= h < |hull| && hull[h].x < hi.x && Slope(hull[h], hi) <= Slope(q, hi);
    DroppedStaysCovered(hull, start, end, n, h, hi);
  }

  lemma TrimmedChain(hull: seq<Point>, start: nat, end: nat, n: Point)
    requires Chain(hull, start) && Trimmed(hull, start, end, n) && hull[|hull| - 1].x < n.x
    ensures Chain(hull[..end] + [n], start)
  {
    var kept := hull[..end] + [n];
    forall i | start <= i && i + 2 < |kept| ensures TurnsRight(kept, i) {
      if i + 2 < end { assert TurnsRight(hull, i); }
    }
  }

  /** A lower endpoint on or under the shallow line is never needed as a pivot. */
  lemma UnderShallowIsCovered(hull: seq<Point>, start: nat, pts: seq<Point>, p: Point, eps: int, hi: Point,
                              s: Line, sl: Point, sr: Point)
    requires Rightward(pts + [p]) && IsShallow(s, sl, sr, pts, eps)
    requires hi.x > p.x && hi.y as real >= At(s, hi.x) && Under(LowerEnd(p, eps), s)
    requires AllCovered(hull, start, pts, eps, hi)
    ensures Covered(hull, start, LowerEnd(p, eps), hi)
  {
    var a, b :| 0 <= a < b < |pts| && sl == UpperEnd(pts[a], eps) && sr == LowerEnd(pts[b], eps);
    ContactsBefore(pts, p, eps, sl, sr, s);
    var lo := LowerEnd(p, eps);
    SideBySlope(s, sr, lo);
    SideBySlope(s, sr, hi);
    Mediant(sr, lo, hi);
    assert CoveredAt(hull, start, pts, eps, hi, b);
  }

  /** The next point joins this side: its lower endpoint is pushed after trimming. */
  lemma PushKeepsSide(hull: seq<Point>, start: nat, end: nat, pts: seq<Point>, p: Point, eps: int, s: Line, t: Line)
    requires SideOk(hull, start, pts, eps, s, t) && Rightward(pts + [p])
    requires Trimmed(hull, start, end, LowerEnd(p, eps))
    ensures SideOk(hull[..end] + [LowerEnd(p, eps)], start, pts + [p], eps, s, t)
  {
    var n := LowerEnd(p, eps);
    var kept, all := hull[..end] + [n], pts + [p];
    HullBefore(hull, start, pts, p, eps);
    TrimmedChain(hull, start, end, n);
    forall h | start <= h < |kept| ensures IsLowerEnd(kept[h], all, eps) {
      if h < end {
        assert IsLowerEnd(hull[h], pts, eps);
        var k :| 0 <= k < |pts| && hull[h] == LowerEnd(pts[k], eps);
        assert all[k] == pts[k];
      } else {
        assert all[|pts|] == p;
      }
    }
    forall hi | Admissible(hi, s, t, all[|all| - 1].x) ensures AllCovered(kept, start, all, eps, hi) {
      LastIsRightmost(pts, p);
      assert Admissible(hi, s, t, pts[|pts| - 1].x);
      assert AllCovered(hull, start, pts, eps, hi);
      forall k | 0 <= k < |all| ensures CoveredAt(kept, start, all, eps, hi, k) {
        if k < |pts| {
          assert CoveredAt(hull, start, pts, eps, hi, k);
          TrimKeepsCover(hull, start, end, n, LowerEnd(pts[k], eps), hi);
        } else {
          assert kept[end] == n;
        }
      }
    }
  }

  lemma LastIsRightmost(pts: seq<Point>, p: Point)
    requires Rightward(pts + [p]) && |pts| > 0
    ensures pts[|pts| - 1].x < p.x
  {
    assert (pts + [p])[|pts| - 1] == pts[|pts| - 1] && (pts + [p])[|pts|] == p;
  }

  lemma HullBefore(hull: seq<Point>, start: nat, pts: seq<Point>, p: Point, eps: int)
    requires start < |hull| && FromPoints(hull, start, pts, eps) && Rightward(pts + [p])
    ensures forall h :: start <= h < |hull| ==> hull[h].x < p.x
  {
    forall h | start <= h < |hull| ensures hull[h].x < p.x {
      assert IsLowerEnd(hull[h], pts, eps);
      var k :| 0 <= k < |pts| && hull[h] == LowerEnd(pts[k], eps);
      assert (pts + [p])[k] == pts[k] && (pts + [p])[|pts|] == p;
    }
  }

  /** The next point joins this side without a push, because its lower endpoint cannot matter. */
  lemma SkipKeepsSide(hull: seq<Point>, start: nat, pts: seq<Point>, p: Point, eps: int,
                      s: Line, sl: Point, sr: Point, t: Line)
    requires SideOk(hull, start, pts, eps, s, t) && Rightward(pts + [p])
    requires IsShallow(s, sl, sr, pts, eps) && Under(LowerEnd(p, eps), s)
    ensures SideOk(hull, start, pts + [p], eps, s, t)
  {
    var all := pts + [p];
    forall h | start <= h < |hull| ensures IsLowerEnd(hull[h], all, eps) {
      assert IsLowerEnd(hull[h], pts, eps);
      var k :| 0 <= k < |pts| && hull[h] == LowerEnd(pts[k], eps);
      assert all[k] == pts[k];
    }
    forall hi | Admissible(hi, s, t, all[|all| - 1].x) ensures AllCovered(hull, start, all, eps, hi) {
      LastIsRightmost(pts, p);
      assert Admissible(hi, s, t, pts[|pts| - 1].x);
      assert AllCovered(hull, start, pts, eps, hi);
      forall k | 0 <= k < |all| ensures CoveredAt(hull, start, all, eps, hi, k) {
        if k < |pts| {
          assert CoveredAt(hull, start, pts, eps, hi, k);
        } else {
          UnderShallowIsCovered(hull, start, pts, p, eps, hi, s, sl, sr);
        }
      }
    }
  }

  /** A kept endpoint left of the steep line's contact is no better than the contact. */
  lemma ContactCovers(t: Line, c: Point, q: Point, hi: Point)
    requires Hits(t, c) && Under(q, t) && q.x < c.x < hi.x && (hi.y as real) < At(t, hi.x)
    ensures Slope(c, hi) <= Slope(q, hi)
  {
    SideBySlope(t, c, hi);
    SideBySlopeLeft(t, q, c);
    Mediant(q, c, hi);
  }

  /** The lines tighten and the steep line's contact becomes the first kept endpoint. */
  lemma RetargetKeepsSide(hull: seq<Point>, start: nat, best: nat, pts: seq<Point>, eps: int,
                          s: Line, t: Line, s': Line, t': Line)
    requires SideOk(hull, start, pts, eps, s, t) && start <= best < |hull|
    requires forall x :: x > pts[|pts| - 1].x ==> At(s, x) <= At(s', x) && At(t', x) <= At(t, x)
    requires best != start ==> Hits(t', hull[best]) && FitsAll(t', pts, eps)
    requires Rightward(pts)
    ensures SideOk(hull, best, pts, eps, s', t')
  {
    forall hi | Admissible(hi, s', t', pts[|pts| - 1].x) ensures AllCovered(hull, best, pts, eps, hi) {
      assert Admissible(hi, s, t, pts[|pts| - 1].x);
      assert AllCovered(hull, start, pts, eps, hi);
      forall k | 0 <= k < |pts| ensures CoveredAt(hull, best, pts, eps, hi, k) {
        assert CoveredAt(hull, start, pts, eps, hi, k);
        CoverMoves(hull, start, best, pts, eps, t', LowerEnd(pts[k], eps), hi);
      }
    }
  }

  lemma CoverMoves(hull: seq<Point>, start: nat, best: nat, pts: seq<Point>, eps: int, t: Line, q: Point, hi: Point)
    requires start <= best < |hull| && Chain(hull, start) && FromPoints(hull, start, pts, eps)
    requires best != start ==> Hits(t, hull[best]) && FitsAll(t, pts, eps)
    requires |pts| > 0 && Rightward(pts) && hi.x > pts[|pts| - 1].x && (hi.y as real) < At(t, hi.x)
    requires Covered(hull, start, q, hi)
    ensures Covered(hull, best, q, hi)
  {
    var h :| start <= h < |hull| && hull[h].x < hi.x && Slope(hull[h], hi) <= Slope(q, hi);
    if h < best {
      EndpointUnder(hull, start, h, pts, eps, t);
      EndpointUnder(hull, start, best, pts, eps, t);
      ContactCovers(t, hull[best], hull[h], hi);
    }
  }

  lemma EndpointUnder(hull: seq<Point>, start: nat, h: nat, pts: seq<Point>, eps: int, t: Line)
    requires FromPoints(hull, start, pts, eps) && start <= h < |hull| && FitsAll(t, pts, eps) && Rightward(pts)
    ensures Under(hull[h], t) && hull[h].x <= pts[|pts| - 1].x
  {
    assert IsLowerEnd(hull[h], pts, eps);
    var k :| 0 <= k < |pts| && hull[h] == LowerEnd(pts[k], eps);
    assert Fits(t, pts[k], eps);
  }

  /** The first two points: both lower endpoints are kept. */
  lemma TwoPointSide(p0: Point, p1: Point, eps: int, s: Line, t: Line)
    requires p0.x < p1.x
    ensures SideOk([LowerEnd(p0, eps), LowerEnd(p1, eps)], 0, [p0, p1], eps, s, t)
  {
    var hull, pts := [LowerEnd(p0, eps), LowerEnd(p1, eps)], [p0, p1];
    forall hi | Admissible(hi, s, t, p1.x) ensures AllCovered(hull, 0, pts, eps, hi) {
      forall k | 0 <= k < |pts| ensures CoveredAt(hull, 0, pts, eps, hi, k) {
        assert hull[k] == LowerEnd(pts[k], eps);
      }
    }
    forall h | 0 <= h < |hull| ensures IsLowerEnd(hull[h], pts, eps) {
      assert hull[h] == LowerEnd(pts[h], eps);
    }
  }
}
