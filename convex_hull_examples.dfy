/**
 * The gift-wrapping walk worked out on small inputs. A closed hull walk is fully determined by
 * its points, so each lemma below pins down the whole answer of GetConvexHull on one input.
 *
 * Each single test of the scan on these points is stated as its own one-line lemma.
 */
module ConvexHullExamples {
  import opened Points
  import opened ConvexHull

  /** One iteration of the scan from `p1`: the candidate `c` becomes `c'` after looking at `p`. */
  predicate ScanStep(p1: Point, c: Point, p: Point, c': Point)
  {
    c' == if Replaces(p1, c, p) then p else c
  }

  /** The scan's test, with its two products and two squared distances given as numbers. */
  lemma ScanStepBy(p1: Point, cand: Point, p: Point, a: int, b: int, near: int, far: int, next: Point)
    requires a == (cand.x - p1.x) * (p.y - p1.y) && b == (p.x - p1.x) * (cand.y - p1.y)
    requires near == (cand.x - p1.x) * (cand.x - p1.x) + (cand.y - p1.y) * (cand.y - p1.y)
    requires far == (p.x - p1.x) * (p.x - p1.x) + (p.y - p1.y) * (p.y - p1.y)
    requires next == if a - b > 0 || (a - b == 0 && far > near) then p else cand
    ensures ScanStep(p1, cand, p, next)
  {
    Dist2Symmetric(p1, cand);
    Dist2Symmetric(p1, p);
  }

  /** One step of the scan, then the scan of the rest. */
  lemma WrapCons(p1: Point, cand: Point, x: Point, rest: seq<Point>)
    ensures Wrap(p1, cand, [x] + rest) ==
      if Replaces(p1, cand, x) then Wrap(p1, x, rest) else Wrap(p1, cand, rest)
  {
    assert ([x] + rest)[1..] == rest;
  }

  /** The scan over three points, candidate by candidate. */
  lemma WrapThree(p1: Point, c0: Point, q0: Point, q1: Point, q2: Point, c1: Point, c2: Point, c3: Point)
    requires ScanStep(p1, c0, q0, c1) && ScanStep(p1, c1, q1, c2) && ScanStep(p1, c2, q2, c3)
    ensures Wrap(p1, c0, [q0, q1, q2]) == c3
  {
    WrapCons(p1, c2, q2, []);
    WrapCons(p1, c1, q1, [q2]);
    WrapCons(p1, c0, q0, [q1, q2]);
    assert [q2] + [] == [q2];
    assert [q1] + [q2] == [q1, q2];
    assert [q0] + [q1, q2] == [q0, q1, q2];
  }

  /** The scan over five points, candidate by candidate. */
  lemma WrapFive(p1: Point, c0: Point, q0: Point, q1: Point, q2: Point, q3: Point, q4: Point,
                 c1: Point, c2: Point, c3: Point, c4: Point, c5: Point)
    requires ScanStep(p1, c0, q0, c1) && ScanStep(p1, c1, q1, c2) && ScanStep(p1, c2, q2, c3)
    requires ScanStep(p1, c3, q3, c4) && ScanStep(p1, c4, q4, c5)
    ensures Wrap(p1, c0, [q0, q1, q2, q3, q4]) == c5
  {
    WrapCons(p1, c4, q4, []);
    WrapCons(p1, c3, q3, [q4]);
    WrapCons(p1, c2, q2, [q3, q4]);
    WrapCons(p1, c1, q1, [q2, q3, q4]);
    WrapCons(p1, c0, q0, [q1, q2, q3, q4]);
    assert [q4] + [] == [q4];
    assert [q3] + [q4] == [q3, q4];
    assert [q2] + [q3, q4] == [q2, q3, q4];
    assert [q1] + [q2, q3, q4] == [q1, q2, q3, q4];
    assert [q0] + [q1, q2, q3, q4] == [q0, q1, q2, q3, q4];
  }

  /** The vertex after vertex `k` of the walk, as long as vertex `k` is not a return to the anchor. */
  lemma WalkNext(hull: seq<Point>, points: seq<Point>, k: nat, v: Point)
    requires IsHullWalk(hull, points) && k < |hull|
    requires k == 0 || hull[k] != hull[0]
    requires v == Wrap(hull[k], hull[0], points)
    ensures k + 1 < |hull| && hull[k + 1] == v
  {
  }

  /** The walk stops at the first return to the anchor. */
  lemma WalkEnd(hull: seq<Point>, points: seq<Point>, k: nat)
    requires IsHullWalk(hull, points) && 0 < k < |hull| && hull[k] == hull[0]
    ensures |hull| == k + 1
  {
  }

  /** A walk that closes after two scans. */
  lemma WalkOfThree(hull: seq<Point>, points: seq<Point>, v0: Point, v1: Point)
    requires IsHullWalk(hull, points) && IsRightmostLowest(v0, points)
    requires v1 == Wrap(v0, v0, points) && v1 != v0 && v0 == Wrap(v1, v0, points)
    ensures hull == [v0, v1, v0]
  {
    AnchorUnique(hull[0], v0, points);
    WalkNext(hull, points, 0, v1);
    WalkNext(hull, points, 1, v0);
    WalkEnd(hull, points, 2);
  }

  /** A walk that closes after four scans. */
  lemma WalkOfFive(hull: seq<Point>, points: seq<Point>, v0: Point, v1: Point, v2: Point, v3: Point)
    requires IsHullWalk(hull, points) && IsRightmostLowest(v0, points)
    requires v1 == Wrap(v0, v0, points) && v2 == Wrap(v1, v0, points) && v3 == Wrap(v2, v0, points)
    requires v0 == Wrap(v3, v0, points)
    requires v1 != v0 && v2 != v0 && v3 != v0
    ensures hull == [v0, v1, v2, v3, v0]
  {
    AnchorUnique(hull[0], v0, points);
    WalkNext(hull, points, 0, v1);
    WalkNext(hull, points, 1, v2);
    WalkNext(hull, points, 2, v3);
    WalkNext(hull, points, 3, v0);
    WalkEnd(hull, points, 4);
  }

  // Three evenly spaced points on a horizontal line.

  lemma Line1a() ensures ScanStep(Point(2, 0), Point(2, 0), Point(0, 0), Point(0, 0)) { ScanStepBy(Point(2, 0), Point(2, 0), Point(0, 0), 0, 0, 0, 4, Point(0, 0)); }
  lemma Line1b() ensures ScanStep(Point(2, 0), Point(0, 0), Point(1, 0), Point(0, 0)) { ScanStepBy(Point(2, 0), Point(0, 0), Point(1, 0), 0, 0, 4, 1, Point(0, 0)); }
  lemma Line1c() ensures ScanStep(Point(2, 0), Point(0, 0), Point(2, 0), Point(0, 0)) { ScanStepBy(Point(2, 0), Point(0, 0), Point(2, 0), 0, 0, 4, 0, Point(0, 0)); }
  lemma Line2a() ensures ScanStep(Point(0, 0), Point(2, 0), Point(0, 0), Point(2, 0)) { ScanStepBy(Point(0, 0), Point(2, 0), Point(0, 0), 0, 0, 4, 0, Point(2, 0)); }
  lemma Line2b() ensures ScanStep(Point(0, 0), Point(2, 0), Point(1, 0), Point(2, 0)) { ScanStepBy(Point(0, 0), Point(2, 0), Point(1, 0), 0, 0, 4, 1, Point(2, 0)); }
  lemma Line2c() ensures ScanStep(Point(0, 0), Point(2, 0), Point(2, 0), Point(2, 0)) { ScanStepBy(Point(0, 0), Point(2, 0), Point(2, 0), 0, 0, 4, 4, Point(2, 0)); }

  /**
   * On (0,0), (1,0), (2,0) the hull is [(2,0), (0,0), (2,0)]: from the anchor the farther
   * collinear point wins, and the middle point is left out.
   */
  lemma CollinearHull(points: seq<Point>, hull: seq<Point>)
    requires points == [Point(0, 0), Point(1, 0), Point(2, 0)]
    requires IsHullWalk(hull, points)
    ensures hull == [Point(2, 0), Point(0, 0), Point(2, 0)]
  {
    var a, b, c := Point(0, 0), Point(1, 0), Point(2, 0);
    LineAnchor();
    LineScan1();
    LineScan2();
    WalkOfThree(hull, points, c, a);
  }

  lemma LineAnchor()
    ensures IsRightmostLowest(Point(2, 0), [Point(0, 0), Point(1, 0), Point(2, 0)])
  {
  }

  lemma LineScan1()
    ensures Wrap(Point(2, 0), Point(2, 0), [Point(0, 0), Point(1, 0), Point(2, 0)]) == Point(0, 0)
  {
    var a, b, c := Point(0, 0), Point(1, 0), Point(2, 0);
    Line1a(); Line1b(); Line1c();
    WrapThree(c, c, a, b, c, a, a, a);
  }

  lemma LineScan2()
    ensures Wrap(Point(0, 0), Point(2, 0), [Point(0, 0), Point(1, 0), Point(2, 0)]) == Point(2, 0)
  {
    var a, b, c := Point(0, 0), Point(1, 0), Point(2, 0);
    Line2a(); Line2b(); Line2c();
    WrapThree(a, c, a, b, c, c, c, c);
  }

  // A square with its centre, (0,0), (0,2), (2,2), (2,0), (1,1), anchored at (2,2).

  lemma Sq1a() ensures ScanStep(Point(2, 2), Point(2, 2), Point(0, 0), Point(0, 0)) { ScanStepBy(Point(2, 2), Point(2, 2), Point(0, 0), 0, 0, 0, 8, Point(0, 0)); }
  lemma Sq1b() ensures ScanStep(Point(2, 2), Point(0, 0), Point(0, 2), Point(0, 0)) { ScanStepBy(Point(2, 2), Point(0, 0), Point(0, 2), 0, 4, 8, 4, Point(0, 0)); }
  lemma Sq1c() ensures ScanStep(Point(2, 2), Point(0, 0), Point(2, 2), Point(0, 0)) { ScanStepBy(Point(2, 2), Point(0, 0), Point(2, 2), 0, 0, 8, 0, Point(0, 0)); }
  lemma Sq1d() ensures ScanStep(Point(2, 2), Point(0, 0), Point(2, 0), Point(2, 0)) { ScanStepBy(Point(2, 2), Point(0, 0), Point(2, 0), 4, 0, 8, 4, Point(2, 0)); }
  lemma Sq1e() ensures ScanStep(Point(2, 2), Point(2, 0), Point(1, 1), Point(2, 0)) { ScanStepBy(Point(2, 2), Point(2, 0), Point(1, 1), 0, 2, 4, 2, Point(2, 0)); }
  lemma Sq2a() ensures ScanStep(Point(2, 0), Point(2, 2), Point(0, 0), Point(0, 0)) { ScanStepBy(Point(2, 0), Point(2, 2), Point(0, 0), 0, -4, 4, 4, Point(0, 0)); }
  lemma Sq2b() ensures ScanStep(Point(2, 0), Point(0, 0), Point(0, 2), Point(0, 0)) { ScanStepBy(Point(2, 0), Point(0, 0), Point(0, 2), -4, 0, 4, 8, Point(0, 0)); }
  lemma Sq2c() ensures ScanStep(Point(2, 0), Point(0, 0), Point(2, 2), Point(0, 0)) { ScanStepBy(Point(2, 0), Point(0, 0), Point(2, 2), -4, 0, 4, 4, Point(0, 0)); }
  lemma Sq2d() ensures ScanStep(Point(2, 0), Point(0, 0), Point(2, 0), Point(0, 0)) { ScanStepBy(Point(2, 0), Point(0, 0), Point(2, 0), 0, 0, 4, 0, Point(0, 0)); }
  lemma Sq2e() ensures ScanStep(Point(2, 0), Point(0, 0), Point(1, 1), Point(0, 0)) { ScanStepBy(Point(2, 0), Point(0, 0), Point(1, 1), -2, 0, 4, 2, Point(0, 0)); }
  lemma Sq3a() ensures ScanStep(Point(0, 0), Point(2, 2), Point(0, 0), Point(2, 2)) { ScanStepBy(Point(0, 0), Point(2, 2), Point(0, 0), 0, 0, 8, 0, Point(2, 2)); }
  lemma Sq3b() ensures ScanStep(Point(0, 0), Point(2, 2), Point(0, 2), Point(0, 2)) { ScanStepBy(Point(0, 0), Point(2, 2), Point(0, 2), 4, 0, 8, 4, Point(0, 2)); }
  lemma Sq3c() ensures ScanStep(Point(0, 0), Point(0, 2), Point(2, 2), Point(0, 2)) { ScanStepBy(Point(0, 0), Point(0, 2), Point(2, 2), 0, 4, 4, 8, Point(0, 2)); }
  lemma Sq3d() ensures ScanStep(Point(0, 0), Point(0, 2), Point(2, 0), Point(0, 2)) { ScanStepBy(Point(0, 0), Point(0, 2), Point(2, 0), 0, 4, 4, 4, Point(0, 2)); }
  lemma Sq3e() ensures ScanStep(Point(0, 0), Point(0, 2), Point(1, 1), Point(0, 2)) { ScanStepBy(Point(0, 0), Point(0, 2), Point(1, 1), 0, 2, 4, 2, Point(0, 2)); }
  lemma Sq4a() ensures ScanStep(Point(0, 2), Point(2, 2), Point(0, 0), Point(2, 2)) { ScanStepBy(Point(0, 2), Point(2, 2), Point(0, 0), -4, 0, 4, 4, Point(2, 2)); }
  lemma Sq4b() ensures ScanStep(Point(0, 2), Point(2, 2), Point(0, 2), Point(2, 2)) { ScanStepBy(Point(0, 2), Point(2, 2), Point(0, 2), 0, 0, 4, 0, Point(2, 2)); }
  lemma Sq4c() ensures ScanStep(Point(0, 2), Point(2, 2), Point(2, 2), Point(2, 2)) { ScanStepBy(Point(0, 2), Point(2, 2), Point(2, 2), 0, 0, 4, 4, Point(2, 2)); }
  lemma Sq4d() ensures ScanStep(Point(0, 2), Point(2, 2), Point(2, 0), Point(2, 2)) { ScanStepBy(Point(0, 2), Point(2, 2), Point(2, 0), -4, 0, 4, 8, Point(2, 2)); }
  lemma Sq4e() ensures ScanStep(Point(0, 2), Point(2, 2), Point(1, 1), Point(2, 2)) { ScanStepBy(Point(0, 2), Point(2, 2), Point(1, 1), -2, 0, 4, 2, Point(2, 2)); }

  /**
   * On the square (0,0), (0,2), (2,2), (2,0) with its centre (1,1), the hull is the four corners
   * from (2,2) round to (2,2) again, and the centre is left out.
   */
  lemma SquareHull(points: seq<Point>, hull: seq<Point>)
    requires points == [Point(0, 0), Point(0, 2), Point(2, 2), Point(2, 0), Point(1, 1)]
    requires IsHullWalk(hull, points)
    ensures hull == [Point(2, 2), Point(2, 0), Point(0, 0), Point(0, 2), Point(2, 2)]
  {
    var a, b, c, d, e := Point(0, 0), Point(0, 2), Point(2, 2), Point(2, 0), Point(1, 1);
    SquareAnchor();
    SquareScan1();
    SquareScan2();
    SquareScan3();
    SquareScan4();
    WalkOfFive(hull, points, c, d, a, b);
  }

  lemma SquareAnchor()
    ensures IsRightmostLowest(Point(2, 2), [Point(0, 0), Point(0, 2), Point(2, 2), Point(2, 0), Point(1, 1)])
  {
  }

  lemma SquareScan1()
    ensures Wrap(Point(2, 2), Point(2, 2), [Point(0, 0), Point(0, 2), Point(2, 2), Point(2, 0), Point(1, 1)]) == Point(2, 0)
  {
    var a, b, c, d, e := Point(0, 0), Point(0, 2), Point(2, 2), Point(2, 0), Point(1, 1);
    Sq1a(); Sq1b(); Sq1c(); Sq1d(); Sq1e();
    WrapFive(c, c, a, b, c, d, e, a, a, a, d, d);
  }

  lemma SquareScan2()
    ensures Wrap(Point(2, 0), Point(2, 2), [Point(0, 0), Point(0, 2), Point(2, 2), Point(2, 0), Point(1, 1)]) == Point(0, 0)
  {
    var a, b, c, d, e := Point(0, 0), Point(0, 2), Point(2, 2), Point(2, 0), Point(1, 1);
    Sq2a(); Sq2b(); Sq2c(); Sq2d(); Sq2e();
    WrapFive(d, c, a, b, c, d, e, a, a, a, a, a);
  }

  lemma SquareScan3()
    ensures Wrap(Point(0, 0), Point(2, 2), [Point(0, 0), Point(0, 2), Point(2, 2), Point(2, 0), Point(1, 1)]) == Point(0, 2)
  {
    var a, b, c, d, e := Point(0, 0), Point(0, 2), Point(2, 2), Point(2, 0), Point(1, 1);
    Sq3a(); Sq3b(); Sq3c(); Sq3d(); Sq3e();
    WrapFive(a, c, a, b, c, d, e, c, b, b, b, b);
  }

  lemma SquareScan4()
    ensures Wrap(Point(0, 2), Point(2, 2), [Point(0, 0), Point(0, 2), Point(2, 2), Point(2, 0), Point(1, 1)]) == Point(2, 2)
  {
    var a, b, c, d, e := Point(0, 0), Point(0, 2), Point(2, 2), Point(2, 0), Point(1, 1);
    Sq4a(); Sq4b(); Sq4c(); Sq4d(); Sq4e();
    WrapFive(b, c, a, b, c, d, e, c, c, c, c, c);
  }
}
