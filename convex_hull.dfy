/**
 * The convex hull pane's gift-wrapping algorithm: the anchor point it starts from, the scan that
 * picks each next vertex, and the walk round the hull. Screen coordinates are used, so `y` grows
 * downwards and the "lowest" point is the one with the greatest `y`.
 */
module ConvexHull {
  import opened Points
  import opened Geometry
  import opened Sequences
  import opened Failures

  /** Positive when `p` lies on one side of the line from `p1` through `p2`, zero on the line. */
  function Direction(p1: Point, p2: Point, p: Point): (d: int)
    ensures d == Cross(Sub(p2, p1), Sub(p, p1))
  {
    (p2.x - p1.x) * (p.y - p1.y) - (p.x - p1.x) * (p2.y - p1.y)
  }

  /**
   * The scan's test: seen from `p1`, the point `p` turns away from the candidate `p2`, or lies
   * on the same line further away. A point never replaces itself.
   */
  predicate Replaces(p1: Point, p2: Point, p: Point)
    ensures Replaces(p1, p2, p) ==> p != p2
  {
    var direction := Direction(p1, p2, p);
    direction > 0 || (direction == 0 && Dist2(p1, p) > Dist2(p1, p2))
  }

  /** While the candidate is still `p1` itself, every other point replaces it. */
  lemma ReplacesSelf(p1: Point, q: Point)
    requires q != p1
    ensures Replaces(p1, p1, q)
  {
  }

  /** The scan's test is "beats" on the offsets from `p1`. */
  lemma ReplacesIsBeats(p1: Point, p2: Point, p: Point)
    ensures Replaces(p1, p2, p) <==> Beats(Sub(p2, p1), Sub(p, p1))
  {
    Dist2Symmetric(p1, p);
    Dist2Symmetric(p1, p2);
    SquaredDistance(p, p1);
    SquaredDistance(p2, p1);
  }

  /** The candidate left after scanning `pts` in order from `p1`, starting with `cand`. */
  function Wrap(p1: Point, cand: Point, pts: seq<Point>): (r: Point)
    ensures r == cand || r in pts
    decreases |pts|
  {
    if pts == [] then cand
    else if Replaces(p1, cand, pts[0]) then Wrap(p1, pts[0], pts[1..])
    else Wrap(p1, cand, pts[1..])
  }

  /** Every point of `pts` is `p1` or, seen from `p1`, in the half-plane `e` defines. */
  ghost predicate HalfPlaneAt(p1: Point, e: Point, pts: seq<Point>)
  {
    forall q :: q in pts ==> InHalfOrZero(e, Sub(q, p1))
  }

  /** No point of `pts` replaces `cand`. */
  ghost predicate Unbeaten(p1: Point, cand: Point, pts: seq<Point>)
  {
    forall q :: q in pts ==> !Replaces(p1, cand, q)
  }

  /**
   * The edge from `p1` to `p2` supports `pts`: every point lies strictly on one side of the
   * line, or on the segment between `p1` and `p2`.
   */
  ghost predicate Supports(p1: Point, p2: Point, pts: seq<Point>)
  {
    forall q :: q in pts ==> OnSupportedSide(p1, p2, q)
  }

  predicate OnSupportedSide(p1: Point, p2: Point, q: Point)
  {
    Direction(p1, p2, q) < 0 || (Direction(p1, p2, q) == 0 && Dot(Sub(q, p1), Sub(p2, q)) >= 0)
  }

  /**
   * Scanning the rest of the points keeps the candidate unbeaten by everything scanned so far,
   * when all points lie in one half-plane around `p1`.
   */
  lemma {:induction false} WrapUnbeaten(p1: Point, e: Point, cand: Point, seen: seq<Point>, rest: seq<Point>)
    requires HalfPlaneAt(p1, e, seen + rest)
    requires cand in seen + rest
    requires Unbeaten(p1, cand, seen)
    ensures Unbeaten(p1, Wrap(p1, cand, rest), seen + rest)
    decreases |rest|
  {
    if rest != [] {
      var x := rest[0];
      ShiftFirst(seen, rest);
      if Replaces(p1, cand, x) {
        ReplacementUnbeaten(p1, e, cand, x, seen, seen + rest);
        WrapUnbeaten(p1, e, x, seen + [x], rest[1..]);
      } else {
        KeptUnbeaten(p1, cand, x, seen);
        WrapUnbeaten(p1, e, cand, seen + [x], rest[1..]);
      }
    }
  }

  /** A point that replaces the candidate is unbeaten by everything the candidate was. */
  lemma ReplacementUnbeaten(p1: Point, e: Point, cand: Point, x: Point, seen: seq<Point>, all: seq<Point>)
    requires HalfPlaneAt(p1, e, all) && cand in all && x in all
    requires forall q :: q in seen ==> q in all
    requires Unbeaten(p1, cand, seen) && Replaces(p1, cand, x)
    ensures Unbeaten(p1, x, seen + [x])
  {
    forall q | q in seen + [x]
      ensures !Replaces(p1, x, q)
    {
      if q != x {
        ReplacedKeepsUnbeaten(p1, e, cand, x, q);
      }
    }
  }

  /** A candidate that the next point does not replace stays unbeaten. */
  lemma KeptUnbeaten(p1: Point, cand: Point, x: Point, seen: seq<Point>)
    requires Unbeaten(p1, cand, seen) && !Replaces(p1, cand, x)
    ensures Unbeaten(p1, cand, seen + [x])
  {
  }

  /** Whatever did not replace `cand` does not replace the point that did. */
  lemma ReplacedKeepsUnbeaten(p1: Point, e: Point, cand: Point, x: Point, q: Point)
    requires InHalfOrZero(e, Sub(cand, p1)) && InHalfOrZero(e, Sub(x, p1)) && InHalfOrZero(e, Sub(q, p1))
    requires Replaces(p1, cand, x) && !Replaces(p1, cand, q)
    ensures !Replaces(p1, x, q)
  {
    ReplacesIsBeats(p1, cand, x);
    ReplacesIsBeats(p1, cand, q);
    ReplacesIsBeats(p1, x, q);
    StepKeepsUnbeaten(e, Sub(cand, p1), Sub(x, p1), Sub(q, p1));
  }

  /** The scan from `p1` ends on a point that no point replaces. */
  lemma ScanResult(p1: Point, e: Point, start: Point, pts: seq<Point>)
    requires HalfPlaneAt(p1, e, pts) && start in pts
    ensures Unbeaten(p1, Wrap(p1, start, pts), pts)
  {
    assert [] + pts == pts;
    WrapUnbeaten(p1, e, start, [], pts);
  }

  /** A point that no point replaces ends a supporting edge. */
  lemma UnbeatenSupports(p1: Point, e: Point, w: Point, pts: seq<Point>)
    requires HalfPlaneAt(p1, e, pts) && w in pts && Unbeaten(p1, w, pts)
    ensures Supports(p1, w, pts)
  {
    forall q | q in pts
      ensures OnSupportedSide(p1, w, q)
    {
      if w == p1 {
        if q != p1 {
          ReplacesSelf(p1, q);
          assert false;
        }
      } else {
        OffsetNonZero(w, p1);
        WinnerSide(p1, e, w, q);
      }
    }
  }

  lemma OffsetNonZero(w: Point, p1: Point)
    requires w != p1
    ensures Sub(w, p1) != Origin
  {
  }

  lemma WinnerSide(p1: Point, e: Point, w: Point, q: Point)
    requires InHalf(e, Sub(w, p1)) && InHalfOrZero(e, Sub(q, p1)) && !Replaces(p1, w, q)
    ensures OnSupportedSide(p1, w, q)
  {
    ReplacesIsBeats(p1, w, q);
    WinnerBound(e, Sub(w, p1), Sub(q, p1));
    assert Sub(Sub(w, p1), Sub(q, p1)) == Sub(w, q);
  }

  /** Past a supporting edge, all points lie in the half-plane its direction defines. */
  lemma NextHalfPlane(p1: Point, w: Point, pts: seq<Point>)
    requires Supports(p1, w, pts) && w != p1
    ensures HalfPlaneAt(w, Sub(w, p1), pts)
  {
    forall q | q in pts
      ensures InHalfOrZero(Sub(w, p1), Sub(q, w))
    {
      if q != w {
        assert OnSupportedSide(p1, w, q);
        assert Sub(Sub(w, p1), Sub(q, p1)) == Sub(w, q);
        PastTheEdge(Sub(w, p1), Sub(q, p1));
        assert Sub(Sub(q, p1), Sub(w, p1)) == Sub(q, w);
      }
    }
  }

  /** Two supporting edges of the same points that end at the same point start at the same point. */
  lemma SameSuccessor(x: Point, y: Point, w: Point, pts: seq<Point>)
    requires x in pts && y in pts
    requires Supports(x, w, pts) && Supports(y, w, pts)
    ensures x == y
  {
    assert OnSupportedSide(x, w, y) && OnSupportedSide(y, w, x);
    SharedEnd(x, y, w);
  }

  /**
   * The getRightmostLowest comparator: the greater `y` (lower on screen) comes first, then the
   * greater `x`.
   */
  function AnchorCompare(p1: Point, p2: Point): (c: int)
    ensures c < 0 <==> p1.y > p2.y || (p1.y == p2.y && p1.x > p2.x)
    ensures c == 0 <==> p1 == p2
    ensures c > 0 <==> p2.y > p1.y || (p2.y == p1.y && p2.x > p1.x)
  {
    var dy := CompareY(p2, p1);
    if dy == 0 then
      if p1.x < p2.x then 1
      else if p2.x < p1.x then -1
      else 0
    else dy
  }

  /** `a` is a point of `pts` that no point of `pts` precedes under the anchor order. */
  ghost predicate IsRightmostLowest(a: Point, pts: seq<Point>)
  {
    a in pts && forall q :: q in pts ==> q.y < a.y || (q.y == a.y && q.x <= a.x)
  }

  /** The anchor lies at a corner: all points are above it or level with it on its left. */
  lemma AnchorHalfPlane(a: Point, pts: seq<Point>)
    requires IsRightmostLowest(a, pts)
    ensures HalfPlaneAt(a, Point(1, 0), pts)
  {
  }

  /** The first point of the list that comes first under the anchor order. */
  method GetRightmostLowest(list: seq<Point>) returns (result: Result<Point>)
    ensures list == [] ==> result == Err(IllegalArgument("empty list"))
    ensures list != [] ==> result.Ok? && IsRightmostLowest(result.value, list)
  {
    if list == [] {
      return Err(IllegalArgument("empty list"));
    }
    var p := list[0];
    var i := 1;
    while i < |list|
      invariant 1 <= i <= |list|
      invariant p in list[..i]
      invariant forall k :: 0 <= k < i ==> list[k].y < p.y || (list[k].y == p.y && list[k].x <= p.x)
    {
      var next := list[i];
      if AnchorCompare(next, p) < 0 {
        p := next;
      }
      i := i + 1;
    }
    assert list[..i] == list;
    return Ok(p);
  }

  /**
   * A walk from the anchor in which each vertex is the scan's pick from the one before, every
   * edge supports all the points, and the anchor is not revisited before the last vertex.
   */
  ghost predicate WalkSoFar(hull: seq<Point>, points: seq<Point>)
  {
    && 1 <= |hull|
    && IsRightmostLowest(hull[0], points)
    && Within(hull, points)
    && Traced(hull, points)
    && EdgesSupport(hull, points)
    && AnchorNotRevisited(hull)
  }

  /** No vertex strictly between the first and the last is the first. */
  ghost predicate AnchorNotRevisited(hull: seq<Point>)
    requires 1 <= |hull|
  {
    forall i :: 0 < i < |hull| - 1 ==> hull[i] != hull[0]
  }

  /** Every vertex is one of the points. */
  ghost predicate Within(hull: seq<Point>, points: seq<Point>)
  {
    forall i :: 0 <= i < |hull| ==> hull[i] in points
  }

  /** Each vertex after the first is the scan's pick from the one before. */
  ghost predicate Traced(hull: seq<Point>, points: seq<Point>)
    requires 1 <= |hull|
  {
    forall i :: 0 <= i < |hull| - 1 ==> hull[i + 1] == Wrap(hull[i], hull[0], points)
  }

  /** Every edge supports all the points. */
  ghost predicate EdgesSupport(hull: seq<Point>, points: seq<Point>)
  {
    forall i :: 0 <= i < |hull| - 1 ==> Supports(hull[i], hull[i + 1], points)
  }

  /** A walk that has not yet returned to the anchor, with no vertex twice, seeing all points in the half-plane `e`. */
  ghost predicate OpenWalk(hull: seq<Point>, points: seq<Point>, e: Point)
  {
    && WalkSoFar(hull, points)
    && (|hull| > 1 ==> hull[|hull| - 1] != hull[0])
    && Distinct(hull)
    && HalfPlaneAt(hull[|hull| - 1], e, points)
  }

  /**
   * A closed walk round the hull of `points`: it starts and ends at the anchor, visits no vertex
   * twice, each vertex is the scan's pick from the one before, and every edge supports all the
   * points.
   */
  ghost predicate IsHullWalk(hull: seq<Point>, points: seq<Point>)
  {
    && WalkSoFar(hull, points)
    && 2 <= |hull| <= |points| + 1
    && hull[|hull| - 1] == hull[0]
    && Distinct(hull[..|hull| - 1])
  }

  /** An open walk visits each point at most once. */
  lemma OpenWalkBound(hull: seq<Point>, points: seq<Point>, e: Point)
    requires OpenWalk(hull, points, e)
    ensures |hull| <= |points|
  {
    DistinctWithinIsShorter(hull, points);
  }

  /** The anchor alone is an open walk. */
  lemma AnchorWalk(a: Point, points: seq<Point>)
    requires IsRightmostLowest(a, points)
    ensures OpenWalk([a], points, Point(1, 0))
  {
    assert WalkSoFar([a], points);
    assert Distinct([a]);
    AnchorHalfPlane(a, points);
  }

  /**
   * One more scan extends an open walk: the new edge supports all the points, the new vertex is
   * fresh unless it is the anchor, and past it all points lie in a half-plane again.
   */
  lemma ExtendWalk(hull: seq<Point>, points: seq<Point>, e: Point) returns (e': Point)
    requires OpenWalk(hull, points, e)
    ensures WalkSoFar(hull + [Wrap(hull[|hull| - 1], hull[0], points)], points)
    ensures var w := Wrap(hull[|hull| - 1], hull[0], points);
      w != hull[0] ==> OpenWalk(hull + [w], points, e')
  {
    var start, p1 := hull[0], hull[|hull| - 1];
    var w := Wrap(p1, start, points);
    ScanResult(p1, e, start, points);
    UnbeatenSupports(p1, e, w, points);
    AppendToWalk(hull, points, w);
    e' := e;
    if w != start {
      if |hull| > 1 {
        ReplacesSelf(p1, start);
      }
      NextHalfPlane(p1, w, points);
      forall j | 0 <= j < |hull|
        ensures hull[j] != w
      {
        if j > 0 && hull[j] == w {
          SameSuccessor(hull[j - 1], p1, w, points);
          assert false;
        }
      }
      DistinctAppend(hull, w);
      e' := Sub(w, p1);
    }
  }

  lemma AppendToWalk(hull: seq<Point>, points: seq<Point>, w: Point)
    requires WalkSoFar(hull, points) && (|hull| > 1 ==> hull[|hull| - 1] != hull[0])
    requires w == Wrap(hull[|hull| - 1], hull[0], points) && Supports(hull[|hull| - 1], w, points)
    ensures WalkSoFar(hull + [w], points)
  {
    var walk := hull + [w];
    assert walk[0] == hull[0];
    AppendTrace(hull, points, w);
    AppendSupported(hull, points, w);
    assert w in points by { assert hull[0] in points; }
    AppendMembers(hull, points, w);
    AppendAvoidsAnchor(hull, w);
  }

  lemma AppendAvoidsAnchor(hull: seq<Point>, w: Point)
    requires 1 <= |hull| && AnchorNotRevisited(hull)
    requires |hull| > 1 ==> hull[|hull| - 1] != hull[0]
    ensures AnchorNotRevisited(hull + [w])
  {
    var walk := hull + [w];
    forall i | 0 < i < |walk| - 1
      ensures walk[i] != walk[0]
    {
      assert walk[i] == hull[i] && walk[0] == hull[0];
      if i < |hull| - 1 {
        assert hull[i] != hull[0];
      }
    }
  }

  lemma AppendMembers(hull: seq<Point>, points: seq<Point>, w: Point)
    requires Within(hull, points) && w in points
    ensures Within(hull + [w], points)
  {
    var walk := hull + [w];
    forall i | 0 <= i < |walk|
      ensures walk[i] in points
    {
      if i < |hull| {
        assert walk[i] == hull[i];
      }
    }
  }

  lemma AppendTrace(hull: seq<Point>, points: seq<Point>, w: Point)
    requires 1 <= |hull| && Traced(hull, points)
    requires w == Wrap(hull[|hull| - 1], hull[0], points)
    ensures Traced(hull + [w], points)
  {
    var next := p => Wrap(p, hull[0], points);
    ChainAppend(hull, w, next);
    assert (hull + [w])[0] == hull[0];
  }

  lemma AppendSupported(hull: seq<Point>, points: seq<Point>, w: Point)
    requires 1 <= |hull| && EdgesSupport(hull, points)
    requires Supports(hull[|hull| - 1], w, points)
    ensures EdgesSupport(hull + [w], points)
  {
    var walk := hull + [w];
    forall i | 0 <= i < |walk| - 1
      ensures Supports(walk[i], walk[i + 1], points)
    {
      if i + 1 < |hull| {
        assert walk[i] == hull[i] && walk[i + 1] == hull[i + 1];
      } else {
        assert walk[i] == hull[|hull| - 1] && walk[i + 1] == w;
      }
    }
  }

  /** The rightmost lowest point of a list is unique. */
  lemma AnchorUnique(a: Point, a': Point, pts: seq<Point>)
    requires IsRightmostLowest(a, pts) && IsRightmostLowest(a', pts)
    ensures a == a'
  {
  }

  /**
   * The closed walk is determined by the points: any list of vertices that starts at the
   * anchor, follows the scan, and first comes back to the anchor at its end is the walk.
   */
  lemma WalkDetermined(hull: seq<Point>, vs: seq<Point>, points: seq<Point>)
    requires IsHullWalk(hull, points)
    requires 2 <= |vs| && IsRightmostLowest(vs[0], points) && vs[|vs| - 1] == vs[0]
    requires forall i :: 0 <= i < |vs| - 1 ==> vs[i + 1] == Wrap(vs[i], vs[0], points)
    requires forall i :: 0 < i < |vs| - 1 ==> vs[i] != vs[0]
    ensures hull == vs
  {
    AnchorUnique(hull[0], vs[0], points);
    var m := if |hull| < |vs| then |hull| else |vs|;
    AgreeUpTo(hull, vs, points, m - 1);
    if |hull| != |vs| {
      assert false;
    }
  }

  lemma {:induction false} AgreeUpTo(hull: seq<Point>, vs: seq<Point>, points: seq<Point>, k: nat)
    requires WalkSoFar(hull, points) && 1 <= |vs| && vs[0] == hull[0]
    requires forall i :: 0 <= i < |vs| - 1 ==> vs[i + 1] == Wrap(vs[i], vs[0], points)
    requires k < |hull| && k < |vs|
    ensures forall i :: 0 <= i <= k ==> hull[i] == vs[i]
  {
    if k > 0 {
      AgreeUpTo(hull, vs, points, k - 1);
      assert hull[k] == Wrap(hull[k - 1], hull[0], points);
    }
  }

  /** The scan for the vertex after `p1`: the inner loop of getConvexHull. */
  method ScanFrom(p1: Point, start: Point, points: seq<Point>) returns (p2: Point)
    ensures p2 == Wrap(p1, start, points)
  {
    p2 := start;
    for i := 0 to |points|
      invariant Wrap(p1, p2, points[i..]) == Wrap(p1, start, points)
    {
      var p := points[i];
      var direction := (p2.x - p1.x) * (p.y - p1.y) - (p.x - p1.x) * (p2.y - p1.y);
      WrapFrom(p1, p2, points, i);
      if direction > 0 || (direction == 0 && Dist2(p1, p) > Dist2(p1, p2)) {
        p2 := p;
      }
    }
  }

  /** Scanning from position `i` is one step of the scan, then scanning from `i + 1`. */
  lemma WrapFrom(p1: Point, cand: Point, pts: seq<Point>, i: int)
    requires 0 <= i < |pts|
    ensures Wrap(p1, cand, pts[i..]) ==
              if Replaces(p1, cand, pts[i]) then Wrap(p1, pts[i], pts[i + 1..]) else Wrap(p1, cand, pts[i + 1..])
  {
    assert pts[i..][0] == pts[i] && pts[i..][1..] == pts[i + 1..];
  }

  /** Gift wrapping: from the anchor, repeatedly scan for the next vertex until back at the anchor. */
  method GetConvexHull(points: seq<Point>) returns (result: Result<seq<Point>>)
    ensures |points| < 2 ==> result == Err(IllegalArgument("size < 2"))
    ensures |points| >= 2 ==> result.Ok? && IsHullWalk(result.value, points)
  {
    if |points| < 2 {
      return Err(IllegalArgument("size < 2"));
    }
    var anchor := GetRightmostLowest(points);
    var start := anchor.value;
    var hull := [start];
    var p2 := start;
    var closed := false;
    ghost var e := Point(1, 0);
    AnchorWalk(start, points);
    while !closed
      invariant WalkSoFar(hull, points) && hull[0] == start && p2 == hull[|hull| - 1]
      invariant closed <==> |hull| > 1 && p2 == start
      invariant !closed ==> OpenWalk(hull, points, e) && |hull| <= |points|
      invariant closed ==> Distinct(hull[..|hull| - 1]) && |hull| <= |points| + 1
      decreases |points| + 1 - |hull|
    {
      var p1 := p2;
      p2 := ScanFrom(p1, start, points);
      e := ExtendWalk(hull, points, e);
      ghost var before := hull;
      hull := hull + [p2];
      closed := p2 == start;
      if closed {
        assert hull[..|hull| - 1] == before;
      } else {
        OpenWalkBound(hull, points, e);
      }
    }
    return Ok(hull);
  }
}
