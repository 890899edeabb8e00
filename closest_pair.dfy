/**
 * The divide-and-conquer closest-pair solver (Liang, "Introduction to Java Programming",
 * section 22.8): base cases of two and three points, a split of the x-sorted points at index
 * (n+1)/2, and a merge that scans two y-sorted strips beside the dividing line with a
 * forward-only pointer.
 *
 * Distances are squared throughout. Since the square root is monotone, `d1 < d2` on distances
 * is `D1 < D2` on squares, and each test against a distance `d = sqrt(D)` is rewritten exactly
 * (see StripTestsMatchRoots).
 */
module ClosestPair {
  import opened Points
  import opened Sequences
  import opened Sorting
  import opened Failures

  /** Two points; the solver's answer. */
  datatype Pair = Pair(p1: Point, p2: Point)

  function Abs(a: int): (r: int)
    ensures r >= 0 && (r == a || r == -a)
  {
    if a < 0 then -a else a
  }

  /** Pair.distance, squared: built from the absolute coordinate gaps, it is the points' distance. */
  function PairDistance(pair: Pair): (d: int)
    ensures d == Dist2(pair.p1, pair.p2)
  {
    var dx := Abs(pair.p1.x - pair.p2.x);
    var dy := Abs(pair.p1.y - pair.p2.y);
    assert dx * dx == (pair.p1.x - pair.p2.x) * (pair.p1.x - pair.p2.x);
    assert dy * dy == (pair.p1.y - pair.p2.y) * (pair.p1.y - pair.p2.y);
    dx * dx + dy * dy
  }

  /** Pair.contains: a point is in the pair when it equals either member. */
  predicate Contains(pair: Pair, p: Point)
    ensures Contains(pair, p) <==> p == pair.p1 || p == pair.p2
  {
    Equals(pair.p1, p) || Equals(pair.p2, p)
  }

  /** The solver's distance helper: the distance of the pair (p, q), whichever way round. */
  function Distance(p: Point, q: Point): (d: int)
    ensures d == Dist2(p, q) && d == Dist2(q, p)
  {
    Dist2Symmetric(p, q);
    PairDistance(Pair(p, q))
  }

  /**
   * The three-point base case: candidates (a,b), (b,c), (a,c), compared with strict `<`
   * in that nesting, so the answer is one of the three and no farther apart than any of them.
   */
  function ClosestOfThree(a: Point, b: Point, c: Point): (r: Pair)
    ensures r == Pair(a, b) || r == Pair(b, c) || r == Pair(a, c)
    ensures PairDistance(r) <= Dist2(a, b)
    ensures PairDistance(r) <= Dist2(b, c)
    ensures PairDistance(r) <= Dist2(a, c)
  {
    var ab, bc, ac := Pair(a, b), Pair(b, c), Pair(a, c);
    if PairDistance(ab) < PairDistance(bc) then
      if PairDistance(ab) < PairDistance(ac) then ab else ac
    else if PairDistance(bc) < PairDistance(ac) then bc
    else ac
  }

  /**
   * The tie rule of the three-point case: the later candidate wins. A tie between (a,b) and
   * (b,c) goes to (b,c), and (a,c) wins every tie it is part of.
   */
  lemma ClosestOfThreeTies(a: Point, b: Point, c: Point)
    ensures Dist2(a, c) <= Dist2(a, b) && Dist2(a, c) <= Dist2(b, c) ==>
              ClosestOfThree(a, b, c) == Pair(a, c)
    ensures Dist2(b, c) <= Dist2(a, b) && Dist2(b, c) < Dist2(a, c) ==>
              ClosestOfThree(a, b, c) == Pair(b, c)
    ensures Dist2(a, b) < Dist2(b, c) && Dist2(a, b) < Dist2(a, c) ==>
              ClosestOfThree(a, b, c) == Pair(a, b)
  {
  }

  /** On three evenly spaced points on a line the answer is the second and the third. */
  lemma ClosestOfThreeCollinear()
    ensures ClosestOfThree(Point(0, 0), Point(1, 0), Point(2, 0)) == Pair(Point(1, 0), Point(2, 0))
  {
  }

  /** When the first two points are the same, the answer is the two copies. */
  lemma ClosestOfThreeRepeated(a: Point, c: Point)
    ensures ClosestOfThree(a, a, c) == Pair(a, a)
  {
  }

  /**
   * The split of n >= 4 x-sorted points: the left half holds the first (n+1)/2, the right half
   * the other n/2, the dividing point at (n-1)/2 is the last of the left half, and both halves
   * have at least two points.
   */
  function SplitAt(n: int): (h: int)
    requires n >= 4
    ensures 2 <= h && 2 <= n - h
    ensures n - h == n / 2 && h - 1 == (n - 1) / 2
  {
    (n + 1) / 2
  }

  /** The nearer of the two halves' answers; on a tie the left half's answer. */
  function ChooseHalf(left: Pair, right: Pair): (r: Pair)
    ensures PairDistance(r) <= PairDistance(left) && PairDistance(r) <= PairDistance(right)
    ensures r == left || r == right
    ensures PairDistance(left) <= PairDistance(right) ==> r == left
  {
    var d1, d2 := PairDistance(left), PairDistance(right);
    var d := if d1 < d2 then d1 else d2;
    if d == d1 then left else right
  }

  /*
   * The tests of the merge step, against d = sqrt(d2):
   *   NearLeft:  mid.x - p.x <= d        NearRight: p.x - mid.x <= d
   *   FarBelow:  q.y <= p.y - d          WithinY:   |q.y - p.y| <= d
   * StripTestsMatchRoots proves each squared form equal to the test on d.
   */

  /** A left-half point is near the dividing line unless it lies farther than d from `mid`. */
  predicate NearLeft(mid: Point, p: Point, d2: int)
    ensures p.x <= mid.x && !NearLeft(mid, p, d2) ==> d2 < Dist2(p, mid)
    ensures mid.x <= p.x ==> NearLeft(mid, p, d2)
  {
    Dist2Bounds(p, mid);
    var gap := mid.x - p.x;
    gap <= 0 || gap * gap <= d2
  }

  /** A right-half point is near the dividing line unless it lies farther than d from `mid`. */
  predicate NearRight(mid: Point, p: Point, d2: int)
    ensures mid.x <= p.x && !NearRight(mid, p, d2) ==> d2 < Dist2(p, mid)
    ensures p.x <= mid.x ==> NearRight(mid, p, d2)
  {
    Dist2Bounds(p, mid);
    var gap := p.x - mid.x;
    gap <= 0 || gap * gap <= d2
  }

  /** A right-strip point far below `p` is at least d away from it; none above `p` is far below. */
  predicate FarBelow(q: Point, p: Point, d2: int)
    ensures FarBelow(q, p, d2) ==> d2 <= Dist2(p, q)
    ensures p.y < q.y ==> !FarBelow(q, p, d2)
  {
    Dist2Bounds(p, q);
    var gap := p.y - q.y;
    gap >= 0 && gap * gap >= d2
  }

  /** A right-strip point outside the y-window of `p` is farther than d from it. */
  predicate WithinY(q: Point, p: Point, d2: int)
    ensures !WithinY(q, p, d2) ==> d2 < Dist2(p, q)
    ensures p.y == q.y && 0 <= d2 ==> WithinY(q, p, d2)
  {
    Dist2Bounds(p, q);
    (q.y - p.y) * (q.y - p.y) <= d2
  }

  /**
   * With d the exact square root of d2, each squared test holds exactly when the test on d
   * holds.
   */
  lemma StripTestsMatchRoots(mid: Point, p: Point, q: Point, d2: int, d: real)
    requires 0.0 <= d && d * d == d2 as real
    ensures NearLeft(mid, p, d2) <==> (mid.x - p.x) as real <= d
    ensures NearRight(mid, p, d2) <==> (p.x - mid.x) as real <= d
    ensures FarBelow(q, p, d2) <==> q.y as real <= p.y as real - d
    ensures WithinY(q, p, d2) <==> -d <= (q.y - p.y) as real <= d
  {
    AtMostRoot(mid.x - p.x, d2, d);
    AtMostRoot(p.x - mid.x, d2, d);
    AtLeastRoot(p.y - q.y, d2, d);
    AtMostRoot(q.y - p.y, d2, d);
    AtMostRoot(p.y - q.y, d2, d);
    assert (p.y - q.y) * (p.y - q.y) == (q.y - p.y) * (q.y - p.y);
  }

  lemma AtMostRoot(g: int, d2: int, d: real)
    requires 0.0 <= d && d * d == d2 as real
    ensures g as real <= d <==> g <= 0 || g * g <= d2
  {
    var a := g as real;
    assert (g * g) as real == a * a;
    if g > 0 {
      if a <= d { RealSquareMonotone(a, d); } else { RealSquareStrict(d, a); }
    }
  }

  lemma AtLeastRoot(g: int, d2: int, d: real)
    requires 0.0 <= d && d * d == d2 as real
    ensures g as real >= d <==> g >= 0 && g * g >= d2
  {
    var a := g as real;
    assert (g * g) as real == a * a;
    if g >= 0 {
      if d <= a { RealSquareMonotone(d, a); } else { RealSquareStrict(a, d); }
    }
  }

  lemma RealSquareMonotone(a: real, b: real)
    requires 0.0 <= a <= b
    ensures a * a <= b * b
  {
    assert a * a <= a * b <= b * b;
  }

  lemma RealSquareStrict(a: real, b: real)
    requires 0.0 <= a < b
    ensures a * a < b * b
  {
    var gap := b - a;
    assert b * b == a * a + gap * (a + b);
    assert gap * (a + b) > 0.0 by {
      assert gap * (a + b) >= gap * gap;
      assert gap * gap > 0.0;
    }
  }

  /** Every pair of value-distinct points of `points` is at least `d2` apart. */
  ghost predicate IsLowerBound(points: seq<Point>, d2: int)
  {
    forall p, q :: p in points && q in points && p != q ==> d2 <= Dist2(p, q)
  }

  /** The points of `byY` that go to the left strip, in their order in `byY`. */
  function LeftStrip(byY: seq<Point>, s1: seq<Point>, mid: Point, d2: int): seq<Point>
  {
    if byY == [] then []
    else
      var p := byY[|byY| - 1];
      LeftStrip(byY[..|byY| - 1], s1, mid, d2) + (if p in s1 && NearLeft(mid, p, d2) then [p] else [])
  }

  /** The points of `byY` that go to the right strip, in their order in `byY`. */
  function RightStrip(byY: seq<Point>, s1: seq<Point>, s2: seq<Point>, mid: Point, d2: int): seq<Point>
  {
    if byY == [] then []
    else
      var p := byY[|byY| - 1];
      RightStrip(byY[..|byY| - 1], s1, s2, mid, d2)
        + (if !(p in s1 && NearLeft(mid, p, d2)) && p in s2 && NearRight(mid, p, d2) then [p] else [])
  }

  /** One more point of `byY` adds itself to at most one strip's end. */
  lemma StripsStep(byY: seq<Point>, i: int, s1: seq<Point>, s2: seq<Point>, mid: Point, d2: int)
    requires 0 <= i < |byY|
    ensures var p := byY[i];
      && LeftStrip(byY[..i + 1], s1, mid, d2)
         == LeftStrip(byY[..i], s1, mid, d2) + (if p in s1 && NearLeft(mid, p, d2) then [p] else [])
      && RightStrip(byY[..i + 1], s1, s2, mid, d2)
         == RightStrip(byY[..i], s1, s2, mid, d2)
            + (if !(p in s1 && NearLeft(mid, p, d2)) && p in s2 && NearRight(mid, p, d2) then [p] else [])
  {
    assert byY[..i + 1][..i] == byY[..i];
  }

  /** Which points the left strip holds. */
  lemma {:induction false} LeftStripMembers(byY: seq<Point>, s1: seq<Point>, mid: Point, d2: int)
    ensures forall p :: p in LeftStrip(byY, s1, mid, d2) <==> p in byY && p in s1 && NearLeft(mid, p, d2)
  {
    if byY != [] {
      var n := |byY| - 1;
      LeftStripMembers(byY[..n], s1, mid, d2);
      assert byY == byY[..n] + [byY[n]];
    }
  }

  /** Which points the right strip holds. */
  lemma {:induction false} RightStripMembers(byY: seq<Point>, s1: seq<Point>, s2: seq<Point>, mid: Point, d2: int)
    ensures forall p :: p in RightStrip(byY, s1, s2, mid, d2) <==>
      p in byY && !(p in s1 && NearLeft(mid, p, d2)) && p in s2 && NearRight(mid, p, d2)
  {
    if byY != [] {
      var n := |byY| - 1;
      RightStripMembers(byY[..n], s1, s2, mid, d2);
      assert byY == byY[..n] + [byY[n]];
    }
  }

  /** All but the last of a y-sorted list is y-sorted and no higher than the last. */
  lemma SortedBelowLast(byY: seq<Point>)
    requires byY != [] && Sorted(YMajor, byY)
    ensures Sorted(YMajor, byY[..|byY| - 1])
    ensures forall q :: q in byY[..|byY| - 1] ==> q.y <= byY[|byY| - 1].y
  {
    var n := |byY| - 1;
    forall q | q in byY[..n] ensures q.y <= byY[n].y {
      var k :| 0 <= k < n && byY[..n][k] == q;
      assert Compare(YMajor, byY[k], byY[n]) <= 0;
    }
  }

  /** A y-sorted selection from `t` stays y-sorted when a point no lower than all of `t` follows. */
  lemma AppendAbove(strip: seq<Point>, t: seq<Point>, p: Point)
    requires Sorted(YMajor, strip)
    requires forall q :: q in strip ==> q in t
    requires forall q :: q in t ==> q.y <= p.y
    ensures Sorted(YMajor, strip + [p])
  {
    forall k | 0 <= k < |strip| ensures Compare(YMajor, strip[k], p) <= 0 {
      assert strip[k] in t;
    }
    AppendSorted(YMajor, strip, p);
  }

  /** The left strip of a y-sorted list is y-sorted. */
  lemma {:induction false} LeftStripSorted(byY: seq<Point>, s1: seq<Point>, mid: Point, d2: int)
    requires Sorted(YMajor, byY)
    ensures Sorted(YMajor, LeftStrip(byY, s1, mid, d2))
  {
    if byY != [] {
      var n := |byY| - 1;
      SortedBelowLast(byY);
      LeftStripSorted(byY[..n], s1, mid, d2);
      LeftStripMembers(byY[..n], s1, mid, d2);
      AppendAbove(LeftStrip(byY[..n], s1, mid, d2), byY[..n], byY[n]);
    }
  }

  /** The right strip of a y-sorted list is y-sorted. */
  lemma {:induction false} RightStripSorted(byY: seq<Point>, s1: seq<Point>, s2: seq<Point>, mid: Point, d2: int)
    requires Sorted(YMajor, byY)
    ensures Sorted(YMajor, RightStrip(byY, s1, s2, mid, d2))
  {
    if byY != [] {
      var n := |byY| - 1;
      SortedBelowLast(byY);
      RightStripSorted(byY[..n], s1, s2, mid, d2);
      RightStripMembers(byY[..n], s1, s2, mid, d2);
      AppendAbove(RightStrip(byY[..n], s1, s2, mid, d2), byY[..n], byY[n]);
    }
  }

  /**
   * The strips: walking the y-sorted points, a point of the left half near the dividing line
   * goes to `stripL`; otherwise a point of the right half near it goes to `stripR`. Each strip
   * keeps the order of `byY`, so among points level in y the sort's order decides.
   */
  method BuildStrips(byY: seq<Point>, s1: seq<Point>, s2: seq<Point>, mid: Point, d2: int)
    returns (stripL: seq<Point>, stripR: seq<Point>)
    requires Sorted(YMajor, byY)
    ensures stripL == LeftStrip(byY, s1, mid, d2) && stripR == RightStrip(byY, s1, s2, mid, d2)
    ensures forall p :: p in stripL <==> p in byY && p in s1 && NearLeft(mid, p, d2)
    ensures forall p :: p in stripR <==>
      p in byY && !(p in s1 && NearLeft(mid, p, d2)) && p in s2 && NearRight(mid, p, d2)
    ensures Sorted(YMajor, stripL) && Sorted(YMajor, stripR)
    ensures forall p :: p in stripL ==> p !in stripR
  {
    stripL, stripR := [], [];
    for i := 0 to |byY|
      invariant stripL == LeftStrip(byY[..i], s1, mid, d2)
      invariant stripR == RightStrip(byY[..i], s1, s2, mid, d2)
    {
      var p := byY[i];
      StripsStep(byY, i, s1, s2, mid, d2);
      if p in s1 && NearLeft(mid, p, d2) {
        stripL := stripL + [p];
      } else if p in s2 && NearRight(mid, p, d2) {
        stripR := stripR + [p];
      }
    }
    assert byY[..|byY|] == byY;
    LeftStripMembers(byY, s1, mid, d2);
    RightStripMembers(byY, s1, s2, mid, d2);
    LeftStripSorted(byY, s1, mid, d2);
    RightStripSorted(byY, s1, s2, mid, d2);
  }

  /** A point at least d below `p` in y is at least d away from every point not below `p`. */
  lemma FarBelowIsFar(p: Point, p': Point, q: Point, d2: int)
    requires FarBelow(q, p, d2) && p.y <= p'.y
    ensures d2 <= Dist2(p', q)
  {
    SquareMonotone(p.y - q.y, p'.y - q.y);
    Dist2Bounds(p', q);
  }

  /**
   * When the scan for `p` stops at `stripR[r1]`, that point and every later one is more
   * than d above `p`, so farther than d from it.
   */
  lemma ScanStopIsFar(p: Point, stripR: seq<Point>, r: int, r1: int, k: int, d2: int)
    requires Sorted(YMajor, stripR)
    requires 0 <= r <= r1 <= k < |stripR|
    requires !WithinY(stripR[r1], p, d2)
    requires r1 == r ==> !FarBelow(stripR[r], p, d2)
    requires r1 > r ==> WithinY(stripR[r1 - 1], p, d2)
    ensures d2 < Dist2(p, stripR[k])
  {
    var g := stripR[r1].y - p.y;
    assert (-g) * (-g) == g * g;
    if g <= 0 && r1 > r {
      var g' := stripR[r1 - 1].y - p.y;
      assert CompareY(stripR[r1 - 1], stripR[r1]) <= 0;
      SquareMonotone(-g, -g');
    }
    assert g > 0;
    if k > r1 {
      assert CompareY(stripR[r1], stripR[k]) <= 0;
    }
    SquareMonotone(g, stripR[k].y - p.y);
    Dist2Bounds(p, stripR[k]);
  }

  /**
   * The inner scan of the merge for one left-strip point `p`: from the pointer `r`, walk on
   * while the y-gap is at most d; a strictly closer pair replaces the answer and shrinks d.
   * Afterwards no right-strip point from `r` on is closer to `p` than the answer.
   */
  method ScanNear(p: Point, stripR: seq<Point>, r: int, d: int, closest: Pair)
    returns (d': int, closest': Pair)
    requires Sorted(YMajor, stripR) && 0 <= r <= |stripR|
    requires d == PairDistance(closest)
    requires r < |stripR| ==> !FarBelow(stripR[r], p, d)
    ensures d' == PairDistance(closest') <= d
    ensures closest' != closest ==> d' < d && closest'.p1 == p && closest'.p2 in stripR
    ensures forall k :: r <= k < |stripR| ==> d' <= Dist2(p, stripR[k])
  {
    d', closest' := d, closest;
    var r1 := r;
    while r1 < |stripR| && WithinY(stripR[r1], p, d')
      invariant r <= r1 <= |stripR|
      invariant d' == PairDistance(closest') <= d
      invariant closest' != closest ==> d' < d && closest'.p1 == p && closest'.p2 in stripR
      invariant forall k :: r <= k < r1 ==> d' <= Dist2(p, stripR[k])
      invariant r1 == r ==> d' == d
      invariant r1 > r ==> WithinY(stripR[r1 - 1], p, d')
    {
      var distance := Distance(p, stripR[r1]);
      if distance < d' {
        Dist2Bounds(p, stripR[r1]);
        d' := distance;
        closest' := Pair(p, stripR[r1]);
      }
      r1 := r1 + 1;
    }
    forall k | r1 <= k < |stripR| ensures d' <= Dist2(p, stripR[k]) {
      ScanStopIsFar(p, stripR, r, r1, k, d');
    }
  }

  /**
   * The merge scan. For each left-strip point in y order, the pointer `r` first skips the
   * right-strip points at least d below it (it never moves back), then ScanNear walks on from
   * it. The answer changes only to a strictly closer pair, and ends no farther apart than any
   * (left strip, right strip) pair.
   */
  method MergeStrips(stripL: seq<Point>, stripR: seq<Point>, closest: Pair) returns (best: Pair)
    requires Sorted(YMajor, stripL) && Sorted(YMajor, stripR)
    ensures PairDistance(best) <= PairDistance(closest)
    ensures best != closest ==>
      PairDistance(best) < PairDistance(closest) && best.p1 in stripL && best.p2 in stripR
    ensures forall p, q :: p in stripL && q in stripR ==> PairDistance(best) <= Dist2(p, q)
  {
    var d := PairDistance(closest);
    best := closest;
    var r := 0;
    for i := 0 to |stripL|
      invariant 0 <= r <= |stripR|
      invariant d == PairDistance(best) <= PairDistance(closest)
      invariant best != closest ==> d < PairDistance(closest) && best.p1 in stripL && best.p2 in stripR
      invariant forall m, k :: 0 <= m < i && 0 <= k < |stripR| ==> d <= Dist2(stripL[m], stripR[k])
      invariant forall m, k :: i <= m < |stripL| && 0 <= k < r ==> d <= Dist2(stripL[m], stripR[k])
    {
      var p := stripL[i];
      while r < |stripR| && FarBelow(stripR[r], p, d)
        invariant 0 <= r <= |stripR|
        invariant forall m, k :: i <= m < |stripL| && 0 <= k < r ==> d <= Dist2(stripL[m], stripR[k])
      {
        forall m | i <= m < |stripL| ensures d <= Dist2(stripL[m], stripR[r]) {
          if m > i { assert CompareY(stripL[i], stripL[m]) <= 0; }
          FarBelowIsFar(p, stripL[m], stripR[r], d);
        }
        r := r + 1;
      }
      d, best := ScanNear(p, stripR, r, d, best);
      assert forall k :: 0 <= k < |stripR| ==> d <= Dist2(p, stripR[k]);
    }
  }

  /** Points on either side of the split that are closer than d both lie near the dividing line. */
  lemma CrossPairNearMid(byX: seq<Point>, h: int, a: Point, b: Point, d2: int)
    requires Sorted(Natural, byX) && 1 <= h <= |byX|
    requires a in byX[..h] && b in byX[h..]
    requires Dist2(a, b) < d2
    ensures NearLeft(byX[h - 1], a, d2) && NearRight(byX[h - 1], b, d2)
  {
    var mid := byX[h - 1];
    var i :| 0 <= i < h && byX[i] == a;
    var j :| h <= j < |byX| && byX[j] == b;
    if i < h - 1 { assert Compare(Natural, byX[i], mid) <= 0; }
    assert Compare(Natural, mid, byX[j]) <= 0;
    assert a.x <= mid.x <= b.x;
    Dist2Bounds(a, b);
    SquareMonotone(mid.x - a.x, b.x - a.x);
    SquareMonotone(b.x - mid.x, b.x - a.x);
  }

  /**
   * The merge is complete: a bound that holds inside each half and over every pair the
   * strips offer holds over all of the points.
   */
  lemma CombineHalves(points: seq<Point>, byX: seq<Point>, h: int, d0: int,
                      stripL: seq<Point>, stripR: seq<Point>, dBest: int)
    requires multiset(byX) == multiset(points) && Sorted(Natural, byX) && 1 <= h <= |byX|
    requires IsLowerBound(byX[..h], d0) && IsLowerBound(byX[h..], d0)
    requires forall p :: p in points && p in byX[..h] && NearLeft(byX[h - 1], p, d0) ==> p in stripL
    requires forall q :: q in points && q !in byX[..h] && q in byX[h..] && NearRight(byX[h - 1], q, d0) ==>
      q in stripR
    requires dBest <= d0
    requires forall p, q :: p in stripL && q in stripR ==> dBest <= Dist2(p, q)
    ensures IsLowerBound(points, dBest)
  {
    var s1, s2 := byX[..h], byX[h..];
    assert byX == s1 + s2;
    forall p, q | p in points && q in points && p != q ensures dBest <= Dist2(p, q) {
      SameValues(points, byX, p);
      SameValues(points, byX, q);
      if p in s1 && q in s1 {
      } else if p in s2 && q in s2 {
      } else if p in s1 {
        CrossBound(p, q, s1, s2, byX, h, d0, stripL, stripR, dBest, points);
      } else {
        CrossBound(q, p, s1, s2, byX, h, d0, stripL, stripR, dBest, points);
        Dist2Symmetric(p, q);
      }
    }
  }

  lemma CrossBound(a: Point, b: Point, s1: seq<Point>, s2: seq<Point>, byX: seq<Point>, h: int, d0: int,
                   stripL: seq<Point>, stripR: seq<Point>, dBest: int, points: seq<Point>)
    requires Sorted(Natural, byX) && 1 <= h <= |byX| && s1 == byX[..h] && s2 == byX[h..]
    requires a in points && b in points && a in s1 && b !in s1 && b in s2
    requires forall p :: p in points && p in byX[..h] && NearLeft(byX[h - 1], p, d0) ==> p in stripL
    requires forall q :: q in points && q !in byX[..h] && q in byX[h..] && NearRight(byX[h - 1], q, d0) ==>
      q in stripR
    requires dBest <= d0
    requires forall p, q :: p in stripL && q in stripR ==> dBest <= Dist2(p, q)
    ensures dBest <= Dist2(a, b)
  {
    if Dist2(a, b) < d0 {
      CrossPairNearMid(byX, h, a, b, d0);
    }
  }

  lemma BoundOfTwo(points: seq<Point>)
    requires |points| == 2
    ensures IsLowerBound(points, Dist2(points[0], points[1]))
  {
    forall p, q | p in points && q in points && p != q
      ensures Dist2(points[0], points[1]) <= Dist2(p, q)
    {
      Dist2Symmetric(p, q);
    }
  }

  lemma BoundOfThree(points: seq<Point>)
    requires |points| == 3
    ensures IsLowerBound(points, PairDistance(ClosestOfThree(points[0], points[1], points[2])))
  {
    var a, b, c := points[0], points[1], points[2];
    var best := ClosestOfThree(a, b, c);
    forall p, q | p in points && q in points && p != q
      ensures PairDistance(best) <= Dist2(p, q)
    {
      assert p == a || p == b || p == c;
      assert q == a || q == b || q == c;
      Dist2Symmetric(p, q);
    }
  }

  /** The two halves of the x-sorted copy hold input points, without repeats if the input has none. */
  lemma HalvesFromInput(points: seq<Point>, byX: seq<Point>, h: int)
    requires multiset(byX) == multiset(points) && 0 <= h <= |byX|
    ensures forall p :: p in byX[..h] ==> p in points
    ensures forall p :: p in byX[h..] ==> p in points
    ensures Distinct(points) ==> Distinct(byX[..h]) && Distinct(byX[h..])
  {
    forall p | p in byX ensures p in points { SameValues(byX, points, p); }
    if Distinct(points) {
      DistinctPermutation(points, byX);
      var s2 := byX[h..];
      forall i, j | 0 <= i < j < |s2| ensures s2[i] != s2[j] {
        assert s2[i] == byX[h + i] && s2[j] == byX[h + j];
      }
    }
  }

  /**
   * The rest of findClosest once both halves are solved: keep the nearer of their answers,
   * build the strips around the dividing point from the y-sorted points, and merge them.
   */
  method MergeHalves(points: seq<Point>, byX: seq<Point>, h: int, mid: Point, p1: Pair, p2: Pair)
    returns (best: Pair)
    requires multiset(byX) == multiset(points) && Sorted(Natural, byX) && 1 <= h <= |byX|
    requires mid == byX[h - 1]
    requires p1.p1 in byX[..h] && p1.p2 in byX[..h] && IsLowerBound(byX[..h], PairDistance(p1))
    requires p2.p1 in byX[h..] && p2.p2 in byX[h..] && IsLowerBound(byX[h..], PairDistance(p2))
    ensures best.p1 in points && best.p2 in points
    ensures IsLowerBound(points, PairDistance(best))
    ensures p1.p1 != p1.p2 && p2.p1 != p2.p2 ==> best.p1 != best.p2
  {
    var closest := ChooseHalf(p1, p2);
    var d := PairDistance(closest);

    var byY := Sort(YMajor, points);
    var stripL, stripR := BuildStrips(byY, byX[..h], byX[h..], mid, d);
    best := MergeStrips(stripL, stripR, closest);

    forall p | p in byY ensures p in points { SameValues(byY, points, p); }
    forall p | p in points ensures p in byY { SameValues(byY, points, p); }
    CombineHalves(points, byX, h, d, stripL, stripR, PairDistance(best));
    HalvesFromInput(points, byX, h);
  }

  /**
   * findClosest. Fewer than two points is an IllegalArgumentException; two points are the
   * answer in input order; three points go to ClosestOfThree. Otherwise the answer is drawn
   * from the input and no two value-distinct input points are closer than it; when the input
   * has no repeated point, its two points differ.
   */
  method FindClosest(points: seq<Point>) returns (result: Result<Pair>)
    decreases |points|, 1
    ensures result.Err? <==> |points| <= 1
    ensures |points| <= 1 ==> result == Err(IllegalArgument("size: 1"))
    ensures |points| == 2 ==> result == Ok(Pair(points[0], points[1]))
    ensures |points| == 3 ==> result == Ok(ClosestOfThree(points[0], points[1], points[2]))
    ensures result.Ok? ==> result.value.p1 in points && result.value.p2 in points
    ensures result.Ok? ==> IsLowerBound(points, PairDistance(result.value))
    ensures result.Ok? && Distinct(points) ==> result.value.p1 != result.value.p2
  {
    if |points| <= 1 {
      return Err(IllegalArgument("size: 1"));
    } else if |points| == 2 {
      BoundOfTwo(points);
      return Ok(Pair(points[0], points[1]));
    } else if |points| == 3 {
      BoundOfThree(points);
      return Ok(ClosestOfThree(points[0], points[1], points[2]));
    }

    var best := Divide(points);
    return Ok(best);
  }

  /**
   * findClosest on four or more points: sort a copy by x, solve both halves, and merge across
   * the split.
   */
  method Divide(points: seq<Point>) returns (best: Pair)
    requires |points| >= 4
    decreases |points|, 0
    ensures best.p1 in points && best.p2 in points
    ensures IsLowerBound(points, PairDistance(best))
    ensures Distinct(points) ==> best.p1 != best.p2
  {
    // split the x-sorted copy at index (n+1)/2; mid, at (n-1)/2, is the last of the left half
    var byX := Sort(Natural, points);
    var n := |byX|;
    assert n == |multiset(byX)| == |multiset(points)| == |points|;
    var h := SplitAt(n);
    var mid := byX[(n - 1) / 2];
    var s1 := byX[..h];
    var s2 := byX[h..];

    var r1 := FindClosest(s1);
    var r2 := FindClosest(s2);
    HalvesFromInput(points, byX, h);
    best := MergeHalves(points, byX, h, mid, r1.value, r2.value);
  }
}
