/**
 * The plotting pane's bookkeeping: the list of plotted points, a parallel list of the circles
 * drawn for them, and a counter of the points.
 */
module Plot {
  import opened Points
  import opened Sequences
  import opened Failures

  /** A circle drawn on the pane. */
  datatype Circle = Circle(centerX: int, centerY: int, radius: int)

  /** The radius of the circle drawn for each point. */
  const PointRadius := 5

  /** The circle that stands for a point: centred on it. */
  function CircleFor(p: Point): (c: Circle)
    ensures c.centerX == p.x && c.centerY == p.y && c.radius == PointRadius
  {
    Circle(p.x, p.y, PointRadius)
  }

  /** List.indexOf: the first index holding a point equal to `p`, or -1 when there is none. */
  function IndexOf(s: seq<Point>, p: Point): (i: int)
    ensures -1 <= i < |s|
    ensures i == -1 <==> p !in s
    ensures 0 <= i ==> s[i] == p && p !in s[..i]
  {
    if s == [] then -1
    else if Equals(s[0], p) then 0
    else
      var k := IndexOf(s[1..], p);
      assert s == [s[0]] + s[1..];
      if k == -1 then -1
      else
        assert s[..k + 1] == [s[0]] + s[1..][..k];
        k + 1
  }

  class PlotPane {
    var points: seq<Point>
    var circles: seq<Circle>
    var numPoints: int

    /** Circle i stands for point i, and no point is plotted twice. */
    ghost predicate Valid()
      reads this
    {
      && |circles| == |points|
      && (forall i :: 0 <= i < |points| ==> circles[i] == CircleFor(points[i]))
      && Distinct(points)
    }

    /** The counter agrees with the lists. */
    ghost predicate Counted()
      reads this
    {
      numPoints == |points|
    }

    constructor ()
      ensures Valid() && Counted()
      ensures points == [] && circles == []
    {
      points, circles, numPoints := [], [], 0;
    }

    /**
     * add(Point): a point equal to one already plotted is ignored; otherwise it is appended,
     * together with its circle, and counted.
     */
    method Add(p: Point)
      requires Valid()
      modifies this
      ensures Valid()
      ensures p in old(points) ==>
        points == old(points) && circles == old(circles) && numPoints == old(numPoints)
      ensures p !in old(points) ==>
        && points == old(points) + [p]
        && circles == old(circles) + [CircleFor(p)]
        && numPoints == old(numPoints) + 1
      ensures old(Counted()) ==> Counted()
    {
      if p !in points {
        DistinctAppend(points, p);
        points := points + [p];
        numPoints := numPoints + 1;
        circles := circles + [CircleFor(p)];
      }
    }

    /** add(x, y): adds the point at those coordinates. */
    method AddAt(x: int, y: int)
      requires Valid()
      modifies this
      ensures Valid()
      ensures Point(x, y) in old(points) ==>
        points == old(points) && circles == old(circles) && numPoints == old(numPoints)
      ensures Point(x, y) !in old(points) ==>
        && points == old(points) + [Point(x, y)]
        && circles == old(circles) + [CircleFor(Point(x, y))]
        && numPoints == old(numPoints) + 1
      ensures old(Counted()) ==> Counted()
    {
      Add(Point(x, y));
    }

    /**
     * remove(int): a negative index does nothing. Otherwise the counter goes down first; an
     * index in range then deletes that point and its circle, keeping the order of the rest,
     * while an index past the end throws, leaving the lists as they were and the counter one
     * lower than they are long.
     */
    method RemoveAt(index: int) returns (outcome: Outcome)
      requires Valid()
      modifies this
      ensures Valid()
      ensures index < 0 ==>
        outcome == Pass && points == old(points) && circles == old(circles) && numPoints == old(numPoints)
      ensures 0 <= index < |old(points)| ==>
        && outcome == Pass
        && points == old(points)[..index] + old(points)[index + 1..]
        && circles == old(circles)[..index] + old(circles)[index + 1..]
        && numPoints == old(numPoints) - 1
      ensures index >= |old(points)| ==>
        && outcome == Fail(IndexOutOfBounds(index))
        && points == old(points) && circles == old(circles)
        && numPoints == old(numPoints) - 1
      ensures index < |old(points)| && old(Counted()) ==> Counted()
    {
      outcome := Pass;
      if index >= 0 {
        numPoints := numPoints - 1;
        if index < |points| {
          DistinctRemove(points, index);
          points := points[..index] + points[index + 1..];
          circles := circles[..index] + circles[index + 1..];
          assert forall i :: 0 <= i < |points| ==> circles[i] == CircleFor(points[i]) by {
            forall i | 0 <= i < |points| ensures circles[i] == CircleFor(points[i]) {
              if i >= index {
                assert points[i] == old(points)[i + 1] && circles[i] == old(circles)[i + 1];
              }
            }
          }
        } else {
          outcome := Fail(IndexOutOfBounds(index));
        }
      }
    }

    /**
     * remove(Point): removes the plotted point equal to `p` from where indexOf finds it, keeping
     * the order of the rest; when there is none, indexOf gives -1 and nothing changes. Either way
     * no point equal to `p` is left.
     */
    method Remove(p: Point) returns (outcome: Outcome)
      requires Valid()
      modifies this
      ensures Valid() && outcome == Pass
      ensures p !in old(points) ==>
        points == old(points) && circles == old(circles) && numPoints == old(numPoints)
      ensures p in old(points) ==>
        && points == old(points)[..IndexOf(old(points), p)] + old(points)[IndexOf(old(points), p) + 1..]
        && circles == old(circles)[..IndexOf(old(points), p)] + old(circles)[IndexOf(old(points), p) + 1..]
        && multiset(points) == multiset(old(points)) - multiset{p}
        && numPoints == old(numPoints) - 1
      ensures p !in points
      ensures old(Counted()) ==> Counted()
    {
      var index := IndexOf(points, p);
      ghost var before := points;
      outcome := RemoveAt(index);
      if index >= 0 {
        assert before == before[..index] + [p] + before[index + 1..];
      }
    }

    /** clear: no points, no circles, a counter of zero. */
    method Clear()
      modifies this
      ensures Valid() && Counted()
      ensures points == [] && circles == [] && numPoints == 0
    {
      numPoints := 0;
      points := [];
      circles := [];
    }
  }
}
