/**
 * The closest-pair pane: the plotting pane's points plus the last answer of the solver, kept
 * up to date after each change when auto-solve is on.
 */
module ClosestPairPanes {
  import opened Points
  import opened Sequences
  import opened Failures
  import opened ClosestPair
  import opened Plot

  /**
   * `closest` is findClosest's answer for `points`: drawn from them, two different points,
   * none closer; for two points it is the pair in list order, for three the pair ClosestOfThree
   * picks.
   */
  ghost predicate SolvedFor(closest: Option<Pair>, points: seq<Point>)
  {
    && closest.Some?
    && closest.value.p1 in points && closest.value.p2 in points
    && closest.value.p1 != closest.value.p2
    && IsLowerBound(points, PairDistance(closest.value))
    && (|points| == 2 ==> closest.value == Pair(points[0], points[1]))
    && (|points| == 3 ==> closest.value == ClosestOfThree(points[0], points[1], points[2]))
  }

  class ClosestPairPane {
    /** The state inherited from the plotting pane. */
    const plot: PlotPane
    var closest: Option<Pair>
    var autoSolve: bool

    ghost predicate Valid()
      reads this, plot
    {
      plot.Valid()
    }

    constructor ()
      ensures Valid() && fresh(plot)
      ensures plot.points == [] && plot.numPoints == 0 && plot.Counted()
      ensures closest == None && !autoSolve
    {
      plot := new PlotPane();
      closest := None;
      autoSolve := false;
    }

    /** solve: with at least two points, stores the closest pair; otherwise changes nothing. */
    method Solve()
      requires Valid()
      modifies this
      ensures Valid() && autoSolve == old(autoSolve)
      ensures |plot.points| > 1 ==> SolvedFor(closest, plot.points)
      ensures |plot.points| <= 1 ==> closest == old(closest)
    {
      if |plot.points| > 1 {
        var result := FindClosest(plot.points);
        closest := Some(result.value);
      }
    }

    /** add(Point): adds the point to the pane, then solves again when auto-solve is on. */
    method Add(p: Point)
      requires Valid()
      modifies this, plot
      ensures Valid() && autoSolve == old(autoSolve)
      ensures plot.points == if p in old(plot.points) then old(plot.points) else old(plot.points) + [p]
      ensures plot.numPoints == if p in old(plot.points) then old(plot.numPoints) else old(plot.numPoints) + 1
      ensures old(plot.Counted()) ==> plot.Counted()
      ensures autoSolve && |plot.points| > 1 ==> SolvedFor(closest, plot.points)
      ensures !autoSolve || |plot.points| <= 1 ==> closest == old(closest)
    {
      plot.Add(p);
      if autoSolve {
        Solve();
      }
    }

    /**
     * add(x, y): the inherited method builds the point and calls add(Point), which is the
     * override above.
     */
    method AddAt(x: int, y: int)
      requires Valid()
      modifies this, plot
      ensures Valid() && autoSolve == old(autoSolve)
      ensures plot.points ==
        if Point(x, y) in old(plot.points) then old(plot.points) else old(plot.points) + [Point(x, y)]
      ensures plot.numPoints ==
        if Point(x, y) in old(plot.points) then old(plot.numPoints) else old(plot.numPoints) + 1
      ensures old(plot.Counted()) ==> plot.Counted()
      ensures autoSolve && |plot.points| > 1 ==> SolvedFor(closest, plot.points)
      ensures !autoSolve || |plot.points| <= 1 ==> closest == old(closest)
    {
      Add(Point(x, y));
    }

    /**
     * remove(int): removes from the pane (an index past the end throws before anything else
     * happens here), then solves again when auto-solve is on. With one point or none left,
     * solve does nothing, so the old answer stays even if it holds the removed point.
     */
    method RemoveAt(index: int) returns (outcome: Outcome)
      requires Valid()
      modifies this, plot
      ensures Valid() && autoSolve == old(autoSolve)
      ensures outcome == (if index >= |old(plot.points)| then Fail(IndexOutOfBounds(index)) else Pass)
      ensures 0 <= index < |old(plot.points)| ==>
        plot.points == old(plot.points)[..index] + old(plot.points)[index + 1..]
      ensures index < 0 || outcome.Fail? ==> plot.points == old(plot.points)
      ensures plot.numPoints == if index < 0 then old(plot.numPoints) else old(plot.numPoints) - 1
      ensures index < |old(plot.points)| && old(plot.Counted()) ==> plot.Counted()
      ensures outcome.Pass? && autoSolve && |plot.points| > 1 ==> SolvedFor(closest, plot.points)
      ensures outcome.Fail? || !autoSolve || |plot.points| <= 1 ==> closest == old(closest)
    {
      outcome := plot.RemoveAt(index);
      if outcome.Pass? && autoSolve {
        Solve();
      }
    }

    /**
     * remove(Point): the inherited method looks the point up and calls remove(int) above, so
     * with auto-solve on it solves again, even when the point was absent and nothing changed.
     */
    method Remove(p: Point) returns (outcome: Outcome)
      requires Valid()
      modifies this, plot
      ensures Valid() && autoSolve == old(autoSolve) && outcome == Pass
      ensures p !in old(plot.points) ==>
        plot.points == old(plot.points) && plot.numPoints == old(plot.numPoints)
      ensures p in old(plot.points) ==>
        && plot.points == old(plot.points)[..IndexOf(old(plot.points), p)]
                          + old(plot.points)[IndexOf(old(plot.points), p) + 1..]
        && multiset(plot.points) == multiset(old(plot.points)) - multiset{p}
        && plot.numPoints == old(plot.numPoints) - 1
      ensures p !in plot.points
      ensures old(plot.Counted()) ==> plot.Counted()
      ensures autoSolve && |plot.points| > 1 ==> SolvedFor(closest, plot.points)
      ensures !autoSolve || |plot.points| <= 1 ==> closest == old(closest)
    {
      var index := IndexOf(plot.points, p);
      ghost var before := plot.points;
      outcome := RemoveAt(index);
      if index >= 0 {
        assert before == before[..index] + [p] + before[index + 1..];
      }
    }

    /** clear: empties the pane and forgets the answer. */
    method Clear()
      requires Valid()
      modifies this, plot
      ensures Valid() && autoSolve == old(autoSolve)
      ensures plot.points == [] && plot.numPoints == 0 && closest == None
    {
      plot.Clear();
      closest := None;
    }

    /** setAutoSolve: turning auto-solve on solves at once. */
    method SetAutoSolve(on: bool)
      requires Valid()
      modifies this
      ensures Valid() && autoSolve == on
      ensures on && |plot.points| > 1 ==> SolvedFor(closest, plot.points)
      ensures !on || |plot.points| <= 1 ==> closest == old(closest)
    {
      autoSolve := on;
      if on {
        Solve();
      }
    }
  }
}
