# points-things: closest pair, convex hull and the plotting pane

This Dafny project models the geometry at the heart of the points-things JavaFX program. In
that program the user plots points on a pane and then asks for the closest pair of points or
for their convex hull. The project covers four parts:

- **Points** (`points.dfy`, module `Points`): the natural order `compareTo` (x, then y), the
  y-comparator `COMPARE_Y`, exact `equals`, and the Euclidean `distance`.
- **Closest pair** (`closest_pair.dfy`, module `ClosestPair`): the divide-and-conquer
  `findClosest` from section 22.8 of Liang's *Introduction to Java Programming*.
  - Base cases of two and three points, with the source's tie rule.
  - A split of the x-sorted copy at index (n+1)/2, and recursion on both halves.
  - The nearer of the two halves' answers, preferring the left half on a tie.
  - Two y-sorted strips beside the dividing point, built by a loop.
  - A merge scan that uses a forward-only pointer and replaces the answer only on a strictly
    smaller distance.
  - The library sorts become a stable insertion sort (`sorting.dfy`, module `Sorting`).
- **Convex hull** (`convex_hull.dfy`, module `ConvexHull`): gift wrapping.
  - `getRightmostLowest` picks the anchor: in screen coordinates, where y grows downwards, the
    point with the greatest y and then the greatest x.
  - The do-while loop wraps from the anchor. Its inner for-loop keeps a candidate and replaces
    it on a positive cross product, or on a zero one when the point is farther away.
  - The half-plane reasoning behind the hull proofs is in `geometry.dfy` (module `Geometry`).
  - Two worked examples are in `convex_hull_examples.dfy`.
- **Plotting pane** (`plot_pane.dfy`, module `Plot`, and `closest_pair_pane.dfy`, module
  `ClosestPairPanes`):
  - `PlotPane` keeps three things in step: the `points` list, the parallel `circles` list and
    the `numPoints` counter.
  - `ClosestPairPane` adds the stored `closest` answer and the auto-solve switch.

**Coordinates and distances.** Coordinates are `int`, and every distance is squared (`Dist2`).
The square root is monotone, so comparing distances is comparing squares. The strip and scan
tests against a distance `d` are rewritten exactly on the square `D = d*d`:

- `gap <= d` becomes `gap <= 0 || gap*gap <= D`;
- `q.y <= p.y - d` becomes `gap >= 0 && gap*gap >= D`;
- `|dy| <= d` becomes `dy*dy <= D`.

`ClosestPair.StripTestsMatchRoots` proves each rewrite. Points are values: Java's `equals` is
datatype equality. Exceptions become a `Result` or an `Outcome` holding an `Error`
(`failures.dfy`).

**Ties, the anchor, and the square.**

- **Three evenly spaced collinear points.** For (0,0),(1,0),(2,0), the three-point case returns
  (1,0)-(2,0). A tie between the first two candidates goes to the later one
  (`ClosestOfThreeCollinear`).
- **The hull's anchor** is the point with the greatest y (lowest on screen); among those, the
  one with the greatest x.
- **The square.** For (0,0),(0,2),(2,2),(2,0),(1,1), the hull starts at (2,2). It is
  [(2,2),(2,0),(0,0),(0,2),(2,2)] (`SquareHull`).

## Model

| member | source | states |
|---|---|---|
| Points.CompareTo | point/Point.java:94-102 | returns -1, 0 or 1; negative exactly when p has the smaller x, or the same x and the smaller y; zero exactly when the points are equal, so `compareTo == 0` iff `equals` |
| Points.CompareToAntisymmetric | point/Point.java:94-102 | swapping the arguments flips the sign |
| Points.CompareToTransitive | point/Point.java:94-102 | the order is transitive; a chain whose ends compare equal has three equal points, so this is a total order fit for sorting |
| Points.CompareY | point/Point.java:107-114 | returns -1, 0 or 1; negative exactly when p.y < q.y, zero exactly when the y are equal |
| Points.CompareYOnlyReadsY | point/Point.java:107-114 | the result depends on nothing but the two y-coordinates |
| Points.Equals | point/Point.java:64-72 | equal coordinates is exactly point equality |
| Points.EqualsIsEquivalence | point/Point.java:64-72 | equals is reflexive, symmetric and transitive |
| Points.Dist2 | point/Point.java:49-53 | the squared distance is non-negative and zero exactly for equal points |
| Points.Dist2Symmetric | point/Point.java:49-53 | distance is symmetric |
| Points.SquareOrder | point/Point.java:49-53 | on non-negative numbers, comparing squares compares the numbers, so squared distances order pairs as the distances do |
| Sorting.Compare | point/closestpair/ClosestPairPane.java:237 | the comparator in use gives -1, 0 or 1; zero exactly for equal points (natural order) or equal y (y order); negative exactly when the first point comes first |
| Sorting.Insert | point/closestpair/ClosestPairPane.java:237 | inserting into an ordered list keeps it ordered and adds exactly that point |
| Sorting.Sort | point/closestpair/ClosestPairPane.java:236-237 | the sorted copy is ordered by the comparator and is a permutation of the input |
| Sorting.SortStable | point/closestpair/ClosestPairPane.java:261-262 | the sort is stable: the points that compare equal to any given point keep their relative order |
| ClosestPair.PairDistance | point/closestpair/ClosestPairPane.java:56-60 | Pair.distance, built from absolute gaps, is the squared distance of its two points |
| ClosestPair.Contains | point/closestpair/ClosestPairPane.java:70-72 | a pair contains a point exactly when the point equals one of its two points |
| ClosestPair.Distance | point/closestpair/ClosestPairPane.java:296-298 | the helper gives the squared distance, whichever way round the points are |
| ClosestPair.ClosestOfThree | point/closestpair/ClosestPairPane.java:214-227 | the answer is one of (0,1), (1,2), (0,2) and is no farther apart than any of them |
| ClosestPair.ClosestOfThreeTies | point/closestpair/ClosestPairPane.java:221-227 | ties go to the later candidate: (0,2) wins every tie it is in, and a (0,1)/(1,2) tie goes to (1,2) |
| ClosestPair.ClosestOfThreeCollinear | point/closestpair/ClosestPairPane.java:214-227 | (0,0),(1,0),(2,0) yields (1,0)-(2,0) |
| ClosestPair.ClosestOfThreeRepeated | point/closestpair/ClosestPairPane.java:214-227 | when the first two points are the same, the answer is the two copies |
| ClosestPair.BoundOfTwo | point/closestpair/ClosestPairPane.java:212-213 | two points: no two distinct input points are closer than the returned pair |
| ClosestPair.BoundOfThree | point/closestpair/ClosestPairPane.java:214-227 | three points: no two distinct input points are closer than the returned pair |
| ClosestPair.SplitAt | point/closestpair/ClosestPairPane.java:241-243 | for n >= 4 the left half has (n+1)/2 points and the right n/2; both have at least 2; `mid` at (n-1)/2 is the last of the left half |
| ClosestPair.HalvesFromInput | point/closestpair/ClosestPairPane.java:236-243 | both halves of the sorted copy hold only input points, and hold no repeats when the input has none |
| ClosestPair.ChooseHalf | point/closestpair/ClosestPairPane.java:252-253 | the chosen pair is one of the two answers and no farther apart than either; on a tie it is the left half's |
| ClosestPair.NearLeft | point/closestpair/ClosestPairPane.java:267 | a left-half point failing the strip test is farther than d from mid; a point not left of mid always passes |
| ClosestPair.NearRight | point/closestpair/ClosestPairPane.java:269 | a right-half point failing the strip test is farther than d from mid; a point not right of mid always passes |
| ClosestPair.FarBelow | point/closestpair/ClosestPairPane.java:276 | a point skipped as far below p is at least d from p; a point above p is never skipped |
| ClosestPair.WithinY | point/closestpair/ClosestPairPane.java:280 | a point failing the y-window test is farther than d from p; a point level with p always passes |
| ClosestPair.StripTestsMatchRoots | point/closestpair/ClosestPairPane.java:267-280 | for any real d >= 0 with d*d equal to the squared distance D, each test on D holds exactly when the source's test on d holds |
| ClosestPair.BuildStrips | point/closestpair/ClosestPairPane.java:264-271 | each strip is exactly the in-order selection of the y-sorted list; stripL holds exactly the left-half points near the line, stripR exactly the other right-half points near it; both ascend in y; no point is in both |
| ClosestPair.LeftStripMembers | point/closestpair/ClosestPairPane.java:266-267 | the left strip's selection holds exactly the left-half points of the list that pass the strip test |
| ClosestPair.RightStripMembers | point/closestpair/ClosestPairPane.java:268-269 | the right strip's selection holds exactly the right-half points of the list that pass its test and not the left one |
| ClosestPair.LeftStripSorted | point/closestpair/ClosestPairPane.java:264-267 | selecting from a y-sorted list in order gives a y-sorted left strip |
| ClosestPair.RightStripSorted | point/closestpair/ClosestPairPane.java:264-269 | selecting from a y-sorted list in order gives a y-sorted right strip |
| ClosestPair.FarBelowIsFar | point/closestpair/ClosestPairPane.java:275-277 | a right-strip point skipped as far below p is at least d from p and from every later left-strip point |
| ClosestPair.ScanStopIsFar | point/closestpair/ClosestPairPane.java:280 | where the inner scan stops, that point and all later right-strip points are farther than d from p |
| ClosestPair.ScanNear | point/closestpair/ClosestPairPane.java:279-289 | the answer changes only to a strictly closer pair (p, stripR point); afterwards no right-strip point from r on is closer to p |
| ClosestPair.MergeStrips | point/closestpair/ClosestPairPane.java:273-290 | the answer is no farther apart than before; if it changed, it is strictly closer and a (stripL, stripR) pair; no (stripL, stripR) pair is closer than it |
| ClosestPair.CrossPairNearMid | point/closestpair/ClosestPairPane.java:264-271 | two points on opposite sides of the split that are closer than d both pass the strip tests |
| ClosestPair.CombineHalves | point/closestpair/ClosestPairPane.java:245-292 | bounds inside each half, plus a bound over all strip pairs, give the bound over the whole input |
| ClosestPair.MergeHalves | point/closestpair/ClosestPairPane.java:252-292 | the merged answer is drawn from the input; no two distinct input points are closer; its points differ when the halves' answers' points do |
| ClosestPair.Divide | point/closestpair/ClosestPairPane.java:230-292 | four or more points: both points of the answer are input points, no two distinct input points are closer, and the two differ when the input has no repeats |
| ClosestPair.FindClosest | point/closestpair/ClosestPairPane.java:208-293 | fewer than 2 points give exactly `Err(IllegalArgument("size: 1"))`, and only they fail; 2 points give (points[0], points[1]); 3 points give ClosestOfThree; otherwise both points are input points, no two distinct input points are closer, and the two differ when the input has no repeats |
| ClosestPairPanes.ClosestPairPane.constructor | point/closestpair/ClosestPairPane.java:87-89 | a new pane has no points, counter zero and in step, no answer and auto-solve off |
| ClosestPairPanes.ClosestPairPane.Solve | point/closestpair/ClosestPairPane.java:161-179 | with at least 2 points the stored answer is findClosest's: drawn from them, two different points, no pair closer, the pair in list order for 2 points and ClosestOfThree's pick for 3; otherwise nothing changes |
| ClosestPairPanes.ClosestPairPane.Add | point/closestpair/ClosestPairPane.java:101-106 | adds as the plotting pane does (the point appended when absent, the counter raised, kept in step); with auto-solve on and at least 2 points the answer is solved for the new points; otherwise the answer is kept |
| ClosestPairPanes.ClosestPairPane.AddAt | point/PlotPane.java:144-146 | the inherited add(x, y) dispatches to the override: the same outcome as `Add` of the point at (x, y) |
| ClosestPairPanes.ClosestPairPane.RemoveAt | point/closestpair/ClosestPairPane.java:114-124 | an index past the end fails with the points unchanged; an index in range deletes that point, keeping the order; the counter drops for every non-negative index; with auto-solve on and at least 2 points left the answer is solved again; otherwise it is kept, even if it holds the removed point |
| ClosestPairPanes.ClosestPairPane.Remove | point/PlotPane.java:199-202 | never fails; an absent point changes neither points nor counter; a present one is removed from where it stands, keeping the order of the rest, and the counter drops; afterwards it is absent; with auto-solve on and at least 2 points left the answer is solved for the rest, otherwise it is kept |
| ClosestPairPanes.ClosestPairPane.Clear | point/closestpair/ClosestPairPane.java:131-135 | no points, counter zero, and no answer |
| ClosestPairPanes.ClosestPairPane.SetAutoSolve | point/closestpair/ClosestPairPane.java:192-198 | sets the switch; turning it on with at least 2 points solves at once; otherwise the answer is kept |
| ConvexHull.Direction | point/convexhull/ConvexHullPane.java:71-72 | the direction is the cross product of the offsets of p2 and p from p1 |
| ConvexHull.Replaces | point/convexhull/ConvexHullPane.java:74 | a point that replaces the candidate differs from it |
| ConvexHull.ReplacesSelf | point/convexhull/ConvexHullPane.java:74 | while the candidate is still p1 itself, every other point replaces it |
| ConvexHull.ReplacesIsBeats | point/convexhull/ConvexHullPane.java:74 | the replacement test is "turns further, or is collinear and farther" on the offsets from p1 |
| ConvexHull.Wrap | point/convexhull/ConvexHullPane.java:66-76 | the scan's result is the starting candidate or one of the points |
| ConvexHull.ScanFrom | point/convexhull/ConvexHullPane.java:65-76 | the inner loop computes the scan function Wrap |
| ConvexHull.WrapUnbeaten | point/convexhull/ConvexHullPane.java:69-76 | with all points in a half-plane around p1, the candidate after each step is replaced by no point scanned so far |
| ConvexHull.ScanResult | point/convexhull/ConvexHullPane.java:69-76 | the scan ends on a point that no input point would replace |
| ConvexHull.UnbeatenSupports | point/convexhull/ConvexHullPane.java:69-76 | the chosen edge p1→p2 has no point with positive direction, and the collinear points lie on the segment p1–p2 |
| Geometry.StepKeepsUnbeaten | point/convexhull/ConvexHullPane.java:74 | within a half-plane, a point that did not beat the old candidate does not beat its replacement |
| ConvexHull.NextHalfPlane | point/convexhull/ConvexHullPane.java:63-79 | past a supporting edge all points lie in one half-plane around its end, so the next scan is sound |
| ConvexHull.SameSuccessor | point/convexhull/ConvexHullPane.java:63-79 | two supporting edges into the same vertex start at the same vertex, so the walk never repeats a vertex |
| ConvexHull.AnchorCompare | point/convexhull/ConvexHullPane.java:127-137 | the comparator puts the greater y first, then the greater x, and is zero only on equal points |
| ConvexHull.GetRightmostLowest | point/convexhull/ConvexHullPane.java:123-148 | fails on an empty list; otherwise returns a list point with the greatest y and, among those, the greatest x |
| ConvexHull.AnchorUnique | point/convexhull/ConvexHullPane.java:123-148 | the rightmost lowest point is unique |
| ConvexHull.AnchorHalfPlane | point/convexhull/ConvexHullPane.java:123-148 | all points lie above the anchor or level with it on its left |
| ConvexHull.AnchorWalk | point/convexhull/ConvexHullPane.java:59 | the list holding just the anchor starts a walk |
| ConvexHull.ExtendWalk | point/convexhull/ConvexHullPane.java:63-79 | one more scan extends the walk with a supporting edge; the new vertex is fresh unless it is the anchor |
| ConvexHull.OpenWalkBound | point/convexhull/ConvexHullPane.java:61-79 | a walk not yet closed has at most n vertices, so the loop ends |
| ConvexHull.WalkDetermined | point/convexhull/ConvexHullPane.java:53-82 | any list that starts at the anchor, follows the scan and first returns to the anchor at its end is the hull walk |
| ConvexHull.GetConvexHull | point/convexhull/ConvexHullPane.java:53-82 | fails on fewer than 2 points. Otherwise the result: starts at the anchor and ends on it, not returning to it in between; has each vertex the scan's pick from the one before; has only input points and no repeats before the end; has 2 to n+1 entries; has every edge supporting all the points |
| ConvexHullExamples.CollinearHull | point/convexhull/ConvexHullPane.java:53-82 | (0,0),(1,0),(2,0) gives [(2,0),(0,0),(2,0)], leaving out the middle point |
| ConvexHullExamples.SquareHull | point/convexhull/ConvexHullPane.java:53-82 | the square with its centre gives [(2,2),(2,0),(0,0),(0,2),(2,2)] |
| Plot.CircleFor | point/PlotPane.java:165 | the circle for a point is centred on it with radius 5 |
| Plot.IndexOf | point/PlotPane.java:199-202 | -1 exactly when the point is absent, otherwise the index of its first occurrence |
| Plot.PlotPane.constructor | point/PlotPane.java:55-57 | empty lists, counter in step |
| Plot.PlotPane.Add | point/PlotPane.java:155-177 | a point already present changes nothing; otherwise the point and its circle are appended and the counter goes up; no repeats; the counter stays in step |
| Plot.PlotPane.AddAt | point/PlotPane.java:144-146 | exactly `Add` of the point at (x, y) |
| Plot.PlotPane.RemoveAt | point/PlotPane.java:184-192 | a negative index changes nothing; an index in range deletes that entry from both lists, keeping the order of the rest, and lowers the counter; an index past the end fails with the lists unchanged and the counter already lowered |
| Plot.PlotPane.Remove | point/PlotPane.java:199-202 | never fails; an absent point changes nothing; a present one is removed, with its circle, from where indexOf finds it, keeping the order of the rest, and the counter drops; afterwards it is absent |
| Plot.PlotPane.Clear | point/PlotPane.java:208-214 | no points, no circles, counter zero |

## Left out

- The JavaFX side is not modelled. This covers lines, circle nodes, `getChildren()`, the axes,
  styles, `closestLine`, `removeClosestLine`, the line drawing in `ConvexHullPane.solve`, the
  property bindings (dragging a circle moves its point), and the `Application` classes
  `ClosestPair.java` and `ConvexHull.java`. A circle is kept as a value: centre and radius.
- Floating point is replaced by `int` coordinates and squared distances. So there is no
  `Math.sqrt` rounding, no NaN or -0.0, and no `toString`.
- `getConvexHull2` is left out. It is unfinished: its loop never advances, and it relies on
  `atan` in degrees.
- The library sorts (`Collections.sort`, `List.sort`) are replaced by a stable insertion sort.
  A stable sort's output is determined by its comparator, so the result is the same list
  (`Sorting.Sort` and `Sorting.SortStable`).
- Object identity is not modelled: points are values. Consequences:
  - Among exact duplicates, which copy `getRightmostLowest` returns cannot be observed.
  - The `Pair` holds values, not references.
- ClosestPair.FindClosest: the lower bound covers value-distinct pairs only. For n >= 4 the
  source can miss a repeated point whose copies straddle the split. Strip membership tests
  `s1.contains(p)` by value, so both copies go to `stripL` and are never compared. For example,
  with x-sorted input (0,0),(1,0),(1,0),(5,0), the answer is at distance 1, not 0. The plotting
  pane never holds repeated points, so the pane never meets this case. The example is worked
  by hand and is not proved in the model.
- ClosestPair.MergeStrips: the forward-only pointer `r` is kept by the loop's code (it is only
  ever incremented) and is not stated as a separate contract.
- Plot.PlotPane.RemoveAt: `numPoints` is a Java `int`; its overflow is not modelled.
- The getters `getPoints`, `getCircles`, `numOfPoints`, `getClosest` and `isAutoSolve` are not
  modelled. Neither are the axes' visibility switch and the pane sizes.
- `ConvexHullPane` inherits the plotting pane's bookkeeping unchanged, so it is not modelled
  again. Inheritance becomes composition: `ClosestPairPane` holds its `PlotPane` as `plot`.
