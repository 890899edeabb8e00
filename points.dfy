/** Points of the plane with their natural order, the y-comparator, equality and distance. */
module Points {

  /** A point; two points are equal exactly when both coordinates are. */
  datatype Point = Point(x: int, y: int)

  /** The y-major comparator: three-way comparison on the y-coordinates alone. */
  function CompareY(p: Point, q: Point): (c: int)
    ensures -1 <= c <= 1
    ensures c < 0 <==> p.y < q.y
    ensures c == 0 <==> p.y == q.y
  {
    if p.y < q.y then -1
    else if p.y > q.y then 1
    else 0
  }

  /** The natural order of points: x first, then y. */
  function CompareTo(p: Point, q: Point): (c: int)
    ensures -1 <= c <= 1
    ensures c < 0 <==> p.x < q.x || (p.x == q.x && p.y < q.y)
    ensures c == 0 <==> p == q
  {
    if p.x < q.x then -1
    else if p.x > q.x then 1
    else CompareY(p, q)
  }

  /** Exact equality on both coordinates. */
  predicate Equals(p: Point, q: Point)
    ensures Equals(p, q) <==> p == q
  {
    p.x == q.x && p.y == q.y
  }

  /** The square of the Euclidean distance (the distance itself is its square root). */
  function Dist2(p: Point, q: Point): (d: int)
    ensures d >= 0
    ensures d == 0 <==> p == q
  {
    var a := p.x - q.x;
    var b := p.y - q.y;
    SquareZero(a);
    SquareZero(b);
    a * a + b * b
  }

  lemma SquareZero(a: int)
    ensures a * a >= 0
    ensures a * a == 0 <==> a == 0
  {
    if a < 0 {
      assert a * a == (-a) * (-a);
    }
  }

  /** The square is monotone on non-negative numbers, so comparing squares compares roots. */
  lemma SquareMonotone(a: int, b: int)
    requires 0 <= a <= b
    ensures a * a <= b * b
  {
    assert a * a <= a * b <= b * b;
  }

  /** For non-negative numbers, comparing squares is comparing the numbers. */
  lemma SquareOrder(a: int, b: int)
    requires 0 <= a && 0 <= b
    ensures a * a <= b * b <==> a <= b
    ensures a * a < b * b <==> a < b
  {
    if a <= b { SquareMonotone(a, b); } else { SquareMonotone(b, a); }
    if a < b { assert a * a <= a * b < b * b; }
    if b < a { assert b * b <= b * a < a * a; }
  }

  /** The distance is symmetric. */
  lemma Dist2Symmetric(p: Point, q: Point)
    ensures Dist2(p, q) == Dist2(q, p)
  {
    assert (p.x - q.x) * (p.x - q.x) == (q.x - p.x) * (q.x - p.x);
    assert (p.y - q.y) * (p.y - q.y) == (q.y - p.y) * (q.y - p.y);
  }

  /** The distance is at least the gap in either coordinate. */
  lemma Dist2Bounds(p: Point, q: Point)
    ensures (p.x - q.x) * (p.x - q.x) <= Dist2(p, q)
    ensures (p.y - q.y) * (p.y - q.y) <= Dist2(p, q)
    ensures (q.x - p.x) * (q.x - p.x) <= Dist2(p, q)
    ensures (q.y - p.y) * (q.y - p.y) <= Dist2(p, q)
  {
    SquareZero(p.x - q.x);
    SquareZero(p.y - q.y);
    assert (p.x - q.x) * (p.x - q.x) == (q.x - p.x) * (q.x - p.x);
    assert (p.y - q.y) * (p.y - q.y) == (q.y - p.y) * (q.y - p.y);
  }

  /** The natural order is antisymmetric: swapping the arguments flips the sign. */
  lemma CompareToAntisymmetric(p: Point, q: Point)
    ensures CompareTo(p, q) == -CompareTo(q, p)
  {
  }

  /** The natural order is transitive, so together with antisymmetry it is a total order. */
  lemma CompareToTransitive(p: Point, q: Point, r: Point)
    requires CompareTo(p, q) <= 0 && CompareTo(q, r) <= 0
    ensures CompareTo(p, r) <= 0
    ensures CompareTo(p, r) == 0 ==> p == q == r
  {
  }

  /** The y-comparator looks at nothing but the y-coordinates. */
  lemma CompareYOnlyReadsY(p: Point, q: Point, p': Point, q': Point)
    requires p.y == p'.y && q.y == q'.y
    ensures CompareY(p, q) == CompareY(p', q')
  {
  }

  /** Equality of points is an equivalence. */
  lemma EqualsIsEquivalence(p: Point, q: Point, r: Point)
    ensures Equals(p, p)
    ensures Equals(p, q) ==> Equals(q, p)
    ensures Equals(p, q) && Equals(q, r) ==> Equals(p, r)
  {
  }
}
