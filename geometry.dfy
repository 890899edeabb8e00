/**
 * Plane vectors (as points) with cross and dot products, and the facts about orientation that
 * the gift-wrapping scan relies on.
 */
module Geometry {
  import opened Points

  const Origin := Point(0, 0)

  /** The vector from `q` to `p`. */
  function Sub(p: Point, q: Point): Point
  {
    Point(p.x - q.x, p.y - q.y)
  }

  function Cross(a: Point, b: Point): int
  {
    a.x * b.y - a.y * b.x
  }

  function Dot(a: Point, b: Point): int
  {
    a.x * b.x + a.y * b.y
  }

  /** A vector's squared length is positive unless it is the zero vector. */
  lemma NormPositive(a: Point)
    ensures Dot(a, a) >= 0
    ensures a != Origin ==> Dot(a, a) > 0
  {
    SquareZero(a.x);
    SquareZero(a.y);
  }

  /** A vector of the half-plane, and the vector that defines it, are not the zero vector. */
  lemma InHalfNorms(e: Point, q: Point)
    requires InHalf(e, q)
    ensures Dot(e, e) > 0 && Dot(q, q) > 0
  {
    NormPositive(e);
    NormPositive(q);
  }

  /** Lagrange's identity for the plane, in two forms. */
  lemma LagrangeCross(x: Point, y: Point, z: Point)
    ensures Dot(x, x) * Cross(y, z) == Dot(x, y) * Cross(x, z) - Cross(x, y) * Dot(x, z)
  {
  }

  lemma LagrangeDot(x: Point, y: Point, z: Point)
    ensures Dot(x, x) * Dot(y, z) == Dot(x, y) * Dot(x, z) + Cross(x, y) * Cross(x, z)
  {
  }

  lemma CrossDotSquares(a: Point, b: Point)
    ensures Dot(a, b) * Dot(a, b) + Cross(a, b) * Cross(a, b) == Dot(a, a) * Dot(b, b)
  {
  }

  /**
   * The vectors strictly on the negative side of `e`, together with those pointing straight
   * against `e`: a half-plane that keeps one of its two boundary rays. It never holds the
   * zero vector, nor both a vector and its opposite.
   */
  predicate InHalf(e: Point, q: Point)
  {
    Cross(e, q) < 0 || (Cross(e, q) == 0 && Dot(e, q) < 0)
  }

  /** Two collinear vectors of the same half-plane point the same way. */
  lemma SameDirection(e: Point, a: Point, b: Point)
    requires InHalf(e, a) && InHalf(e, b) && Cross(a, b) == 0
    ensures Dot(a, b) > 0
  {
    if Cross(e, a) < 0 {
      SameDirectionInsideHalf(e, a, b);
    } else {
      SameDirectionOnBoundary(e, a, b);
    }
  }

  lemma SameDirectionInsideHalf(e: Point, a: Point, b: Point)
    requires Cross(e, a) < 0 && Cross(e, b) <= 0 && Cross(a, b) == 0 && b != Origin
    ensures Dot(a, b) > 0
  {
    NormPositive(a);
    NormPositive(b);
    CrossDotSquares(a, b);
    SwappedLagrange(a, e, b);
    SameDirectionInside(Dot(a, a), Dot(b, b), Cross(e, b), Cross(e, a), Dot(a, b), Dot(a, e), Cross(a, b));
  }

  lemma SameDirectionOnBoundary(e: Point, a: Point, b: Point)
    requires Cross(e, a) == 0 && Dot(e, a) < 0 && InHalf(e, b) && Cross(a, b) == 0
    ensures Dot(a, b) > 0
  {
    InHalfNorms(e, a);
    SwappedLagrange(a, e, b);
    ZeroFactor(Dot(a, a), Cross(e, b), Cross(e, a), Dot(a, b), Dot(a, e), Cross(a, b));
    LagrangeDot(e, a, b);
    SameDirectionOnRay(Dot(e, e), Dot(e, a), Dot(e, b), Cross(e, a), Cross(e, b), Dot(a, b));
  }

  /** Lagrange's identity with the middle cross product turned round. */
  lemma SwappedLagrange(x: Point, y: Point, z: Point)
    ensures Dot(x, x) * Cross(y, z) == Cross(y, x) * Dot(x, z) + Dot(x, y) * Cross(x, z)
  {
  }

  /** The sign of a product from the signs of its factors. */
  lemma ProductSign(a: int, b: int)
    ensures a > 0 && b > 0 ==> a * b > 0
    ensures a < 0 && b < 0 ==> a * b > 0
    ensures a > 0 && b < 0 ==> a * b < 0
    ensures a < 0 && b > 0 ==> a * b < 0
    ensures a == 0 || b == 0 ==> a * b == 0
  {
  }

  lemma SameDirectionInside(n: int, m: int, k: int, s: int, d: int, x: int, c: int)
    requires n > 0 && m > 0 && c == 0 && s < 0 && k <= 0
    requires n * k == s * d + x * c
    requires d * d + c * c == n * m
    ensures d > 0
  {
    ProductSign(x, c);
    ProductSign(n, k);
    ProductSign(s, d);
    ProductSign(n, m);
    ProductSign(d, d);
    ProductSign(c, c);
  }

  lemma ZeroFactor(n: int, k: int, s: int, d: int, x: int, c: int)
    requires n > 0 && c == 0 && s == 0
    requires n * k == s * d + x * c
    ensures k == 0
  {
    ProductSign(x, c);
    ProductSign(s, d);
    ProductSign(n, k);
  }

  lemma SameDirectionOnRay(e2: int, p: int, q: int, s: int, k: int, d: int)
    requires e2 > 0 && p < 0 && q < 0 && s == 0
    requires e2 * d == p * q + s * k
    ensures d > 0
  {
    ProductSign(p, q);
    ProductSign(s, k);
    ProductSign(e2, d);
  }

  /** Within one half-plane, turning left is transitive. */
  lemma LeftTurnTransitive(e: Point, a: Point, b: Point, c: Point)
    requires InHalf(e, a) && InHalf(e, b) && InHalf(e, c)
    requires Cross(a, b) > 0 && Cross(a, c) < 0
    ensures Cross(b, c) < 0
  {
    if Cross(e, a) == 0 {
      RayTurnsRight(e, a, c);
      assert false;
    }
    ThreeTermSwapped(e, a, b, c);
    ThreeTermSigns(Cross(a, b), Cross(b, c), Cross(a, c), Cross(e, a), Cross(e, b), Cross(e, c));
    if Cross(b, c) == 0 {
      CollinearTurn(e, a, b, c);
      assert false;
    }
  }

  /** From the boundary ray of the half-plane, every vector of the half-plane lies to the left. */
  lemma RayTurnsRight(e: Point, a: Point, c: Point)
    requires Cross(e, a) == 0 && Dot(e, a) < 0 && Cross(e, c) <= 0
    ensures Cross(a, c) >= 0
  {
    LagrangeCross(e, a, c);
    InHalfNorms(e, a);
    NonNegativeFromRay(Dot(e, e), Cross(a, c), Dot(e, a), Cross(e, c), Cross(e, a), Dot(e, c));
  }

  /** Two collinear vectors of the same half-plane lie on the same side of any vector `a`. */
  lemma CollinearTurn(e: Point, a: Point, b: Point, c: Point)
    requires InHalf(e, b) && InHalf(e, c) && Cross(b, c) == 0
    ensures Cross(a, c) > 0 <==> Cross(a, b) > 0
    ensures Cross(a, c) < 0 <==> Cross(a, b) < 0
  {
    SameDirection(e, b, c);
    InHalfNorms(e, b);
    SwappedLagrangeB(b, a, c);
    SameSign(Dot(b, b), Cross(a, c), Dot(b, a), Cross(b, c), Cross(a, b), Dot(b, c));
  }

  lemma ThreeTermSwapped(e: Point, a: Point, b: Point, c: Point)
    ensures Cross(a, b) * Cross(e, c) + Cross(b, c) * Cross(e, a) == Cross(a, c) * Cross(e, b)
  {
  }

  lemma SwappedLagrangeB(x: Point, y: Point, z: Point)
    ensures Dot(x, x) * Cross(y, z) == Dot(x, y) * Cross(x, z) + Cross(y, x) * Dot(x, z)
  {
  }

  lemma ThreeTermSigns(ab: int, bc: int, ac: int, ea: int, eb: int, ec: int)
    requires ab > 0 && ac < 0 && ea < 0 && eb <= 0 && ec <= 0
    requires ab * ec + bc * ea == ac * eb
    ensures bc <= 0
  {
    ProductSign(ab, ec);
    ProductSign(ac, eb);
    ProductSign(bc, ea);
  }

  lemma SameSign(n: int, ac: int, x: int, bc: int, ab: int, d: int)
    requires n > 0 && bc == 0 && d > 0
    requires n * ac == x * bc + ab * d
    ensures ac > 0 <==> ab > 0
    ensures ac < 0 <==> ab < 0
  {
    ProductSign(x, bc);
    ProductSign(ab, d);
    ProductSign(n, ac);
  }

  lemma NonNegativeFromRay(n: int, ac: int, p: int, ec: int, ea: int, q: int)
    requires n > 0 && p < 0 && ec <= 0 && ea == 0
    requires n * ac == p * ec - ea * q
    ensures ac >= 0
  {
    ProductSign(ea, q);
    ProductSign(p, ec);
    ProductSign(n, ac);
  }

  lemma CrossAntisymmetric(a: Point, b: Point)
    ensures Cross(a, b) == -Cross(b, a)
  {
  }

  /** Three vectors collinear with a non-zero vector `u` are collinear with each other. */
  lemma Collinear(u: Point, r: Point, v: Point)
    requires Dot(u, u) > 0 && Cross(u, r) == 0 && Cross(u, v) == 0
    ensures Cross(r, v) == 0
  {
    SwappedLagrange(u, r, v);
    CrossAntisymmetric(r, u);
    ZeroFactor(Dot(u, u), Cross(r, v), Cross(r, u), Dot(u, v), Dot(u, r), Cross(u, v));
  }

  /** Of the vectors of a half-plane or the zero vector. */
  predicate InHalfOrZero(e: Point, v: Point)
  {
    v == Origin || InHalf(e, v)
  }

  /**
   * `b` beats `a` in the gift-wrapping scan: `b` turns left of `a`, or lies on the same line
   * further out.
   */
  predicate Beats(a: Point, b: Point)
  {
    Cross(a, b) > 0 || (Cross(a, b) == 0 && Dot(b, b) > Dot(a, a))
  }

  /**
   * Within a half-plane, beating is transitive in the form the scan needs: once `r` has beaten
   * `u`, whatever could not beat `u` cannot beat `r` either.
   */
  lemma StepKeepsUnbeaten(e: Point, u: Point, r: Point, v: Point)
    requires InHalfOrZero(e, u) && InHalfOrZero(e, r) && InHalfOrZero(e, v)
    requires Beats(u, r) && !Beats(u, v)
    ensures !Beats(r, v)
  {
    if v == Origin {
      NothingBeatenByZero(r);
    } else if u == Origin {
      ZeroBeaten(e, v);
      assert false;
    } else if r == Origin {
      NothingBeatenByZero(u);
      assert false;
    } else {
      StepKeepsUnbeatenInHalf(e, u, r, v);
    }
  }

  lemma NothingBeatenByZero(a: Point)
    ensures !Beats(a, Origin)
  {
    NormPositive(a);
  }

  lemma ZeroBeaten(e: Point, v: Point)
    requires InHalf(e, v)
    ensures Beats(Origin, v)
  {
    InHalfNorms(e, v);
  }

  lemma StepKeepsUnbeatenInHalf(e: Point, u: Point, r: Point, v: Point)
    requires InHalf(e, u) && InHalf(e, r) && InHalf(e, v)
    requires Beats(u, r) && !Beats(u, v)
    ensures !Beats(r, v)
  {
    if Cross(u, r) > 0 {
      if Cross(u, v) < 0 {
        LeftTurnTransitive(e, u, r, v);
      } else {
        CollinearTurn(e, r, u, v);
        CrossAntisymmetric(u, r);
      }
    } else if Cross(u, v) < 0 {
      CollinearTurn(e, v, u, r);
      CrossAntisymmetric(u, v);
      CrossAntisymmetric(r, v);
    } else {
      InHalfNorms(e, u);
      Collinear(u, r, v);
    }
  }

  /** What the scan's winner `u` says about any vector `v` that does not beat it. */
  lemma WinnerBound(e: Point, u: Point, v: Point)
    requires InHalf(e, u) && InHalfOrZero(e, v) && !Beats(u, v)
    ensures Cross(u, v) < 0 || (Cross(u, v) == 0 && Dot(v, Sub(u, v)) >= 0)
  {
    if v != Origin && Cross(u, v) == 0 {
      SameDirection(e, u, v);
      CrossDotSquares(u, v);
      NormPositive(v);
      RootBound(Dot(u, v), Cross(u, v), Dot(u, u), Dot(v, v));
      DotSub(v, u);
    }
  }

  lemma DotSub(v: Point, u: Point)
    ensures Dot(v, Sub(u, v)) == Dot(u, v) - Dot(v, v)
  {
  }

  lemma RootBound(d: int, c: int, n: int, m: int)
    requires d > 0 && c == 0 && n >= m >= 0
    requires d * d + c * c == n * m
    ensures d >= m
  {
    ProductSign(c, c);
    ProductSign(n - m, m);
    assert (n - m) * m == n * m - m * m;
    SquareOrder(m, d);
  }

  /** Only the zero vector has a non-positive squared length. */
  lemma ZeroNormSame(x: Point, y: Point)
    requires Dot(Sub(y, x), Sub(y, x)) <= 0
    ensures x == y
  {
    SquaredDistance(y, x);
  }

  lemma DistinctNorm(u: Point, v: Point)
    requires u != v
    ensures Dot(Sub(v, u), Sub(v, u)) > 0
  {
    SquaredDistance(v, u);
  }

  /** The squared distance between two points is the squared length of their difference. */
  lemma SquaredDistance(p: Point, q: Point)
    ensures Dist2(p, q) == Dot(Sub(p, q), Sub(p, q))
  {
  }

  lemma CrossShift(a: Point, b: Point)
    ensures Cross(a, Sub(b, a)) == Cross(a, b)
  {
  }

  lemma DotShift(u: Point, v: Point)
    ensures Dot(u, Sub(v, u)) == -Dot(v, Sub(u, v)) - Dot(Sub(v, u), Sub(v, u))
  {
  }

  /**
   * Past the end of an edge `u` that leaves every `v` on its right or on the edge itself, every
   * `v` other than the end lies in the half-plane that `u` defines.
   */
  lemma PastTheEdge(u: Point, v: Point)
    requires Cross(u, v) < 0 || (Cross(u, v) == 0 && Dot(v, Sub(u, v)) >= 0)
    requires u != v
    ensures InHalf(u, Sub(v, u))
  {
    CrossShift(u, v);
    DotShift(u, v);
    DistinctNorm(u, v);
  }

  lemma CrossOpposite(x: Point, y: Point, w: Point)
    ensures Cross(Sub(w, y), Sub(x, y)) == -Cross(Sub(w, x), Sub(y, x))
  {
  }

  lemma DotOpposite(x: Point, y: Point, w: Point)
    ensures Dot(Sub(y, x), Sub(w, y)) + Dot(Sub(x, y), Sub(w, x)) == -Dot(Sub(y, x), Sub(y, x))
  {
  }

  /**
   * Two edges into the same end `w`, each leaving the other's start on its right or on the
   * edge, start at the same point.
   */
  lemma SharedEnd(x: Point, y: Point, w: Point)
    requires Cross(Sub(w, x), Sub(y, x)) < 0
          || (Cross(Sub(w, x), Sub(y, x)) == 0 && Dot(Sub(y, x), Sub(w, y)) >= 0)
    requires Cross(Sub(w, y), Sub(x, y)) < 0
          || (Cross(Sub(w, y), Sub(x, y)) == 0 && Dot(Sub(x, y), Sub(w, x)) >= 0)
    ensures x == y
  {
    CrossOpposite(x, y, w);
    DotOpposite(x, y, w);
    ZeroNormSame(x, y);
  }
}
