/** Value types shared by the backbone pipeline: backbone samples, the
    two-element vectors of traced spine points, and the point-to-point
    distance, which is characterised rather than computed. */
module Geometry {

  /** A backbone sample: fields z, y, x are indices 0, 1, 2 of the
      three-element lists the backbone readers build. */
  datatype Point = Point(z: real, y: real, x: real)

  /** The properties of p2pDist (the Euclidean distance between two
      samples) that the pipeline relies on: it is never negative, it is
      symmetric, and it is zero exactly on identical points. The square
      root itself is outside Dafny's reals, so the distance is a parameter
      constrained by this predicate. */
  ghost predicate IsP2PDist(dist: (Point, Point) -> real)
  {
    NonNegativeDist(dist) && SymmetricDist(dist) && ZeroExactlyOnEqual(dist)
  }

  /** The distance between two points is zero exactly when they are the same point. */
  ghost predicate ZeroExactlyOnEqual(dist: (Point, Point) -> real)
  {
    forall p, q :: dist(p, q) == 0.0 <==> p == q
  }

  /** The distance reads the same both ways. */
  ghost predicate SymmetricDist(dist: (Point, Point) -> real)
  {
    forall p, q :: dist(p, q) == dist(q, p)
  }

  /** What the arc-length normalisation needs of a distance: it is never negative. */
  ghost predicate NonNegativeDist(dist: (Point, Point) -> real)
  {
    forall p, q :: 0.0 <= dist(p, q)
  }

  /** A two-element vector; e0 and e1 are its indices 0 and 1. */
  datatype Vec2 = Vec2(e0: real, e1: real)

  function Plus(a: Vec2, b: Vec2): Vec2
  {
    Vec2(a.e0 + b.e0, a.e1 + b.e1)
  }

  function Minus(a: Vec2, b: Vec2): Vec2
  {
    Vec2(a.e0 - b.e0, a.e1 - b.e1)
  }

  function Scale(k: real, v: Vec2): Vec2
  {
    Vec2(k * v.e0, k * v.e1)
  }

  function Dot(a: Vec2, b: Vec2): real
  {
    a.e0 * b.e0 + a.e1 * b.e1
  }

  /** The two entries in the opposite order (`[c[1], c[0]]`). */
  function Swap(v: Vec2): Vec2
  {
    Vec2(v.e1, v.e0)
  }

  /** `v` turned by a quarter turn: the perpendicular the restacker walks along. */
  function Perp(v: Vec2): Vec2
  {
    Vec2(-v.e1, v.e0)
  }

  /** numpy's `v1 * beta + v0 * (1. - beta)`. */
  function Blend(v0: Vec2, v1: Vec2, beta: real): (r: Vec2)
    ensures beta == 0.0 ==> r == v0
    ensures beta == 1.0 ==> r == v1
    ensures r == Plus(v0, Scale(beta, Minus(v1, v0)))
  {
    Plus(Scale(beta, v1), Scale(1.0 - beta, v0))
  }

  /** `x` lies between `a` and `b`, whichever is larger. */
  ghost predicate Between(a: real, x: real, b: real)
  {
    (a <= x <= b) || (b <= x <= a)
  }

  /** A blend with weight in [0, 1] lies between its two ends. */
  lemma LerpBetween(a: real, b: real, beta: real)
    requires 0.0 <= beta <= 1.0
    ensures Between(a, beta * b + (1.0 - beta) * a, b)
  {
    assert beta * b + (1.0 - beta) * a == a + beta * (b - a);
    assert b - a - beta * (b - a) == (1.0 - beta) * (b - a);
    if a <= b {
      MulNonNegative(beta, b - a);
      MulNonNegative(1.0 - beta, b - a);
    } else {
      MulNonNegative(beta, a - b);
      MulNonNegative(1.0 - beta, a - b);
      assert beta * (b - a) == -(beta * (a - b));
      assert (1.0 - beta) * (b - a) == -((1.0 - beta) * (a - b));
    }
  }

  /** A blend with weight in [0, 1] lies between its ends, component by component. */
  lemma BlendBetween(v0: Vec2, v1: Vec2, beta: real)
    requires 0.0 <= beta <= 1.0
    ensures Between(v0.e0, Blend(v0, v1, beta).e0, v1.e0)
    ensures Between(v0.e1, Blend(v0, v1, beta).e1, v1.e1)
  {
    LerpBetween(v0.e0, v1.e0, beta);
    LerpBetween(v0.e1, v1.e1, beta);
  }

  lemma MulNonNegative(x: real, y: real)
    requires 0.0 <= x && 0.0 <= y
    ensures 0.0 <= x * y
  {
  }

  /** The scaled quarter turn of `d` is orthogonal to `d` and as long as `k` times `d`. */
  lemma ScaledPerp(k: real, d: Vec2)
    ensures Dot(Scale(k, Perp(d)), d) == 0.0
    ensures Dot(Scale(k, Perp(d)), Scale(k, Perp(d))) == Dot(Scale(k, d), Scale(k, d))
  {
    assert Dot(Scale(k, Perp(d)), d) == -(k * d.e1) * d.e0 + (k * d.e0) * d.e1;
  }

  /** A traced spine sample `(c, d)`: position and direction. */
  datatype TracedPoint = TracedPoint(c: Vec2, d: Vec2)
}
