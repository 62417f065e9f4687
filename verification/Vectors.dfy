/** Real vectors: distances, the Cauchy-Schwarz inequality and the triangle inequality it gives. */
module Vectors {

  type Vec = seq<real>

  function Dot(a: Vec, b: Vec): real
    requires |a| == |b|
  {
    if a == [] then 0.0 else a[0] * b[0] + Dot(a[1..], b[1..])
  }

  function Sub(a: Vec, b: Vec): (c: Vec)
    requires |a| == |b|
    ensures |c| == |a|
  {
    seq(|a|, i requires 0 <= i < |a| => a[i] - b[i])
  }

  function Add(a: Vec, b: Vec): (c: Vec)
    requires |a| == |b|
    ensures |c| == |a|
  {
    seq(|a|, i requires 0 <= i < |a| => a[i] + b[i])
  }

  function Square(x: real): real {
    x * x
  }

  function SqNorm(a: Vec): real {
    Dot(a, a)
  }

  /** Squared Euclidean distance. */
  function SqDist(a: Vec, b: Vec): real
    requires |a| == |b|
  {
    if a == [] then 0.0 else Square(a[0] - b[0]) + SqDist(a[1..], b[1..])
  }

  // ---- Cauchy-Schwarz ----

  lemma {:induction false} SqNormNonNegative(a: Vec)
    ensures SqNorm(a) >= 0.0
  {
    if a != [] {
      SqNormNonNegative(a[1..]);
      SquareNonNegative(a[0]);
    }
  }

  lemma SquareNonNegative(x: real)
    ensures Square(x) >= 0.0
  {
  }

  lemma {:induction false} CauchySchwarz(a: Vec, b: Vec)
    requires |a| == |b|
    ensures Square(Dot(a, b)) <= SqNorm(a) * SqNorm(b)
  {
    if a != [] {
      CauchySchwarz(a[1..], b[1..]);
      SqNormNonNegative(a[1..]);
      SqNormNonNegative(b[1..]);
      CauchySchwarzStep(a[0], b[0], Dot(a[1..], b[1..]), SqNorm(a[1..]), SqNorm(b[1..]));
    }
  }

  lemma CauchySchwarzStep(x: real, y: real, c: real, p: real, q: real)
    requires p >= 0.0 && q >= 0.0 && Square(c) <= p * q
    ensures Square(x * y + c) <= (x * x + p) * (y * y + q)
  {
    var u, v := 2.0 * c * x * y, p * y * y + q * x * x;
    CrossTerm(x, y, c, p, q);
    assert (x * x + p) * (y * y + q) == x * x * (y * y) + v + p * q;
    assert Square(x * y + c) == x * x * (y * y) + u + Square(c);
  }

  lemma CrossTerm(x: real, y: real, c: real, p: real, q: real)
    requires p >= 0.0 && q >= 0.0 && Square(c) <= p * q
    ensures 2.0 * c * x * y <= p * y * y + q * x * x
  {
    var s, t := p * (y * y), q * (x * x);
    ProductNonNegative(p, y * y);
    ProductNonNegative(q, x * x);
    var w := c * (x * y);
    WeightedSquares(c, x * y, p, q);
    assert w * w <= s * t by {
      assert w * w == Square(c) * Square(x * y);
      assert s * t == p * q * Square(x * y);
    }
    TwiceGeometricMean(w, s, t);
  }

  lemma ProductNonNegative(x: real, y: real)
    requires x >= 0.0 && y >= 0.0
    ensures x * y >= 0.0
  {
  }

  lemma WeightedSquares(c: real, z: real, p: real, q: real)
    requires Square(c) <= p * q
    ensures Square(c) * Square(z) <= p * q * Square(z)
  {
    SquareNonNegative(z);
    ProductMonotone(Square(c), p * q, Square(z));
  }

  lemma ProductMonotone(x: real, y: real, z: real)
    requires x <= y && z >= 0.0
    ensures x * z <= y * z
  {
  }

  /** Twice the geometric mean is at most the sum. */
  lemma TwiceGeometricMean(w: real, s: real, t: real)
    requires s >= 0.0 && t >= 0.0 && w * w <= s * t
    ensures 2.0 * w <= s + t
  {
    SquareNonNegative(s - t);
    assert Square(s + t) == Square(s - t) + 4.0 * (s * t);
    assert Square(2.0 * w) == 4.0 * (w * w);
    SquareOrder(2.0 * w, s + t);
  }

  lemma SquareMonotone(x: real, y: real)
    requires 0.0 <= x < y
    ensures Square(x) < Square(y)
  {
    PositiveProduct(y - x, y + x);
    assert (y - x) * (y + x) == y * y - x * x;
  }

  /** Squares order the reals whose right-hand side is not negative. */
  lemma SquareOrder(x: real, y: real)
    requires y >= 0.0 && Square(x) <= Square(y)
    ensures x <= y
  {
    if y < x {
      SquareMonotone(y, x);
    }
  }

  lemma PositiveProduct(x: real, y: real)
    requires x > 0.0 && y > 0.0
    ensures x * y > 0.0
  {
  }

  // ---- distances ----

  lemma {:induction false} SqDistExpand(a: Vec, b: Vec)
    requires |a| == |b|
    ensures SqDist(a, b) == SqNorm(a) - 2.0 * Dot(a, b) + SqNorm(b)
  {
    if a != [] {
      SqDistExpand(a[1..], b[1..]);
    }
  }

  lemma {:induction false} SqDistIsNorm(a: Vec, b: Vec)
    requires |a| == |b|
    ensures SqDist(a, b) == SqNorm(Sub(a, b))
  {
    if a != [] {
      SqDistIsNorm(a[1..], b[1..]);
      assert Sub(a, b)[1..] == Sub(a[1..], b[1..]);
    }
  }

  /** Moving both points by the same vector keeps their distance. */
  lemma {:induction false} SqDistShift(a: Vec, b: Vec, h: Vec)
    requires |a| == |b| == |h|
    ensures SqDist(a, b) == SqDist(Sub(a, h), Sub(b, h))
    ensures SqDist(Sub(a, h), b) == SqDist(a, Add(h, b))
  {
    if a != [] {
      SqDistShift(a[1..], b[1..], h[1..]);
      assert Sub(a, h)[1..] == Sub(a[1..], h[1..]);
      assert Sub(b, h)[1..] == Sub(b[1..], h[1..]);
      assert Add(h, b)[1..] == Add(h[1..], b[1..]);
    }
  }

  /** What a square root function does on the reals where it is defined. */
  ghost predicate IsSqrt(root: real -> real) {
    forall x :: x >= 0.0 ==> root(x) >= 0.0 && Square(root(x)) == x
  }

  function Abs(x: real): real {
    if x < 0.0 then -x else x
  }

  /** The triangle inequality through the point h, on the squared distances: with p the distance of
      q from h and e that of x from h, the distance of q from x is between |p - e| and p + e. */
  lemma TriangleThrough(q: Vec, x: Vec, h: Vec, p: real, e: real)
    requires |q| == |x| == |h|
    requires p >= 0.0 && Square(p) == SqDist(q, h)
    requires e >= 0.0 && Square(e) == SqDist(x, h)
    ensures Square(p - e) <= SqDist(q, x) <= Square(p + e)
  {
    hide Square, Dot, SqDist, SqNorm;
    var u, v := Sub(q, h), Sub(x, h);
    SqDistShift(q, x, h);
    SqDistExpand(u, v);
    SqDistIsNorm(q, h);
    SqDistIsNorm(x, h);
    CauchySchwarz(u, v);
    InnerProductBound(p, e, Dot(u, v));
  }

  lemma InnerProductBound(p: real, e: real, w: real)
    requires p >= 0.0 && e >= 0.0 && Square(w) <= Square(p) * Square(e)
    ensures Square(p - e) <= Square(p) - 2.0 * w + Square(e) <= Square(p + e)
  {
    ProductNonNegative(p, e);
    SquareOfProduct(p, e);
    SquareOrder(w, p * e);
    SquareOrder(-w, p * e);
    SquareOfSum(p, e);
  }

  lemma SquareOfProduct(x: real, y: real)
    ensures Square(x * y) == Square(x) * Square(y)
  {
  }

  lemma SquareOfSum(x: real, y: real)
    ensures Square(x + y) == Square(x) + 2.0 * (x * y) + Square(y)
    ensures Square(x - y) == Square(x) - 2.0 * (x * y) + Square(y)
  {
  }
}
