/** Three-dimensional vectors over exact reals: the numpy arithmetic the
    subdivider uses (elementwise add, subtract and scale, `numpy.inner` and
    `numpy.cross`), and the squared distance that stands in for the square
    root of `distance_between_points`.

    Every product of two reals is written as `Mul(a, b)`, so that a fact
    about a product is stated once, as a lemma about `Mul`, and reused
    wherever that product occurs. */
module Vectors {

  datatype Vec3 = Vec3(x: real, y: real, z: real)

  const Zero := Vec3(0.0, 0.0, 0.0)

  function Mul(a: real, b: real): real {
    a * b
  }

  function Add(u: Vec3, v: Vec3): Vec3 {
    Vec3(u.x + v.x, u.y + v.y, u.z + v.z)
  }

  function Sub(u: Vec3, v: Vec3): Vec3 {
    Vec3(u.x - v.x, u.y - v.y, u.z - v.z)
  }

  function Scale(u: Vec3, k: real): Vec3 {
    Vec3(Mul(u.x, k), Mul(u.y, k), Mul(u.z, k))
  }

  /** `numpy.inner` of two 3-vectors. */
  function Dot(u: Vec3, v: Vec3): real {
    Mul(u.x, v.x) + Mul(u.y, v.y) + Mul(u.z, v.z)
  }

  /** `numpy.cross` of two 3-vectors. */
  function Cross(u: Vec3, v: Vec3): Vec3 {
    Vec3(Mul(u.y, v.z) - Mul(u.z, v.y),
         Mul(u.z, v.x) - Mul(u.x, v.z),
         Mul(u.x, v.y) - Mul(u.y, v.x))
  }

  function Abs(r: real): real {
    if r < 0.0 then -r else r
  }

  /** The square of `distance_between_points(p, q)`. A distance is never
      negative, so `distance < eps` holds exactly when `SqDist < eps * eps`
      for a positive `eps`. */
  function SqDist(p: Vec3, q: Vec3): real {
    Dot(Sub(p, q), Sub(p, q))
  }

  /** The squared distance behaves as a distance: never negative, symmetric,
      and zero exactly between equal points. */
  lemma SqDistIsDistance(p: Vec3, q: Vec3)
    ensures SqDist(p, q) >= 0.0
    ensures SqDist(p, q) == 0.0 <==> p == q
    ensures SqDist(p, q) == SqDist(q, p)
  {
    var w, u := Sub(p, q), Sub(q, p);
    DotSelfNonNegative(w);
    if p != q {
      DotSelfPositive(w);
    }
    MulNegNeg(w.x, w.x);
    MulNegNeg(w.y, w.y);
    MulNegNeg(w.z, w.z);
    assert u == Vec3(-w.x, -w.y, -w.z);
  }

  // Sign and ring facts about Mul, used by the vector lemmas below.

  lemma MulPositive(a: real, b: real)
    requires a > 0.0 && b > 0.0
    ensures Mul(a, b) > 0.0
  {
  }

  lemma MulNegNeg(a: real, b: real)
    ensures Mul(-a, -b) == Mul(a, b)
  {
  }

  lemma SquarePositive(r: real)
    requires r != 0.0
    ensures Mul(r, r) > 0.0
  {
    if r > 0.0 {
      MulPositive(r, r);
    } else {
      MulPositive(-r, -r);
      MulNegNeg(r, r);
    }
  }

  lemma SquareNonNegative(r: real)
    ensures Mul(r, r) >= 0.0
  {
    if r != 0.0 {
      SquarePositive(r);
    }
  }

  lemma DotSelfNonNegative(w: Vec3)
    ensures Dot(w, w) >= 0.0
  {
    SquareNonNegative(w.x);
    SquareNonNegative(w.y);
    SquareNonNegative(w.z);
  }

  /** A non-zero vector has a positive squared length. */
  lemma DotSelfPositive(w: Vec3)
    requires w != Zero
    ensures Dot(w, w) > 0.0
  {
    DotSelfNonNegative(w);
    if w.x != 0.0 {
      SquarePositive(w.x);
    } else if w.y != 0.0 {
      SquarePositive(w.y);
    } else {
      SquarePositive(w.z);
    }
  }

  lemma MulNonNegative(a: real, b: real)
    requires a >= 0.0 && b >= 0.0
    ensures Mul(a, b) >= 0.0
  {
  }

  lemma MulNegativePositive(a: real, b: real)
    requires a < 0.0 && b > 0.0
    ensures Mul(a, b) < 0.0
  {
  }

  lemma MulNegatesRight(a: real, b: real)
    ensures Mul(a, -b) == -Mul(a, b)
    ensures Mul(-a, b) == -Mul(a, b)
  {
  }

  lemma MulCommutes(a: real, b: real)
    ensures Mul(a, b) == Mul(b, a)
  {
  }

  lemma MulOne(a: real)
    ensures Mul(a, 1.0) == a && Mul(1.0, a) == a
    ensures Mul(a, 0.0) == 0.0 && Mul(0.0, a) == 0.0
  {
  }

  lemma DivMul(d: real, e: real)
    requires e != 0.0
    ensures Mul(d / e, e) == d
  {
  }

  /** Multiplying by a positive factor keeps the sign. */
  lemma MulPositiveFactor(a: real, k: real)
    requires k > 0.0
    ensures Mul(a, k) <= 0.0 <==> a <= 0.0
    ensures Mul(a, k) >= 0.0 <==> a >= 0.0
  {
    if a > 0.0 {
      MulPositive(a, k);
    } else if a < 0.0 {
      MulNegativePositive(a, k);
    } else {
      MulOne(k);
    }
  }

  /** `t * (1 - t)` is non-negative exactly on the unit interval. */
  lemma UnitInterval(t: real)
    ensures Mul(t, 1.0 - t) >= 0.0 <==> 0.0 <= t <= 1.0
  {
    if t < 0.0 {
      MulNegativePositive(t, 1.0 - t);
    } else if t > 1.0 {
      MulNegativePositive(1.0 - t, t);
      MulCommutes(t, 1.0 - t);
    } else {
      MulNonNegative(t, 1.0 - t);
    }
  }

  /** A quotient lies in the unit interval exactly when the numerator lies
      between zero and the denominator. */
  lemma QuotientInUnitInterval(d: real, e: real)
    requires e != 0.0
    ensures 0.0 <= d / e <= 1.0 <==> (e > 0.0 && 0.0 <= d <= e) || (e < 0.0 && e <= d <= 0.0)
  {
    var t := d / e;
    DivMul(d, e);
    MulDistributes(e, t, 1.0);
    MulCommutes(e, t);
    MulCommutes(e, t - 1.0);
    MulCommutes(e, 1.0 - t);
    MulOne(e);
    MulDistributes(e, 1.0, t);
    if e > 0.0 {
      MulPositiveFactor(t, e);
      MulPositiveFactor(t - 1.0, e);
    } else {
      MulPositiveFactor(t, -e);
      MulPositiveFactor(1.0 - t, -e);
      MulNegatesRight(t, e);
      MulNegatesRight(1.0 - t, e);
    }
  }

  lemma MulDistributes(a: real, b: real, c: real)
    ensures Mul(a, b - c) == Mul(a, b) - Mul(a, c)
    ensures Mul(a, b + c) == Mul(a, b) + Mul(a, c)
  {
  }

  lemma MulAssociates(a: real, b: real, c: real)
    ensures Mul(a, Mul(b, c)) == Mul(Mul(a, b), c)
    ensures Mul(a, Mul(b, c)) == Mul(b, Mul(a, c))
  {
  }

  /** `Dot(n, _)` is linear. */
  lemma DotLinear(n: Vec3, u: Vec3, v: Vec3, k: real)
    ensures Dot(n, Sub(u, v)) == Dot(n, u) - Dot(n, v)
    ensures Dot(n, Add(u, v)) == Dot(n, u) + Dot(n, v)
    ensures Dot(n, Scale(u, k)) == Mul(k, Dot(n, u))
  {
    MulDistributes(n.x, u.x, v.x);
    MulDistributes(n.y, u.y, v.y);
    MulDistributes(n.z, u.z, v.z);
    MulAssociates(n.x, u.x, k);
    MulAssociates(n.y, u.y, k);
    MulAssociates(n.z, u.z, k);
    MulDistributes(k, Mul(n.x, u.x) + Mul(n.y, u.y), Mul(n.z, u.z));
    MulDistributes(k, Mul(n.x, u.x), Mul(n.y, u.y));
    assert Mul(n.x, Mul(u.x, k)) == Mul(k, Mul(n.x, u.x));
    assert Mul(n.y, Mul(u.y, k)) == Mul(k, Mul(n.y, u.y));
    assert Mul(n.z, Mul(u.z, k)) == Mul(k, Mul(n.z, u.z));
  }

  /** The inner product of two multiples of one vector. */
  lemma DotOfMultiples(w: Vec3, a: real, b: real)
    ensures Dot(Scale(w, a), Scale(w, b)) == Mul(Mul(a, b), Dot(w, w))
  {
  }
}
