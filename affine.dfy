/**
 * Free vectors and affine points over the reals (libcommon's affine space):
 * point - point is a vector and point + vector is a point; there is no point + point.
 */
module Affine {
  datatype Vec3 = Vec3(x: real, y: real, z: real)

  datatype Point3 = Point3(x: real, y: real, z: real)

  const Zero := Vec3(0.0, 0.0, 0.0)

  function Add(u: Vec3, v: Vec3): Vec3 {
    Vec3(u.x + v.x, u.y + v.y, u.z + v.z)
  }

  function Sub(u: Vec3, v: Vec3): Vec3 {
    Vec3(u.x - v.x, u.y - v.y, u.z - v.z)
  }

  function Scale(v: Vec3, k: real): Vec3 {
    Vec3(v.x * k, v.y * k, v.z * k)
  }

  function Neg(v: Vec3): Vec3 {
    Vec3(-v.x, -v.y, -v.z)
  }

  function Dot(u: Vec3, v: Vec3): real {
    u.x * v.x + u.y * v.y + u.z * v.z
  }

  /** point - point */
  function Diff(p: Point3, q: Point3): Vec3 {
    Vec3(p.x - q.x, p.y - q.y, p.z - q.z)
  }

  /** point + vector */
  function Translate(p: Point3, v: Vec3): Point3 {
    Point3(p.x + v.x, p.y + v.y, p.z + v.z)
  }

  /** The squared length is never negative. */
  lemma DotSelf(v: Vec3)
    ensures Dot(v, v) >= 0.0
  {
    Square(v.x);
    Square(v.y);
    Square(v.z);
  }

  lemma Square(a: real)
    ensures a * a >= 0.0
    ensures a != 0.0 ==> a * a > 0.0
  {
    if a > 0.0 {
      MulPositive(a, a);
    } else if a < 0.0 {
      MulPositive(-a, -a);
    }
  }

  lemma MulPositive(a: real, b: real)
    requires a > 0.0 && b > 0.0
    ensures a * b > 0.0
  {
  }

  lemma MulNonNegative(a: real, b: real)
    requires a >= 0.0 && b >= 0.0
    ensures a * b >= 0.0
  {
  }

  /** A zero vector is orthogonal to everything. */
  lemma DotZero(v: Vec3)
    ensures Dot(Zero, v) == 0.0 && Dot(v, Zero) == 0.0
  {
  }

  /** Squared length along a ray `co + t*d`, as a quadratic polynomial in `t`. */
  lemma DotAlongRay(co: Vec3, d: Vec3, t: real)
    ensures Dot(Add(co, Scale(d, t)), Add(co, Scale(d, t))) == Dot(d, d) * t * t + 2.0 * Dot(co, d) * t + Dot(co, co)
  {
    var p := Add(co, Scale(d, t));
    assert p.x * p.x == d.x * d.x * t * t + 2.0 * co.x * d.x * t + co.x * co.x;
    assert p.y * p.y == d.y * d.y * t * t + 2.0 * co.y * d.y * t + co.y * co.y;
    assert p.z * p.z == d.z * d.z * t * t + 2.0 * co.z * d.z * t + co.z * co.z;
  }

  lemma DotSymmetric(u: Vec3, v: Vec3)
    ensures Dot(u, v) == Dot(v, u)
  {
  }

  /** Dot product distributes over `k*n - v` in its first argument. */
  lemma DotScaleSub(n: Vec3, k: real, v: Vec3, w: Vec3)
    ensures Dot(Sub(Scale(n, k), v), w) == k * Dot(n, w) - Dot(v, w)
  {
    assert (n.x * k - v.x) * w.x == k * (n.x * w.x) - v.x * w.x;
    assert (n.y * k - v.y) * w.y == k * (n.y * w.y) - v.y * w.y;
    assert (n.z * k - v.z) * w.z == k * (n.z * w.z) - v.z * w.z;
  }
}
