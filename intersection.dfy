/**
 * The ray-sphere solver shared by both renderers: the quadratic formula with
 * +infinity for "no real root", and the linear nearest-hit scan over the scene's
 * objects that keeps the smallest admissible root (libraytracer/render.cpp
 * `intersect_ray_sphere` and `closest_intersection`; soft-render/render.cpp has the
 * same solver and the same scan inlined in `trace_ray`).
 */
module Intersection {
  import opened Wrappers
  import opened Numerics

  /** A single-precision value as the comparisons in the source see it. */
  datatype Float = Fin(v: real) | PosInf | NegInf | NaN

  /** `x <= y` under IEEE 754: false as soon as one side is NaN. */
  predicate Le(x: Float, y: Float) {
    match (x, y)
    case (NaN, _) => false
    case (_, NaN) => false
    case (NegInf, _) => true
    case (_, PosInf) => true
    case (PosInf, _) => false
    case (_, NegInf) => false
    case (Fin(a), Fin(b)) => a <= b
  }

  /** `x < y` under IEEE 754. */
  predicate Lt(x: Float, y: Float) {
    Le(x, y) && !Le(y, x)
  }

  /** IEEE division of finite values: a zero divisor gives a signed infinity, or NaN for 0/0. */
  function Div(n: real, d: real): Float {
    if d != 0.0 then Fin(n / d)
    else if n > 0.0 then PosInf
    else if n < 0.0 then NegInf
    else NaN
  }

  datatype Roots = Roots(t1: Float, t2: Float)

  function Discriminant(a: real, b: real, c: real): real {
    b * b - 4.0 * a * c
  }

  predicate IsRoot(a: real, b: real, c: real, t: real) {
    a * t * t + b * t + c == 0.0
  }

  /**
   * The two roots of `a*t^2 + b*t + c = 0` by the quadratic formula, or (+inf, +inf)
   * when the discriminant is negative.
   */
  function SolveQuadratic(a: real, b: real, c: real, m: Math): (r: Roots)
    requires m.Valid()
  {
    var d := Discriminant(a, b, c);
    if d < 0.0 then Roots(PosInf, PosInf)
    else
      var s := m.sqrt(d);
      Roots(Div(-b + s, 2.0 * a), Div(-b - s, 2.0 * a))
  }

  /**
   * (+inf, +inf) exactly when the discriminant is negative; otherwise, for a != 0, two
   * finite roots of the equation, the first the larger when a > 0.
   */
  lemma SolveQuadraticSpec(a: real, b: real, c: real, m: Math)
    requires m.Valid()
    ensures var r := SolveQuadratic(a, b, c, m);
            && (r == Roots(PosInf, PosInf) <==> Discriminant(a, b, c) < 0.0)
            && (Discriminant(a, b, c) >= 0.0 && a != 0.0 ==>
                  r.t1.Fin? && r.t2.Fin? && IsRoot(a, b, c, r.t1.v) && IsRoot(a, b, c, r.t2.v))
            && (Discriminant(a, b, c) >= 0.0 && a > 0.0 ==> r.t1.Fin? && r.t2.Fin? && r.t1.v >= r.t2.v)
  {
    var d := Discriminant(a, b, c);
    if d >= 0.0 {
      var s := m.sqrt(d);
      NotBothInfinite(a, b, c, s);
      if a != 0.0 {
        RootOfQuadratic(a, b, c, s, (-b + s) / (2.0 * a));
        RootOfQuadratic(a, b, c, -s, (-b - s) / (2.0 * a));
        if a > 0.0 {
          Ordered(a, b, s);
        }
      }
    }
  }

  /** Every real root of a proper quadratic is one of the two roots the formula returns. */
  lemma QuadraticRootsComplete(a: real, b: real, c: real, v: real, m: Math)
    requires m.Valid() && a != 0.0 && IsRoot(a, b, c, v)
    ensures Discriminant(a, b, c) >= 0.0
    ensures var r := SolveQuadratic(a, b, c, m); r.t1 == Fin(v) || r.t2 == Fin(v)
  {
    var u := 2.0 * a * v + b;
    calc {
      u * u;
      4.0 * a * (a * v * v + b * v) + b * b;
      4.0 * a * (-c) + b * b;
      Discriminant(a, b, c);
    }
    SquareNonNegative(u);
    var s := m.sqrt(Discriminant(a, b, c));
    assert s * s == u * u;
    SquaresEqual(s, u);
    if s == u {
      Cancel(2.0 * a, v, -b + s);
    } else {
      Cancel(2.0 * a, v, -b - s);
    }
  }

  lemma RootOfQuadratic(a: real, b: real, c: real, s: real, t: real)
    requires a != 0.0
    requires s * s == Discriminant(a, b, c)
    requires t == (-b + s) / (2.0 * a)
    ensures IsRoot(a, b, c, t)
  {
    var u := 2.0 * a * t;
    assert u == -b + s;
    calc {
      4.0 * a * (a * t * t + b * t + c);
      u * u + 2.0 * b * u + 4.0 * a * c;
      (s - b) * (s - b) + 2.0 * b * (s - b) + 4.0 * a * c;
      s * s - b * b + 4.0 * a * c;
      0.0;
    }
    ZeroProduct(4.0 * a, a * t * t + b * t + c);
  }

  /** With a zero leading coefficient, -b+s and -b-s cannot both be positive. */
  lemma NotBothInfinite(a: real, b: real, c: real, s: real)
    requires Discriminant(a, b, c) >= 0.0 && s >= 0.0 && s * s == Discriminant(a, b, c)
    ensures a == 0.0 ==> !(-b + s > 0.0 && -b - s > 0.0)
  {
    if a == 0.0 {
      assert Discriminant(a, b, c) == b * b;
      var x, y := -b + s, -b - s;
      assert x * y == b * b - s * s;
      ZeroFactor(x, y);
    }
  }

  lemma Ordered(a: real, b: real, s: real)
    requires a > 0.0 && s >= 0.0
    ensures (-b + s) / (2.0 * a) >= (-b - s) / (2.0 * a)
  {
    var d := 2.0 * a;
    assert (-b + s) / d - (-b - s) / d == (2.0 * s) / d;
  }

  lemma ZeroFactor(x: real, y: real)
    requires x * y == 0.0
    ensures x == 0.0 || y == 0.0
  {
    if x != 0.0 {
      ZeroProduct(x, y);
    }
  }

  lemma ZeroProduct(x: real, y: real)
    requires x != 0.0 && x * y == 0.0
    ensures y == 0.0
  {
    assert y == (x * y) / x;
  }

  lemma SquareNonNegative(u: real)
    ensures u * u >= 0.0
  {
    if u < 0.0 {
      assert u * u == (-u) * (-u);
    }
  }

  lemma SquaresEqual(s: real, u: real)
    requires s * s == u * u
    ensures s == u || s == -u
  {
    assert (s - u) * (s + u) == 0.0;
    if s - u != 0.0 {
      ZeroProduct(s - u, s + u);
    }
  }

  lemma Cancel(d: real, v: real, n: real)
    requires d != 0.0 && d * v == n
    ensures v == n / d
  {
  }

  /** A root lies in [t_min, t_max], compared as the source compares floats. */
  predicate Admissible(t: Float, tMin: real, tMax: Float) {
    Le(t, tMax) && Le(Fin(tMin), t)
  }

  /** The condition under which the scan replaces its incumbent `best` by `t`. */
  predicate Improves(t: Float, best: Float, tMin: real, tMax: Float) {
    Admissible(t, tMin, tMax) && Lt(t, best)
  }

  /** A finite root in [t_min, t_max]: the only kind the scan can ever select. */
  predicate Candidate(t: Float, tMin: real, tMax: Float) {
    t.Fin? && tMin <= t.v && Le(t, tMax)
  }

  /** The scan's state: the index of the nearest object so far (null as None) and `closest_t`. */
  datatype Hit = Hit(obj: Option<nat>, t: Float)

  const NoHit := Hit(None, PosInf)

  /** One iteration of the scan for object `k`: t1 is tried first, then t2, each with a strict `<`. */
  function Step(acc: Hit, k: nat, r: Roots, tMin: real, tMax: Float): Hit {
    var afterT1 := if Improves(r.t1, acc.t, tMin, tMax) then Hit(Some(k), r.t1) else acc;
    if Improves(r.t2, afterT1.t, tMin, tMax) then Hit(Some(k), r.t2) else afterT1
  }

  /** The scan over the roots of objects 0 .. |rs|-1, in order, from (null, +inf). */
  function Scan(rs: seq<Roots>, tMin: real, tMax: Float): (h: Hit)
    ensures h.obj.None? ==> h.t == PosInf
    ensures h.obj.Some? ==> h.obj.value < |rs| && Candidate(h.t, tMin, tMax) &&
                            (h.t == rs[h.obj.value].t1 || h.t == rs[h.obj.value].t2)
  {
    if rs == [] then NoHit
    else
      var pre := Scan(rs[..|rs| - 1], tMin, tMax);
      Step(pre, |rs| - 1, rs[|rs| - 1], tMin, tMax)
  }

  /** No candidate root of `r` lies below `v`. */
  predicate NoneBelow(r: Roots, v: real, tMin: real, tMax: Float) {
    (Candidate(r.t1, tMin, tMax) ==> v <= r.t1.v) && (Candidate(r.t2, tMin, tMax) ==> v <= r.t2.v)
  }

  /** No candidate root of `r` lies at or below `v`. */
  predicate NoneAtOrBelow(r: Roots, v: real, tMin: real, tMax: Float) {
    (Candidate(r.t1, tMin, tMax) ==> v < r.t1.v) && (Candidate(r.t2, tMin, tMax) ==> v < r.t2.v)
  }

  /**
   * What the nearest hit is, independently of how it is found: no object when no
   * root of any object is a candidate (and then t = +inf); otherwise a candidate root
   * of object k that is no larger than any candidate root of any object, and strictly
   * smaller than every candidate root of the objects before k (the first one wins a tie).
   */
  ghost predicate IsNearest(rs: seq<Roots>, tMin: real, tMax: Float, h: Hit) {
    match h.obj
    case None =>
      h.t == PosInf &&
      forall j | 0 <= j < |rs| :: !Candidate(rs[j].t1, tMin, tMax) && !Candidate(rs[j].t2, tMin, tMax)
    case Some(k) =>
      k < |rs| && Candidate(h.t, tMin, tMax) && (h.t == rs[k].t1 || h.t == rs[k].t2) &&
      (forall j | 0 <= j < |rs| :: NoneBelow(rs[j], h.t.v, tMin, tMax)) &&
      (forall j | 0 <= j < k :: NoneAtOrBelow(rs[j], h.t.v, tMin, tMax))
  }

  /** Against an incumbent that is +inf or finite, `Improves` is "a candidate strictly below it". */
  lemma ImprovesIff(t: Float, best: Float, tMin: real, tMax: Float)
    requires best == PosInf || best.Fin?
    ensures Improves(t, best, tMin, tMax) <==>
              Candidate(t, tMin, tMax) && (best == PosInf || t.v < best.v)
  {
  }

  /** The scan finds the nearest hit. */
  lemma {:induction false} ScanIsNearest(rs: seq<Roots>, tMin: real, tMax: Float)
    ensures IsNearest(rs, tMin, tMax, Scan(rs, tMin, tMax))
  {
    if rs != [] {
      var n := |rs| - 1;
      var pre := rs[..n];
      var r := rs[n];
      ScanIsNearest(pre, tMin, tMax);
      var acc := Scan(pre, tMin, tMax);
      ImprovesIff(r.t1, acc.t, tMin, tMax);
      var afterT1 := if Improves(r.t1, acc.t, tMin, tMax) then Hit(Some(n), r.t1) else acc;
      ImprovesIff(r.t2, afterT1.t, tMin, tMax);
      assert forall j | 0 <= j < n :: rs[j] == pre[j];
      var h := Scan(rs, tMin, tMax);
      assert h == Step(acc, n, r, tMin, tMax);
    }
  }

  /** The nearest hit is unique, so the scan is fully characterised by IsNearest. */
  lemma NearestUnique(rs: seq<Roots>, tMin: real, tMax: Float, h1: Hit, h2: Hit)
    requires IsNearest(rs, tMin, tMax, h1) && IsNearest(rs, tMin, tMax, h2)
    ensures h1 == h2
  {

  }
}
