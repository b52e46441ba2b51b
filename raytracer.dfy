/**
 * The Whitted-style sphere ray tracer of libraytracer (render.cpp): ray-sphere
 * intersection, the nearest-hit scan, ambient/directional/point lighting with
 * shadows, recursive reflection bounded by a depth counter, and the serial path of
 * the row-by-row frame-buffer fill.
 */
module RayTracer {
  import opened Wrappers
  import opened Affine
  import opened Numerics
  import opened Intersection
  import opened Shading
  import opened Color

  datatype Sphere = Sphere(color: Rgb, position: Point3, radius: real, specular: real, reflective: real)

  datatype Light =
    | Ambient(intensity: real)
    | Directional(intensity: real, direction: Vec3)
    | PointLight(intensity: real, position: Point3)

  datatype Scene = Scene(lights: seq<Light>, objects: seq<Sphere>)

  /** The canvas size in pixels. */
  datatype Canvas = Canvas(width: nat, height: nat)

  /** The projection plane; `rotation` stands for the camera's rotation matrix. */
  datatype Viewport = Viewport(width: real, height: real, distance: real, position: Point3,
                                rotation: Vec3 -> Vec3)

  /** t_min of shadow and reflection rays, so that a surface does not hit itself. */
  const Epsilon: real := 0.001

  /** Depth of reflection recursion for primary rays. */
  const MaxDepth: int := 3

  /** No light has a negative intensity. */
  predicate Physical(scene: Scene) {
    forall k | 0 <= k < |scene.lights| :: scene.lights[k].intensity >= 0.0
  }

  function PointAt(origin: Point3, ray: Vec3, t: real): Point3 {
    Translate(origin, Scale(ray, t))
  }

  /** The point at `t` along the ray lies on the sphere's surface. */
  predicate OnSphere(origin: Point3, ray: Vec3, s: Sphere, t: real) {
    var d := Diff(PointAt(origin, ray, t), s.position);
    Dot(d, d) == s.radius * s.radius
  }

  /** The coefficients of `a t^2 + b t + c = 0` for the ray `origin + t ray` against the sphere. */
  function CoefA(ray: Vec3): real {
    Dot(ray, ray)
  }

  function CoefB(origin: Point3, ray: Vec3, s: Sphere): real {
    2.0 * Dot(Diff(origin, s.position), ray)
  }

  function CoefC(origin: Point3, s: Sphere): real {
    var co := Diff(origin, s.position);
    Dot(co, co) - s.radius * s.radius
  }

  /**
   * The two ray parameters at which the ray meets the sphere: (+inf, +inf) exactly when
   * the discriminant is negative; otherwise, for a non-degenerate ray, two finite points
   * of the sphere with t1 >= t2.
   */
  function IntersectRaySphere(origin: Point3, ray: Vec3, s: Sphere, m: Math): (r: Roots)
    requires m.Valid()
  {
    SolveQuadratic(CoefA(ray), CoefB(origin, ray, s), CoefC(origin, s), m)
  }

  /**
   * (+inf, +inf) exactly when the discriminant is negative; otherwise, for a ray that is
   * not degenerate, two finite parameters, the first the larger, both on the sphere.
   */
  lemma IntersectRaySphereSpec(origin: Point3, ray: Vec3, s: Sphere, m: Math)
    requires m.Valid()
    ensures var r := IntersectRaySphere(origin, ray, s, m);
            && (r == Roots(PosInf, PosInf) <==> Discriminant(CoefA(ray), CoefB(origin, ray, s), CoefC(origin, s)) < 0.0)
            && (r != Roots(PosInf, PosInf) && CoefA(ray) > 0.0 ==>
                  r.t1.Fin? && r.t2.Fin? && r.t1.v >= r.t2.v &&
                  OnSphere(origin, ray, s, r.t1.v) && OnSphere(origin, ray, s, r.t2.v))
  {
    var r := IntersectRaySphere(origin, ray, s, m);
    SolveQuadraticSpec(CoefA(ray), CoefB(origin, ray, s), CoefC(origin, s), m);
    if r.t1.Fin? && r.t2.Fin? {
      OnSphereIff(origin, ray, s, r.t1.v);
      OnSphereIff(origin, ray, s, r.t2.v);
    }
  }

  /** Being on the sphere is being a root of the intersection quadratic. */
  lemma OnSphereIff(origin: Point3, ray: Vec3, s: Sphere, t: real)
    ensures OnSphere(origin, ray, s, t) <==> IsRoot(CoefA(ray), CoefB(origin, ray, s), CoefC(origin, s), t)
  {
    var co := Diff(origin, s.position);
    OnSphereFromCentre(origin, ray, s, t);
    SphereQuadratic(co, ray, s.radius, t);
    RootOfCoefficients(origin, ray, s, t);
  }

  /** Seen from the centre, the point at t is co + t ray with co = origin - centre. */
  lemma OnSphereFromCentre(origin: Point3, ray: Vec3, s: Sphere, t: real)
    ensures OnSphere(origin, ray, s, t) ==
            (Dot(Add(Diff(origin, s.position), Scale(ray, t)), Add(Diff(origin, s.position), Scale(ray, t))) == s.radius * s.radius)
  {
    assert Diff(PointAt(origin, ray, t), s.position) == Add(Diff(origin, s.position), Scale(ray, t));
  }

  lemma RootOfCoefficients(origin: Point3, ray: Vec3, s: Sphere, t: real)
    ensures IsRoot(CoefA(ray), CoefB(origin, ray, s), CoefC(origin, s), t) ==
            IsRoot(Dot(ray, ray), 2.0 * Dot(Diff(origin, s.position), ray),
              Dot(Diff(origin, s.position), Diff(origin, s.position)) - s.radius * s.radius, t)
  {
  }

  /** |co + t ray|^2 == r^2 exactly when t solves the intersection quadratic. */
  lemma SphereQuadratic(co: Vec3, ray: Vec3, radius: real, t: real)
    ensures (Dot(Add(co, Scale(ray, t)), Add(co, Scale(ray, t))) == radius * radius) ==
            IsRoot(Dot(ray, ray), 2.0 * Dot(co, ray), Dot(co, co) - radius * radius, t)
  {
    var p := Add(co, Scale(ray, t));
    DotAlongRay(co, ray, t);
    RootShift(Dot(p, p), Dot(ray, ray), Dot(co, ray), Dot(co, co), radius * radius, t);
  }

  /** p = A t^2 + 2 B t + C equals rr exactly when t is a root of A t^2 + 2 B t + (C - rr). */
  lemma RootShift(p: real, a: real, b: real, c: real, rr: real, t: real)
    requires p == a * t * t + 2.0 * b * t + c
    ensures p == rr <==> IsRoot(a, 2.0 * b, c - rr, t)
  {
    assert (2.0 * b) * t == 2.0 * b * t;
  }

  /** Conversely, every point where a non-degenerate ray meets the sphere is one of the two roots. */
  lemma IntersectRaySphereComplete(origin: Point3, ray: Vec3, s: Sphere, t: real, m: Math)
    requires m.Valid() && CoefA(ray) != 0.0 && OnSphere(origin, ray, s, t)
    ensures var r := IntersectRaySphere(origin, ray, s, m); r.t1 == Fin(t) || r.t2 == Fin(t)
  {
    OnSphereIff(origin, ray, s, t);
    QuadraticRootsComplete(CoefA(ray), CoefB(origin, ray, s), CoefC(origin, s), t, m);
  }

  /** The roots of every object of the scene, in scene order. */
  function RootsOf(scene: Scene, origin: Point3, ray: Vec3, m: Math): (rs: seq<Roots>)
    requires m.Valid()
    ensures |rs| == |scene.objects|
    ensures forall k | 0 <= k < |rs| :: rs[k] == IntersectRaySphere(origin, ray, scene.objects[k], m)
  {
    seq(|scene.objects|, k requires 0 <= k < |scene.objects| =>
      IntersectRaySphere(origin, ray, scene.objects[k], m))
  }

  /** The nearest hit along the ray, as the scan over the scene's objects computes it. */
  function Closest(scene: Scene, origin: Point3, ray: Vec3, tMin: real, tMax: Float, m: Math): (h: Hit)
    requires m.Valid()
    ensures h.obj.Some? ==> h.obj.value < |scene.objects| && h.t.Fin?
  {
    Scan(RootsOf(scene, origin, ray, m), tMin, tMax)
  }

  /**
   * `closest_intersection`: returns the index of the nearest object (None for a null
   * pointer) and its ray parameter.
   */
  method ClosestIntersection(origin: Point3, ray: Vec3, tMin: real, tMax: Float, scene: Scene, m: Math)
    returns (closestObject: Option<nat>, closestT: Float)
    requires m.Valid()
    ensures Hit(closestObject, closestT) == Closest(scene, origin, ray, tMin, tMax, m)
  {
    closestT := PosInf;
    closestObject := None;
    ghost var rs := RootsOf(scene, origin, ray, m);
    for k := 0 to |scene.objects|
      invariant Hit(closestObject, closestT) == Scan(rs[..k], tMin, tMax)
    {
      var r := IntersectRaySphere(origin, ray, scene.objects[k], m);
      if Improves(r.t1, closestT, tMin, tMax) {
        closestObject := Some(k);
        closestT := r.t1;
      }
      if Improves(r.t2, closestT, tMin, tMax) {
        closestObject := Some(k);
        closestT := r.t2;
      }
      assert rs[..k + 1][..k] == rs[..k];
    }
    assert rs[..|rs|] == rs;
  }

  /** What `closest_intersection` computes is the nearest hit: see IsNearest. */
  lemma ClosestIsNearest(scene: Scene, origin: Point3, ray: Vec3, tMin: real, tMax: Float, m: Math)
    requires m.Valid()
    ensures IsNearest(RootsOf(scene, origin, ray, m), tMin, tMax, Closest(scene, origin, ray, tMin, tMax, m))
  {
    ScanIsNearest(RootsOf(scene, origin, ray, m), tMin, tMax);
  }

  function Max(x: real, y: real): real {
    if x >= y then x else y
  }

  function Min(x: real, y: real): real {
    if x <= y then x else y
  }

  /** Some object lies between the point and the light, within [0.001, t_max] along the light ray. */
  predicate InShadow(point: Point3, lightRay: Vec3, tMax: Float, scene: Scene, m: Math)
    requires m.Valid()
  {
    Closest(scene, point, lightRay, Epsilon, tMax, m).obj.Some?
  }

  /** The direction from the point toward a directional or point light. */
  function LightRay(l: Light, point: Point3): Vec3 {
    match l
    case Ambient(_) => Zero
    case Directional(_, direction) => direction
    case PointLight(_, position) => Diff(position, point)
  }

  /** How far along the light ray the shadow scan looks: to infinity, or up to the point light itself. */
  function ShadowLimit(l: Light): Float {
    if l.PointLight? then Fin(1.0) else PosInf
  }

  /**
   * What one light adds to the intensity at `point`: ambient light unconditionally;
   * nothing from a shadowed light; otherwise the diffuse term floored at 0 plus the
   * light's intensity times the specular factor. A non-negative intensity never
   * contributes a negative amount.
   */
  function Contribution(l: Light, point: Point3, normal: Vec3, pointToCamera: Vec3, specular: real,
                        scene: Scene, m: Math): (r: real)
    requires m.Valid()
    ensures l.Ambient? ==> r == l.intensity
    ensures !l.Ambient? && InShadow(point, LightRay(l, point), ShadowLimit(l), scene, m) ==> r == 0.0
  {
    if l.Ambient? then l.intensity
    else
      var lightRay := LightRay(l, point);
      if InShadow(point, lightRay, ShadowLimit(l), scene, m) then 0.0
      else
        var spec := SpecularLight(pointToCamera, normal, lightRay, specular, m);
        Max(DiffuseLight(normal, lightRay, l.intensity, m), 0.0) + l.intensity * spec
  }

  /** A light of non-negative intensity never contributes a negative amount. */
  lemma ContributionNonNegative(l: Light, point: Point3, normal: Vec3, pointToCamera: Vec3, specular: real,
                                scene: Scene, m: Math)
    requires m.Valid() && l.intensity >= 0.0
    ensures Contribution(l, point, normal, pointToCamera, specular, scene, m) >= 0.0
  {
    if !l.Ambient? {
      var lightRay := LightRay(l, point);
      var spec := SpecularLight(pointToCamera, normal, lightRay, specular, m);
      MulNonNegative(l.intensity, spec);
    }
  }

  /** The sum of the contributions of `lights`, in order. */
  function LightingSum(lights: seq<Light>, point: Point3, normal: Vec3, pointToCamera: Vec3, specular: real,
                       scene: Scene, m: Math): real
    requires m.Valid()
  {
    if lights == [] then 0.0
    else
      LightingSum(lights[..|lights| - 1], point, normal, pointToCamera, specular, scene, m) +
      Contribution(lights[|lights| - 1], point, normal, pointToCamera, specular, scene, m)
  }

  /** The light intensity at `point`: the sum over the scene's lights, capped at 1. */
  function Lighting(point: Point3, normal: Vec3, scene: Scene, pointToCamera: Vec3, specular: real, m: Math): (r: real)
    requires m.Valid()
    ensures r <= 1.0
  {
    Min(LightingSum(scene.lights, point, normal, pointToCamera, specular, scene, m), 1.0)
  }

  lemma {:induction false} LightingSumNonNegative(lights: seq<Light>, point: Point3, normal: Vec3,
                                                  pointToCamera: Vec3, specular: real, scene: Scene, m: Math)
    requires m.Valid()
    requires forall k | 0 <= k < |lights| :: lights[k].intensity >= 0.0
    ensures LightingSum(lights, point, normal, pointToCamera, specular, scene, m) >= 0.0
  {
    if lights != [] {
      var pre := lights[..|lights| - 1];
      assert forall k | 0 <= k < |pre| :: pre[k] == lights[k];
      LightingSumNonNegative(pre, point, normal, pointToCamera, specular, scene, m);
      ContributionNonNegative(lights[|lights| - 1], point, normal, pointToCamera, specular, scene, m);
    }
  }

  /** With non-negative intensities the light intensity lies in [0, 1]. */
  lemma LightingInUnitRange(point: Point3, normal: Vec3, scene: Scene, pointToCamera: Vec3, specular: real, m: Math)
    requires m.Valid() && Physical(scene)
    ensures 0.0 <= Lighting(point, normal, scene, pointToCamera, specular, m) <= 1.0
  {
    LightingSumNonNegative(scene.lights, point, normal, pointToCamera, specular, scene, m);
  }

  /**
   * A directional or point light contributes nothing as soon as some object has a root
   * in [0.001, t_max] along the light ray.
   */
  lemma ShadowedLightContributesNothing(l: Light, point: Point3, normal: Vec3, pointToCamera: Vec3,
                                        specular: real, scene: Scene, m: Math, k: nat)
    requires m.Valid() && !l.Ambient? && k < |scene.objects|
    requires var r := IntersectRaySphere(point, LightRay(l, point), scene.objects[k], m);
             Candidate(r.t1, Epsilon, ShadowLimit(l)) || Candidate(r.t2, Epsilon, ShadowLimit(l))
    ensures Contribution(l, point, normal, pointToCamera, specular, scene, m) == 0.0
  {
    var rs := RootsOf(scene, point, LightRay(l, point), m);
    ScanIsNearest(rs, Epsilon, ShadowLimit(l));
    assert rs[k] == IntersectRaySphere(point, LightRay(l, point), scene.objects[k], m);
  }

  /** `compute_lightning`: accumulates the lights one by one and caps the total at 1. */
  method ComputeLighting(point: Point3, normal: Vec3, scene: Scene, pointToCamera: Vec3, specular: real, m: Math)
    returns (intensity: real)
    requires m.Valid()
    ensures intensity == Lighting(point, normal, scene, pointToCamera, specular, m)
  {
    intensity := 0.0;
    for k := 0 to |scene.lights|
      invariant intensity == LightingSum(scene.lights[..k], point, normal, pointToCamera, specular, scene, m)
    {
      var light := scene.lights[k];
      LightingSumStep(scene.lights, k, point, normal, pointToCamera, specular, scene, m);
      if light.Ambient? {
        intensity := intensity + light.intensity;
      } else {
        intensity := AddLight(intensity, light, point, normal, pointToCamera, specular, scene, m);
      }
    }
    assert scene.lights[..|scene.lights|] == scene.lights;
    intensity := Min(intensity, 1.0);
  }

  /**
   * The loop body of `compute_lightning` for a directional or point light: the light
   * ray and shadow limit, the shadow scan, and on no shadow the floored diffuse term
   * and the weighted specular term.
   */
  method AddLight(intensity: real, light: Light, point: Point3, normal: Vec3, pointToCamera: Vec3,
                  specular: real, scene: Scene, m: Math) returns (r: real)
    requires m.Valid() && !light.Ambient?
    ensures r == intensity + Contribution(light, point, normal, pointToCamera, specular, scene, m)
  {
    var lightRay, tMax := LightRay(light, point), ShadowLimit(light);
    var shadowSphere, _ := ClosestIntersection(point, lightRay, Epsilon, tMax, scene, m);
    if shadowSphere.Some? {
      assert InShadow(point, LightRay(light, point), ShadowLimit(light), scene, m);
      assert Contribution(light, point, normal, pointToCamera, specular, scene, m) == 0.0;
      return intensity;
    }
    var diffuse := Max(DiffuseLight(normal, lightRay, light.intensity, m), 0.0);
    var spec := SpecularLight(pointToCamera, normal, lightRay, specular, m);
    LitContribution(light, point, normal, pointToCamera, specular, scene, m, diffuse, spec);
    r := intensity + diffuse;
    r := r + light.intensity * spec;
  }

  /** An unshadowed directional or point light contributes its diffuse and specular terms. */
  lemma LitContribution(l: Light, point: Point3, normal: Vec3, pointToCamera: Vec3, specular: real,
                        scene: Scene, m: Math, diffuse: real, spec: real)
    requires m.Valid() && !l.Ambient? && !InShadow(point, LightRay(l, point), ShadowLimit(l), scene, m)
    requires diffuse == Max(DiffuseLight(normal, LightRay(l, point), l.intensity, m), 0.0)
    requires spec == SpecularLight(pointToCamera, normal, LightRay(l, point), specular, m)
    ensures Contribution(l, point, normal, pointToCamera, specular, scene, m) == diffuse + l.intensity * spec
  {
  }

  lemma LightingSumStep(lights: seq<Light>, k: nat, point: Point3, normal: Vec3, pointToCamera: Vec3,
                        specular: real, scene: Scene, m: Math)
    requires m.Valid() && k < |lights|
    ensures LightingSum(lights[..k + 1], point, normal, pointToCamera, specular, scene, m) ==
            LightingSum(lights[..k], point, normal, pointToCamera, specular, scene, m) +
            Contribution(lights[k], point, normal, pointToCamera, specular, scene, m)
  {
    assert lights[..k + 1][..k] == lights[..k];
  }

  /** `reflect_ray`: the ray mirrored about the normal, 2 n <n, ray> - ray. */
  function ReflectRay(ray: Vec3, normal: Vec3): Vec3 {
    Sub(Scale(Scale(normal, 2.0), Dot(normal, ray)), ray)
  }

  /** For a unit normal, the reflected ray has the same component along the normal. */
  lemma ReflectRayKeepsNormalComponent(ray: Vec3, normal: Vec3)
    requires Dot(normal, normal) == 1.0
    ensures Dot(normal, ReflectRay(ray, normal)) == Dot(normal, ray)
  {
    var d := Dot(normal, ray);
    assert Scale(Scale(normal, 2.0), d) == Scale(normal, 2.0 * d);
    DotScaleSub(normal, 2.0 * d, ray, normal);
    DotSymmetric(ray, normal);
  }

  /** For a unit normal, reflecting twice gives the original ray back. */
  lemma ReflectRayInvolution(ray: Vec3, normal: Vec3)
    requires Dot(normal, normal) == 1.0
    ensures ReflectRay(ReflectRay(ray, normal), normal) == ray
  {
    ReflectRayKeepsNormalComponent(ray, normal);
  }

  /** For a unit normal, reflection preserves the squared length. */
  lemma ReflectRayPreservesLength(ray: Vec3, normal: Vec3)
    requires Dot(normal, normal) == 1.0
    ensures var r := ReflectRay(ray, normal); Dot(r, r) == Dot(ray, ray)
  {
    var d := Dot(normal, ray);
    var r := ReflectRay(ray, normal);
    assert Scale(Scale(normal, 2.0), d) == Scale(normal, 2.0 * d);
    DotScaleSub(normal, 2.0 * d, ray, r);
    DotScaleSub(normal, 2.0 * d, ray, ray);
    DotSymmetric(ray, r);
    DotSymmetric(ray, normal);
    ReflectRayKeepsNormalComponent(ray, normal);
    var dr, dv, vv := Dot(normal, r), Dot(r, ray), Dot(ray, ray);
    assert dr == d;
    assert dv == 2.0 * d * d - vv;
    assert Dot(r, r) == 2.0 * d * dr - dv;
  }

  /** The mirrored light ray of the specular term is `reflect_ray` of the light ray. */
  lemma SpecularReflectionIsReflectRay(normal: Vec3, lightRay: Vec3)
    ensures SpecularReflection(normal, lightRay) == ReflectRay(lightRay, normal)
  {
    var d := Dot(normal, lightRay);
    assert Scale(Scale(normal, d), 2.0) == Scale(Scale(normal, 2.0), d);
  }

  /** `canvas_to_viewport`: a canvas coordinate scaled onto the projection plane at distance `distance`. */
  function CanvasToViewport(x: int, y: int, canvas: Canvas, viewport: Viewport): Vec3
    requires canvas.width > 0 && canvas.height > 0
  {
    Vec3(x as real * viewport.width / canvas.width as real,
         y as real * viewport.height / canvas.height as real,
         viewport.distance)
  }

  /** Canvas units map proportionally onto the viewport, on the plane z = distance. */
  lemma CanvasToViewportScales(x: int, y: int, canvas: Canvas, viewport: Viewport)
    requires canvas.width > 0 && canvas.height > 0
    ensures CanvasToViewport(x, y, canvas, viewport).z == viewport.distance
    ensures CanvasToViewport(x, y, canvas, viewport).x * canvas.width as real == x as real * viewport.width
    ensures CanvasToViewport(x, y, canvas, viewport).y * canvas.height as real == y as real * viewport.height
  {
  }

  /** The point where the ray hits sphere `s` at parameter `t`, and the unit surface normal there. */
  function HitNormal(point: Point3, s: Sphere, m: Math): Vec3 {
    m.normalize(Diff(point, s.position))
  }

  /** The colour of the sphere at `point`, lit by the scene's lights as seen along `ray`. */
  function LocalColor(point: Point3, ray: Vec3, s: Sphere, scene: Scene, m: Math): Rgb
    requires m.Valid()
  {
    ScaleRgb(s.color, Lighting(point, HitNormal(point, s, m), scene, Neg(ray), s.specular, m))
  }

  /**
   * `trace_ray`: the background on a miss; the locally lit colour when the depth is
   * used up or the sphere is not reflective; otherwise the reflection traced one
   * level deeper, blended in by the sphere's reflectivity unless it is exactly the
   * background.
   */
  function TraceRay(origin: Point3, ray: Vec3, tMin: real, tMax: Float, scene: Scene, depth: int,
                    background: Rgb, m: Math): Rgb
    requires m.Valid()
    decreases depth
  {
    var h := Closest(scene, origin, ray, tMin, tMax, m);
    if h.obj.None? then background
    else
      var s := scene.objects[h.obj.value];
      var point := PointAt(origin, ray, h.t.v);
      var local := LocalColor(point, ray, s, scene, m);
      if depth <= 0 || s.reflective <= 0.0 then local
      else
        var reflectedRay := ReflectRay(Neg(ray), HitNormal(point, s, m));
        var reflected := TraceRay(point, reflectedRay, Epsilon, PosInf, scene, depth - 1, background, m);
        MixReflection(local, reflected, s.reflective, background)
  }

  /**
   * The local colour blended with the reflected one by reflectivity k, unless the
   * reflection is exactly the background, which leaves the local colour alone.
   */
  function MixReflection(local: Rgb, reflected: Rgb, k: real, background: Rgb): Rgb {
    if reflected == background then local
    else AddRgb(ScaleRgb(local, 1.0 - k), ScaleRgb(reflected, k))
  }

  lemma MixInUnitCube(local: Rgb, reflected: Rgb, k: real, background: Rgb)
    requires InUnitCube(local) && InUnitCube(reflected) && 0.0 <= k <= 1.0
    ensures InUnitCube(MixReflection(local, reflected, k, background))
  {
    BlendInUnitCube(local, reflected, k);
  }

  /**
   * The blend's two cases: a reflection equal to the background leaves the local
   * colour; any other gives local * (1 - k) + reflected * k in every channel.
   */
  lemma MixReflectionCases(local: Rgb, reflected: Rgb, k: real, background: Rgb)
    ensures reflected == background ==> MixReflection(local, reflected, k, background) == local
    ensures reflected != background ==>
              MixReflection(local, reflected, k, background).r == local.r * (1.0 - k) + reflected.r * k &&
              MixReflection(local, reflected, k, background).g == local.g * (1.0 - k) + reflected.g * k &&
              MixReflection(local, reflected, k, background).b == local.b * (1.0 - k) + reflected.b * k
  {
  }

  /**
   * On a hit of a reflective sphere with depth left, the tracer blends the locally
   * lit colour with the colour traced one level deeper along the reflected ray from
   * the hit point, over [0.001, +inf).
   */
  lemma ReflectiveMixes(origin: Point3, ray: Vec3, tMin: real, tMax: Float, scene: Scene, depth: int,
                        background: Rgb, m: Math)
    requires m.Valid() && depth > 0
    requires var h := Closest(scene, origin, ray, tMin, tMax, m);
             h.obj.Some? && scene.objects[h.obj.value].reflective > 0.0
    ensures var h := Closest(scene, origin, ray, tMin, tMax, m);
            var s := scene.objects[h.obj.value];
            var point := PointAt(origin, ray, h.t.v);
            TraceRay(origin, ray, tMin, tMax, scene, depth, background, m) ==
            MixReflection(LocalColor(point, ray, s, scene, m),
                          TraceRay(point, ReflectRay(Neg(ray), HitNormal(point, s, m)), Epsilon, PosInf,
                                   scene, depth - 1, background, m),
                          s.reflective, background)
  {
  }

  /**
   * The number of `trace_ray` activations one call makes, itself included: one when
   * there is no hit, no depth left or no reflectivity, and never more than depth + 1.
   */
  ghost function Calls(origin: Point3, ray: Vec3, tMin: real, tMax: Float, scene: Scene, depth: int,
                       m: Math): (n: nat)
    requires m.Valid()
    ensures n >= 1
    ensures n <= if depth <= 0 then 1 else depth + 1
    ensures (Closest(scene, origin, ray, tMin, tMax, m).obj.None? || depth <= 0 ||
             scene.objects[Closest(scene, origin, ray, tMin, tMax, m).obj.value].reflective <= 0.0) ==> n == 1
    decreases depth
  {
    var h := Closest(scene, origin, ray, tMin, tMax, m);
    if h.obj.None? then 1
    else
      var s := scene.objects[h.obj.value];
      var point := PointAt(origin, ray, h.t.v);
      if depth <= 0 || s.reflective <= 0.0 then 1
      else 1 + Calls(point, ReflectRay(Neg(ray), HitNormal(point, s, m)), Epsilon, PosInf, scene, depth - 1, m)
  }

  /** With no root of any object in [t_min, t_max], the tracer returns the background colour. */
  lemma TraceMissIsBackground(origin: Point3, ray: Vec3, tMin: real, tMax: Float, scene: Scene, depth: int,
                              background: Rgb, m: Math)
    requires m.Valid()
    requires forall k | 0 <= k < |scene.objects| ::
               var r := IntersectRaySphere(origin, ray, scene.objects[k], m);
               !Candidate(r.t1, tMin, tMax) && !Candidate(r.t2, tMin, tMax)
    ensures TraceRay(origin, ray, tMin, tMax, scene, depth, background, m) == background
  {
    var rs := RootsOf(scene, origin, ray, m);
    ScanIsNearest(rs, tMin, tMax);
  }

  /** In a scene without reflective spheres the depth is irrelevant: the tracer never recurses. */
  lemma NonReflectiveIgnoresDepth(origin: Point3, ray: Vec3, tMin: real, tMax: Float, scene: Scene,
                                  depth1: int, depth2: int, background: Rgb, m: Math)
    requires m.Valid()
    requires forall k | 0 <= k < |scene.objects| :: scene.objects[k].reflective <= 0.0
    ensures TraceRay(origin, ray, tMin, tMax, scene, depth1, background, m) ==
            TraceRay(origin, ray, tMin, tMax, scene, depth2, background, m)
  {
  }

  /** With no depth left or a sphere that does not reflect, the tracer shows the locally lit colour. */
  lemma ShallowIsLocal(origin: Point3, ray: Vec3, tMin: real, tMax: Float, scene: Scene, depth: int,
                       background: Rgb, m: Math)
    requires m.Valid()
    requires var h := Closest(scene, origin, ray, tMin, tMax, m);
             h.obj.Some? && (depth <= 0 || scene.objects[h.obj.value].reflective <= 0.0)
    ensures var h := Closest(scene, origin, ray, tMin, tMax, m);
            TraceRay(origin, ray, tMin, tMax, scene, depth, background, m) ==
            LocalColor(PointAt(origin, ray, h.t.v), ray, scene.objects[h.obj.value], scene, m)
  {
  }

  /**
   * A perfect mirror (reflectivity 1) with depth left shows exactly what it reflects,
   * whenever that is not the background.
   */
  lemma MirrorShowsReflection(origin: Point3, ray: Vec3, tMin: real, tMax: Float, scene: Scene, depth: int,
                              background: Rgb, m: Math)
    requires m.Valid() && depth > 0
    requires var h := Closest(scene, origin, ray, tMin, tMax, m);
             h.obj.Some? && scene.objects[h.obj.value].reflective == 1.0
    ensures var h := Closest(scene, origin, ray, tMin, tMax, m);
            var s := scene.objects[h.obj.value];
            var point := PointAt(origin, ray, h.t.v);
            var reflected := TraceRay(point, ReflectRay(Neg(ray), HitNormal(point, s, m)), Epsilon, PosInf,
                                      scene, depth - 1, background, m);
            reflected != background ==>
              TraceRay(origin, ray, tMin, tMax, scene, depth, background, m) == reflected
  {
  }

  /** Every object colour in the unit cube, reflectivity at most 1, non-negative lights. */
  predicate WellLit(scene: Scene, background: Rgb) {
    Physical(scene) && InUnitCube(background) &&
    forall k | 0 <= k < |scene.objects| :: InUnitCube(scene.objects[k].color) && scene.objects[k].reflective <= 1.0
  }

  /** Under those conditions every traced colour lies in the unit cube. */
  lemma {:induction false} TraceInUnitCube(origin: Point3, ray: Vec3, tMin: real, tMax: Float, scene: Scene,
                                           depth: int, background: Rgb, m: Math)
    requires m.Valid() && WellLit(scene, background)
    ensures InUnitCube(TraceRay(origin, ray, tMin, tMax, scene, depth, background, m))
    decreases depth, 1
  {
    var h := Closest(scene, origin, ray, tMin, tMax, m);
    if h.obj.Some? {
      var s := scene.objects[h.obj.value];
      var point := PointAt(origin, ray, h.t.v);
      var normal := HitNormal(point, s, m);
      LightingInUnitRange(point, normal, scene, Neg(ray), s.specular, m);
      ScaleInUnitCube(s.color, Lighting(point, normal, scene, Neg(ray), s.specular, m));
      if depth > 0 && s.reflective > 0.0 {
        ReflectionInUnitCube(point, ReflectRay(Neg(ray), normal), LocalColor(point, ray, s, scene, m),
                             s.reflective, scene, depth, background, m);
      }
    }
  }

  /** The reflective case: a colour of the unit cube mixed with the reflection traced one level deeper. */
  lemma {:induction false} ReflectionInUnitCube(point: Point3, reflectedRay: Vec3, local: Rgb, k: real,
                                                scene: Scene, depth: int, background: Rgb, m: Math)
    requires m.Valid() && WellLit(scene, background)
    requires InUnitCube(local) && 0.0 <= k <= 1.0 && depth > 0
    ensures InUnitCube(MixReflection(local, TraceRay(point, reflectedRay, Epsilon, PosInf, scene, depth - 1,
                                                     background, m), k, background))
    decreases depth, 0
  {
    TraceInUnitCube(point, reflectedRay, Epsilon, PosInf, scene, depth - 1, background, m);
    MixInUnitCube(local, TraceRay(point, reflectedRay, Epsilon, PosInf, scene, depth - 1, background, m), k,
                  background);
  }

  /** The ray through pixel (i, j): centred coordinates x = i - w/2, y = w/2 - j, then the camera rotation. */
  function PixelRay(i: nat, j: nat, canvas: Canvas, viewport: Viewport): Vec3
    requires i < canvas.width && j < canvas.height
  {
    viewport.rotation(CanvasToViewport(i - Half(canvas.width), Half(canvas.width) - j, canvas, viewport))
  }

  /**
   * The half width w / 2 (integer division of a non-negative width) counted in steps of
   * two, so that pixel coordinates are sums rather than quotients; HalfIsDiv shows it
   * is w / 2.
   */
  function Half(w: nat): nat {
    if w < 2 then 0 else Half(w - 2) + 1
  }

  lemma {:induction false} HalfIsDiv(w: nat)
    ensures Half(w) == w / 2
  {
    if w >= 2 {
      HalfIsDiv(w - 2);
    }
  }

  /** The colour of pixel (i, j): traced from the camera with t in [1, +inf), depth 3, black background. */
  function PixelColor(i: nat, j: nat, canvas: Canvas, viewport: Viewport, scene: Scene, m: Math): Rgb
    requires m.Valid() && i < canvas.width && j < canvas.height
  {
    TraceRay(viewport.position, PixelRay(i, j, canvas, viewport), 1.0, PosInf, scene, MaxDepth, Black, m)
  }

  /**
   * The serial path of `renderer::render1`: row j's task traces the row and copies it
   * to buffer[j*w .. j*w + w); slots from w*h (RowStart(h, w), see RowStartIsProduct) on
   * are left as they were.
   */
  method Render1(buffer: array<Rgb>, canvas: Canvas, viewport: Viewport, scene: Scene, m: Math)
    requires m.Valid() && RowStart(canvas.height, canvas.width) <= buffer.Length
    modifies buffer
    ensures forall j: nat, i: nat | j < canvas.height && i < canvas.width ::
              buffer[Slot(i, j, canvas.width, canvas.height)] == PixelColor(i, j, canvas, viewport, scene, m)
    ensures forall k | RowStart(canvas.height, canvas.width) <= k < buffer.Length :: buffer[k] == old(buffer[k])
  {
    var w, h := canvas.width, canvas.height;
    for j := 0 to h
      invariant RowsDone(buffer[..], j, canvas, viewport, scene, m)
      invariant forall k | RowStart(j, w) <= k < buffer.Length :: buffer[k] == old(buffer[k])
    {
      ghost var before := buffer[..];
      RowTask(buffer, canvas, viewport, scene, m, j);
      RowsDoneStep(before, buffer[..], j, canvas, viewport, scene, m);
    }
  }

  /** Rows 0 .. j-1 of the image b hold their traced pixels. */
  ghost predicate RowsDone(b: seq<Rgb>, j: nat, canvas: Canvas, viewport: Viewport, scene: Scene, m: Math)
    requires m.Valid() && j <= canvas.height && RowStart(canvas.height, canvas.width) <= |b|
  {
    forall jj: nat, i: nat {:trigger PixelColor(i, jj, canvas, viewport, scene, m)} | jj < j && i < canvas.width ::
      b[Slot(i, jj, canvas.width, canvas.height)] == PixelColor(i, jj, canvas, viewport, scene, m)
  }

  lemma RowsDoneStep(before: seq<Rgb>, after: seq<Rgb>, j: nat, canvas: Canvas, viewport: Viewport, scene: Scene, m: Math)
    requires m.Valid() && j < canvas.height && RowStart(canvas.height, canvas.width) <= |before| == |after|
    requires RowsDone(before, j, canvas, viewport, scene, m)
    requires forall i: nat {:trigger PixelColor(i, j, canvas, viewport, scene, m)} | i < canvas.width ::
               after[Slot(i, j, canvas.width, canvas.height)] == PixelColor(i, j, canvas, viewport, scene, m)
    requires forall jj: nat, i: nat | jj < j && i < canvas.width ::
               after[Slot(i, jj, canvas.width, canvas.height)] == before[Slot(i, jj, canvas.width, canvas.height)]
    ensures RowsDone(after, j + 1, canvas, viewport, scene, m)
  {
  }

  /**
   * The task for row j: trace its w pixels, with y = w/2 - j and x = i - w/2, into a
   * row buffer, then copy that into buffer[j*w .. j*w + w) and touch nothing else.
   */
  method RowTask(buffer: array<Rgb>, canvas: Canvas, viewport: Viewport, scene: Scene, m: Math, j: nat)
    requires m.Valid() && j < canvas.height && RowStart(canvas.height, canvas.width) <= buffer.Length
    modifies buffer
    ensures forall i: nat {:trigger PixelColor(i, j, canvas, viewport, scene, m)} | i < canvas.width ::
              buffer[Slot(i, j, canvas.width, canvas.height)] == PixelColor(i, j, canvas, viewport, scene, m)
    ensures forall jj: nat, i: nat | jj < j && i < canvas.width ::
              buffer[Slot(i, jj, canvas.width, canvas.height)] == old(buffer[Slot(i, jj, canvas.width, canvas.height)])
    ensures forall k | RowStart(j + 1, canvas.width) <= k < buffer.Length :: buffer[k] == old(buffer[k])
  {
    var localBuffer := TraceRow(canvas, viewport, scene, m, j);
    CopyRow(buffer, localBuffer, RowStart(j, canvas.width), canvas.width, canvas.height, j);
    forall jj: nat, i: nat | jj < j && i < canvas.width
      ensures buffer[Slot(i, jj, canvas.width, canvas.height)] == old(buffer[Slot(i, jj, canvas.width, canvas.height)])
    {
      RowStartMonotone(jj, j, canvas.width);
    }
  }

  /** The copy loop of a row task: buffer[start .. start + w) := localBuffer[0 .. w). */
  method CopyRow(buffer: array<Rgb>, localBuffer: array<Rgb>, start: nat, w: nat, h: nat, j: nat)
    requires j < h && start == RowStart(j, w) && RowStart(h, w) <= buffer.Length
    requires localBuffer.Length == w && localBuffer != buffer
    modifies buffer
    ensures forall i: nat | i < w :: buffer[Slot(i, j, w, h)] == localBuffer[i]
    ensures forall k | 0 <= k < buffer.Length && (k < start || start + w <= k) :: buffer[k] == old(buffer[k])
  {
    RowStartMonotone(j, h, w);
    for k := 0 to w
      invariant forall i | 0 <= i < k :: buffer[start + i] == localBuffer[i]
      invariant forall q | 0 <= q < buffer.Length && !(start <= q < start + k) :: buffer[q] == old(buffer[q])
    {
      buffer[start + k] := localBuffer[k];
    }
  }

  /** Row j traced into a fresh row buffer, pixel i at x = i - w/2 and y = w/2 - j. */
  method TraceRow(canvas: Canvas, viewport: Viewport, scene: Scene, m: Math, j: nat) returns (localBuffer: array<Rgb>)
    requires m.Valid() && j < canvas.height
    ensures fresh(localBuffer) && localBuffer.Length == canvas.width
    ensures forall i {:trigger PixelColor(i, j, canvas, viewport, scene, m)} | 0 <= i < canvas.width ::
              localBuffer[i] == PixelColor(i, j, canvas, viewport, scene, m)
  {
    var w := canvas.width;
    var y := w / 2 - j;
    localBuffer := new Rgb[w](_ => Black);
    for i := 0 to w
      invariant PixelsDone(localBuffer[..], i, j, canvas, viewport, scene, m)
    {
      ghost var before := localBuffer[..];
      var color := TracePixel(i, j, y, canvas, viewport, scene, m);
      localBuffer[i] := color;
      PixelsDoneStep(before, localBuffer[..], i, j, canvas, viewport, scene, m);
    }
  }

  /** The first n pixels of row j hold their traced colours. */
  ghost predicate PixelsDone(b: seq<Rgb>, n: nat, j: nat, canvas: Canvas, viewport: Viewport, scene: Scene,
                             m: Math)
    requires m.Valid() && j < canvas.height && n <= |b| && n <= canvas.width
  {
    forall i {:trigger PixelColor(i, j, canvas, viewport, scene, m)} | 0 <= i < n ::
      b[i] == PixelColor(i, j, canvas, viewport, scene, m)
  }

  /** Storing pixel n's colour extends the traced prefix by one. */
  lemma PixelsDoneStep(before: seq<Rgb>, after: seq<Rgb>, n: nat, j: nat, canvas: Canvas, viewport: Viewport,
                       scene: Scene, m: Math)
    requires m.Valid() && j < canvas.height && n < |before| && n < canvas.width
    requires PixelsDone(before, n, j, canvas, viewport, scene, m)
    requires after == before[n := PixelColor(n, j, canvas, viewport, scene, m)]
    ensures PixelsDone(after, n + 1, j, canvas, viewport, scene, m)
  {
  }

  /** Pixel i of the row with y = w/2 - j: x = i - w/2, the rotated viewport ray traced. */
  method TracePixel(i: nat, j: nat, y: int, canvas: Canvas, viewport: Viewport, scene: Scene, m: Math)
    returns (color: Rgb)
    requires m.Valid() && i < canvas.width && j < canvas.height
    requires y == canvas.width / 2 - j
    ensures color == PixelColor(i, j, canvas, viewport, scene, m)
  {
    var x := i - canvas.width / 2;
    var ray := CanvasToViewport(x, y, canvas, viewport);
    ray := viewport.rotation(ray);
    HalfIsDiv(canvas.width);
    assert ray == PixelRay(i, j, canvas, viewport);
    color := TraceRay(viewport.position, ray, 1.0, PosInf, scene, MaxDepth, Black, m);
  }

  /** The first slot of row j, j*w, as a sum of row widths. */
  function RowStart(j: nat, w: nat): nat {
    if j == 0 then 0 else RowStart(j - 1, w) + w
  }

  lemma {:induction false} RowStartIsProduct(j: nat, w: nat)
    ensures RowStart(j, w) == j * w == w * j
  {
    if j > 0 {
      RowStartIsProduct(j - 1, w);
      assert (j - 1) * w + w == j * w;
    }
  }

  /** Rows are laid out one after another: row j ends where row h > j starts, or before. */
  lemma {:induction false} RowStartMonotone(j: nat, h: nat, w: nat)
    requires j < h
    ensures RowStart(j, w) + w <= RowStart(h, w)
  {
    if j + 1 < h {
      RowStartMonotone(j, h - 1, w);
    }
  }

  /** The row-major buffer slot of pixel (i, j): inside row j's range, below w*h. */
  function Slot(i: nat, j: nat, w: nat, h: nat): (k: nat)
    requires i < w && j < h
    ensures RowStart(j, w) <= k < RowStart(j, w) + w <= RowStart(h, w)
  {
    RowStartMonotone(j, h, w);
    RowStart(j, w) + i
  }

  /** Row-major indexing covers [0, w*h) exactly once: slot k is pixel (k % w, k / w). */
  lemma RowMajorCoverage(k: nat, w: nat, h: nat)
    requires k < w * h
    ensures w > 0 && k / w < h && k % w < w && Slot(k % w, k / w, w, h) == k
  {
    var j := k / w;
    RowStartIsProduct(j, w);
    if j >= h {
      RowStartIsProduct(h, w);
      RowStartMonotone(h, j, w);
    }
    assert j * w + k % w == k;
  }
}
