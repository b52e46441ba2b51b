/**
 * The earlier renderer of soft-render (render.cpp): the same sphere intersection and
 * nearest-hit scan, lighting without shadows, no reflection, colours held as
 * `mfb_color` bytes, and a column-by-column frame-buffer fill.
 */
module SoftRender {
  import opened Wrappers
  import opened Affine
  import opened Numerics
  import opened Intersection
  import opened Shading
  import opened Color
  import opened MfbColor
  import RT = RayTracer

  /** Positions are plain vectors here, and spheres have no reflectivity. */
  datatype Sphere = Sphere(color: Mfb, position: Vec3, radius: real, specular: real)

  datatype Light =
    | Ambient(intensity: real)
    | Directional(intensity: real, direction: Vec3)
    | PointLight(intensity: real, position: Vec3)

  datatype Scene = Scene(lights: seq<Light>, objects: seq<Sphere>)

  datatype Viewport = Viewport(width: real, height: real, distance: real, position: Vec3)

  /** The value-initialised `mfb_color`, the default background. */
  const NoColor := Mfb(0, 0, 0, 0)

  predicate Physical(lights: seq<Light>) {
    forall k | 0 <= k < |lights| :: lights[k].intensity >= 0.0
  }

  /** The same scene expressed in libraytracer's types: positions become points, nothing reflects. */
  function AsPoint(v: Vec3): Point3 {
    Point3(v.x, v.y, v.z)
  }

  function AsRtSphere(s: Sphere): RT.Sphere {
    RT.Sphere(s.color.AsRgbVec(), AsPoint(s.position), s.radius, s.specular, 0.0)
  }

  function AsRtLight(l: Light): RT.Light {
    match l
    case Ambient(i) => RT.Ambient(i)
    case Directional(i, direction) => RT.Directional(i, direction)
    case PointLight(i, position) => RT.PointLight(i, AsPoint(position))
  }

  function AsRtLights(lights: seq<Light>): (ls: seq<RT.Light>)
    ensures |ls| == |lights| && forall k | 0 <= k < |ls| :: ls[k] == AsRtLight(lights[k])
  {
    seq(|lights|, k requires 0 <= k < |lights| => AsRtLight(lights[k]))
  }

  /** `intersect_ray_sphere`: the quadratic in t for the sphere given by its centre vector. */
  function IntersectRaySphere(origin: Vec3, ray: Vec3, s: Sphere, m: Math): (r: Roots)
    requires m.Valid()
  {
    var co := Sub(origin, s.position);
    SolveQuadratic(RT.CoefA(ray), CoefB(co, ray), CoefC(co, s.radius), m)
  }

  /** b and c of the quadratic, from the vector from the centre to the ray's origin. */
  function CoefB(co: Vec3, ray: Vec3): real {
    2.0 * Dot(co, ray)
  }

  function CoefC(co: Vec3, radius: real): real {
    Dot(co, co) - radius * radius
  }

  /** It agrees with libraytracer's intersection at the corresponding points. */
  lemma IntersectAgrees(origin: Vec3, ray: Vec3, s: Sphere, m: Math)
    requires m.Valid()
    ensures IntersectRaySphere(origin, ray, s, m) == RT.IntersectRaySphere(AsPoint(origin), ray, AsRtSphere(s), m)
  {
    var co, p, rs := Sub(origin, s.position), AsPoint(origin), AsRtSphere(s);
    SameQuadratic(origin, ray, s);
    SameSolution(RT.CoefA(ray), CoefB(co, ray), CoefC(co, s.radius), RT.CoefA(ray), RT.CoefB(p, ray, rs), RT.CoefC(p, rs), m);
  }

  lemma SameSolution(a: real, b: real, c: real, a': real, b': real, c': real, m: Math)
    requires m.Valid() && a == a' && b == b' && c == c'
    ensures SolveQuadratic(a, b, c, m) == SolveQuadratic(a', b', c', m)
  {
  }

  /** The coefficients computed from the centre vector are libraytracer's. */
  lemma SameQuadratic(origin: Vec3, ray: Vec3, s: Sphere)
    ensures CoefB(Sub(origin, s.position), ray) == RT.CoefB(AsPoint(origin), ray, AsRtSphere(s))
    ensures CoefC(Sub(origin, s.position), s.radius) == RT.CoefC(AsPoint(origin), AsRtSphere(s))
  {
    assert Sub(origin, s.position) == Diff(AsPoint(origin), AsPoint(s.position));
  }

  function RootsOf(scene: Scene, origin: Vec3, ray: Vec3, m: Math): (rs: seq<Roots>)
    requires m.Valid()
    ensures |rs| == |scene.objects|
    ensures forall k | 0 <= k < |rs| :: rs[k] == IntersectRaySphere(origin, ray, scene.objects[k], m)
  {
    seq(|scene.objects|, k requires 0 <= k < |scene.objects| =>
      IntersectRaySphere(origin, ray, scene.objects[k], m))
  }

  function Closest(scene: Scene, origin: Vec3, ray: Vec3, tMin: real, tMax: Float, m: Math): (h: Hit)
    requires m.Valid()
    ensures h.obj.Some? ==> h.obj.value < |scene.objects| && h.t.Fin?
  {
    Scan(RootsOf(scene, origin, ray, m), tMin, tMax)
  }

  /**
   * What one light adds: the ambient intensity, or for a directional or point light the
   * diffuse term floored at 0 plus the intensity times the specular factor. No light
   * is ever shadowed.
   */
  function Contribution(l: Light, point: Vec3, normal: Vec3, pointToCamera: Vec3, specular: real, m: Math): (r: real)
    requires m.Valid()
    ensures l.Ambient? ==> r == l.intensity
  {
    match l
    case Ambient(i) => i
    case Directional(i, direction) =>
      Max(DiffuseLight(normal, direction, i, m), 0.0) + i * SpecularLight(pointToCamera, normal, direction, specular, m)
    case PointLight(i, position) =>
      var lightRay := Sub(position, point);
      Max(DiffuseLight(normal, lightRay, i, m), 0.0) + i * SpecularLight(pointToCamera, normal, lightRay, specular, m)
  }

  /** A light of non-negative intensity never contributes a negative amount. */
  lemma ContributionNonNegative(l: Light, point: Vec3, normal: Vec3, pointToCamera: Vec3, specular: real, m: Math)
    requires m.Valid() && l.intensity >= 0.0
    ensures Contribution(l, point, normal, pointToCamera, specular, m) >= 0.0
  {
    match l
    case Ambient(_) =>
    case Directional(i, direction) =>
      MulNonNegative(i, SpecularLight(pointToCamera, normal, direction, specular, m));
    case PointLight(i, position) =>
      MulNonNegative(i, SpecularLight(pointToCamera, normal, Sub(position, point), specular, m));
  }

  function Max(x: real, y: real): real {
    if x >= y then x else y
  }

  function LightingSum(lights: seq<Light>, point: Vec3, normal: Vec3, pointToCamera: Vec3, specular: real, m: Math): real
    requires m.Valid()
  {
    if lights == [] then 0.0
    else
      LightingSum(lights[..|lights| - 1], point, normal, pointToCamera, specular, m) +
      Contribution(lights[|lights| - 1], point, normal, pointToCamera, specular, m)
  }

  /** The light intensity at `point`: the sum over all lights, capped at 1. */
  function Lighting(lights: seq<Light>, point: Vec3, normal: Vec3, pointToCamera: Vec3, specular: real, m: Math): (r: real)
    requires m.Valid()
    ensures r <= 1.0
  {
    var sum := LightingSum(lights, point, normal, pointToCamera, specular, m);
    if sum <= 1.0 then sum else 1.0
  }

  lemma {:induction false} LightingSumNonNegative(lights: seq<Light>, point: Vec3, normal: Vec3,
                                                  pointToCamera: Vec3, specular: real, m: Math)
    requires m.Valid() && Physical(lights)
    ensures LightingSum(lights, point, normal, pointToCamera, specular, m) >= 0.0
  {
    if lights != [] {
      var pre := lights[..|lights| - 1];
      assert forall k | 0 <= k < |pre| :: pre[k] == lights[k];
      LightingSumNonNegative(pre, point, normal, pointToCamera, specular, m);
      ContributionNonNegative(lights[|lights| - 1], point, normal, pointToCamera, specular, m);
    }
  }

  lemma LightingInUnitRange(lights: seq<Light>, point: Vec3, normal: Vec3, pointToCamera: Vec3, specular: real, m: Math)
    requires m.Valid() && Physical(lights)
    ensures 0.0 <= Lighting(lights, point, normal, pointToCamera, specular, m) <= 1.0
  {
    LightingSumNonNegative(lights, point, normal, pointToCamera, specular, m);
  }

  /**
   * Each light contributes what the same light contributes in libraytracer when no
   * object can cast a shadow.
   */
  lemma ContributionIsUnshadowed(l: Light, point: Vec3, normal: Vec3, pointToCamera: Vec3, specular: real,
                                 m: Math, rtScene: RT.Scene)
    requires m.Valid() && rtScene.objects == []
    ensures Contribution(l, point, normal, pointToCamera, specular, m) ==
            RT.Contribution(AsRtLight(l), AsPoint(point), normal, pointToCamera, specular, rtScene, m)
  {
    assert RT.RootsOf(rtScene, AsPoint(point), RT.LightRay(AsRtLight(l), AsPoint(point)), m) == [];
    if l.PointLight? {
      assert RT.LightRay(AsRtLight(l), AsPoint(point)) == Sub(l.position, point);
    }
  }

  /**
   * The lighting of this renderer is libraytracer's lighting of the same lights in a
   * scene without objects: the only difference is the shadow test.
   */
  lemma {:induction false} LightingSumIsUnshadowed(lights: seq<Light>, point: Vec3, normal: Vec3,
                                                   pointToCamera: Vec3, specular: real, m: Math, rtScene: RT.Scene)
    requires m.Valid() && rtScene.objects == []
    ensures LightingSum(lights, point, normal, pointToCamera, specular, m) ==
            RT.LightingSum(AsRtLights(lights), AsPoint(point), normal, pointToCamera, specular, rtScene, m)
  {
    if lights != [] {
      var n := |lights| - 1;
      LightingSumIsUnshadowed(lights[..n], point, normal, pointToCamera, specular, m, rtScene);
      assert AsRtLights(lights)[..n] == AsRtLights(lights[..n]);
      ContributionIsUnshadowed(lights[n], point, normal, pointToCamera, specular, m, rtScene);
    }
  }

  lemma LightingIsUnshadowed(lights: seq<Light>, point: Vec3, normal: Vec3, pointToCamera: Vec3, specular: real, m: Math)
    requires m.Valid()
    ensures Lighting(lights, point, normal, pointToCamera, specular, m) ==
            RT.Lighting(AsPoint(point), normal, RT.Scene(AsRtLights(lights), []), pointToCamera, specular, m)
  {
    LightingSumIsUnshadowed(lights, point, normal, pointToCamera, specular, m, RT.Scene(AsRtLights(lights), []));
  }

  /** `compute_lightning`: the lights accumulated in order, capped at 1. */
  method ComputeLighting(point: Vec3, normal: Vec3, lights: seq<Light>, pointToCamera: Vec3, specular: real, m: Math)
    returns (intensity: real)
    requires m.Valid()
    ensures intensity == Lighting(lights, point, normal, pointToCamera, specular, m)
  {
    intensity := 0.0;
    for k := 0 to |lights|
      invariant intensity == LightingSum(lights[..k], point, normal, pointToCamera, specular, m)
    {
      assert lights[..k + 1][..k] == lights[..k];
      intensity := AddLight(intensity, lights[k], point, normal, pointToCamera, specular, m);
    }
    assert lights[..|lights|] == lights;
    intensity := if intensity <= 1.0 then intensity else 1.0;
  }

  /** One turn of the loop of `compute_lightning`: what one light adds to `intensity`. */
  method AddLight(intensity: real, light: Light, point: Vec3, normal: Vec3, pointToCamera: Vec3, specular: real, m: Math)
    returns (r: real)
    requires m.Valid()
    ensures r == intensity + Contribution(light, point, normal, pointToCamera, specular, m)
  {
    r := intensity;
    if light.Ambient? {
      r := r + light.intensity;
    } else if light.Directional? {
      r := r + Max(DiffuseLight(normal, light.direction, light.intensity, m), 0.0);
      r := r + light.intensity * SpecularLight(pointToCamera, normal, light.direction, specular, m);
    } else {
      var lightRay := Sub(light.position, point);
      r := r + Max(DiffuseLight(normal, lightRay, light.intensity, m), 0.0);
      r := r + light.intensity * SpecularLight(pointToCamera, normal, lightRay, specular, m);
    }
  }

  /** The sphere's colour scaled by `light` through `set`; its alpha is kept. */
  function Shade(c: Mfb, light: real): (r: Mfb)
    requires 0.0 <= light <= 1.0
    ensures r.a == c.a
  {
    ScaleInUnitCube(c.AsRgbVec(), light);
    UnitCubeSettable(ScaleRgb(c.AsRgbVec(), light));
    c.WithRgb(ScaleRgb(c.AsRgbVec(), light))
  }

  /** Full light leaves the colour as it is. */
  lemma ShadeFullLight(c: Mfb)
    ensures Shade(c, 1.0) == c
  {
    var v := c.AsRgbVec();
    assert ScaleRgb(v, 1.0) == v;
    WithOwnRgb(c);
  }

  /** Light never brightens a channel: each one is at most the sphere's own. */
  lemma ShadeDarkens(c: Mfb, light: real)
    requires 0.0 <= light <= 1.0
    ensures var r := Shade(c, light); r.r <= c.r && r.g <= c.g && r.b <= c.b
  {
    ScaledDarkens(c, light);
  }

  /** The colour `trace_ray` computes for a ray: the background on a miss, else the shaded nearest sphere. */
  function RayColor(origin: Vec3, ray: Vec3, tMin: real, tMax: Float, scene: Scene, background: Mfb, m: Math): Mfb
    requires m.Valid() && Physical(scene.lights)
  {
    var h := Closest(scene, origin, ray, tMin, tMax, m);
    if h.obj.None? then background
    else
      var s := scene.objects[h.obj.value];
      var point := Add(origin, Scale(ray, h.t.v));
      var normal := m.normalize(Sub(point, s.position));
      var light := Lighting(scene.lights, point, normal, Scale(ray, -1.0), s.specular, m);
      LightingInUnitRange(scene.lights, point, normal, Scale(ray, -1.0), s.specular, m);
      Shade(s.color, light)
  }

  /** With no root of any object in [t_min, t_max] the ray shows the background. */
  lemma RayColorMiss(origin: Vec3, ray: Vec3, tMin: real, tMax: Float, scene: Scene, background: Mfb, m: Math)
    requires m.Valid() && Physical(scene.lights)
    requires forall k | 0 <= k < |scene.objects| ::
               var r := IntersectRaySphere(origin, ray, scene.objects[k], m);
               !Candidate(r.t1, tMin, tMax) && !Candidate(r.t2, tMin, tMax)
    ensures RayColor(origin, ray, tMin, tMax, scene, background, m) == background
  {
    ScanIsNearest(RootsOf(scene, origin, ray, m), tMin, tMax);
  }

  /** On a hit the ray shows the nearest sphere's colour, never brighter, with its alpha. */
  lemma RayColorHit(origin: Vec3, ray: Vec3, tMin: real, tMax: Float, scene: Scene, background: Mfb, m: Math)
    requires m.Valid() && Physical(scene.lights)
    requires Closest(scene, origin, ray, tMin, tMax, m).obj.Some?
    ensures var s := scene.objects[Closest(scene, origin, ray, tMin, tMax, m).obj.value];
            var c := RayColor(origin, ray, tMin, tMax, scene, background, m);
            c.a == s.color.a && c.r <= s.color.r && c.g <= s.color.g && c.b <= s.color.b
  {
    var h := Closest(scene, origin, ray, tMin, tMax, m);
    var s := scene.objects[h.obj.value];
    var point := Add(origin, Scale(ray, h.t.v));
    var normal := m.normalize(Sub(point, s.position));
    LightingInUnitRange(scene.lights, point, normal, Scale(ray, -1.0), s.specular, m);
    ShadeDarkens(s.color, Lighting(scene.lights, point, normal, Scale(ray, -1.0), s.specular, m));
  }

  /**
   * `trace_ray`: the inline nearest-hit scan, then the hit sphere's colour copied and
   * `set` to itself scaled by the light value.
   */
  method TraceRay(origin: Vec3, ray: Vec3, tMin: real, tMax: Float, scene: Scene, background: Mfb, m: Math)
    returns (color: Mfb)
    requires m.Valid() && Physical(scene.lights)
    ensures color == RayColor(origin, ray, tMin, tMax, scene, background, m)
  {
    var closestT := PosInf;
    var closestObject: Option<nat> := None;
    ghost var rs := RootsOf(scene, origin, ray, m);
    for k := 0 to |scene.objects|
      invariant Hit(closestObject, closestT) == Scan(rs[..k], tMin, tMax)
    {
      var r := IntersectRaySphere(origin, ray, scene.objects[k], m);
      if Improves(r.t1, closestT, tMin, tMax) {
        closestObject := Some(k);
        closestT := r.t1;
      }
      if Improves(r.t2, closestT, tMin, tMax) {
        closestObject := Some(k);
        closestT := r.t2;
      }
      assert rs[..k + 1][..k] == rs[..k];
    }
    assert rs[..|rs|] == rs;
    if closestObject.None? {
      return background;
    }
    var s := scene.objects[closestObject.value];
    var point := Add(origin, Scale(ray, closestT.v));
    var normal := m.normalize(Sub(point, s.position));
    var cell := new MfbCell(s.color);
    var light := ComputeLighting(point, normal, scene.lights, Scale(ray, -1.0), s.specular, m);
    LightingInUnitRange(scene.lights, point, normal, Scale(ray, -1.0), s.specular, m);
    ScaleInUnitCube(cell.Value().AsRgbVec(), light);
    UnitCubeSettable(ScaleRgb(cell.Value().AsRgbVec(), light));
    var _ := cell.Set(ScaleRgb(cell.Value().AsRgbVec(), light));
    color := cell.Value();
  }

  /** `canvas_to_viewport` of this renderer. */
  function CanvasToViewport(x: int, y: int, canvas: RT.Canvas, viewport: Viewport): Vec3
    requires canvas.width > 0 && canvas.height > 0
  {
    Vec3(x as real * viewport.width / canvas.width as real,
         y as real * viewport.height / canvas.height as real,
         viewport.distance)
  }

  /** Canvas units map proportionally onto the viewport, on the plane z = distance. */
  lemma CanvasToViewportScales(x: int, y: int, canvas: RT.Canvas, viewport: Viewport)
    requires canvas.width > 0 && canvas.height > 0
    ensures CanvasToViewport(x, y, canvas, viewport).z == viewport.distance
    ensures CanvasToViewport(x, y, canvas, viewport).x * canvas.width as real == x as real * viewport.width
    ensures CanvasToViewport(x, y, canvas, viewport).y * canvas.height as real == y as real * viewport.height
  {
  }

  /** The colour of pixel (i, j): x = i - w/2, y = w/2 - j, traced with t in [1, +inf) on the default background. */
  function PixelColor(i: nat, j: nat, canvas: RT.Canvas, viewport: Viewport, scene: Scene, m: Math): Mfb
    requires m.Valid() && Physical(scene.lights) && i < canvas.width && j < canvas.height
  {
    RayColor(viewport.position, CanvasToViewport(i - RT.Half(canvas.width), RT.Half(canvas.width) - j, canvas, viewport),
      1.0, PosInf, scene, NoColor, m)
  }

  /** Pixel (i, j) of column x = i - w/2: y = w/2 - j, its viewport ray traced. */
  method TracePixel(i: nat, j: nat, x: int, canvas: RT.Canvas, viewport: Viewport, scene: Scene, m: Math)
    returns (color: Mfb)
    requires m.Valid() && Physical(scene.lights) && i < canvas.width && j < canvas.height
    requires x == i - canvas.width / 2
    ensures color == PixelColor(i, j, canvas, viewport, scene, m)
  {
    var y := canvas.width / 2 - j;
    var ray := CanvasToViewport(x, y, canvas, viewport);
    RT.HalfIsDiv(canvas.width);
    assert ray == CanvasToViewport(i - RT.Half(canvas.width), RT.Half(canvas.width) - j, canvas, viewport);
    color := TraceRay(viewport.position, ray, 1.0, PosInf, scene, NoColor, m);
  }

  /** Distinct pixels have distinct slots i + j*w. */
  lemma SlotInjective(i: nat, j: nat, i': nat, j': nat, w: nat, h: nat)
    requires i < w && j < h && i' < w && j' < h
    requires RT.Slot(i, j, w, h) == RT.Slot(i', j', w, h)
    ensures i == i' && j == j'
  {
    if j < j' {
      RT.RowStartMonotone(j, j', w);
    } else if j' < j {
      RT.RowStartMonotone(j', j, w);
    }
  }

  /**
   * `render1`: column by column, pixel (i, j) is traced and stored at buffer[i + j*w];
   * slots from w*h (RT.RowStart(h, w)) on are left as they were.
   */
  method Render1(buffer: array<Mfb>, canvas: RT.Canvas, viewport: Viewport, scene: Scene, m: Math)
    requires m.Valid() && Physical(scene.lights) && RT.RowStart(canvas.height, canvas.width) <= buffer.Length
    modifies buffer
    ensures forall i: nat, j: nat | i < canvas.width && j < canvas.height ::
              buffer[RT.Slot(i, j, canvas.width, canvas.height)] == PixelColor(i, j, canvas, viewport, scene, m)
    ensures forall k | RT.RowStart(canvas.height, canvas.width) <= k < buffer.Length :: buffer[k] == old(buffer[k])
  {
    var w, h := canvas.width, canvas.height;
    for i := 0 to w
      invariant forall ii: nat, jj: nat {:trigger PixelColor(ii, jj, canvas, viewport, scene, m)} | ii < i && jj < h ::
                  buffer[RT.Slot(ii, jj, w, h)] == PixelColor(ii, jj, canvas, viewport, scene, m)
      invariant forall k | RT.RowStart(h, w) <= k < buffer.Length :: buffer[k] == old(buffer[k])
    {
      label before:
      ColumnTask(buffer, canvas, viewport, scene, m, i);
      forall ii: nat, jj: nat | ii < i && jj < h
        ensures buffer[RT.Slot(ii, jj, w, h)] == PixelColor(ii, jj, canvas, viewport, scene, m)
      {
        assert buffer[RT.Slot(ii, jj, w, h)] == old@before(buffer[RT.Slot(ii, jj, w, h)]);
      }
    }
  }

  /** Column i: x = i - w/2, and for each j, y = w/2 - j; every other slot is left alone. */
  method ColumnTask(buffer: array<Mfb>, canvas: RT.Canvas, viewport: Viewport, scene: Scene, m: Math, i: nat)
    requires m.Valid() && Physical(scene.lights) && i < canvas.width
    requires RT.RowStart(canvas.height, canvas.width) <= buffer.Length
    modifies buffer
    ensures forall j: nat {:trigger PixelColor(i, j, canvas, viewport, scene, m)} | j < canvas.height ::
              buffer[RT.Slot(i, j, canvas.width, canvas.height)] == PixelColor(i, j, canvas, viewport, scene, m)
    ensures forall ii: nat, jj: nat | ii < canvas.width && jj < canvas.height && ii != i ::
              buffer[RT.Slot(ii, jj, canvas.width, canvas.height)] == old(buffer[RT.Slot(ii, jj, canvas.width, canvas.height)])
    ensures forall k | RT.RowStart(canvas.height, canvas.width) <= k < buffer.Length :: buffer[k] == old(buffer[k])
  {
    var w, h := canvas.width, canvas.height;
    var x := i - w / 2;
    for j := 0 to h
      invariant forall jj: nat {:trigger PixelColor(i, jj, canvas, viewport, scene, m)} | jj < j ::
                  buffer[RT.Slot(i, jj, w, h)] == PixelColor(i, jj, canvas, viewport, scene, m)
      invariant forall ii: nat, jj: nat | ii < w && jj < h && ii != i ::
                  buffer[RT.Slot(ii, jj, w, h)] == old(buffer[RT.Slot(ii, jj, w, h)])
      invariant forall k | RT.RowStart(h, w) <= k < buffer.Length :: buffer[k] == old(buffer[k])
    {
      var color := TracePixel(i, j, x, canvas, viewport, scene, m);
      Store(buffer, i, j, w, h, color);
    }
  }

  /** buffer[i + j*w] := color, which leaves every other pixel's slot and the tail as they were. */
  method Store(buffer: array<Mfb>, i: nat, j: nat, w: nat, h: nat, color: Mfb)
    requires i < w && j < h && RT.RowStart(h, w) <= buffer.Length
    modifies buffer
    ensures buffer[RT.Slot(i, j, w, h)] == color
    ensures forall ii: nat, jj: nat | ii < w && jj < h && (ii, jj) != (i, j) ::
              buffer[RT.Slot(ii, jj, w, h)] == old(buffer[RT.Slot(ii, jj, w, h)])
    ensures forall k | RT.RowStart(h, w) <= k < buffer.Length :: buffer[k] == old(buffer[k])
  {
    var index := RT.Slot(i, j, w, h);
    buffer[index] := color;
    forall ii: nat, jj: nat | ii < w && jj < h && (ii, jj) != (i, j)
      ensures buffer[RT.Slot(ii, jj, w, h)] == old(buffer[RT.Slot(ii, jj, w, h)])
    {
      if RT.Slot(ii, jj, w, h) == index {
        SlotInjective(ii, jj, i, j, w, h);
      }
    }
  }
}
