/**
 * The per-light shading terms, identical in libraytracer/render.cpp and
 * soft-render/render.cpp: the diffuse (Lambert) term and the specular (Phong) factor.
 * The light ray points from the shaded point toward the light.
 */
module Shading {
  import opened Affine
  import opened Numerics

  /** intensity * cos(angle between the normal and the light ray); not floored here. */
  function DiffuseLight(normal: Vec3, lightRay: Vec3, intensity: real, m: Math): real {
    intensity * Dot(normal, m.normalize(lightRay))
  }

  /**
   * A light of non-negative intensity lights a surface that faces it (non-negative
   * cosine) by a non-negative amount and one that faces away by a non-positive amount;
   * the term is proportional to the intensity.
   */
  lemma DiffuseLightSign(normal: Vec3, lightRay: Vec3, intensity: real, m: Math)
    requires intensity >= 0.0
    ensures Dot(normal, m.normalize(lightRay)) >= 0.0 ==> DiffuseLight(normal, lightRay, intensity, m) >= 0.0
    ensures Dot(normal, m.normalize(lightRay)) <= 0.0 ==> DiffuseLight(normal, lightRay, intensity, m) <= 0.0
    ensures DiffuseLight(normal, lightRay, intensity, m) == intensity * DiffuseLight(normal, lightRay, 1.0, m)
  {
    var c := Dot(normal, m.normalize(lightRay));
    if c >= 0.0 {
      MulNonNegative(intensity, c);
    } else {
      MulNonNegative(intensity, -c);
    }
  }

  /** The light ray mirrored about the normal, as the specular term writes it: n<n,l>*2 - l. */
  function SpecularReflection(normal: Vec3, lightRay: Vec3): Vec3 {
    Sub(Scale(Scale(normal, Dot(normal, lightRay)), 2.0), lightRay)
  }

  /**
   * The specular factor (r.v / (|r| |v|))^specular for the mirrored light ray r and the
   * view vector v. It is 0 when specular highlights are disabled (specular <= -1) and
   * when the mirrored ray points away from the camera, and it is never negative.
   */
  function SpecularLight(pointToCamera: Vec3, normal: Vec3, lightRay: Vec3, specular: real, m: Math): (r: real)
    requires m.Valid()
    ensures specular <= -1.0 ==> r == 0.0
    ensures Dot(SpecularReflection(normal, lightRay), pointToCamera) <= 0.0 ==> r == 0.0
    ensures r >= 0.0
  {
    if specular <= -1.0 then 0.0
    else
      var reflected := SpecularReflection(normal, lightRay);
      var rDotV := Dot(reflected, pointToCamera);
      if rDotV > 0.0 then
        PositiveCosine(reflected, pointToCamera, m);
        m.pow(rDotV / (m.length(reflected) * m.length(pointToCamera)), specular)
      else
        0.0
  }

  /** A positive dot product has non-zero factors, so the cosine quotient is defined and positive. */
  lemma PositiveCosine(u: Vec3, v: Vec3, m: Math)
    requires m.Valid() && Dot(u, v) > 0.0
    ensures m.length(u) * m.length(v) > 0.0
    ensures Dot(u, v) / (m.length(u) * m.length(v)) > 0.0
  {
    DotZero(v);
    DotZero(u);
    assert u != Zero && v != Zero;
    var lu, lv := m.length(u), m.length(v);
    MulPositive(lu, lv);
    var q := lu * lv;
    var d := Dot(u, v);
    assert d / q > 0.0;
  }
}
