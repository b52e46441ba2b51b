# soft-render, modelled in Dafny

soft-render is a small C++ sphere ray tracer. This project models its computational core and proves what that code promises:

- **libraytracer ray tracer** (`libraytracer/libraytracer/render.cpp`):
  - ray-sphere intersection by the quadratic formula;
  - the nearest-hit scan `closest_intersection`;
  - ambient, directional and point lighting with shadow rays, and the diffuse and specular terms;
  - `reflect_ray`;
  - the recursive `trace_ray`, whose depth counter bounds the reflections;
  - the serial path of `renderer::render1`, which fills a row-major frame buffer row by row.
- **the earlier renderer** (`soft-render/render.cpp`): the same solver and scan, lighting without shadows, no reflection, `mfb_color` pixels, and a column-by-column fill.
- **`mfb_color`** (`soft-render/mfb_color.hpp`): four byte fields, the 32-bit packing, the conversion to and from float channels, the in-place `set`, and the defaulted comparison.
- **`make_float_rgb`** and the predefined float colours (`libcommon/libcommon/color.cpp`, `color.hpp`).
- **the glm vector formatter** (`libcommon/libcommon/glm.hpp`): `parse` builds a per-element template in a 20-byte buffer, and `format` writes the elements between parentheses, separated by ", ".
- **`say_hello`** (`libraster/libraster/raster.cpp`) and its two driver tests.

How things are modelled:

- Floats are `real`. The comparisons of roots and ray parameters use `Intersection.Float`, a real extended with IEEE-754's +inf, -inf and NaN. The "no root" value (+inf), a degenerate ray's division by zero, and `t_max = +inf` therefore behave as the C++ comparisons do.
- `std::sqrt`, `std::pow`, `glm::normalize` and `glm::length` are parameters of type `Numerics.Math`. `Math.Valid()` lists the only facts assumed about them.
- The camera rotation is an opaque vector function in the viewport.

Module layout:

| module | contents |
|---|---|
| `Affine` | vectors and points |
| `Intersection` | the quadratic solver and the nearest-hit scan, with its independent characterisation `IsNearest` |
| `Shading` | the diffuse and specular terms, which both renderers share |
| `Color` | float colours |
| `MfbColor` | byte colours |
| `RayTracer` | libraytracer |
| `SoftRender` | the earlier renderer, with lemmas relating it to `RayTracer` |
| `GlmFormat` | the formatter |
| `Raster` | `say_hello` |

Where the code does something surprising, the model follows the code:

- Both renderers compute the vertical coordinate as `y = w/2 - j`, from the canvas **width** (libraytracer render.cpp:247, soft-render render.cpp:188). So does `PixelRay`.
- `parse` leaves the template "{}" for a one-character specification, because it tests `tpl_[1]`.
- The earlier renderer repeats libraytracer's root collection and nearest-hit scan, and its `std::max` floor, over its own sphere type. `SoftRender.RootsOf`, `SoftRender.Closest` and `SoftRender.Max` repeat the `RayTracer` definitions in the same way.

## Model

| member | source | states |
|---|---|---|
| Intersection.SolveQuadratic | libraytracer/libraytracer/render.cpp:150-158 | the quadratic formula with `std::sqrt` of the discriminant, or (+inf, +inf) when it is negative; a division by 2a = 0 gives an IEEE infinity or NaN; SolveQuadraticSpec and QuadraticRootsComplete state what it returns |
| Intersection.SolveQuadraticSpec | libraytracer/libraytracer/render.cpp:150-158 | (+inf, +inf) exactly when b*b - 4ac < 0; otherwise, for a != 0, both results are finite roots of a t^2 + b t + c, and t1 >= t2 when a > 0 |
| Intersection.QuadraticRootsComplete | libraytracer/libraytracer/render.cpp:150-158 | every real root of a proper quadratic is t1 or t2, and the discriminant is then non-negative |
| RayTracer.IntersectRaySphere | libraytracer/libraytracer/render.cpp:135-159 | the solver applied to a = <D,D>, b = 2<CO,D>, c = <CO,CO> - r^2; the next three rows state its meaning |
| RayTracer.IntersectRaySphereSpec | libraytracer/libraytracer/render.cpp:135-159 | `intersect_ray_sphere` gives (+inf, +inf) iff the discriminant of a = <D,D>, b = 2<CO,D>, c = <CO,CO> - r^2 is negative; otherwise, for a non-zero ray, two finite parameters t1 >= t2 whose points lie on the sphere |
| RayTracer.OnSphereIff | libraytracer/libraytracer/render.cpp:120-148 | the point at t lies on the sphere iff t solves the quadratic with those coefficients |
| RayTracer.IntersectRaySphereComplete | libraytracer/libraytracer/render.cpp:135-159 | every t at which a non-zero ray meets the sphere is one of the two returned roots |
| SoftRender.IntersectRaySphere | soft-render/render.cpp:106-130 | the same quadratic built from CO = origin - centre; IntersectAgrees shows it equals libraytracer's |
| SoftRender.IntersectAgrees | soft-render/render.cpp:106-130 | soft-render's `intersect_ray_sphere` computes exactly libraytracer's roots for the same sphere and ray |
| SoftRender.SameQuadratic | soft-render/render.cpp:114-119 | soft-render's b and c coefficients equal libraytracer's |
| Intersection.Scan | libraytracer/libraytracer/render.cpp:167-183 | the scan's result is (null, +inf), or an object index with a finite root of that object in [t_min, t_max] |
| Intersection.ScanIsNearest | libraytracer/libraytracer/render.cpp:169-178 | the scan finds the nearest hit (IsNearest): null only when no object has an admissible root; otherwise closest_t is <= every admissible root of every object and < every admissible root of the earlier objects, so the first object wins a tie |
| Intersection.NearestUnique | libraytracer/libraytracer/render.cpp:169-178 | at most one hit satisfies IsNearest, so it determines the scan's result |
| Intersection.ImprovesIff | libraytracer/libraytracer/render.cpp:171-178 | against +inf or a finite incumbent, the replacement test is "admissible and strictly smaller" |
| RayTracer.Closest | libraytracer/libraytracer/render.cpp:164-184 | the nearest hit as the scan over the objects' roots in scene order; a hit names an object of the scene at a finite t; ClosestIsNearest characterises it |
| RayTracer.ClosestIntersection | libraytracer/libraytracer/render.cpp:164-184 | the loop over objects returns the scan's hit (object index and closest_t) |
| RayTracer.ClosestIsNearest | libraytracer/libraytracer/render.cpp:164-184 | `closest_intersection` returns the nearest hit |
| Shading.DiffuseLight | libraytracer/libraytracer/render.cpp:21-26 | intensity times the cosine <normal, normalize(light_ray)>, not floored here; Contribution floors it at 0, which ContributionNonNegative relies on |
| Shading.DiffuseLightSign | libraytracer/libraytracer/render.cpp:21-26 | for a non-negative intensity the term is >= 0 when the normal faces the light (non-negative cosine) and <= 0 when it faces away, and it is proportional to the intensity |
| Shading.SpecularLight | libraytracer/libraytracer/render.cpp:34-54 | 0 when specular <= -1 or r·v <= 0; never negative |
| Shading.PositiveCosine | libraytracer/libraytracer/render.cpp:47-50 | when r·v > 0 the quotient passed to `pow` has a positive denominator and is positive |
| RayTracer.Contribution | libraytracer/libraytracer/render.cpp:63-100 | an ambient light adds its intensity unconditionally; a shadowed directional or point light adds 0 |
| RayTracer.ContributionNonNegative | libraytracer/libraytracer/render.cpp:96-100 | a light of non-negative intensity never adds a negative amount: the diffuse term is floored at 0 and the specular factor is non-negative |
| RayTracer.ShadowedLightContributesNothing | libraytracer/libraytracer/render.cpp:68-94 | a directional or point light adds nothing once any object has a root in [0.001, t_max] along the light ray; t_max is +inf for directional lights and 1 for point lights, whose ray is position - point |
| RayTracer.LitContribution | libraytracer/libraytracer/render.cpp:96-100 | an unshadowed directional or point light adds max(diffuse, 0) + intensity * specular |
| RayTracer.Lighting | libraytracer/libraytracer/render.cpp:103 | the light intensity never exceeds 1.0 |
| RayTracer.LightingInUnitRange | libraytracer/libraytracer/render.cpp:59-104 | with non-negative intensities the light intensity lies in [0, 1] |
| RayTracer.LightingSum | libraytracer/libraytracer/render.cpp:61-102 | the running sum of the lights' contributions in scene order; LightingSumStep, LightingSumNonNegative and ComputeLighting relate it to the loop |
| RayTracer.LightingSumNonNegative | libraytracer/libraytracer/render.cpp:61-102 | the accumulated sum over non-negative lights is non-negative |
| RayTracer.LightingSumStep | libraytracer/libraytracer/render.cpp:62 | the sum over one more light adds that light's contribution |
| RayTracer.ComputeLighting | libraytracer/libraytracer/render.cpp:59-104 | the loop accumulating over the lights and capping at 1 computes Lighting |
| RayTracer.AddLight | libraytracer/libraytracer/render.cpp:68-100 | one turn of the loop for a directional or point light adds exactly that light's contribution |
| RayTracer.ReflectRay | libraytracer/libraytracer/render.cpp:186-188 | 2 n <n, ray> - ray, the ray mirrored about n; the next three rows state its meaning |
| RayTracer.ReflectRayKeepsNormalComponent | libraytracer/libraytracer/render.cpp:186-188 | for a unit normal the reflected ray has the same component along the normal |
| RayTracer.ReflectRayInvolution | libraytracer/libraytracer/render.cpp:186-188 | for a unit normal, reflecting twice gives the ray back |
| RayTracer.ReflectRayPreservesLength | libraytracer/libraytracer/render.cpp:186-188 | for a unit normal, reflection preserves the squared length |
| RayTracer.SpecularReflectionIsReflectRay | libraytracer/libraytracer/render.cpp:44-45 | the mirrored ray of the specular term equals `reflect_ray(light_ray, normal)` |
| RayTracer.CanvasToViewport | libraytracer/libraytracer/render.cpp:110-118 | the canvas point scaled onto the projection plane; CanvasToViewportScales states the proportions |
| RayTracer.CanvasToViewportScales | libraytracer/libraytracer/render.cpp:110-118 | z is viewport.distance, and x and y scale by viewport size over canvas size |
| RayTracer.LocalColor | libraytracer/libraytracer/render.cpp:206-211 | the hit sphere's colour scaled by the light computed at the point with the normalised normal and the reversed ray |
| RayTracer.TraceRay | libraytracer/libraytracer/render.cpp:195-230 | `trace_ray`: background on a miss, the local colour with no depth or reflectivity left, otherwise the background-or-blend of the local and the deeper reflected colour; the rows down to ReflectionInUnitCube state each case and the bounds |
| RayTracer.TraceMissIsBackground | libraytracer/libraytracer/render.cpp:199-204 | with no admissible root of any object, `trace_ray` returns the background colour |
| RayTracer.ShallowIsLocal | libraytracer/libraytracer/render.cpp:206-216 | on a hit with depth <= 0 or reflectivity <= 0, the result is the hit sphere's colour times the computed light |
| RayTracer.Calls | libraytracer/libraytracer/render.cpp:213-222 | at least one activation; exactly one when there is no hit, no depth left or no reflectivity; never more than depth + 1 activations, since each call passes depth - 1 |
| RayTracer.NonReflectiveIgnoresDepth | libraytracer/libraytracer/render.cpp:213-216 | in a scene without reflective spheres the depth does not change the colour |
| RayTracer.MirrorShowsReflection | libraytracer/libraytracer/render.cpp:218-229 | a perfect mirror with depth left shows exactly its reflected colour whenever that differs from the background |
| RayTracer.ReflectiveMixes | libraytracer/libraytracer/render.cpp:218-229 | on a hit of a sphere with reflectivity > 0 and depth > 0, the result is MixReflection of the local colour and the colour traced from the hit point along reflect_ray(-ray, normal) over [0.001, +inf) at depth - 1, by that reflectivity |
| RayTracer.MixReflectionCases | libraytracer/libraytracer/render.cpp:224-229 | a reflection equal to the background leaves the local colour; otherwise every channel is local*(1-k) + reflected*k |
| RayTracer.MixInUnitCube | libraytracer/libraytracer/render.cpp:224-229 | mixing two colours of the unit cube with k in [0, 1] stays in the unit cube |
| RayTracer.TraceInUnitCube | libraytracer/libraytracer/render.cpp:195-230 | with object colours and background in the unit cube, reflectivity <= 1 and non-negative lights, every traced colour lies in the unit cube |
| RayTracer.ReflectionInUnitCube | libraytracer/libraytracer/render.cpp:218-229 | the reflective case of the previous row, one level deeper |
| RayTracer.Render1 | libraytracer/libraytracer/render.cpp:234-291 | after the serial fill, slot j*w + i holds pixel (i, j) traced from the camera with t in [1, +inf) and depth 3, for every i < w and j < h; slots from w*h on are untouched |
| RayTracer.RowsDoneStep | libraytracer/libraytracer/render.cpp:245-288 | finishing row j, with earlier rows kept, extends the finished rows by one |
| RayTracer.RowTask | libraytracer/libraytracer/render.cpp:249-281 | row j's task writes its w traced colours into buffer[j*w .. j*w + w), keeps the earlier rows and leaves everything after row j alone |
| RayTracer.CopyRow | libraytracer/libraytracer/render.cpp:277-278 | the copy puts the row buffer at slots j*w .. j*w + w and changes no other slot |
| RayTracer.TraceRow | libraytracer/libraytracer/render.cpp:251-271 | the row buffer holds pixel (i, j)'s traced colour at index i |
| RayTracer.PixelsDoneStep | libraytracer/libraytracer/render.cpp:252-271 | storing pixel n extends the traced prefix of the row by one |
| RayTracer.TracePixel | libraytracer/libraytracer/render.cpp:254-269 | x = i - w/2 and y = w/2 - j, mapped to the viewport, rotated, and traced from viewport.position with t in [1, +inf), depth 3 and a black background, give the pixel's colour |
| RayTracer.PixelColor | libraytracer/libraytracer/render.cpp:254-269 | pixel (i, j) traced from the camera through x = i - w/2, y = w/2 - j, rotated, over [1, +inf) with depth 3 on black; Render1 and TracePixel are stated against it |
| RayTracer.HalfIsDiv | libraytracer/libraytracer/render.cpp:247-254 | the half width used for centring is w / 2 |
| RayTracer.RowStartIsProduct | libraytracer/libraytracer/render.cpp:278 | row j starts at j*w |
| RayTracer.RowStartMonotone | libraytracer/libraytracer/render.cpp:278 | rows do not overlap: row j ends no later than any later row starts |
| RayTracer.Slot | libraytracer/libraytracer/render.cpp:278 | pixel (i, j)'s slot j*w + i lies inside row j and below w*h |
| RayTracer.RowMajorCoverage | libraytracer/libraytracer/render.cpp:245-278 | every slot k < w*h is the slot of pixel (k % w, k / w), so the fill writes all of [0, w*h) |
| SoftRender.Contribution | soft-render/render.cpp:51-72 | an ambient light adds its intensity; no light is ever shadowed |
| SoftRender.ContributionNonNegative | soft-render/render.cpp:55-72 | a light of non-negative intensity adds a non-negative amount |
| SoftRender.ContributionIsUnshadowed | soft-render/render.cpp:50-72 | each light adds what libraytracer's lighting adds for it when no object can cast a shadow |
| SoftRender.LightingSumIsUnshadowed | soft-render/render.cpp:49-73 | the accumulated sum is libraytracer's sum over the same lights in a scene without objects |
| SoftRender.LightingIsUnshadowed | soft-render/render.cpp:46-75 | the lighting is libraytracer's lighting with the shadow test removed, capped at 1 the same way |
| SoftRender.Lighting | soft-render/render.cpp:74 | never above 1.0 |
| SoftRender.LightingInUnitRange | soft-render/render.cpp:46-75 | with non-negative intensities the light value lies in [0, 1] |
| SoftRender.LightingSumNonNegative | soft-render/render.cpp:49-73 | the accumulated sum over non-negative lights is non-negative |
| SoftRender.ComputeLighting | soft-render/render.cpp:46-75 | the loop over the lights computes Lighting |
| SoftRender.AddLight | soft-render/render.cpp:51-72 | one turn of the loop adds exactly that light's contribution |
| SoftRender.Shade | soft-render/render.cpp:164-170 | the shaded colour keeps the sphere colour's alpha |
| SoftRender.ShadeFullLight | soft-render/render.cpp:164-170 | a light value of 1 leaves the colour unchanged |
| SoftRender.ShadeDarkens | soft-render/render.cpp:164-170 | shading never brightens a channel |
| SoftRender.RayColor | soft-render/render.cpp:136-175 | background on a miss, else the nearest sphere's colour shaded by the unshadowed lighting; RayColorMiss and RayColorHit state both cases |
| SoftRender.RayColorMiss | soft-render/render.cpp:141-160 | with no admissible root of any object, the background colour |
| SoftRender.RayColorHit | soft-render/render.cpp:158-174 | on a hit, the nearest sphere's colour with its alpha, no channel brighter |
| SoftRender.TraceRay | soft-render/render.cpp:136-175 | the inline scan, shading and in-place `set` compute RayColor: the background on a miss, else the nearest sphere shaded, with no recursion |
| SoftRender.CanvasToViewport | soft-render/render.cpp:81-89 | the canvas point scaled onto the projection plane; CanvasToViewportScales states the proportions |
| SoftRender.CanvasToViewportScales | soft-render/render.cpp:81-89 | z is viewport.distance, and x and y scale by viewport size over canvas size |
| SoftRender.PixelColor | soft-render/render.cpp:185-195 | pixel (i, j) traced from the camera through x = i - w/2, y = w/2 - j over [1, +inf) on the default background; Render1 and TracePixel are stated against it |
| SoftRender.TracePixel | soft-render/render.cpp:185-195 | with x = i - w/2 and y = w/2 - j, the ray traced from viewport.position with t in [1, +inf) on the default background gives the pixel's colour |
| SoftRender.SlotInjective | soft-render/render.cpp:196 | distinct pixels have distinct slots i + j*w |
| SoftRender.Store | soft-render/render.cpp:196-198 | storing a pixel sets its slot and no other pixel's slot, and leaves the slots from w*h on alone |
| SoftRender.ColumnTask | soft-render/render.cpp:185-199 | column i gets every pixel's traced colour; other columns and the tail are unchanged |
| SoftRender.Render1 | soft-render/render.cpp:177-201 | column by column, buffer[i + j*w] ends up holding pixel (i, j)'s colour for every i < w and j < h; slots from w*h on are untouched |
| MfbColor.Mfb.ToUint32 | soft-render/mfb_color.hpp:29-32 | the packed value is below 2^32, and a, b, g and r are read back by shifting by 24, 16, 8 and 0 bits and masking |
| MfbColor.UnpackPack | soft-render/mfb_color.hpp:29-32 | unpacking the packed value gives the colour back |
| MfbColor.PackUnpack | soft-render/mfb_color.hpp:29-32 | packing is onto the 32-bit values, so it is a bijection |
| MfbColor.NamedColours | soft-render/mfb_color.hpp:16-27 | the named colours have alpha 0 and set only their own fields |
| MfbColor.Mfb.AsRgbVec | soft-render/mfb_color.hpp:43-45 | every channel is in [0, 1], and channel*255 is the byte |
| MfbColor.Mfb.WithRgb | soft-render/mfb_color.hpp:47-54 | after `set`, r, g and b are the truncated channel*255 values and alpha is unchanged |
| MfbColor.ToByte | soft-render/mfb_color.hpp:48-51 | the conversion to uint8 truncates: x <= v < x + 1 for v >= 0 |
| MfbColor.UnitCubeSettable | soft-render/mfb_color.hpp:47-51 | every colour of the unit cube can be set without overflowing a byte |
| MfbColor.WithOwnRgb | soft-render/mfb_color.hpp:43-54 | setting a colour to its own float channels gives it back |
| MfbColor.ScaledDarkens | soft-render/mfb_color.hpp:43-54 | setting a colour to its channels scaled by k in [0, 1] darkens every channel |
| MfbColor.MfbCell.Set | soft-render/mfb_color.hpp:47-54 | `set` overwrites b, g and r in place, leaves a unchanged and returns the same object |
| MfbColor.Compare | soft-render/mfb_color.hpp:40-41 | a three-way result in {-1, 0, 1} |
| MfbColor.CompareIsOrder | soft-render/mfb_color.hpp:40-41 | the comparison is 0 exactly on equal colours and antisymmetric |
| MfbColor.CompareTransitive | soft-render/mfb_color.hpp:40-41 | "less than" of the defaulted declaration-order comparison is transitive; this describes only that ordering, which the `bool` declaration leaves unusable in the source |
| Color.MakeFloatRgb | libcommon/libcommon/color.cpp:5-13 | each channel is in [0, 1], and channel*255 is that channel's own byte |
| Color.MakeFloatRgbExtremes | libcommon/libcommon/color.cpp:8-10 | bytes 0 map to 0.0, and bytes 255 to 1.0 |
| Color.MakeFloatRgbMonotone | libcommon/libcommon/color.cpp:8-10 | a larger byte gives a larger or equal channel |
| Color.MakeFloatRgbSeparate | libcommon/libcommon/color.cpp:8-10 | each channel depends on its own byte only |
| Color.MakeFloatRgbInjective | libcommon/libcommon/color.cpp:8-10 | distinct byte triples give distinct colours |
| Color.PredefinedColours | libcommon/libcommon/color.hpp:17-20 | red, green and blue are the images of the byte colours (255,0,0), (0,255,0) and (0,0,255); yello's 0.984 lies strictly between two byte values, so no byte triple gives yello |
| Color.ScaleInUnitCube | libcommon/libcommon/color.hpp:8-15 | scaling a colour of the unit cube by k in [0, 1] (`scalable_with<float>`, as `local_color *= light` uses it) stays in the cube |
| Color.BlendInUnitCube | libcommon/libcommon/color.hpp:8-15 | a convex blend of two colours of the unit cube (the `arithmetic` sum of two scaled colours, as trace_ray's last line uses it) stays in the cube |
| GlmFormat.FirstBrace | libcommon/libcommon/glm.hpp:33-36 | the index of the first '}' |
| GlmFormat.Parsed | libcommon/libcommon/glm.hpp:29-42 | the buffer keeps its 20 characters and its first character |
| GlmFormat.VecFormatter.Parse | libcommon/libcommon/glm.hpp:10-50 | `parse` returns 0 for an empty range, otherwise the position of the first '}'; the throw branch is unreachable; the buffer becomes Parsed: unchanged for an empty range or a one-character specification, otherwise ":" + spec + "}" from index 1 |
| GlmFormat.VecFormatter.ScanSpec | libcommon/libcommon/glm.hpp:32-37 | the scan copies the specification up to its first '}' into the scratch buffer, adds '}' and stops at that '}' |
| GlmFormat.VecFormatter.CopySpec | libcommon/libcommon/glm.hpp:40 | `std::copy` puts scratch[0 .. n] at template index 2 and changes nothing else |
| GlmFormat.TemplateOfParse | libcommon/libcommon/glm.hpp:8-42 | from the initial "{}" buffer, for a specification of at most 16 characters with no NUL before its '}', the template text becomes "{}" for an empty range or a one-character specification, and "{:" + spec + "}" otherwise |
| GlmFormat.ParsedTerminated | libcommon/libcommon/glm.hpp:8-42 | a specification of at most 16 characters leaves a NUL in the buffer, so the text `fmt::runtime(tpl)` reads ends inside it |
| GlmFormat.FullSpecUnterminated | libcommon/libcommon/glm.hpp:30-40 | a 17-character specification is copied in bounds but fills all 20 bytes with "{:" + spec + "}", leaving no NUL |
| GlmFormat.TemplateExamples | libcommon/libcommon/glm.hpp:38-41 | "" and "f}" give "{}"; ".3f}" gives "{:.3f}"; "}" gives "{:}" |
| GlmFormat.CString | libcommon/libcommon/glm.hpp:56 | the template text is the buffer's prefix before the first NUL |
| GlmFormat.CStringAppend | libcommon/libcommon/glm.hpp:56 | a NUL-free prefix is kept whole in the text |
| GlmFormat.VecFormatter.Format | libcommon/libcommon/glm.hpp:52-65 | for a template buffer that holds a NUL, `format` writes "(" + the elements through the template, joined by ", ", + ")" |
| GlmFormat.EmittedJoin | libcommon/libcommon/glm.hpp:54-61 | after n elements the loop has written "(", the first n joined by ", ", and ", " unless it is done |
| GlmFormat.JoinLength | libcommon/libcommon/glm.hpp:55-61 | joining L >= 1 parts inserts exactly L - 1 separators |
| GlmFormat.FormattedLength | libcommon/libcommon/glm.hpp:54-62 | the output's length is 2 for the parentheses, plus the elements, plus 2 for each of the L - 1 separators |
| Raster.Greeting | libraster/libraster/raster.cpp:15 | the greeting is |n| + 9 characters long: "Hello, ", then n unchanged, then "!\n" |
| Raster.GreetedGreeting | libraster/libraster/raster.cpp:15 | the name can be read back from its greeting |
| Raster.GreetingInjective | libraster/libraster/raster.cpp:15 | distinct names give distinct greetings |
| Raster.SayHello | libraster/libraster/raster.cpp:10-16 | an empty name fails with "empty name" and writes nothing; any other name passes and appends exactly its greeting |
| Raster.Basics | libraster/tests/basics/driver.cpp:15-21 | greeting "World" on a fresh stream writes "Hello, World!\n" |
| Raster.EmptyName | libraster/tests/basics/driver.cpp:23-34 | an empty name fails with "empty name" and writes nothing |

## Left out

- The thread pool, the latch and the mutex of `renderer::render1` are concurrency. Only the serial `mt_disabled` path is modelled, with the tasks run in row order.
- IEEE-754 rounding is not modelled: arithmetic is on reals. Only the infinities and NaN that the comparisons see are kept.
- `sqrt`, `pow`, `normalize` and `length` (glm and the standard library) are function parameters. The model assumes only the facts in `Math.Valid()`. The affine-space wrappers over glm are plain real vector operations.
- The camera's rotation matrix product is an opaque vector function.
- The debug `fmt::println` calls, the commented-out prints and the empty `if` in the scans have no effect on results.
- Window creation, the event loop, keyboard input and the drivers `soft-render/main.cpp` and `soft-render.cpp` are not part of this model.
- The copies of `say_hello` in libraytracer and libcommon, the declaration-only headers and the version headers add no behaviour of their own.
- `operator<<` on `mfb_color` and the `std::endl` flush are stream I/O. A stream is modelled as the text written so far.
- MfbColor.Compare: the header declares the defaulted `<=>` with return type `bool`, which is not a comparison category, so C++ defines that operator as deleted and the source provides no usable ordering; only the implicitly declared `==` is usable (soft-render/render.cpp:171). Compare models what a defaulted three-way comparison in declaration order b, g, r, a would give; CompareIsOrder's equality case is the part the source can use.
- MfbColor.Mfb.ToUint32: the shifts and ors are written as the weighted sum they equal on disjoint byte fields.
- RayTracer.CanvasToViewport: requires a non-empty canvas. The float division by a zero width is not modelled.
- SoftRender.CanvasToViewport: requires a non-empty canvas, for the same reason.
- RayTracer.Calls: a ghost count that follows TraceRay's branches by construction. No lemma ties it to an execution of TraceRay, since a function has no activations to count.
- SoftRender.TraceRay: requires every light intensity to be non-negative, so that the light value lies in [0, 1] and `set` is defined. The C++ float-to-uint8 conversion is undefined only when a truncated channel*light*255 is -1 or below (or 256 or above). The requirement therefore also excludes scenes the C++ renders with defined results: a negative light whose summed lighting stays non-negative (ambient 0.5 with a directional light of -0.1), and a negative light value small enough that every channel*light*255 stays above -1 and truncates to 0. RayColor, PixelColor, TracePixel, ColumnTask and Render1 carry the same requirement.
- SoftRender.RayColor: requires non-negative light intensities, for the reason given on the SoftRender.TraceRay line.
- SoftRender.PixelColor: requires non-negative light intensities, for the reason given on the SoftRender.TraceRay line.
- SoftRender.TracePixel: requires non-negative light intensities, for the reason given on the SoftRender.TraceRay line.
- SoftRender.ColumnTask: requires non-negative light intensities, for the reason given on the SoftRender.TraceRay line.
- SoftRender.Render1: requires non-negative light intensities, for the reason given on the SoftRender.TraceRay line.
- GlmFormat.VecFormatter.Parse: requires that a non-empty range holds a '}' and that at most 17 characters come before it, so that the copy stays inside the 20-byte buffers. Outside that, the C++ reads or writes out of bounds, which is undefined behaviour.
- GlmFormat.VecFormatter.Format: requires the template buffer to hold a NUL. After a 17-character specification it holds none (FullSpecUnterminated), and the C string read of `fmt::runtime(tpl)` then runs past the 20 bytes, which is undefined behaviour; TemplateOfParse is stated only for specifications of at most 16 characters for the same reason.
- GlmFormat.TemplateOfParse: also requires that no NUL comes before the specification's '}'. `parse` copies such a NUL into the buffer, and the text `fmt::runtime(tpl)` reads then ends at it, so the template is cut short; the lemma does not describe that case.
- GlmFormat.VecFormatter.Format: each element's formatting by `fmt::format_to` through the template is a parameter `element`.
- RayTracer.RowStart and RayTracer.Half: the products j*w and the quotient w/2 are written as recursive sums. RowStartIsProduct and HalfIsDiv prove them equal.
- The buffer is an array that the caller sizes to at least w*h. The C++ `std::vector` is assumed to have that size. The model states the size as a requirement.
