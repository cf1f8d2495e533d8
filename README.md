# Ray tracer engine in Dafny

This project models the engine of a small C path tracer of the "Ray Tracing in
One Weekend" kind. It covers four parts:

- the ray–sphere intersection `sphere_hit`;
- the nearest-hit scan `hit` over the world;
- the material scatter functions (lambertian, metal, dielectric) and their dispatch `scatter`;
- the bounded recursion `ray_color`, and the two `write_color` variants that turn an accumulated pixel colour into three integers.

Doubles are modelled as exact reals. The hit record is modelled as a class.
`sphere_hit` and `hit` overwrite its fields in place. Pure functions say what
those updates compute (`SphereRoot`, `Accept`, `Step`, `Scan`), and lemmas tie
them to the geometry. In particular, the accepted root is the nearest point
of the sphere in range, and the record left by `hit` describes the nearest sphere.

Files and modules:

| file | module | models |
|---|---|---|
| vectors.dfy | `Vectors` | `vec3_t`/`color_t`, dot product, `reflect`, facts about products and unit vectors |
| primitives.dfy | `Primitives` | the helpers whose code is not part of this model (`sqrt`, `unit_vector`, `refract`, `near_zero`, `reflectance`, the random samplers) as parameters with their assumed facts |
| scene.dfy | `Scene` | `ray_t`, `ray_at`, `material_t`, `sphere_t`, well-formed worlds |
| intersect.dfy | `Intersect` | `sphere_hit`, `hit`, `hit_record_t` (src/scatter.c) |
| materials.dfy | `Materials` | `scatter_lambertian`, `scatter_metal`, `scatter_dielectric`, `scatter` (src/scatter.c) |
| render.dfy | `Render` | `ray_color` (main.c) |
| quantize.dfy | `Quantize` | the shared clamp, scale by 256 and cast to int |
| linear_color.dfy | `LinearColor` | `write_color` of color.c, which applies no gamma |
| gamma_color.dfy | `GammaColor` | `Color` and `write_color` of src/color.c, which applies a sqrt gamma |

`ray_color` is a pure recursive function `Render.RayColor` with `decreases depth`.
`Render.RayColorOnRecord` is the same recursion written as in C: it reuses one
scratch record, and it is proved to return `RayColor`'s value whatever that record held.

## Model

| member | source | states |
|---|---|---|
| `Intersect.SphereRoot` | src/scatter.c:9-28 | The root `sphere_hit` accepts: none on a negative discriminant, else the smaller root (−half_b − sqrt(discr))/a when it is in [t_min, t_max], else the larger one when it is, else none. Its contract: an accepted root always lies in [t_min, t_max]. |
| `Intersect.OnSphereIsRoot` | src/scatter.c:9-13 | The point at distance t lies on the sphere iff t is a root of a·t² + 2·half_b·t + c, with the coefficients as computed. |
| `Intersect.QuadraticRoots` | src/scatter.c:19-24 | With a > 0 and a non-negative discriminant, the quadratic's roots are exactly (−half_b ∓ sqrt(discr))/a, and the first is never larger than the second. |
| `Intersect.NegativeDiscriminantMisses` | src/scatter.c:13-17 | With a negative discriminant no root is accepted, and the ray meets the sphere nowhere. |
| `Intersect.SphereRootIsNearest` | src/scatter.c:19-28 | The accepted root lies in the closed range [t_min, t_max], lies on the sphere, and is ≤ every point of the sphere in that range. When no root is accepted, the ray meets the sphere nowhere in the range. |
| `Intersect.Accept` | src/scatter.c:30-41 | The record `sphere_hit` writes on success: t = root, p = ray_at(root), the outward normal (p − center)/radius, front_face = direction·outward < 0, the normal turned against the ray, the sphere's material and count + 1. Its properties are stated by `Intersect.AcceptOrientsNormal`. |
| `Intersect.AcceptOrientsNormal` | src/scatter.c:30-41 | On success, t is the root and p = origin + t·direction. The material is the sphere's and count grows by exactly one. front_face holds iff direction·(p−center)/radius < 0. The stored normal is ± that vector with direction·normal ≤ 0, and it has unit length at a point of the surface. |
| `Intersect.FrontFaceIsEntry` | src/scatter.c:22-38 | front_face holds iff the discriminant is positive and the accepted root is the smaller one (radius > 0) or the larger one (radius < 0). |
| `Intersect.SphereHit` | src/scatter.c:3-45 | Returns true iff `SphereRoot` accepts a root. On true, the record becomes `Accept` of the old record. On false, the record is unchanged. |
| `Intersect.Step` | src/scatter.c:50-54 | One iteration of `hit`'s loop: `sphere_hit` with t_min = 1e-3 and t_max = the record's current t, which rewrites the record when a root is accepted and leaves it as it is otherwise. |
| `Intersect.Scan` | src/scatter.c:47-55 | `hit`'s loop: `Step` applied to the spheres in index order, from a given record. `Intersect.Nearest` starts it from the record reset to t = INFINITY, count = 0. Its properties are stated by `Intersect.ScanFindsNearest`. |
| `Intersect.StepNarrows` | src/scatter.c:50-54 | One iteration of `hit` never increases the record's t and never lowers count. |
| `Intersect.ScanFindsNearest` | src/scatter.c:47-55 | After `hit`, count ≥ 0, and count = 0 iff no sphere has a root ≥ 1e-3 (the record is then the reset one). Otherwise t ≥ 1e-3 and t ≤ every such root of every sphere. The record then describes a sphere met at t, and no later sphere is met in [1e-3, t], so ties go to the last sphere. |
| `Intersect.ScanIgnoresStaleFields` | src/scatter.c:47-49 | `hit`'s result has the same t and count from any incoming record, and the whole record is the same when count > 0. |
| `Intersect.Hit` | src/scatter.c:47-55 | The record ends as `Scan` of the spheres in order, starting from the incoming record with t = INFINITY and count = 0. |
| `Materials.ScatterLambertian` | src/scatter.c:88-103 | Always true, with attenuation = albedo and origin = rec.p. |
| `Materials.LambertianLeavesSurface` | src/scatter.c:91-97 | With a unit normal and a unit random vector, the scattered direction has a non-negative component along the normal, including the near-zero fallback to the normal. |
| `Materials.ScatterMetal` | src/scatter.c:105-121 | Always writes attenuation = albedo and origin = rec.p. |
| `Materials.MetalWithoutFuzzMirrors` | src/scatter.c:109-115 | With fuzz 0 the scattered direction is exactly the mirror reflection d − 2(d·n)n of the unit incoming direction. |
| `Materials.MetalAbsorbsGrazing` | src/scatter.c:109-120 | With a unit normal, metal returns true iff the incoming direction points into the surface (direction·normal < 0). |
| `Materials.ScatterDielectric` | src/scatter.c:57-86 | Always true, with attenuation (1,1,1) and origin = rec.p. |
| `Materials.DielectricAngle` | src/scatter.c:68-73 | For unit vectors, cos_theta ∈ [−1, 1] and 1 − cos_theta² ∈ [0, 1], so sin_theta ∈ [0, 1]. |
| `Materials.NoTotalInternalReflectionFromThinner` | src/scatter.c:64-74 | With a refraction ratio in [0, 1], cannot_refract is false. |
| `Materials.DielectricReflectsWhenItCannotRefract` | src/scatter.c:74-81 | When ratio·sin_theta > 1, the scattered direction is the reflection. |
| `Materials.Scatter` | src/scatter.c:124-138 | `scatter`: class 1 is lambertian, 2 metal, 3 dielectric, and any other class writes nothing and returns false. Its cases are stated by `Materials.ScatterDispatch`. |
| `Materials.ScatterDispatch` | src/scatter.c:124-138 | Outputs are written iff class ∈ {1, 2, 3}, and the origin is always rec.p. Class 1 gives true with the albedo. Class 2 gives the albedo, true iff reflected·normal > 0. Class 3 gives true with (1,1,1). |
| `Materials.ScatteredHasDirection` | src/scatter.c:88-121 | In a well-formed world, each material's scattered ray has a nonzero direction. This holds for the near-zero fallback, for fuzz ≤ 1 with the random point inside the unit sphere, and for reflect and refract of unit vectors. So the next `hit` never divides by a = 0. |
| `Render.Sky` | main.c:38-45 | The sky colour (1−t)·(1,1,1) + t·(0.5,0.7,1.0) with t = (unit.y + 1)/2. Its blue channel is 1 for every direction. |
| `Render.SkyGradient` | main.c:38-45 | For a unit direction, blue is exactly 1, red ∈ [0.5, 1] and green ∈ [0.7, 1]. Straight down gives white and straight up gives (0.5, 0.7, 1.0). |
| `Render.NearestHitIsOnWorld` | main.c:22-28 | After `hit` with count > 0, the normal has unit length and faces against the ray, and the material is that of a sphere of the world. |
| `Render.RayColor` | main.c:15-47 | `ray_color`: black at depth ≤ 0; otherwise the nearest hit's scatter, recursing with depth − 1 and multiplying by the attenuation; otherwise the sky. Its cases are stated by `Render.RayColorCases` and its range by `Render.RayColorBounded`. |
| `Render.RayColorCases` | main.c:15-47 | depth ≤ 0 gives black (0,0,0). Otherwise a ray that meets no sphere at t ≥ 1e-3 gets the sky. Otherwise the nearest hit's scatter decides: black when it fails, else attenuation ⊙ ray_color(scattered, depth−1), and that scattered ray is traceable. |
| `Render.AttenuationInUnitCube` | src/scatter.c:124-138 | At a hit on a world whose albedos lie in [0,1]³, every written attenuation lies in [0,1]³. |
| `Render.RayColorBounded` | main.c:24-45 | With albedos in [0,1]³, every colour `ray_color` returns lies in [0,1]³. Surfaces only absorb, and the sky never exceeds white. |
| `Render.RayColorOnRecord` | main.c:15-47 | The C recursion on one shared scratch record returns `RayColor`, independent of the record's incoming contents. |
| `Quantize.ToByte` | color.c:17-20 | (int)(256·clamp(v, 0, 0.999)) lies in [0, 255] for every real v. |
| `Quantize.ToByteRange` | color.c:17-20 | The emitted integer is the number of whole 1/256 steps in the clamped value: it is ≤ 256·clamp(v) and within 1 of it. It is 0 for v ≤ 0 and 255 for v ≥ 0.999. |
| `Quantize.ToByteMonotone` | src/color.c:11-13 | A larger channel value never yields a smaller byte. |
| `LinearColor.WriteColor` | color.c:3-21 | All three emitted integers lie in [0, 255]. |
| `LinearColor.LinearByte` | color.c:9-20 | One printed channel, (int)(256·clamp(channel·(1/samples), 0, 0.999)). It lies in [0, 255]. |
| `LinearColor.LinearByteOfMean` | color.c:9-20 | Multiplying a channel by scale = 1/samples and quantising gives the same integer as quantising the mean channel/samples. |
| `LinearColor.WriteColorIsLinear` | color.c:8-20 | Each output is the quantised mean channel/samples itself, with no square root. It depends only on its own channel. |
| `LinearColor.WriteColorMonotone` | color.c:13-20 | A componentwise brighter pixel never yields a smaller output. |
| `GammaColor.Color` | src/color.c:3-6 | `Color(r, g, b)` is the colour with components r, g, b; `GammaColor.ColorRoundTrip` states it. |
| `GammaColor.ColorRoundTrip` | src/color.c:3-6 | `Color(c.x, c.y, c.z) == c`, and `Color(r, g, b)` has components r, g, b. |
| `GammaColor.GammaByte` | src/color.c:12-14 | One printed channel, (int)(256·clip(sqrt(channel/samples), 0, 0.999)). It lies in [0, 255]. |
| `GammaColor.WriteColor` | src/color.c:8-15 | For non-negative channels and samples > 0, all three emitted integers lie in [0, 255]. For a negative channel the bound holds in the model only because `sqrt` is left unspecified below zero (see Left out). |
| `GammaColor.GammaByteOfZero` | src/color.c:11-13 | A zero channel emits 0. |
| `GammaColor.GammaByteMonotone` | src/color.c:11-13 | For non-negative channels a larger channel never yields a smaller byte. |
| `GammaColor.GammaNeverDarker` | src/color.c:8-15 | For non-negative channels, each output of this variant is ≥ the corresponding output of color.c's `write_color`. |

## Left out

- IEEE-754 behaviour is not modelled: rounding, `INFINITY` arithmetic and NaN. `INFINITY` appears only as the initial `t_max` and is the `Infinity` case of `Intersect.Bound`.
- The code of `sqrt`, `unit_vector`, `refract`, `near_zero` and `reflectance` is not part of this model. They are parameters (`Primitives.MathLib`) with only the facts stated in `Primitives.Valid`:
  - `sqrt` is the square root on non-negative reals;
  - `unit_vector` of a nonzero vector is a positive multiple of length 1;
  - `refract` of unit vectors is nonzero;
  - the zero vector is near zero.
- The random samplers `random_on_unit_sphere`, `random_in_unit_sphere` and `RANDOM_DOUBLE_UNIT` are modelled as values, not as a global stream. They are one `Primitives.Draw` per bounce, indexed by the remaining depth. The order and number of draws are not modelled, nor is the dielectric's short-circuit that skips the uniform draw.
- `main` (camera, sampling loops, scene set-up, progress bar, PPM header), `destroy_world` and the `printf` of `write_color` are left out. `write_color` returns the three integers it would print.
- `clamp` and `clip` are called, but their code is not part of this model. Both are modelled as the usual bound to [min, max] (`Quantize.Clamp`). The colour `black` is declared in color.h and defined elsewhere; it is taken as (0, 0, 0).
- The world is a `seq<Sphere>`, not a C array with a separate `num_spheres`. `material.class` stays an integer, so the unknown-class case of `scatter` is kept.
- `count` is unbounded. The overflow of a C `int` is not modelled, since `count` never exceeds the number of spheres.
- Intersect.SphereRoot requires a nonzero ray direction (a > 0), since the C code divides by a. Intersect.SphereHit and Intersect.Hit also require nonzero radii, since the outward normal divides by the radius. With either at zero the C code would go on with infinities or NaN.
- Materials.ScatterDielectric requires a nonzero index of refraction on a front-face hit only, where the C code computes 1.0 / ir (src/scatter.c:65). A back-face hit with ir = 0 is allowed. The well-formed worlds that `Render.RayColor` traces (`Scene.MaterialOk`) require ir ≠ 0 for every dielectric.
- Render.RayColor also requires well-formed inputs, so that every scattered ray can be traced: valid helpers, every metal's fuzz in [0, 1], in-sphere samples strictly inside the unit sphere and on-sphere samples of unit length. The C code has no such checks.
- LinearColor.WriteColor and GammaColor.WriteColor require `samples_per_pixel != 0`. The lemmas about them require it to be positive.
- GammaColor.GammaByteMonotone and GammaColor.GammaNeverDarker hold only for non-negative channels. For a negative channel `sqrt` yields NaN in C, and the model leaves the value unspecified.
- GammaColor.WriteColor: for a negative channel C's `sqrt` yields NaN, and what is printed then depends on `clip`, whose code is not part of this model. The model's [0, 255] bound there holds only because `sqrt` is unspecified below zero.
- A ray that starts outside a sphere of positive radius does not always meet a front face. There are two exceptions: a tangent hit, and a hit where the smaller root lies below `t_min` so the larger root is taken. In both cases `front_face` is false. For a negative radius the roles of the two roots swap, and taking the larger root gives `front_face` true. `Intersect.FrontFaceIsEntry` states exactly when `front_face` holds.
- The stored normal satisfies only normal·direction ≤ 0, not < 0: equality holds for a direction tangent to the surface. `Intersect.AcceptOrientsNormal` states ≤ 0.
- `scatter_metal` decides absorption on the reflection before the fuzz is added. With fuzz > 0 the scattered direction can therefore point into the surface while the result is true. The model keeps this test as written.
