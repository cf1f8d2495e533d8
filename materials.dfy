/** How a ray leaves a surface it has hit (`scatter_lambertian`,
    `scatter_metal`, `scatter_dielectric` and the dispatch `scatter` in
    src/scatter.c). Each C function writes an attenuation and a scattered ray
    through out-parameters and returns a flag; here it returns them as one
    value. */
module Materials {
  import opened Vectors
  import opened Primitives
  import opened Scene
  import opened Intersect

  /** What `scatter` leaves in its out-parameters: nothing, when the material
      class is unknown, or the returned flag with the attenuation and the
      scattered ray it wrote. */
  datatype Scattering = Unwritten | Written(ok: bool, attenuation: Vec3, scattered: Ray)

  /** Diffuse reflection: normal plus a random unit vector, or the normal
      itself when that sum is (near) zero. */
  function ScatterLambertian(m: MathLib, rec: HitState, draw: Draw): (s: Scattering)
    ensures s.Written? && s.ok && s.attenuation == rec.material.albedo && s.scattered.origin == rec.p
  {
    var sum := Add(rec.normal, draw.onUnitSphere);
    var direction := if m.nearZero(sum) then rec.normal else sum;
    Written(true, rec.material.albedo, Ray(rec.p, direction))
  }

  /** Mirror reflection of the unit incoming direction about the normal,
      perturbed by fuzz times a random point in the unit sphere; the flag says
      whether the unperturbed reflection leaves the surface. */
  function ScatterMetal(m: MathLib, rayIn: Ray, rec: HitState, draw: Draw): (s: Scattering)
    ensures s.Written? && s.attenuation == rec.material.albedo && s.scattered.origin == rec.p
  {
    var unit := m.unitVector(rayIn.direction);
    var reflected := Reflect(unit, rec.normal);
    var direction := Add(reflected, Scale(rec.material.fuzz, draw.inUnitSphere));
    Written(Dot(reflected, rec.normal) > 0.0, rec.material.albedo, Ray(rec.p, direction))
  }

  /** `refraction_ratio`: 1/ir when the ray enters through the outward side, ir when it leaves. */
  function RefractionRatio(rec: HitState): real
    requires rec.frontFace ==> rec.material.indexOfRefraction != 0.0
  {
    if rec.frontFace then 1.0 / rec.material.indexOfRefraction else rec.material.indexOfRefraction
  }

  function Min(a: real, b: real): real {
    if a <= b then a else b
  }

  /** `cos_theta = fmin(-unit . normal, 1)`. */
  function CosTheta(unit: Vec3, normal: Vec3): real {
    Min(-Dot(unit, normal), 1.0)
  }

  /** `sin_theta = sqrt(1 - cos_theta * cos_theta)`. */
  function SinTheta(m: MathLib, cosTheta: real): real {
    m.sqrt(1.0 - Times(cosTheta, cosTheta))
  }

  /** `cannot_refract`: Snell's law has no solution, ratio * sin(theta) > 1. */
  predicate CannotRefract(m: MathLib, cosTheta: real, ratio: real) {
    Times(ratio, SinTheta(m, cosTheta)) > 1.0
  }

  /** Refraction through glass: attenuation white; reflect when refraction is
      impossible or when Schlick's reflectance beats the uniform draw,
      otherwise refract. */
  function ScatterDielectric(m: MathLib, rayIn: Ray, rec: HitState, draw: Draw): (s: Scattering)
    requires rec.frontFace ==> rec.material.indexOfRefraction != 0.0
    ensures s.Written? && s.ok && s.attenuation == White && s.scattered.origin == rec.p
  {
    var ratio := RefractionRatio(rec);
    var unit := m.unitVector(rayIn.direction);
    var cosTheta := CosTheta(unit, rec.normal);
    var direction :=
      if CannotRefract(m, cosTheta, ratio) || m.reflectance(cosTheta, ratio) > draw.unit
      then Reflect(unit, rec.normal)
      else m.refract(unit, rec.normal, ratio);
    Written(true, White, Ray(rec.p, direction))
  }

  /** `scatter`: dispatch on the material class. */
  function Scatter(m: MathLib, rayIn: Ray, rec: HitState, draw: Draw): (s: Scattering)
    requires rec.material.kind == DielectricKind && rec.frontFace ==> rec.material.indexOfRefraction != 0.0
  {
    if rec.material.kind == LambertianKind then ScatterLambertian(m, rec, draw)
    else if rec.material.kind == MetalKind then ScatterMetal(m, rayIn, rec, draw)
    else if rec.material.kind == DielectricKind then ScatterDielectric(m, rayIn, rec, draw)
    else Unwritten
  }

  // ---------------------------------------------------------------------------
  // Properties

  /** The dispatch is exhaustive over the three classes: they, and only they,
      write their outputs; lambertian and dielectric always continue the path,
      with the albedo and with white; metal continues with the albedo exactly
      when its reflection leaves the surface. */
  lemma ScatterDispatch(m: MathLib, rayIn: Ray, rec: HitState, draw: Draw)
    requires rec.material.kind == DielectricKind && rec.frontFace ==> rec.material.indexOfRefraction != 0.0
    ensures var s := Scatter(m, rayIn, rec, draw);
            && (s.Written? <==> rec.material.kind in {LambertianKind, MetalKind, DielectricKind})
            && (s.Written? ==> s.scattered.origin == rec.p)
            && (rec.material.kind == LambertianKind ==> s.ok && s.attenuation == rec.material.albedo)
            && (rec.material.kind == MetalKind ==>
                  s.attenuation == rec.material.albedo
                  && (s.ok <==> Dot(Reflect(m.unitVector(rayIn.direction), rec.normal), rec.normal) > 0.0))
            && (rec.material.kind == DielectricKind ==> s.ok && s.attenuation == White)
  {
  }

  /** A diffuse bounce never heads into the surface: normal plus a unit vector
      has a non-negative component along the unit normal, and so does the
      normal it falls back to. */
  lemma LambertianLeavesSurface(m: MathLib, rec: HitState, draw: Draw)
    requires Dot(rec.normal, rec.normal) == 1.0 && ValidDraw(draw)
    ensures Dot(ScatterLambertian(m, rec, draw).scattered.direction, rec.normal) >= 0.0
  {
    DotOfUnits(draw.onUnitSphere, rec.normal);
    assert Dot(Add(rec.normal, draw.onUnitSphere), rec.normal) == 1.0 + Dot(draw.onUnitSphere, rec.normal);
  }

  /** A metal without fuzz is a perfect mirror of the unit incoming direction. */
  lemma MetalWithoutFuzzMirrors(m: MathLib, rayIn: Ray, rec: HitState, draw: Draw)
    requires rec.material.fuzz == 0.0
    ensures ScatterMetal(m, rayIn, rec, draw).scattered.direction
         == Reflect(m.unitVector(rayIn.direction), rec.normal)
  {
  }

  /** With a unit normal, a metal absorbs the ray exactly when the incoming
      direction does not point into the surface. */
  lemma MetalAbsorbsGrazing(m: MathLib, rayIn: Ray, rec: HitState, draw: Draw)
    requires IsUnitVector(m.unitVector) && HasDirection(rayIn) && Dot(rec.normal, rec.normal) == 1.0
    ensures ScatterMetal(m, rayIn, rec, draw).ok <==> Dot(rayIn.direction, rec.normal) < 0.0
  {
    var unit := m.unitVector(rayIn.direction);
    ReflectFlipsNormalPart(unit, rec.normal);
    var k :| k > 0.0 && unit == Scale(k, rayIn.direction);
    DotScale(k, rayIn.direction, rec.normal);
    var d := Dot(rayIn.direction, rec.normal);
    if d > 0.0 {
      PositiveProduct(k, d);
    } else if d < 0.0 {
      PositiveProduct(k, -d);
      assert Times(k, -d) == -Times(k, d);
    }
  }

  /** For unit vectors, cos_theta <= 1 and 1 - cos^2 lies in [0, 1], so the
      square root taken for sin_theta is of a value in its domain and sin_theta
      lies in [0, 1]. */
  lemma DielectricAngle(m: MathLib, unit: Vec3, normal: Vec3)
    requires IsSqrt(m.sqrt) && Dot(unit, unit) == 1.0 && Dot(normal, normal) == 1.0
    ensures var c := CosTheta(unit, normal);
            && -1.0 <= c <= 1.0
            && 0.0 <= 1.0 - Times(c, c) <= 1.0
            && 0.0 <= SinTheta(m, c) <= 1.0
  {
    var c := CosTheta(unit, normal);
    DotOfUnits(unit, normal);
    Square(c);
    if c >= 0.0 {
      if c < 1.0 {
        SquareIncreasing(1.0, c);
      }
    } else {
      assert Times(-c, -c) == Times(c, c);
      if -c < 1.0 {
        SquareIncreasing(1.0, -c);
      }
    }
    var d := 1.0 - Times(c, c);
    var sin := m.sqrt(d);
    assert Times(sin, sin) == d;
    SquareBound(sin, 1.0);
  }

  /** Total internal reflection only happens on the way out of a denser
      medium: with a refraction ratio in [0, 1] the ray can always refract. */
  lemma NoTotalInternalReflectionFromThinner(m: MathLib, unit: Vec3, normal: Vec3, ratio: real)
    requires IsSqrt(m.sqrt) && Dot(unit, unit) == 1.0 && Dot(normal, normal) == 1.0
    requires 0.0 <= ratio <= 1.0
    ensures !CannotRefract(m, CosTheta(unit, normal), ratio)
  {
    var c := CosTheta(unit, normal);
    DielectricAngle(m, unit, normal);
    UnitIntervalProduct(ratio, SinTheta(m, c));
  }

  /** When refraction is impossible the dielectric reflects. */
  lemma DielectricReflectsWhenItCannotRefract(m: MathLib, rayIn: Ray, rec: HitState, draw: Draw)
    requires rec.frontFace ==> rec.material.indexOfRefraction != 0.0
    requires CannotRefract(m, CosTheta(m.unitVector(rayIn.direction), rec.normal), RefractionRatio(rec))
    ensures ScatterDielectric(m, rayIn, rec, draw).scattered.direction == Reflect(m.unitVector(rayIn.direction), rec.normal)
  {
  }

  /** The scattered ray of every material the world allows has a nonzero
      direction, so it can be traced again. */
  lemma ScatteredHasDirection(m: MathLib, rayIn: Ray, rec: HitState, draw: Draw)
    requires Valid(m) && ValidDraw(draw) && HasDirection(rayIn)
    requires Dot(rec.normal, rec.normal) == 1.0 && MaterialOk(rec.material)
    ensures var s := Scatter(m, rayIn, rec, draw);
            s.Written? ==> HasDirection(s.scattered)
  {
    var unit := m.unitVector(rayIn.direction);
    var s := Scatter(m, rayIn, rec, draw);
    var mat := rec.material;
    if mat.kind == LambertianKind {
      var sum := Add(rec.normal, draw.onUnitSphere);
      if !m.nearZero(sum) {
        assert sum != Zero;
        DotSelf(sum);
      }
    } else if mat.kind == MetalKind {
      var reflected := Reflect(unit, rec.normal);
      ReflectKeepsLength(unit, rec.normal);
      var direction := Add(reflected, Scale(mat.fuzz, draw.inUnitSphere));
      MetalDirection(reflected, draw.inUnitSphere, mat.fuzz);
      DotSelf(direction);
    } else if mat.kind == DielectricKind {
      ReflectKeepsLength(unit, rec.normal);
      DotSelf(m.refract(unit, rec.normal, RefractionRatio(rec)));
    }
  }

  /** A unit vector plus at most one times a vector shorter than one is not
      the zero vector: it still has a positive component along the unit vector. */
  lemma MetalDirection(reflected: Vec3, w: Vec3, fuzz: real)
    requires Dot(reflected, reflected) == 1.0 && Dot(w, w) < 1.0 && 0.0 <= fuzz <= 1.0
    ensures Add(reflected, Scale(fuzz, w)) != Zero
  {
    var direction := Add(reflected, Scale(fuzz, w));
    DotBelowOne(reflected, w);
    var x := Dot(reflected, w);
    DotAdd(reflected, Scale(fuzz, w), reflected);
    DotScale(fuzz, w, reflected);
    DotSymmetric(w, reflected);
    assert Dot(direction, reflected) == 1.0 + Times(fuzz, x);
    FuzzedComponent(fuzz, x);
    DotWithZero(direction, reflected);
  }

  /** Solver aid, modelling nothing: the zero vector is orthogonal to everything. */
  lemma DotWithZero(v: Vec3, w: Vec3)
    ensures v == Zero ==> Dot(v, w) == 0.0
  {
  }

  /** 1 + fuzz * x > 0 for fuzz in [0, 1] and x in (-1, 1). */
  lemma FuzzedComponent(fuzz: real, x: real)
    requires 0.0 <= fuzz <= 1.0 && -1.0 < x < 1.0
    ensures 1.0 + Times(fuzz, x) > 0.0
  {
    if fuzz > 0.0 && x < 0.0 {
      assert Times(fuzz, x) + fuzz == Times(fuzz, x + 1.0);
      PositiveProduct(fuzz, x + 1.0);
    } else if fuzz > 0.0 && x > 0.0 {
      PositiveProduct(fuzz, x);
    }
  }
}
