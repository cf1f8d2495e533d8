/** `ray_color` (main.c): the colour seen along a ray, by recursion on the
    remaining bounce depth. */
module Render {
  import opened Vectors
  import opened Primitives
  import opened Scene
  import opened Intersect
  import opened Materials

  /** Every bounce has a well-formed random sample. */
  ghost predicate DrawsValid(draws: int -> Draw) {
    forall k :: ValidDraw(draws(k))
  }

  /** The sky gradient for a unit direction: white looking down, light blue
      (0.5, 0.7, 1.0) looking up, blended linearly in t = (y + 1)/2. */
  function Sky(unit: Vec3): (c: Vec3)
    ensures c.z == 1.0
  {
    var t := 0.5 * (unit.y + 1.0);
    Vec3((1.0 - t) * 1.0 + t * 0.5, (1.0 - t) * 1.0 + t * 0.7, (1.0 - t) * 1.0 + t * 1.0)
  }

  /** For a unit direction the sky's blue channel is exactly 1, red lies in
      [0.5, 1] and green in [0.7, 1]; straight down is white and straight up
      is (0.5, 0.7, 1.0). */
  lemma SkyGradient(unit: Vec3)
    requires Dot(unit, unit) == 1.0
    ensures var c := Sky(unit);
            && c.z == 1.0 && 0.5 <= c.x <= 1.0 && 0.7 <= c.y <= 1.0
            && (unit.y == -1.0 ==> c == White)
            && (unit.y == 1.0 ==> c == Vec3(0.5, 0.7, 1.0))
  {
    UnitComponentY(unit);
  }

  /** What the last hit tells the scatter step: the stored normal has unit
      length and faces against the ray, and the material is that of a sphere
      of the world, so it is well formed. */
  lemma NearestHitIsOnWorld(m: MathLib, world: seq<Sphere>, ray: Ray)
    requires IsSqrt(m.sqrt) && WellFormed(world) && HasDirection(ray)
    ensures var rec := Nearest(m.sqrt, world, ray);
            rec.count > 0 ==>
              && Dot(rec.normal, rec.normal) == 1.0
              && Dot(ray.direction, rec.normal) <= 0.0
              && exists i :: 0 <= i < |world| && rec.material == world[i].material
  {
    var rec := Nearest(m.sqrt, world, ray);
    ScanFindsNearest(m.sqrt, Blank, world, ray);
    if rec.count > 0 {
      var i :| 0 <= i < |world| && OnSphere(world[i], ray, rec.t.value) && Describes(rec, world[i], ray);
      AcceptOrientsNormal(rec, world[i], ray, rec.t.value);
    }
  }

  lemma NearestMaterialOk(m: MathLib, world: seq<Sphere>, ray: Ray)
    requires IsSqrt(m.sqrt) && WellFormed(world) && HasDirection(ray)
    ensures var rec := Nearest(m.sqrt, world, ray);
            rec.count > 0 ==> Dot(rec.normal, rec.normal) == 1.0 && MaterialOk(rec.material)
  {
    NearestHitIsOnWorld(m, world, ray);
  }

  /** `ray_color`: black once the depth is used up; on a hit, black when the
      material absorbs the ray, else the attenuation times the colour of the
      scattered ray one level deeper; on a miss, the sky. The samples drawn at
      depth `d` are `draws(d)`. */
  function RayColor(m: MathLib, world: seq<Sphere>, ray: Ray, depth: int, draws: int -> Draw): (c: Vec3)
    requires Valid(m) && WellFormed(world) && HasDirection(ray) && DrawsValid(draws)
    decreases depth
  {
    if depth <= 0 then Black
    else
      var rec := Nearest(m.sqrt, world, ray);
      if rec.count > 0 then
        NearestMaterialOk(m, world, ray);
        ScatteredHasDirection(m, ray, rec, draws(depth));
        var s := Scatter(m, ray, rec, draws(depth));
        if s.Written? && s.ok then Mul(RayColor(m, world, s.scattered, depth - 1, draws), s.attenuation)
        else Black
      else Sky(m.unitVector(ray.direction))
  }

  /** The cases of `ray_color` in terms of the geometry: no light once the
      depth is used up; the sky when no sphere is met at distance 1e-3 or more;
      otherwise the scatter at the nearest sphere decides, black when it
      absorbs and the attenuated deeper colour when it continues. */
  lemma RayColorCases(m: MathLib, world: seq<Sphere>, ray: Ray, depth: int, draws: int -> Draw)
    requires Valid(m) && WellFormed(world) && HasDirection(ray) && DrawsValid(draws)
    ensures var c := RayColor(m, world, ray, depth, draws);
            var rec := Nearest(m.sqrt, world, ray);
            && (depth <= 0 ==> c == Black)
            && (rec.count > 0 <==> !Misses(world, ray))
            && (depth > 0 && rec.count == 0 ==> c == Sky(m.unitVector(ray.direction)))
            && (rec.count > 0 ==>
                  && rec.t.Finite? && NoneCloser(world, ray, rec.t.value)
                  && MaterialOk(rec.material) && Dot(rec.normal, rec.normal) == 1.0)
            && (depth > 0 && rec.count > 0 ==>
                  var s := Scatter(m, ray, rec, draws(depth));
                  && (!(s.Written? && s.ok) ==> c == Black)
                  && (s.Written? && s.ok ==>
                        HasDirection(s.scattered)
                        && c == Mul(RayColor(m, world, s.scattered, depth - 1, draws), s.attenuation)))
  {
    ScanFindsNearest(m.sqrt, Blank, world, ray);
    NearestMaterialOk(m, world, ray);
    var rec := Nearest(m.sqrt, world, ray);
    if rec.count > 0 {
      ScatteredHasDirection(m, ray, rec, draws(depth));
    }
  }

  /** Every albedo in the world lies in [0, 1]^3. */
  predicate AlbedosInUnitCube(world: seq<Sphere>) {
    forall i :: 0 <= i < |world| ==> InUnitCube(world[i].material.albedo)
  }

  predicate InUnitCube(c: Vec3) {
    0.0 <= c.x <= 1.0 && 0.0 <= c.y <= 1.0 && 0.0 <= c.z <= 1.0
  }

  /** The attenuation of any scatter at a hit on the world is an albedo of
      the world or white. */
  lemma AttenuationInUnitCube(m: MathLib, world: seq<Sphere>, ray: Ray, draw: Draw)
    requires Valid(m) && WellFormed(world) && HasDirection(ray) && AlbedosInUnitCube(world)
    requires Nearest(m.sqrt, world, ray).count > 0
    ensures var rec := Nearest(m.sqrt, world, ray);
            MaterialOk(rec.material) &&
            var s := Scatter(m, ray, rec, draw);
            s.Written? ==> InUnitCube(s.attenuation)
  {
    NearestHitIsOnWorld(m, world, ray);
    NearestMaterialOk(m, world, ray);
  }

  lemma AttenuateInUnitCube(c: Vec3, attenuation: Vec3)
    requires InUnitCube(c) && InUnitCube(attenuation)
    ensures InUnitCube(Mul(c, attenuation))
  {
    UnitIntervalProduct(c.x, attenuation.x);
    UnitIntervalProduct(c.y, attenuation.y);
    UnitIntervalProduct(c.z, attenuation.z);
  }

  /** Surfaces only absorb: with albedos in [0, 1] every colour is in [0, 1]^3,
      never brighter than the sky. */
  lemma {:induction false} RayColorBounded(m: MathLib, world: seq<Sphere>, ray: Ray, depth: int, draws: int -> Draw)
    requires Valid(m) && WellFormed(world) && HasDirection(ray) && DrawsValid(draws)
    requires AlbedosInUnitCube(world)
    ensures InUnitCube(RayColor(m, world, ray, depth, draws))
    decreases depth
  {
    RayColorCases(m, world, ray, depth, draws);
    if depth <= 0 {
      return;
    }
    var rec := Nearest(m.sqrt, world, ray);
    if rec.count > 0 {
      var s := Scatter(m, ray, rec, draws(depth));
      if s.Written? && s.ok {
        AttenuationInUnitCube(m, world, ray, draws(depth));
        RayColorBounded(m, world, s.scattered, depth - 1, draws);
        AttenuateInUnitCube(RayColor(m, world, s.scattered, depth - 1, draws), s.attenuation);
      }
    } else {
      SkyGradient(m.unitVector(ray.direction));
    }
  }

  /** `ray_color` as written: it reuses one scratch record, which `hit`
      resets, across the whole recursion. Its result is `RayColor`'s whatever
      the record held before. */
  method RayColorOnRecord(rec: HitRecord, ray: Ray, world: seq<Sphere>, depth: int, m: MathLib, draws: int -> Draw)
    returns (color: Vec3)
    requires Valid(m) && WellFormed(world) && HasDirection(ray) && DrawsValid(draws)
    modifies rec
    ensures color == RayColor(m, world, ray, depth, draws)
    decreases depth
  {
    if depth <= 0 {
      return Black;
    }
    ghost var before := rec.State();
    Hit(rec, ray, world, m.sqrt);
    ScanIgnoresStaleFields(m.sqrt, before, Blank, world, ray);
    color := Vec3(0.0, 0.0, 0.0);
    if rec.count > 0 {
      NearestMaterialOk(m, world, ray);
      var s := Scatter(m, ray, rec.State(), draws(depth));
      ScatteredHasDirection(m, ray, rec.State(), draws(depth));
      if s.Written? && s.ok {
        color := RayColorOnRecord(rec, s.scattered, world, depth - 1, m, draws);
        color := Mul(color, s.attenuation);
        return color;
      }
      return color;
    }
    var unit := m.unitVector(ray.direction);
    var t := 0.5 * (unit.y + 1.0);
    color := Vec3((1.0 - t) * 1.0 + t * 0.5, (1.0 - t) * 1.0 + t * 0.7, (1.0 - t) * 1.0 + t * 1.0);
    return color;
  }
}
