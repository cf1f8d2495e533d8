/** Rays, materials and spheres: the values the engine reads. */
module Scene {
  import opened Vectors

  datatype Option<T> = None | Some(value: T)

  /** ray_t: an origin and a direction that need not be unit length. */
  datatype Ray = Ray(origin: Vec3, direction: Vec3)

  /** `ray_at`: the point origin + t*direction. */
  function At(ray: Ray, t: real): Vec3 {
    Add(ray.origin, Scale(t, ray.direction))
  }

  /** A ray whose direction is not the zero vector, so that the quadratic
      coefficient `a = dot(direction, direction)` is positive. */
  predicate HasDirection(ray: Ray) {
    Dot(ray.direction, ray.direction) > 0.0
  }

  /** material_t: the integer tag `class` and the fields the three kinds read. */
  datatype Material = Material(kind: int, albedo: Vec3, fuzz: real, indexOfRefraction: real)

  const LambertianKind: int := 1
  const MetalKind: int := 2
  const DielectricKind: int := 3

  /** sphere_t */
  datatype Sphere = Sphere(center: Vec3, radius: real, material: Material)

  /** What the engine needs of a material: a metal's fuzz lies in [0, 1], and a
      dielectric's index of refraction is nonzero (the engine divides by it). */
  predicate MaterialOk(mat: Material) {
    && (mat.kind == MetalKind ==> 0.0 <= mat.fuzz <= 1.0)
    && (mat.kind == DielectricKind ==> mat.indexOfRefraction != 0.0)
  }

  /** Every sphere has a nonzero radius (the normal is divided by it). */
  predicate NonZeroRadii(world: seq<Sphere>) {
    forall i :: 0 <= i < |world| ==> world[i].radius != 0.0
  }

  predicate WellFormed(world: seq<Sphere>) {
    && NonZeroRadii(world)
    && forall i :: 0 <= i < |world| ==> MaterialOk(world[i].material)
  }
}
