/** Ray-sphere intersection and the nearest-hit scan over the world
    (`sphere_hit` and `hit` in src/scatter.c). The hit record is an object
    whose fields the two procedures overwrite in place; the pure functions
    `SphereRoot`, `Accept`, `Step` and `Scan` say what those updates compute,
    and the lemmas relate them to the geometry: the root chosen is the nearest
    point of the sphere within the range, and the record left by the scan
    describes the nearest sphere along the ray. */
module Intersect {
  import opened Vectors
  import opened Scene
  import opened Primitives

  /** A `t_max` bound: a finite distance or the `INFINITY` the scan starts from. */
  datatype Bound = Finite(value: real) | Infinity

  /** The closed range [tMin, tMax] that `sphere_hit` accepts a root in:
      it rejects exactly when `root < t_min || t_max < root`. */
  predicate InRange(root: real, tMin: real, tMax: Bound) {
    tMin <= root && (tMax.Infinity? || root <= tMax.value)
  }

  /** The smallest distance along the ray that `hit` accepts (1.0e-3). */
  const TMin: real := 0.001

  // ---------------------------------------------------------------------------
  // The quadratic |origin + t*direction - center|^2 = radius^2

  function HalfB(sphere: Sphere, ray: Ray): real {
    Dot(Sub(ray.origin, sphere.center), ray.direction)
  }

  function C(sphere: Sphere, ray: Ray): real {
    var oc := Sub(ray.origin, sphere.center);
    Dot(oc, oc) - Times(sphere.radius, sphere.radius)
  }

  function Discriminant(sphere: Sphere, ray: Ray): real {
    var a := Dot(ray.direction, ray.direction);
    Times(HalfB(sphere, ray), HalfB(sphere, ray)) - Times(a, C(sphere, ray))
  }

  /** a*t^2 + 2*h*t + c */
  function Polynomial(a: real, h: real, c: real, t: real): real {
    Times(a, Times(t, t)) + 2.0 * Times(h, t) + c
  }

  /** The quadratic whose roots `sphere_hit` computes: a*t^2 + 2*half_b*t + c,
      with a = |direction|^2. */
  function Quadratic(sphere: Sphere, ray: Ray, t: real): real {
    Polynomial(Dot(ray.direction, ray.direction), HalfB(sphere, ray), C(sphere, ray), t)
  }

  /** The point at distance `t` along the ray lies on the sphere's surface. */
  ghost predicate OnSphere(sphere: Sphere, ray: Ray, t: real) {
    var d := Sub(At(ray, t), sphere.center);
    Dot(d, d) == Times(sphere.radius, sphere.radius)
  }

  /** The ray meets the sphere at `t` exactly when `t` is a root of the quadratic. */
  lemma OnSphereIsRoot(sphere: Sphere, ray: Ray, t: real)
    ensures OnSphere(sphere, ray, t) <==> Quadratic(sphere, ray, t) == 0.0
  {
    var oc := Sub(ray.origin, sphere.center);
    var d := ray.direction;
    var q := Sub(At(ray, t), sphere.center);
    ExpandSquare(q.x, oc.x, d.x, t);
    ExpandSquare(q.y, oc.y, d.y, t);
    ExpandSquare(q.z, oc.z, d.z, t);
    Distribute(Times(d.x, d.x), Times(d.y, d.y), Times(d.z, d.z), Times(t, t));
    Distribute(Times(oc.x, d.x), Times(oc.y, d.y), Times(oc.z, d.z), t);
    assert Dot(q, q) == Polynomial(Dot(d, d), HalfB(sphere, ray), Dot(oc, oc), t);
  }

  lemma ExpandSquare(q: real, o: real, d: real, t: real)
    requires q == o + t * d
    ensures Times(q, q) == Times(o, o) + 2.0 * Times(Times(o, d), t) + Times(Times(d, d), Times(t, t))
  {
  }

  lemma Distribute(a: real, b: real, c: real, k: real)
    ensures Times(a + b + c, k) == Times(a, k) + Times(b, k) + Times(c, k)
  {
  }

  /** a * (a t^2 + 2 h t + c) = (a t + h)^2 - (h^2 - a c). */
  lemma CompletedSquare(a: real, h: real, c: real, u: real)
    ensures Times(a, Polynomial(a, h, c, u)) == Times(a * u + h, a * u + h) - (Times(h, h) - Times(a, c))
  {
  }

  /** With s^2 = h^2 - a c: a * (a t^2 + 2 h t + c) = (a t + h + s)(a t + h - s). */
  lemma Factored(a: real, h: real, c: real, s: real, u: real)
    requires Times(s, s) == Times(h, h) - Times(a, c)
    ensures Times(a, Polynomial(a, h, c, u)) == Times(a * u + h + s, a * u + h - s)
  {
    CompletedSquare(a, h, c, u);
    var x := a * u + h;
    assert Times(x + s, x - s) == Times(x, x) - Times(s, s);
  }

  /** The two candidate roots (-half_b -/+ sqrt(discr)) / a are the only roots,
      and the first is never larger than the second. */
  lemma QuadraticRoots(sphere: Sphere, ray: Ray, s: real, u: real)
    requires HasDirection(ray)
    requires Discriminant(sphere, ray) >= 0.0 && s >= 0.0 && Times(s, s) == Discriminant(sphere, ray)
    ensures var a := Dot(ray.direction, ray.direction);
            var h := HalfB(sphere, ray);
            && (-h - s) / a <= (-h + s) / a
            && (Quadratic(sphere, ray, u) == 0.0 <==> u == (-h - s) / a || u == (-h + s) / a)
  {
    var a := Dot(ray.direction, ray.direction);
    var h := HalfB(sphere, ray);
    var c := C(sphere, ray);
    var value := Polynomial(a, h, c, u);
    DivOrder(a, h, s);
    Factored(a, h, c, s, u);
    ZeroProduct(a, value);
    ZeroProduct(a * u + h + s, a * u + h - s);
    LinearRoot(a, h + s, u);
    LinearRoot(a, h - s, u);
  }

  /** With a negative discriminant the quadratic has no root. */
  lemma NoRoots(sphere: Sphere, ray: Ray, u: real)
    requires HasDirection(ray) && Discriminant(sphere, ray) < 0.0
    ensures Quadratic(sphere, ray, u) != 0.0
  {
    var a := Dot(ray.direction, ray.direction);
    var h := HalfB(sphere, ray);
    var c := C(sphere, ray);
    var value := Polynomial(a, h, c, u);
    CompletedSquare(a, h, c, u);
    Square(a * u + h);
    ZeroProduct(a, value);
  }

  lemma DivOrder(a: real, h: real, s: real)
    requires a > 0.0 && s >= 0.0
    ensures (-h - s) / a <= (-h + s) / a
  {
    var inv := 1.0 / a;
    assert inv * a == 1.0;
    assert (-h + s) / a - (-h - s) / a == Times(2.0 * s, inv);
    if s > 0.0 {
      PositiveProduct(2.0 * s, inv);
    }
  }

  lemma LinearRoot(a: real, b: real, u: real)
    requires a > 0.0
    ensures a * u + b == 0.0 <==> u == -b / a
  {
  }

  // ---------------------------------------------------------------------------
  // sphere_hit: the root it accepts

  /** The root `sphere_hit` accepts, if any: the smaller root when it lies in
      [tMin, tMax], otherwise the larger one when it does, otherwise none. */
  function SphereRoot(sqrt: real -> real, sphere: Sphere, ray: Ray, tMin: real, tMax: Bound): (r: Option<real>)
    requires HasDirection(ray)
    ensures r.Some? ==> InRange(r.value, tMin, tMax)
  {
    var a := Dot(ray.direction, ray.direction);
    var h := HalfB(sphere, ray);
    var discr := Discriminant(sphere, ray);
    if discr < 0.0 then None
    else
      var sqrtd := sqrt(discr);
      var near := (-h - sqrtd) / a;
      var far := (-h + sqrtd) / a;
      if InRange(near, tMin, tMax) then Some(near)
      else if InRange(far, tMin, tMax) then Some(far)
      else None
  }

  /** The root `sphere_hit` accepts is the nearest point of the sphere within
      [tMin, tMax]; when it accepts none, the ray does not meet the sphere
      anywhere in that range. */
  lemma SphereRootIsNearest(sqrt: real -> real, sphere: Sphere, ray: Ray, tMin: real, tMax: Bound)
    requires IsSqrt(sqrt) && HasDirection(ray)
    ensures var r := SphereRoot(sqrt, sphere, ray, tMin, tMax);
            && (r.Some? ==> InRange(r.value, tMin, tMax) && OnSphere(sphere, ray, r.value))
            && (r.Some? ==> forall u :: InRange(u, tMin, tMax) && OnSphere(sphere, ray, u) ==> r.value <= u)
            && (r.None? ==> forall u :: InRange(u, tMin, tMax) ==> !OnSphere(sphere, ray, u))
  {
    var r := SphereRoot(sqrt, sphere, ray, tMin, tMax);
    var discr := Discriminant(sphere, ray);
    if discr < 0.0 {
      forall u | InRange(u, tMin, tMax)
        ensures !OnSphere(sphere, ray, u)
      {
        OnSphereIsRoot(sphere, ray, u);
        NoRoots(sphere, ray, u);
      }
    } else {
      var s := sqrt(discr);
      var a := Dot(ray.direction, ray.direction);
      var h := HalfB(sphere, ray);
      var near := (-h - s) / a;
      var far := (-h + s) / a;
      assert s >= 0.0 && Times(s, s) == discr;
      forall u
        ensures OnSphere(sphere, ray, u) <==> (u == near || u == far)
      {
        OnSphereIsRoot(sphere, ray, u);
        QuadraticRoots(sphere, ray, s, u);
      }
      QuadraticRoots(sphere, ray, s, near);
      assert near <= far;
      if InRange(near, tMin, tMax) {
        assert r == Some(near);
      } else if InRange(far, tMin, tMax) {
        assert r == Some(far);
      } else {
        assert r == None;
      }
    }
  }

  /** A negative discriminant means no root at all, whatever the range. */
  lemma NegativeDiscriminantMisses(sqrt: real -> real, sphere: Sphere, ray: Ray, tMin: real, tMax: Bound)
    requires HasDirection(ray) && Discriminant(sphere, ray) < 0.0
    ensures SphereRoot(sqrt, sphere, ray, tMin, tMax) == None
    ensures forall u :: !OnSphere(sphere, ray, u)
  {
    forall u ensures !OnSphere(sphere, ray, u) {
      OnSphereIsRoot(sphere, ray, u);
      NoRoots(sphere, ray, u);
    }
  }

  // ---------------------------------------------------------------------------
  // The hit record and what sphere_hit writes into it

  /** The contents of a hit_record_t. */
  datatype HitState = HitState(t: Bound, p: Vec3, normal: Vec3, frontFace: bool, material: Material, count: int)

  /** The record `sphere_hit` leaves after accepting `root`: the point, the
      outward normal (p - center)/radius turned to face against the ray, whether
      the ray met the outward side, the sphere's material, and one more hit. */
  function Accept(prior: HitState, sphere: Sphere, ray: Ray, root: real): HitState
    requires sphere.radius != 0.0
  {
    var p := At(ray, root);
    var outward := Scale(1.0 / sphere.radius, Sub(p, sphere.center));
    var front := Dot(ray.direction, outward) < 0.0;
    HitState(Finite(root), p, if front then outward else Scale(-1.0, outward), front, sphere.material, prior.count + 1)
  }

  /** The record holds the hit of `ray` on `sphere` at its distance `t`. */
  ghost predicate Describes(state: HitState, sphere: Sphere, ray: Ray) {
    && sphere.radius != 0.0
    && state.t.Finite?
    && state == Accept(state, sphere, ray, state.t.value).(count := state.count)
  }

  /** An accepted hit: the distance, the point and the material are the
      sphere's, the count grows by one, `front_face` says whether the ray meets
      the outward normal head-on, the stored normal never faces along the ray,
      and at a point of the surface it has unit length. */
  lemma AcceptOrientsNormal(prior: HitState, sphere: Sphere, ray: Ray, root: real)
    requires sphere.radius != 0.0
    ensures var r := Accept(prior, sphere, ray, root);
            var outward := Scale(1.0 / sphere.radius, Sub(At(ray, root), sphere.center));
            && r.t == Finite(root) && r.p == At(ray, root) && r.material == sphere.material
            && r.count == prior.count + 1
            && (r.frontFace <==> Dot(ray.direction, outward) < 0.0)
            && (r.normal == outward || r.normal == Scale(-1.0, outward))
            && Dot(ray.direction, r.normal) <= 0.0
            && (OnSphere(sphere, ray, root) ==> Dot(r.normal, r.normal) == 1.0)
  {
    var outward := Scale(1.0 / sphere.radius, Sub(At(ray, root), sphere.center));
    assert Dot(ray.direction, Scale(-1.0, outward)) == -Dot(ray.direction, outward);
    assert Dot(Scale(-1.0, outward), Scale(-1.0, outward)) == Dot(outward, outward);
    if OnSphere(sphere, ray, root) {
      UnitScale(Sub(At(ray, root), sphere.center), sphere.radius);
    }
  }

  /** `front_face` records whether the accepted root is where the ray enters
      the sphere: for a positive radius it holds exactly when the root is the
      smaller of two distinct roots (for a negative radius the outward normal
      points inward and it is the larger). A tangent hit, where the two roots
      coincide, is never a front face, and neither is the larger root taken
      because the smaller one lies below t_min. */
  lemma FrontFaceIsEntry(sqrt: real -> real, prior: HitState, sphere: Sphere, ray: Ray, tMin: real, tMax: Bound)
    requires IsSqrt(sqrt) && HasDirection(ray) && sphere.radius != 0.0
    requires SphereRoot(sqrt, sphere, ray, tMin, tMax).Some?
    ensures var t := SphereRoot(sqrt, sphere, ray, tMin, tMax).value;
            var a := Dot(ray.direction, ray.direction);
            var h := HalfB(sphere, ray);
            var s := sqrt(Discriminant(sphere, ray));
            (Accept(prior, sphere, ray, t).frontFace <==>
               Discriminant(sphere, ray) > 0.0 && (t == (-h - s) / a) == (sphere.radius > 0.0))
  {
    var t := SphereRoot(sqrt, sphere, ray, tMin, tMax).value;
    var d := ray.direction;
    var a := Dot(d, d);
    var h := HalfB(sphere, ray);
    var discr := Discriminant(sphere, ray);
    var s := sqrt(discr);
    var oc := Sub(ray.origin, sphere.center);
    var q := Sub(At(ray, t), sphere.center);
    var k := 1.0 / sphere.radius;
    assert q == Add(oc, Scale(t, d));
    DotAlongRay(oc, d, t);
    assert Dot(d, q) == h + a * t;
    LinearRoot(a, h + s, t);
    LinearRoot(a, h - s, t);
    assert t == (-h - s) / a ==> Dot(d, q) == -s;
    assert t == (-h + s) / a ==> Dot(d, q) == s;
    assert Dot(d, Scale(k, q)) == Dot(Scale(k, q), d);
    DotScale(k, q, d);
    assert Dot(q, d) == Dot(d, q);
    NegativeProduct(k, Dot(d, q));
    assert sphere.radius * k == 1.0;
    NegativeProduct(sphere.radius, k);
    ZeroProduct(s, s);
    if s != 0.0 {
      DivOrder(a, h, s);
      LinearRoot(a, h + s, (-h + s) / a);
    }
  }

  lemma DotAlongRay(oc: Vec3, d: Vec3, t: real)
    ensures Dot(d, Add(oc, Scale(t, d))) == Dot(oc, d) + t * Dot(d, d)
  {
  }

  // ---------------------------------------------------------------------------
  // hit: the scan over the world

  /** `hit` starts from t = INFINITY and count = 0; the other fields keep
      whatever the record held. */
  function Reset(state: HitState): HitState {
    state.(t := Infinity, count := 0)
  }

  /** One iteration of `hit`: `sphere_hit` with t_min = 1e-3 and t_max = the
      record's current t. */
  function Step(sqrt: real -> real, prior: HitState, sphere: Sphere, ray: Ray): HitState
    requires HasDirection(ray) && sphere.radius != 0.0
  {
    match SphereRoot(sqrt, sphere, ray, TMin, prior.t)
    case None => prior
    case Some(root) => Accept(prior, sphere, ray, root)
  }

  /** The record after the loop of `hit` has visited the spheres of `world` in order. */
  function Scan(sqrt: real -> real, start: HitState, world: seq<Sphere>, ray: Ray): HitState
    requires HasDirection(ray) && NonZeroRadii(world)
    decreases |world|
  {
    if |world| == 0 then start
    else Step(sqrt, Scan(sqrt, start, world[..|world| - 1], ray), world[|world| - 1], ray)
  }

  /** A record with no hit, standing for whatever the scratch record held. */
  const Blank: HitState := HitState(Infinity, Zero, Zero, false, Material(0, Zero, 0.0, 0.0), 0)

  /** The record `hit` leaves for `ray`; by `ScanIgnoresStaleFields` it is the
      same from any previous record whenever its count is positive. */
  function Nearest(sqrt: real -> real, world: seq<Sphere>, ray: Ray): HitState
    requires HasDirection(ray) && NonZeroRadii(world)
  {
    Scan(sqrt, Reset(Blank), world, ray)
  }

  /** The ray meets no sphere of the world at a distance of at least 1e-3. */
  ghost predicate Misses(world: seq<Sphere>, ray: Ray) {
    forall i, u :: 0 <= i < |world| && TMin <= u ==> !OnSphere(world[i], ray, u)
  }

  /** No sphere of the world is met at a distance in [1e-3, t). */
  ghost predicate NoneCloser(world: seq<Sphere>, ray: Ray, t: real) {
    forall i, u :: 0 <= i < |world| && TMin <= u && OnSphere(world[i], ray, u) ==> t <= u
  }

  /** No sphere after the i-th is met at a distance in [1e-3, t]: among spheres
      met at the same nearest distance, the scan keeps the last. */
  ghost predicate LastAtDistance(world: seq<Sphere>, ray: Ray, i: int, t: real) {
    forall j, u :: 0 <= j < |world| && i < j && TMin <= u <= t ==> !OnSphere(world[j], ray, u)
  }

  /** An iteration never moves the record's t further out, and never lowers the count. */
  lemma StepNarrows(sqrt: real -> real, prior: HitState, sphere: Sphere, ray: Ray)
    requires HasDirection(ray) && sphere.radius != 0.0
    ensures var r := Step(sqrt, prior, sphere, ray);
            && (prior.t.Finite? ==> r.t.Finite? && r.t.value <= prior.t.value)
            && prior.count <= r.count
  {
  }

  /** What `hit` computes: the count is zero exactly when the ray meets no
      sphere at a distance of at least 1e-3 (and then the record is the reset
      one); otherwise t is the nearest such distance over all spheres, and the
      record describes a sphere met there, the last such in the world. */
  lemma {:induction false} ScanFindsNearest(sqrt: real -> real, start: HitState, world: seq<Sphere>, ray: Ray)
    requires IsSqrt(sqrt) && HasDirection(ray) && NonZeroRadii(world)
    ensures var r := Scan(sqrt, Reset(start), world, ray);
            && 0 <= r.count
            && (r.count == 0 <==> Misses(world, ray))
            && (r.count == 0 ==> r == Reset(start))
            && (r.count > 0 ==>
                  && r.t.Finite? && TMin <= r.t.value && NoneCloser(world, ray, r.t.value)
                  && exists i :: 0 <= i < |world| && OnSphere(world[i], ray, r.t.value)
                                 && Describes(r, world[i], ray) && LastAtDistance(world, ray, i, r.t.value))
    decreases |world|
  {
    if |world| == 0 {
      return;
    }
    var n := |world|;
    var pre := world[..n - 1];
    var w := world[n - 1];
    ScanFindsNearest(sqrt, start, pre, ray);
    var prior := Scan(sqrt, Reset(start), pre, ray);
    var r := Scan(sqrt, Reset(start), world, ray);
    assert r == Step(sqrt, prior, w, ray);
    assert forall i :: 0 <= i < n - 1 ==> pre[i] == world[i];
    SphereRootIsNearest(sqrt, w, ray, TMin, prior.t);
    var root := SphereRoot(sqrt, w, ray, TMin, prior.t);
    if prior.count == 0 {
      assert prior.t == Infinity;
      if root.Some? {
        var t := root.value;
        assert r == Accept(prior, w, ray, t);
        assert Describes(r, world[n - 1], ray);
        assert OnSphere(world[n - 1], ray, t);
        forall i, u | 0 <= i < n - 1 && TMin <= u
          ensures !OnSphere(world[i], ray, u)
        {
          assert !OnSphere(pre[i], ray, u);
        }
        forall i, u | 0 <= i < n && TMin <= u && OnSphere(world[i], ray, u)
          ensures t <= u
        {
          if i == n - 1 {
            assert InRange(u, TMin, prior.t);
          }
        }
        assert !Misses(world, ray);
      } else {
        forall i, u | 0 <= i < n && TMin <= u
          ensures !OnSphere(world[i], ray, u)
        {
          if i < n - 1 {
            assert !OnSphere(pre[i], ray, u);
          } else {
            assert InRange(u, TMin, prior.t);
          }
        }
      }
    } else {
      var t0 := prior.t.value;
      var i0 :| 0 <= i0 < n - 1 && OnSphere(pre[i0], ray, t0)
                && Describes(prior, pre[i0], ray) && LastAtDistance(pre, ray, i0, t0);
      if root.Some? {
        var t := root.value;
        assert r == Accept(prior, w, ray, t);
        assert Describes(r, world[n - 1], ray);
        assert OnSphere(world[n - 1], ray, t);
        forall i, u | 0 <= i < n && TMin <= u && OnSphere(world[i], ray, u)
          ensures t <= u
        {
          if i < n - 1 {
            assert OnSphere(pre[i], ray, u);
          } else if u <= t0 {
            assert InRange(u, TMin, prior.t);
          }
        }
        assert !Misses(world, ray);
      } else {
        assert r == prior;
        forall i, u | 0 <= i < n && TMin <= u && OnSphere(world[i], ray, u)
          ensures t0 <= u
        {
          if i < n - 1 {
            assert OnSphere(pre[i], ray, u);
          } else if u <= t0 {
            assert InRange(u, TMin, prior.t);
          }
        }
        forall j, u | 0 <= j < n && i0 < j && TMin <= u <= t0
          ensures !OnSphere(world[j], ray, u)
        {
          if j < n - 1 {
            assert !OnSphere(pre[j], ray, u);
          } else {
            assert InRange(u, TMin, prior.t);
          }
        }
        assert OnSphere(world[i0], ray, t0) && Describes(r, world[i0], ray);
        assert !Misses(world, ray);
      }
    }
  }

  /** The record `hit` leaves does not depend on what the record held before,
      except for the stale fields of a record with no hit. */
  lemma {:induction false} ScanIgnoresStaleFields(sqrt: real -> real, s1: HitState, s2: HitState, world: seq<Sphere>, ray: Ray)
    requires HasDirection(ray) && NonZeroRadii(world)
    ensures var r1 := Scan(sqrt, Reset(s1), world, ray);
            var r2 := Scan(sqrt, Reset(s2), world, ray);
            && r1.t == r2.t && r1.count == r2.count
            && (r1.count > 0 ==> r1 == r2)
    decreases |world|
  {
    if |world| > 0 {
      ScanIgnoresStaleFields(sqrt, s1, s2, world[..|world| - 1], ray);
    }
  }

  // ---------------------------------------------------------------------------
  // The procedures on the record object

  /** hit_record_t, overwritten in place by `sphere_hit` and `hit`. */
  class HitRecord {
    var t: Bound
    var p: Vec3
    var normal: Vec3
    var frontFace: bool
    var material: Material
    var count: int

    function State(): HitState
      reads this
    {
      HitState(t, p, normal, frontFace, material, count)
    }
  }

  /** `sphere_hit`: on a root in [tMin, tMax] the record is overwritten as
      `Accept` says and the result is true; otherwise the record is untouched. */
  method SphereHit(rec: HitRecord, sphere: Sphere, ray: Ray, tMin: real, tMax: Bound, sqrt: real -> real)
    returns (hit: bool)
    requires HasDirection(ray) && sphere.radius != 0.0
    modifies rec
    ensures hit <==> SphereRoot(sqrt, sphere, ray, tMin, tMax).Some?
    ensures hit ==> rec.State() == Accept(old(rec.State()), sphere, ray, SphereRoot(sqrt, sphere, ray, tMin, tMax).value)
    ensures !hit ==> unchanged(rec)
  {
    var oc := Sub(ray.origin, sphere.center);
    var a := Dot(ray.direction, ray.direction);
    var halfB := Dot(oc, ray.direction);
    var c := Dot(oc, oc) - Times(sphere.radius, sphere.radius);
    var discr := Times(halfB, halfB) - Times(a, c);
    if discr < 0.0 {
      return false;
    }
    var sqrtd := sqrt(discr);
    var root := (-halfB - sqrtd) / a;
    if root < tMin || (tMax.Finite? && tMax.value < root) {
      root := (-halfB + sqrtd) / a;
    }
    if root < tMin || (tMax.Finite? && tMax.value < root) {
      return false;
    }
    rec.t := Finite(root);
    rec.p := At(ray, root);
    var temp := Sub(rec.p, sphere.center);
    rec.normal := Scale(1.0 / sphere.radius, temp);
    rec.frontFace := Dot(ray.direction, rec.normal) < 0.0;
    if !rec.frontFace {
      rec.normal := Scale(-1.0, rec.normal);
    }
    rec.material := sphere.material;
    rec.count := rec.count + 1;
    return true;
  }

  /** `hit`: reset t and count, then offer every sphere in turn with the
      record's current t as the upper bound. */
  method Hit(rec: HitRecord, ray: Ray, world: seq<Sphere>, sqrt: real -> real)
    requires HasDirection(ray) && NonZeroRadii(world)
    modifies rec
    ensures rec.State() == Scan(sqrt, Reset(old(rec.State())), world, ray)
  {
    rec.t := Infinity;
    rec.count := 0;
    ghost var start := rec.State();
    for i := 0 to |world|
      invariant rec.State() == Scan(sqrt, start, world[..i], ray)
    {
      assert world[..i + 1][..i] == world[..i];
      var accepted := SphereHit(rec, world[i], ray, TMin, rec.t, sqrt);
    }
    assert world[..|world|] == world;
  }
}
