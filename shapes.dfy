/** Spheres: hit records, the ray-sphere intersection and the per-object bounding box. */
module Shapes {
  import opened Wrappers
  import opened Vec3Math
  import opened Boxes

  /** The three materials of the renderer, with their parameters. */
  datatype Material =
    | Lambertian(albedo: Color)
    | Metal(albedo: Color, fuzz: real)
    | Dielectric(ir: real)

  /** What a successful hit reports: the point, the normal facing the ray, the sphere's
      material, the ray parameter and whether the ray arrived from outside. */
  datatype HitRecord = HitRecord(p: Point3, normal: Vec3, mat: Material, t: real, frontFace: bool)

  datatype Sphere = Sphere(center: Point3, radius: real, mat: Material)

  /** The source divides by the radius when it forms the normal, so a sphere of radius 0
      would give a non-finite normal; every sphere of the scene has a non-zero radius. */
  predicate ValidSphere(s: Sphere) { s.radius != 0.0 }

  /** The result of `HitRecord::set_face_normal`. */
  datatype Facing = Facing(frontFace: bool, normal: Vec3)

  /** `set_face_normal`: the ray arrives from the front when it runs against the outward
      normal, and the stored normal always faces the ray. */
  function SetFaceNormal(r: Ray, outward: Vec3): (f: Facing)
    ensures f.frontFace <==> Dot(r.dir, outward) < 0.0
    ensures f.normal == if f.frontFace then outward else Neg(outward)
    ensures Dot(r.dir, f.normal) <= 0.0
    ensures LengthSquared(f.normal) == LengthSquared(outward)
  {
    var front := Dot(r.dir, outward) < 0.0;
    Facing(front, if front then outward else Neg(outward))
  }

  /** The ray meets the sphere's surface at parameter `t`. */
  ghost predicate OnSphere(s: Sphere, r: Ray, t: real) {
    LengthSquared(Sub(At(r, t), s.center)) == s.radius * s.radius
  }

  /** The ray meets the sphere at a parameter in the closed range `[t_min, t_max]`. */
  ghost predicate HitsAt(s: Sphere, r: Ray, tMin: real, tMax: Bound, t: real) {
    tMin <= t && AtMost(t, tMax) && OnSphere(s, r, t)
  }

  /** The coefficients `a`, `half_b` and `c` of the intersection quadratic. */
  datatype Quadratic = Quadratic(a: real, halfB: real, c: real)

  function SphereQuadratic(s: Sphere, r: Ray): Quadratic {
    var oc := Sub(r.origin, s.center);
    Quadratic(LengthSquared(r.dir), Dot(oc, r.dir), LengthSquared(oc) - s.radius * s.radius)
  }

  /** `half_b * half_b - a * c`. */
  function Discriminant(q: Quadratic): real { q.halfB * q.halfB - q.a * q.c }

  /** `(-half_b - sqrtd) / a` and `(-half_b + sqrtd) / a`. */
  function NearRoot(q: Quadratic, sqrtd: real): real
    requires q.a != 0.0
  {
    (-q.halfB - sqrtd) / q.a
  }

  function FarRoot(q: Quadratic, sqrtd: real): real
    requires q.a != 0.0
  {
    (-q.halfB + sqrtd) / q.a
  }

  /** The quadratic's value `a t^2 + 2 half_b t + c` at `t`. */
  function Poly(q: Quadratic, t: real): real { q.a * t * t + 2.0 * q.halfB * t + q.c }

  /** The record `Sphere::hit` fills for the root `t`. */
  function RecordAt(s: Sphere, r: Ray, t: real): HitRecord
    requires ValidSphere(s)
  {
    var p := At(r, t);
    var f := SetFaceNormal(r, Div(Sub(p, s.center), s.radius));
    HitRecord(p, f.normal, s.mat, t, f.frontFace)
  }

  /** `Sphere::hit`: solve the quadratic, take the nearer root if it lies in
      `[t_min, t_max]`, otherwise the farther one, otherwise miss. The source also divides
      by `a`, the squared length of the direction, which must therefore be non-zero. */
  function SphereHit(s: Sphere, r: Ray, tMin: real, tMax: Bound, sqrt: real -> real): Option<HitRecord>
    requires ValidSphere(s) && LengthSquared(r.dir) != 0.0
  {
    var q := SphereQuadratic(s, r);
    var disc := Discriminant(q);
    if disc < 0.0 then None
    else
      var sqrtd := sqrt(disc);
      var near := NearRoot(q, sqrtd);
      var far := FarRoot(q, sqrtd);
      if tMin <= near && AtMost(near, tMax) then Some(RecordAt(s, r, near))
      else if tMin <= far && AtMost(far, tMax) then Some(RecordAt(s, r, far))
      else None
  }

  /** A hit lies in the range and on the sphere, at the ray's point for that parameter,
      carries the sphere's material and a unit normal that faces the ray. */
  lemma SphereHitSound(s: Sphere, r: Ray, tMin: real, tMax: Bound, sqrt: real -> real)
    requires ValidSphere(s) && LengthSquared(r.dir) != 0.0 && IsSqrt(sqrt)
    ensures var hit := SphereHit(s, r, tMin, tMax, sqrt);
            hit.Some? ==>
              && HitsAt(s, r, tMin, tMax, hit.value.t)
              && hit.value.p == At(r, hit.value.t)
              && hit.value.mat == s.mat
              && hit.value == RecordAt(s, r, hit.value.t)
              && LengthSquared(hit.value.normal) == 1.0
              && Dot(r.dir, hit.value.normal) <= 0.0
  {
    var hit := SphereHit(s, r, tMin, tMax, sqrt);
    if hit.Some? {
      var t := hit.value.t;
      RootsOnSphere(s, r, sqrt, t);
      UnitOutwardNormal(s, At(r, t));
    }
  }

  /** `Sphere::hit` finds the nearest intersection in range, and misses only when there is
      none. */
  lemma SphereHitNearest(s: Sphere, r: Ray, tMin: real, tMax: Bound, sqrt: real -> real, t: real)
    requires ValidSphere(s) && LengthSquared(r.dir) != 0.0 && IsSqrt(sqrt)
    requires HitsAt(s, r, tMin, tMax, t)
    ensures SphereHit(s, r, tMin, tMax, sqrt).Some?
    ensures SphereHit(s, r, tMin, tMax, sqrt).value.t <= t
  {
    RootsOnSphere(s, r, sqrt, t);
  }

  /** The parameters at which the ray meets the sphere are exactly the two roots of the
      quadratic, the nearer first, and there are none when the discriminant is negative. */
  lemma RootsOnSphere(s: Sphere, r: Ray, sqrt: real -> real, t: real)
    requires LengthSquared(r.dir) != 0.0 && IsSqrt(sqrt)
    ensures var q := SphereQuadratic(s, r);
            && q.a > 0.0
            && (Discriminant(q) < 0.0 ==> !OnSphere(s, r, t))
            && (Discriminant(q) >= 0.0 ==>
                  && NearRoot(q, sqrt(Discriminant(q))) <= FarRoot(q, sqrt(Discriminant(q)))
                  && (OnSphere(s, r, t) <==>
                        t == NearRoot(q, sqrt(Discriminant(q))) || t == FarRoot(q, sqrt(Discriminant(q)))))
  {
    var q := SphereQuadratic(s, r);
    LengthSquaredNonNegative(r.dir);
    OnSphereIffQuadratic(s, r, t);
    var sq := if Discriminant(q) >= 0.0 then sqrt(Discriminant(q)) else 0.0;
    QuadraticRoots(q, sq, t);
  }

  /** The ray meets the sphere exactly where the quadratic vanishes. */
  lemma OnSphereIffQuadratic(s: Sphere, r: Ray, t: real)
    ensures OnSphere(s, r, t) <==> Poly(SphereQuadratic(s, r), t) == 0.0
  {
    var oc := Sub(r.origin, s.center);
    OnSphereExpanded(oc, r.dir, t, Sub(At(r, t), s.center));
  }

  /** `|oc + t d|^2 = |oc|^2 + 2 t (oc . d) + t^2 |d|^2`. */
  lemma OnSphereExpanded(oc: Vec3, d: Vec3, t: real, v: Vec3)
    requires v == Vec3(oc.x + t * d.x, oc.y + t * d.y, oc.z + t * d.z)
    ensures LengthSquared(v) == LengthSquared(oc) + 2.0 * t * Dot(oc, d) + t * t * LengthSquared(d)
  {
  }

  /** The real roots of `a t^2 + 2 half_b t + c` for `a > 0`, with `sq` the square root of
      the discriminant. */
  lemma QuadraticRoots(q: Quadratic, sq: real, t: real)
    requires q.a > 0.0
    requires Discriminant(q) >= 0.0 ==> sq >= 0.0 && sq * sq == Discriminant(q)
    ensures Discriminant(q) < 0.0 ==> Poly(q, t) != 0.0
    ensures Discriminant(q) >= 0.0 ==> NearRoot(q, sq) <= FarRoot(q, sq)
    ensures Discriminant(q) >= 0.0 ==> (Poly(q, t) == 0.0 <==> t == NearRoot(q, sq) || t == FarRoot(q, sq))
  {
    var a, h, disc, p := q.a, q.halfB, Discriminant(q), Poly(q, t);
    var u := a * t + h;
    VertexForm(a, h, q.c, t, p, u);
    if disc < 0.0 {
      SquareNonNegative(u, u * u);
    } else {
      RootsOrdered(a, h, sq);
      SquareRoots(u, sq, a * p, disc);
      ShiftedRoot(a, h, t, u, sq);
    }
  }

  /** `a (a t^2 + 2 h t + c) = (a t + h)^2 - (h^2 - a c)`. */
  lemma VertexForm(a: real, h: real, c: real, t: real, p: real, u: real)
    requires p == a * t * t + 2.0 * h * t + c && u == a * t + h
    ensures a * p == u * u - (h * h - a * c)
  {
  }

  /** `u^2 = sq^2` for `sq >= 0` exactly when `u = sq` or `u = -sq`. */
  lemma SquareRoots(u: real, sq: real, v: real, disc: real)
    requires sq >= 0.0 && sq * sq == disc && v == u * u - disc
    ensures v == 0.0 <==> u == sq || u == -sq
  {
    assert v == (u - sq) * (u + sq);
    if v == 0.0 {
      ProductZero(u - sq, u + sq);
    }
  }

  /** `a t + h = -sq` and `a t + h = sq` give the two roots. */
  lemma ShiftedRoot(a: real, h: real, t: real, u: real, sq: real)
    requires a > 0.0 && u == a * t + h
    ensures u == -sq <==> t == (-h - sq) / a
    ensures u == sq <==> t == (-h + sq) / a
  {
    assert t == (u - h) / a;
  }

  lemma RootsOrdered(a: real, h: real, sq: real)
    requires a > 0.0 && sq >= 0.0
    ensures (-h - sq) / a <= (-h + sq) / a
  {
    assert (-h + sq) / a - (-h - sq) / a == 2.0 * sq / a;
  }

  lemma ProductZero(p: real, q: real)
    requires p * q == 0.0
    ensures p == 0.0 || q == 0.0
  {
  }

  /** The outward normal `(p - center) / radius` of a point on the sphere is a unit vector. */
  lemma UnitOutwardNormal(s: Sphere, p: Point3)
    requires ValidSphere(s)
    requires LengthSquared(Sub(p, s.center)) == s.radius * s.radius
    ensures LengthSquared(Div(Sub(p, s.center), s.radius)) == 1.0
  {
    var v := Sub(p, s.center);
    var k := 1.0 / s.radius;
    ScaledLengthSquared(k, v, Div(v, s.radius));
    InverseSquare(s.radius, k);
  }

  lemma ScaledLengthSquared(k: real, v: Vec3, w: Vec3)
    requires w == Scale(k, v)
    ensures LengthSquared(w) == k * k * LengthSquared(v)
  {
  }

  lemma InverseSquare(x: real, k: real)
    requires x != 0.0 && k == 1.0 / x
    ensures k * k * (x * x) == 1.0
  {
    assert k * x == 1.0;
  }

  /** `Sphere::bounding_box`: the box `center -/+ (radius, radius, radius)`; it always
      succeeds. */
  function SphereBox(s: Sphere): AABB {
    var extent := Vec3(s.radius, s.radius, s.radius);
    AABB(Sub(s.center, extent), Add(s.center, extent))
  }

  /** The boxes of a sequence of spheres, in order. */
  function BoxesOf(spheres: seq<Sphere>): (boxes: seq<AABB>)
    ensures |boxes| == |spheres|
    ensures forall i :: 0 <= i < |spheres| ==> boxes[i] == SphereBox(spheres[i])
  {
    if |spheres| == 0 then [] else BoxesOf(spheres[..|spheres| - 1]) + [SphereBox(spheres[|spheres| - 1])]
  }

  /** The point lies in the box, faces included. */
  predicate ContainsPoint(b: AABB, p: Point3) {
    && b.min.x <= p.x <= b.max.x
    && b.min.y <= p.y <= b.max.y
    && b.min.z <= p.z <= b.max.z
  }

  /** A sphere's box is centred on the sphere, has side `2 * radius`, and for a
      non-negative radius contains the whole ball. */
  lemma SphereBoxEnclosesBall(s: Sphere, p: Point3)
    ensures var b := SphereBox(s);
            && (b.min.x + b.max.x) / 2.0 == s.center.x
            && (b.min.y + b.max.y) / 2.0 == s.center.y
            && (b.min.z + b.max.z) / 2.0 == s.center.z
            && b.max.x - b.min.x == 2.0 * s.radius
            && b.max.y - b.min.y == 2.0 * s.radius
            && b.max.z - b.min.z == 2.0 * s.radius
    ensures 0.0 <= s.radius && LengthSquared(Sub(p, s.center)) <= s.radius * s.radius ==>
              ContainsPoint(SphereBox(s), p)
  {
    var v := Sub(p, s.center);
    if 0.0 <= s.radius && LengthSquared(v) <= s.radius * s.radius {
      SquareNonNegative(v.x, v.x * v.x);
      SquareNonNegative(v.y, v.y * v.y);
      SquareNonNegative(v.z, v.z * v.z);
      SquareBound(v.x, s.radius);
      SquareBound(v.y, s.radius);
      SquareBound(v.z, s.radius);
    }
  }

  lemma SquareBound(x: real, r: real)
    requires 0.0 <= r && x * x <= r * r
    ensures -r <= x <= r
  {
    if x > r {
      assert (x - r) * (x + r) == x * x - r * r;
      ProductPositive(x - r, x + r);
    } else if x < -r {
      assert (-x - r) * (-x + r) == x * x - r * r;
      ProductPositive(-x - r, -x + r);
    }
  }

  lemma ProductPositive(p: real, q: real)
    requires p > 0.0 && q > 0.0
    ensures p * q > 0.0
  {
  }
}
