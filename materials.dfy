/** How each material turns an incoming ray at a hit into a scattered ray and a colour
    attenuation. The random draws the source makes inside `scatter` are parameters here:
    the sample of `random_unit_vector`, of `random_in_unit_sphere`, or of `random_double`. */
module Materials {
  import opened Vec3Math
  import opened Boxes
  import opened Shapes

  /** The out-parameters and the result of `Material::scatter`: the scattered ray and the
      attenuation are written on every call, and `accepted` is the returned flag. */
  datatype Scattering = Scattering(scattered: Ray, attenuation: Color, accepted: bool)

  /** Below this squared length the Lambertian direction counts as degenerate. */
  const NearZero: real := 0.00000001

  /** The `Metal` constructor, which caps the fuzz at 1 (and does not raise it at 0). */
  function MakeMetal(albedo: Color, f: real): (m: Material)
    ensures m.Metal? && m.albedo == albedo
    ensures m.fuzz <= 1.0
    ensures f < 1.0 ==> m.fuzz == f
    ensures 1.0 <= f ==> m.fuzz == 1.0
  {
    Metal(albedo, if f < 1.0 then f else 1.0)
  }

  /** `Lambertian::scatter` with the sample `unit` of `random_unit_vector()`. */
  function LambertianScatter(albedo: Color, rec: HitRecord, unit: Vec3): (s: Scattering)
    ensures s.scattered.origin == rec.p && s.attenuation == albedo && s.accepted
    ensures LengthSquared(Add(rec.normal, unit)) < NearZero ==> s.scattered.dir == rec.normal
    ensures NearZero <= LengthSquared(Add(rec.normal, unit)) ==> s.scattered.dir == Add(rec.normal, unit)
  {
    var direction := Add(rec.normal, unit);
    Scattering(Ray(rec.p, if LengthSquared(direction) < NearZero then rec.normal else direction), albedo, true)
  }

  /** At a hit with a unit normal the Lambertian direction is never degenerate. */
  lemma LambertianDirectionUsable(albedo: Color, rec: HitRecord, unit: Vec3)
    requires LengthSquared(rec.normal) == 1.0
    ensures NearZero <= LengthSquared(LambertianScatter(albedo, rec, unit).scattered.dir)
  {
  }

  /** `Metal::scatter` with the sample `inSphere` of `random_in_unit_sphere()`: the mirror
      direction of the unit incoming direction, perturbed by `fuzz` times the sample,
      accepted when it leaves on the normal's side. */
  function MetalScatter(albedo: Color, fuzz: real, rIn: Ray, rec: HitRecord, inSphere: Vec3,
                        sqrt: real -> real): (s: Scattering)
    requires Length(rIn.dir, sqrt) != 0.0
    ensures s.scattered.origin == rec.p && s.attenuation == albedo
    ensures s.accepted <==> Dot(s.scattered.dir, rec.normal) > 0.0
    ensures fuzz == 0.0 ==> s.scattered.dir == Reflect(UnitVector(rIn.dir, sqrt), rec.normal)
  {
    var reflected := Reflect(UnitVector(rIn.dir, sqrt), rec.normal);
    var scattered := Ray(rec.p, Add(reflected, Scale(fuzz, inSphere)));
    Scattering(scattered, albedo, Dot(scattered.dir, rec.normal) > 0.0)
  }

  /** A polished metal hit from the side its unit normal faces reflects the ray away from the
      surface, so the scatter is accepted; the reflected ray keeps unit length. */
  lemma MirrorMetalAccepted(albedo: Color, rIn: Ray, rec: HitRecord, inSphere: Vec3, sqrt: real -> real)
    requires IsSqrt(sqrt) && 0.0 < LengthSquared(rIn.dir)
    requires LengthSquared(rec.normal) == 1.0 && Dot(rIn.dir, rec.normal) < 0.0
    ensures Length(rIn.dir, sqrt) != 0.0
    ensures MetalScatter(albedo, 0.0, rIn, rec, inSphere, sqrt).accepted
    ensures LengthSquared(MetalScatter(albedo, 0.0, rIn, rec, inSphere, sqrt).scattered.dir) == 1.0
  {
    UnitVectorIsUnit(rIn.dir, sqrt);
    var l := Length(rIn.dir, sqrt);
    var v := UnitVector(rIn.dir, sqrt);
    ReflectProperties(v, rec.normal);
    DotScaled(1.0 / l, rIn.dir, rec.normal);
    NegativeScaled(1.0 / l, Dot(rIn.dir, rec.normal));
    var d := Add(Reflect(v, rec.normal), Scale(0.0, inSphere));
    assert d == Reflect(v, rec.normal);
  }

  lemma NegativeScaled(k: real, x: real)
    requires k > 0.0 && x < 0.0
    ensures k * x < 0.0
  {
  }

  /** Schlick's approximation of the reflectance at a dielectric boundary, with the fifth
      power written out. */
  function Reflectance(cosine: real, refIdx: real): real
    requires refIdx != -1.0
  {
    var r0 := (1.0 - refIdx) / (1.0 + refIdx);
    var r0Squared := r0 * r0;
    var m := 1.0 - cosine;
    r0Squared + (1.0 - r0Squared) * (m * m * m * m * m)
  }

  /** For a positive index and a cosine in `[0, 1]`, the reflectance is a probability: it is
      `r0 * r0` at normal incidence, 1 at grazing incidence and never below `r0 * r0`. */
  lemma ReflectanceBounds(cosine: real, refIdx: real)
    requires 0.0 <= cosine <= 1.0 && 0.0 < refIdx
    ensures var r0 := (1.0 - refIdx) / (1.0 + refIdx);
            && r0 * r0 <= Reflectance(cosine, refIdx) <= 1.0
            && Reflectance(1.0, refIdx) == r0 * r0
            && Reflectance(0.0, refIdx) == 1.0
  {
    var r0 := (1.0 - refIdx) / (1.0 + refIdx);
    RatioBelowOne(1.0 - refIdx, 1.0 + refIdx);
    SquareNonNegative(r0, r0 * r0);
    SquareBelowOne(r0);
    var m := 1.0 - cosine;
    FifthPowerInUnit(m);
    ProductInRange(1.0 - r0 * r0, m * m * m * m * m);
  }

  lemma RatioBelowOne(a: real, b: real)
    requires b > 0.0 && -b < a < b
    ensures -1.0 < a / b < 1.0
  {
  }

  lemma SquareBelowOne(x: real)
    requires -1.0 < x < 1.0
    ensures x * x < 1.0
  {
    if x >= 0.0 {
      assert x * x <= x * 1.0;
    } else {
      assert x * x <= (-x) * 1.0;
    }
  }

  lemma FifthPowerInUnit(m: real)
    requires 0.0 <= m <= 1.0
    ensures 0.0 <= m * m * m * m * m <= 1.0
  {
    ProductInRange(m, m);
    ProductInRange(m * m, m);
    ProductInRange(m * m * m, m);
    ProductInRange(m * m * m * m, m);
  }

  lemma ProductInRange(a: real, b: real)
    requires 0.0 <= a && 0.0 <= b <= 1.0
    ensures 0.0 <= a * b <= a
  {
  }

  /** `refract`: Snell's law for the unit direction `uv` at the unit normal `n`, with the
      ratio `etai_over_etat` of the indices. */
  function Refract(uv: Vec3, n: Vec3, etaiOverEtat: real, sqrt: real -> real): Vec3 {
    var cosTheta := FMin(Dot(Neg(uv), n), 1.0);
    var perp := Scale(etaiOverEtat, Add(uv, Scale(cosTheta, n)));
    var parallel := Scale(-sqrt(Abs(1.0 - LengthSquared(perp))), n);
    Add(perp, parallel)
  }

  /** `std::fabs`. */
  function Abs(x: real): (a: real)
    ensures 0.0 <= a && (a == x || a == -x)
  {
    if x < 0.0 then -x else x
  }

  /** Across a boundary between equal indices a unit direction meeting the unit normal from
      its front passes straight through. */
  lemma RefractEqualIndices(uv: Vec3, n: Vec3, sqrt: real -> real)
    requires IsSqrt(sqrt)
    requires LengthSquared(uv) == 1.0 && LengthSquared(n) == 1.0
    requires 0.0 <= Dot(Neg(uv), n) <= 1.0
    ensures Refract(uv, n, 1.0, sqrt) == uv
  {
    var c := Dot(Neg(uv), n);
    var perp := Scale(1.0, Add(uv, Scale(c, n)));
    assert FMin(c, 1.0) == c;
    PerpendicularPart(uv, n, c, perp);
    RootOfSquare(sqrt, c);
    assert sqrt(Abs(1.0 - LengthSquared(perp))) == c;
    assert Refract(uv, n, 1.0, sqrt) == Add(perp, Scale(-c, n));
    ScaledPartCancels(uv, c, n);
  }

  /** Adding `c * n` and then `-c * n` gives the vector back. */
  lemma ScaledPartCancels(u: Vec3, c: real, n: Vec3)
    ensures Add(Scale(1.0, Add(u, Scale(c, n))), Scale(-c, n)) == u
  {
  }

  /** The tangential part `uv + c * n` of a unit direction, `c` being its cosine with the unit
      normal, has squared length `1 - c * c`. */
  lemma PerpendicularPart(uv: Vec3, n: Vec3, c: real, perp: Vec3)
    requires LengthSquared(uv) == 1.0 && LengthSquared(n) == 1.0
    requires c == Dot(Neg(uv), n) && perp == Scale(1.0, Add(uv, Scale(c, n)))
    ensures 1.0 - LengthSquared(perp) == c * c
    ensures 0.0 <= c * c
  {
    assert Dot(uv, n) == -c;
    assert LengthSquared(perp) == LengthSquared(uv) + 2.0 * c * Dot(uv, n) + c * c * LengthSquared(n);
    SquareNonNegative(c, c * c);
  }

  /** The square root of `c * c` is `c` for non-negative `c`. */
  lemma RootOfSquare(sqrt: real -> real, c: real)
    requires IsSqrt(sqrt) && 0.0 <= c
    ensures sqrt(c * c) == c
  {
    SquareNonNegative(c, c * c);
    var s := sqrt(c * c);
    assert 0.0 <= s && s * s == c * c;
    if s < c {
      SquareMonotone(s, c);
    } else if c < s {
      SquareMonotone(c, s);
    }
  }

  lemma SquareMonotone(a: real, b: real)
    requires 0.0 <= a < b
    ensures a * a < b * b
  {
    ProductPositive(b - a, b + a);
    assert (b - a) * (b + a) == b * b - a * a;
  }

  /** `Dielectric::scatter` with the sample `u` of `random_double()`: attenuation is white,
      the ray is always scattered, reflected when refraction is impossible or when `u`
      falls below the reflectance, and refracted otherwise. */
  function DielectricScatter(ir: real, rIn: Ray, rec: HitRecord, u: real, sqrt: real -> real): (s: Scattering)
    requires ir != 0.0 && ir != -1.0
    requires Length(rIn.dir, sqrt) != 0.0
    ensures s.scattered.origin == rec.p && s.attenuation == Vec3(1.0, 1.0, 1.0) && s.accepted
  {
    var ratio := if rec.frontFace then 1.0 / ir else ir;
    InverseNotMinusOne(ir);
    var unit := UnitVector(rIn.dir, sqrt);
    var cosTheta := FMin(Dot(Neg(unit), rec.normal), 1.0);
    var sinTheta := sqrt(1.0 - cosTheta * cosTheta);
    var cannotRefract := ratio * sinTheta > 1.0;
    var direction := if cannotRefract || Reflectance(cosTheta, ratio) > u then Reflect(unit, rec.normal)
                     else Refract(unit, rec.normal, ratio, sqrt);
    Scattering(Ray(rec.p, direction), Vec3(1.0, 1.0, 1.0), true)
  }

  /** At a hit with a unit normal the dielectric always scatters along a direction of length
      at least 1: the mirror direction keeps unit length, and a refracted direction has a
      tangential part orthogonal to the normal plus a normal part that makes up the rest. */
  lemma DielectricDirectionUsable(ir: real, rIn: Ray, rec: HitRecord, u: real, sqrt: real -> real)
    requires IsSqrt(sqrt) && ir != 0.0 && ir != -1.0
    requires 0.0 < LengthSquared(rIn.dir) && LengthSquared(rec.normal) == 1.0
    ensures Length(rIn.dir, sqrt) != 0.0
    ensures 1.0 <= LengthSquared(DielectricScatter(ir, rIn, rec, u, sqrt).scattered.dir)
  {
    UnitVectorIsUnit(rIn.dir, sqrt);
    var unit := UnitVector(rIn.dir, sqrt);
    ReflectProperties(unit, rec.normal);
    RefractLengthAtLeastOne(unit, rec.normal, if rec.frontFace then 1.0 / ir else ir, sqrt);
  }

  /** `refract` of a unit direction at a unit normal never shortens below unit length. */
  lemma RefractLengthAtLeastOne(uv: Vec3, n: Vec3, ratio: real, sqrt: real -> real)
    requires IsSqrt(sqrt) && LengthSquared(uv) == 1.0 && LengthSquared(n) == 1.0
    ensures 1.0 <= LengthSquared(Refract(uv, n, ratio, sqrt))
  {
    var c := Dot(Neg(uv), n);
    CosineAtMostOne(uv, n);
    assert FMin(c, 1.0) == c;
    var tangent := Add(uv, Scale(c, n));
    TangentOrthogonal(uv, n);
    var perp := Scale(ratio, tangent);
    DotScaled(ratio, tangent, n);
    var s := sqrt(Abs(1.0 - LengthSquared(perp)));
    assert Refract(uv, n, ratio, sqrt) == Add(perp, Scale(-s, n));
    OrthogonalSumAtLeastOne(perp, n, s);
  }

  /** Between two unit vectors `dot(-uv, n)` is at most one, so the `fmin` of `refract` is idle. */
  lemma CosineAtMostOne(uv: Vec3, n: Vec3)
    requires LengthSquared(uv) == 1.0 && LengthSquared(n) == 1.0
    ensures Dot(Neg(uv), n) <= 1.0
  {
    var sum := Add(uv, n);
    OnSphereExpanded(uv, n, 1.0, sum);
    LengthSquaredNonNegative(sum);
    assert Dot(Neg(uv), n) == -Dot(uv, n);
  }

  /** `uv + cos_theta * n` has no component along the unit normal. */
  lemma TangentOrthogonal(uv: Vec3, n: Vec3)
    requires LengthSquared(n) == 1.0
    ensures Dot(Add(uv, Scale(Dot(Neg(uv), n), n)), n) == 0.0
  {
    var c := Dot(Neg(uv), n);
    assert c == -Dot(uv, n);
    DotScaled(c, n, n);
    LengthSquaredNonNegative(n);
    assert Dot(Add(uv, Scale(c, n)), n) == Dot(uv, n) + Dot(Scale(c, n), n);
  }

  /** `perp - s * n` with `perp` orthogonal to the unit `n` and `s * s == |1 - |perp|^2|`. */
  lemma OrthogonalSumAtLeastOne(perp: Vec3, n: Vec3, s: real)
    requires Dot(perp, n) == 0.0 && LengthSquared(n) == 1.0
    requires s * s == Abs(1.0 - LengthSquared(perp))
    ensures 1.0 <= LengthSquared(Add(perp, Scale(-s, n)))
  {
    OnSphereExpanded(perp, n, -s, Add(perp, Scale(-s, n)));
    LengthSquaredNonNegative(perp);
  }

  lemma InverseNotMinusOne(x: real)
    requires x != 0.0 && x != -1.0
    ensures 1.0 / x != -1.0
  {
    assert (1.0 / x) * x == 1.0;
  }

  /** `rec.mat->scatter(...)`, dispatched on the material recorded at the hit. */
  function Scatter(mat: Material, rIn: Ray, rec: HitRecord, unit: Vec3, inSphere: Vec3, u: real,
                   sqrt: real -> real): (s: Scattering)
    requires Length(rIn.dir, sqrt) != 0.0
    requires mat.Dielectric? ==> mat.ir != 0.0 && mat.ir != -1.0
    ensures s.scattered.origin == rec.p
    ensures mat.Lambertian? ==> s.accepted && s.attenuation == mat.albedo
    ensures mat.Metal? ==> s.attenuation == mat.albedo && (s.accepted <==> Dot(s.scattered.dir, rec.normal) > 0.0)
    ensures mat.Dielectric? ==> s.accepted && s.attenuation == Vec3(1.0, 1.0, 1.0)
  {
    match mat
    case Lambertian(albedo) => LambertianScatter(albedo, rec, unit)
    case Metal(albedo, fuzz) => MetalScatter(albedo, fuzz, rIn, rec, inSphere, sqrt)
    case Dielectric(ir) => DielectricScatter(ir, rIn, rec, u, sqrt)
  }
}
