/** Three-component vectors, rays and the scalar helpers of the renderer,
    with IEEE doubles modelled as mathematical reals. */
module Vec3Math {

  /** A point, a direction or an RGB colour: the renderer uses one type for all three. */
  datatype Vec3 = Vec3(x: real, y: real, z: real)

  type Point3 = Vec3
  type Color = Vec3

  /** A ray `origin + t * dir`. */
  datatype Ray = Ray(origin: Point3, dir: Vec3)

  /** An upper bound on a ray parameter: a real, or the constant `infinity` that callers
      pass for an unbounded search. */
  datatype Bound = Finite(value: real) | Infinity

  /** `t <= bound`, with every real below `infinity`. */
  predicate AtMost(t: real, b: Bound) { b.Infinity? || t <= b.value }

  /** `t < bound`. */
  predicate Below(t: real, b: Bound) { b.Infinity? || t < b.value }

  /** Component selection `v[axis]`, for axis 0, 1 or 2. */
  function Get(v: Vec3, axis: nat): real
    requires axis < 3
  {
    if axis == 0 then v.x else if axis == 1 then v.y else v.z
  }

  function Neg(v: Vec3): Vec3 { Vec3(-v.x, -v.y, -v.z) }

  function Add(u: Vec3, v: Vec3): Vec3 { Vec3(u.x + v.x, u.y + v.y, u.z + v.z) }

  function Sub(u: Vec3, v: Vec3): Vec3 { Vec3(u.x - v.x, u.y - v.y, u.z - v.z) }

  /** Componentwise product (colour attenuation). */
  function Mul(u: Vec3, v: Vec3): Vec3 { Vec3(u.x * v.x, u.y * v.y, u.z * v.z) }

  function Scale(t: real, v: Vec3): Vec3 { Vec3(t * v.x, t * v.y, t * v.z) }

  /** `v / t`, which the source computes as `(1/t) * v`. */
  function Div(v: Vec3, t: real): Vec3
    requires t != 0.0
  {
    Scale(1.0 / t, v)
  }

  function Dot(u: Vec3, v: Vec3): real { u.x * v.x + u.y * v.y + u.z * v.z }

  function Cross(u: Vec3, v: Vec3): Vec3 {
    Vec3(u.y * v.z - u.z * v.y, u.z * v.x - u.x * v.z, u.x * v.y - u.y * v.x)
  }

  function LengthSquared(v: Vec3): real { v.x * v.x + v.y * v.y + v.z * v.z }

  /** The square root the source takes from the C library, characterised by the one
      fact every proof here needs of it. */
  ghost predicate IsSqrt(sqrt: real -> real) {
    forall d: real {:trigger sqrt(d)} :: 0.0 <= d ==> 0.0 <= sqrt(d) && sqrt(d) * sqrt(d) == d
  }

  function Length(v: Vec3, sqrt: real -> real): real { sqrt(LengthSquared(v)) }

  /** `v / v.length()`; the source divides by zero for the zero vector, which is excluded here. */
  function UnitVector(v: Vec3, sqrt: real -> real): Vec3
    requires Length(v, sqrt) != 0.0
  {
    Div(v, Length(v, sqrt))
  }

  /** Mirror `v` about the plane with normal `n`. */
  function Reflect(v: Vec3, n: Vec3): Vec3 { Sub(v, Scale(2.0 * Dot(v, n), n)) }

  /** Clamp `x` to `[lo, hi]`, testing the lower bound first. */
  function Clamp(x: real, lo: real, hi: real): (r: real)
    ensures lo <= hi ==> lo <= r <= hi
    ensures lo <= x <= hi ==> r == x
    ensures x < lo ==> r == lo
    ensures lo <= x && hi < x ==> r == hi
  {
    if x < lo then lo else if x > hi then hi else x
  }

  /** The point `origin + t * dir` of a ray. */
  function At(r: Ray, t: real): Point3 { Add(r.origin, Scale(t, r.dir)) }

  /** A scalar factor on the left of a dot product comes out of it. */
  lemma DotScaled(t: real, u: Vec3, v: Vec3)
    ensures Dot(Scale(t, u), v) == t * Dot(u, v)
  {
  }

  /** The dot product is symmetric and `cross(u, v)` is orthogonal to both arguments. */
  lemma CrossOrthogonal(u: Vec3, v: Vec3)
    ensures Dot(u, v) == Dot(v, u)
    ensures Dot(Cross(u, v), u) == 0.0 && Dot(Cross(u, v), v) == 0.0
  {
  }

  /** The squared length is the dot product of a vector with itself and is never negative. */
  lemma LengthSquaredNonNegative(v: Vec3)
    ensures LengthSquared(v) == Dot(v, v)
    ensures 0.0 <= LengthSquared(v)
  {
    SumOfSquaresNonNegative(LengthSquared(v), v.x, v.y, v.z);
  }

  /** Sign facts about squares, kept on plain scalars so that the solver never has to
      combine them with function terms. */
  lemma SquarePositive(a: real)
    requires a > 0.0
    ensures a * a > 0.0
  {
  }

  lemma SquareOfNegative(a: real)
    requires a < 0.0
    ensures a * a > 0.0
  {
  }

  lemma SquareNonNegative(a: real, m: real)
    requires m == a * a
    ensures 0.0 <= m
  {
    if a > 0.0 {
      SquarePositive(a);
    } else if a < 0.0 {
      SquareOfNegative(a);
    }
  }

  lemma SumOfSquaresNonNegative(s: real, a: real, b: real, c: real)
    requires s == a * a + b * b + c * c
    ensures 0.0 <= s
  {
    SquareNonNegative(a, a * a);
    SquareNonNegative(b, b * b);
    SquareNonNegative(c, c * c);
  }

  /** Walking a ray from 0 gives its origin, and a walk of `s` then `t` is a walk of `s + t`. */
  lemma AtAdditive(r: Ray, s: real, t: real)
    ensures At(r, 0.0) == r.origin
    ensures At(r, s + t) == Add(At(r, s), Scale(t, r.dir))
    ensures Sub(At(r, t), r.origin) == Scale(t, r.dir)
  {
  }

  /** Against a unit normal, reflection negates the normal component, keeps the length
      and undoes itself. */
  lemma ReflectProperties(v: Vec3, n: Vec3)
    requires LengthSquared(n) == 1.0
    ensures Dot(Reflect(v, n), n) == -Dot(v, n)
    ensures LengthSquared(Reflect(v, n)) == LengthSquared(v)
    ensures Reflect(Reflect(v, n), n) == v
  {
    var d := Dot(v, n);
    var w := Reflect(v, n);
    assert Dot(w, n) == d - 2.0 * d * LengthSquared(n);
    assert LengthSquared(w) == LengthSquared(v) - 4.0 * d * d + 4.0 * d * d * LengthSquared(n);
  }

  /** With a square root that meets `IsSqrt`, `unit_vector` of a vector of positive length has length 1
      and points the same way. */
  lemma UnitVectorIsUnit(v: Vec3, sqrt: real -> real)
    requires IsSqrt(sqrt)
    requires 0.0 < LengthSquared(v)
    ensures Length(v, sqrt) > 0.0
    ensures LengthSquared(UnitVector(v, sqrt)) == 1.0
    ensures Scale(Length(v, sqrt), UnitVector(v, sqrt)) == v
  {
    var l := sqrt(LengthSquared(v));
    assert l * l == LengthSquared(v);
    assert l != 0.0;
    var k := 1.0 / l;
    assert k * k * (l * l) == 1.0;
    assert LengthSquared(UnitVector(v, sqrt)) == k * k * LengthSquared(v);
  }
}
