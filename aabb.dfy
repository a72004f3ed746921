/** Axis-aligned bounding boxes: their union and the slab test for a ray. */
module Boxes {
  import opened Wrappers
  import opened Vec3Math

  /** A box given by its minimum and maximum corners. */
  datatype AABB = AABB(min: Point3, max: Point3)

  /** `std::fmin` and `std::fmax` on numbers (no NaN among reals). */
  function FMin(a: real, b: real): (m: real)
    ensures m <= a && m <= b && (m == a || m == b)
  {
    if a < b then a else b
  }

  function FMax(a: real, b: real): (m: real)
    ensures a <= m && b <= m && (m == a || m == b)
  {
    if a < b then b else a
  }

  /** `outer` reaches at least as far as `inner` on every side. */
  predicate Encloses(outer: AABB, inner: AABB) {
    && outer.min.x <= inner.min.x && outer.min.y <= inner.min.y && outer.min.z <= inner.min.z
    && inner.max.x <= outer.max.x && inner.max.y <= outer.max.y && inner.max.z <= outer.max.z
  }

  /** `surrounding_box`: the componentwise minimum of the minimum corners and maximum of the
      maximum corners. */
  function SurroundingBox(b0: AABB, b1: AABB): (b: AABB)
    ensures Encloses(b, b0) && Encloses(b, b1)
    ensures b.min.x == b0.min.x || b.min.x == b1.min.x
    ensures b.min.y == b0.min.y || b.min.y == b1.min.y
    ensures b.min.z == b0.min.z || b.min.z == b1.min.z
    ensures b.max.x == b0.max.x || b.max.x == b1.max.x
    ensures b.max.y == b0.max.y || b.max.y == b1.max.y
    ensures b.max.z == b0.max.z || b.max.z == b1.max.z
  {
    var small := Vec3(FMin(b0.min.x, b1.min.x), FMin(b0.min.y, b1.min.y), FMin(b0.min.z, b1.min.z));
    var big := Vec3(FMax(b0.max.x, b1.max.x), FMax(b0.max.y, b1.max.y), FMax(b0.max.z, b1.max.z));
    AABB(small, big)
  }

  /** The union is the smallest box enclosing both inputs. */
  lemma SurroundingBoxIsLeast(b0: AABB, b1: AABB, c: AABB)
    requires Encloses(c, b0) && Encloses(c, b1)
    ensures Encloses(c, SurroundingBox(b0, b1))
  {
  }

  /** `Encloses` is a partial order: two boxes that enclose each other are equal. */
  lemma EnclosesAntisymmetric(a: AABB, b: AABB)
    requires Encloses(a, b) && Encloses(b, a)
    ensures a == b
  {
  }

  /** The union does not depend on the order of its arguments and absorbs a box it encloses. */
  lemma SurroundingBoxAlgebra(b0: AABB, b1: AABB)
    ensures SurroundingBox(b0, b1) == SurroundingBox(b1, b0)
    ensures Encloses(b0, b1) ==> SurroundingBox(b0, b1) == b0
    ensures SurroundingBox(b0, b0) == b0
  {
  }

  // The union of a non-empty collection of boxes, described by what it is rather than by
  // the order in which it was folded: it encloses every box, and each of its six faces is
  // a face of one of them.

  ghost predicate EnclosesAll(b: AABB, boxes: seq<AABB>) {
    forall i :: 0 <= i < |boxes| ==> Encloses(b, boxes[i])
  }

  ghost predicate FacesAttained(b: AABB, boxes: seq<AABB>) {
    && (exists i :: 0 <= i < |boxes| && boxes[i].min.x == b.min.x)
    && (exists i :: 0 <= i < |boxes| && boxes[i].min.y == b.min.y)
    && (exists i :: 0 <= i < |boxes| && boxes[i].min.z == b.min.z)
    && (exists i :: 0 <= i < |boxes| && boxes[i].max.x == b.max.x)
    && (exists i :: 0 <= i < |boxes| && boxes[i].max.y == b.max.y)
    && (exists i :: 0 <= i < |boxes| && boxes[i].max.z == b.max.z)
  }

  ghost predicate IsUnionOf(b: AABB, boxes: seq<AABB>) {
    EnclosesAll(b, boxes) && FacesAttained(b, boxes)
  }

  /** A collection has at most one union. */
  lemma UnionUnique(a: AABB, b: AABB, boxes: seq<AABB>)
    requires IsUnionOf(a, boxes) && IsUnionOf(b, boxes)
    ensures a == b
  {
    assert a.min.x == b.min.x by {
      var i :| 0 <= i < |boxes| && boxes[i].min.x == a.min.x;
      var j :| 0 <= j < |boxes| && boxes[j].min.x == b.min.x;
      assert Encloses(a, boxes[j]) && Encloses(b, boxes[i]);
    }
    assert a.min.y == b.min.y by {
      var i :| 0 <= i < |boxes| && boxes[i].min.y == a.min.y;
      var j :| 0 <= j < |boxes| && boxes[j].min.y == b.min.y;
      assert Encloses(a, boxes[j]) && Encloses(b, boxes[i]);
    }
    assert a.min.z == b.min.z by {
      var i :| 0 <= i < |boxes| && boxes[i].min.z == a.min.z;
      var j :| 0 <= j < |boxes| && boxes[j].min.z == b.min.z;
      assert Encloses(a, boxes[j]) && Encloses(b, boxes[i]);
    }
    assert a.max.x == b.max.x by {
      var i :| 0 <= i < |boxes| && boxes[i].max.x == a.max.x;
      var j :| 0 <= j < |boxes| && boxes[j].max.x == b.max.x;
      assert Encloses(a, boxes[j]) && Encloses(b, boxes[i]);
    }
    assert a.max.y == b.max.y by {
      var i :| 0 <= i < |boxes| && boxes[i].max.y == a.max.y;
      var j :| 0 <= j < |boxes| && boxes[j].max.y == b.max.y;
      assert Encloses(a, boxes[j]) && Encloses(b, boxes[i]);
    }
    assert a.max.z == b.max.z by {
      var i :| 0 <= i < |boxes| && boxes[i].max.z == a.max.z;
      var j :| 0 <= j < |boxes| && boxes[j].max.z == b.max.z;
      assert Encloses(a, boxes[j]) && Encloses(b, boxes[i]);
    }
  }

  /** The union of two collections is the union of their unions. */
  lemma UnionOfConcat(b0: AABB, s0: seq<AABB>, b1: AABB, s1: seq<AABB>)
    requires IsUnionOf(b0, s0) && IsUnionOf(b1, s1)
    ensures IsUnionOf(SurroundingBox(b0, b1), s0 + s1)
  {
    var b := SurroundingBox(b0, b1);
    var s := s0 + s1;
    forall i | 0 <= i < |s|
      ensures Encloses(b, s[i])
    {
      if i < |s0| {
        assert s[i] == s0[i] && Encloses(b0, s0[i]);
      } else {
        assert s[i] == s1[i - |s0|] && Encloses(b1, s1[i - |s0|]);
      }
    }
    FacesFromParts(b, b0, s0, b1, s1);
  }

  lemma FacesFromParts(b: AABB, b0: AABB, s0: seq<AABB>, b1: AABB, s1: seq<AABB>)
    requires b == SurroundingBox(b0, b1)
    requires FacesAttained(b0, s0) && FacesAttained(b1, s1)
    ensures FacesAttained(b, s0 + s1)
  {
    var s := s0 + s1;
    forall i | 0 <= i < |s1| ensures s[|s0| + i] == s1[i] { }
    if b.min.x == b0.min.x {
      var i :| 0 <= i < |s0| && s0[i].min.x == b0.min.x; assert s[i] == s0[i];
    } else {
      var i :| 0 <= i < |s1| && s1[i].min.x == b1.min.x; assert s[|s0| + i] == s1[i];
    }
    if b.min.y == b0.min.y {
      var i :| 0 <= i < |s0| && s0[i].min.y == b0.min.y; assert s[i] == s0[i];
    } else {
      var i :| 0 <= i < |s1| && s1[i].min.y == b1.min.y; assert s[|s0| + i] == s1[i];
    }
    if b.min.z == b0.min.z {
      var i :| 0 <= i < |s0| && s0[i].min.z == b0.min.z; assert s[i] == s0[i];
    } else {
      var i :| 0 <= i < |s1| && s1[i].min.z == b1.min.z; assert s[|s0| + i] == s1[i];
    }
    if b.max.x == b0.max.x {
      var i :| 0 <= i < |s0| && s0[i].max.x == b0.max.x; assert s[i] == s0[i];
    } else {
      var i :| 0 <= i < |s1| && s1[i].max.x == b1.max.x; assert s[|s0| + i] == s1[i];
    }
    if b.max.y == b0.max.y {
      var i :| 0 <= i < |s0| && s0[i].max.y == b0.max.y; assert s[i] == s0[i];
    } else {
      var i :| 0 <= i < |s1| && s1[i].max.y == b1.max.y; assert s[|s0| + i] == s1[i];
    }
    if b.max.z == b0.max.z {
      var i :| 0 <= i < |s0| && s0[i].max.z == b0.max.z; assert s[i] == s0[i];
    } else {
      var i :| 0 <= i < |s1| && s1[i].max.z == b1.max.z; assert s[|s0| + i] == s1[i];
    }
  }

  /** A single box is its own union. */
  lemma UnionOfSingleton(b: AABB)
    ensures IsUnionOf(b, [b])
  {
    var s := [b];
    assert s[0] == b;
  }

  /** The union depends only on which boxes occur, not on their order or repetition. */
  lemma UnionOfSameElements(b: AABB, s: seq<AABB>, t: seq<AABB>)
    requires IsUnionOf(b, s)
    requires forall x :: x in s <==> x in t
    ensures IsUnionOf(b, t)
  {
    forall i | 0 <= i < |t|
      ensures Encloses(b, t[i])
    {
      assert t[i] in s;
    }
    var i :| 0 <= i < |s| && s[i].min.x == b.min.x;
    assert s[i] in t;
    i :| 0 <= i < |s| && s[i].min.y == b.min.y;
    assert s[i] in t;
    i :| 0 <= i < |s| && s[i].min.z == b.min.z;
    assert s[i] in t;
    i :| 0 <= i < |s| && s[i].max.x == b.max.x;
    assert s[i] in t;
    i :| 0 <= i < |s| && s[i].max.y == b.max.y;
    assert s[i] in t;
    i :| 0 <= i < |s| && s[i].max.z == b.max.z;
    assert s[i] in t;
  }

  /** The boxes folded together from the first with `surrounding_box`. */
  function UnionBox(boxes: seq<AABB>): AABB
    requires |boxes| > 0
  {
    if |boxes| == 1 then boxes[0]
    else SurroundingBox(UnionBox(boxes[..|boxes| - 1]), boxes[|boxes| - 1])
  }

  /** The fold computes the union. */
  lemma {:induction false} UnionBoxIsUnion(boxes: seq<AABB>)
    requires |boxes| > 0
    ensures IsUnionOf(UnionBox(boxes), boxes)
  {
    var last := boxes[|boxes| - 1];
    UnionOfSingleton(last);
    if |boxes| > 1 {
      var init := boxes[..|boxes| - 1];
      UnionBoxIsUnion(init);
      UnionOfConcat(UnionBox(init), init, last, [last]);
      assert init + [last] == boxes;
    } else {
      assert boxes == [last];
    }
  }

  /** However a collection is ordered or repeated, its fold is the same box. */
  lemma UnionBoxOfSameElements(s: seq<AABB>, t: seq<AABB>)
    requires |s| > 0 && |t| > 0
    requires forall x :: x in s <==> x in t
    ensures UnionBox(s) == UnionBox(t)
  {
    UnionBoxIsUnion(s);
    UnionBoxIsUnion(t);
    UnionOfSameElements(UnionBox(s), s, t);
    UnionUnique(UnionBox(s), UnionBox(t), t);
  }

  /** Folding a concatenation surrounds the folds of its parts. */
  lemma UnionBoxConcat(s: seq<AABB>, t: seq<AABB>)
    requires |s| > 0 && |t| > 0
    ensures UnionBox(s + t) == SurroundingBox(UnionBox(s), UnionBox(t))
  {
    UnionBoxIsUnion(s);
    UnionBoxIsUnion(t);
    UnionBoxIsUnion(s + t);
    UnionOfConcat(UnionBox(s), s, UnionBox(t), t);
    UnionUnique(UnionBox(s + t), SurroundingBox(UnionBox(s), UnionBox(t)), s + t);
  }

  // The slab test. The interval of accepted ray parameters is open, `(t_min, t_max)`.

  datatype Window = Window(tMin: real, tMax: Bound)

  predicate InWindow(t: real, w: Window) { w.tMin < t && Below(t, w.tMax) }

  /** The negation of the source's `t_max <= t_min` rejection. */
  predicate NonEmpty(w: Window) { w.tMax.Infinity? || w.tMin < w.tMax.value }

  /** The parameters `(t0, t1)` at which a ray with non-zero direction component `d` enters
      and leaves the slab `[lo, hi]`: `(lo - o) / d` and `(hi - o) / d`, swapped when `d` is
      negative. */
  datatype Interval = Interval(near: real, far: real)

  function SlabInterval(lo: real, hi: real, o: real, d: real): Interval
    requires d != 0.0
  {
    SlabAt(lo, hi, o, 1.0 / d)
  }

  /** The slab's interval for the reciprocal `invD` of the direction component. */
  function SlabAt(lo: real, hi: real, o: real, invD: real): Interval {
    var t0 := (lo - o) * invD;
    var t1 := (hi - o) * invD;
    if invD < 0.0 then Interval(t1, t0) else Interval(t0, t1)
  }

  lemma SlabIntervalComputed(lo: real, hi: real, o: real, d: real, invD: real, t0: real, t1: real)
    requires d != 0.0 && invD == 1.0 / d
    requires t0 == (lo - o) * invD && t1 == (hi - o) * invD
    ensures SlabInterval(lo, hi, o, d) == if invD < 0.0 then Interval(t1, t0) else Interval(t0, t1)
  {
    assert SlabInterval(lo, hi, o, d) == SlabAt(lo, hi, o, invD);
  }

  /** `t_min = t0 > t_min ? t0 : t_min; t_max = t1 < t_max ? t1 : t_max`. */
  function Narrow(w: Window, iv: Interval): Window {
    Window(if iv.near > w.tMin then iv.near else w.tMin,
           if Below(iv.far, w.tMax) then Finite(iv.far) else w.tMax)
  }

  /** One iteration of `AABB::hit` on one axis: narrow the window to the ray's passage
      through the slab `[lo, hi]`, or reject. A zero direction component is where IEEE
      arithmetic makes `1 / d` infinite: a ray outside the slab then pushes `t_min` to
      +infinity or `t_max` to -infinity and is rejected, and a ray inside (or on a face,
      where the product is NaN and both comparisons fail) leaves the window as it is. */
  function SlabStep(w: Window, lo: real, hi: real, o: real, d: real): Option<Window> {
    if d == 0.0 then
      if o < lo || hi < o || !NonEmpty(w) then None else Some(w)
    else
      var narrowed := Narrow(w, SlabInterval(lo, hi, o, d));
      if NonEmpty(narrowed) then Some(narrowed) else None
  }

  /** The slab test from `axis` onwards. */
  function BoxHitFrom(box: AABB, r: Ray, axis: nat, w: Window): bool
    requires axis <= 3
    decreases 3 - axis
  {
    if axis == 3 then true
    else
      match SlabStep(w, Get(box.min, axis), Get(box.max, axis), Get(r.origin, axis), Get(r.dir, axis))
      case None => false
      case Some(w') => BoxHitFrom(box, r, axis + 1, w')
  }

  /** `AABB::hit(r, t_min, t_max)`. */
  function BoxHit(box: AABB, r: Ray, tMin: real, tMax: Bound): bool {
    BoxHitFrom(box, r, 0, Window(tMin, tMax))
  }

  /** `AABB::hit` as the source runs it: a loop over the three axes that narrows
      `t_min` and `t_max` in place. */
  method Hit(box: AABB, r: Ray, tMin: real, tMax: Bound) returns (hit: bool)
    ensures hit == BoxHit(box, r, tMin, tMax)
  {
    var lo, hi := tMin, tMax;
    for axis := 0 to 3
      invariant BoxHitFrom(box, r, axis, Window(lo, hi)) == BoxHit(box, r, tMin, tMax)
      invariant axis > 0 ==> NonEmpty(Window(lo, hi))
    {
      ghost var w := Window(lo, hi);
      var bMin, bMax := Get(box.min, axis), Get(box.max, axis);
      var o, d := Get(r.origin, axis), Get(r.dir, axis);
      ghost var step := SlabStep(w, bMin, bMax, o, d);
      if d == 0.0 {
        if o < bMin || bMax < o {
          return false;
        }
      } else {
        var invD := 1.0 / d;
        var t0 := (bMin - o) * invD;
        var t1 := (bMax - o) * invD;
        if invD < 0.0 {
          t0, t1 := t1, t0;
        }
        SlabIntervalComputed(bMin, bMax, o, d, invD, (bMin - o) * invD, (bMax - o) * invD);
        lo := if t0 > lo then t0 else lo;
        hi := if Below(t1, hi) then Finite(t1) else hi;
        assert Window(lo, hi) == Narrow(w, Interval(t0, t1));
      }
      if hi.Finite? && hi.value <= lo {
        return false;
      }
      assert step == Some(Window(lo, hi));
    }
    return true;
  }

  /** The point `r.at(t)` is within the box's extent along `axis`: strictly between the
      faces when the ray crosses them, anywhere between them (faces included) when the ray
      runs parallel to them. */
  predicate InSlab(box: AABB, r: Ray, axis: nat, t: real)
    requires axis < 3
  {
    var p := Get(At(r, t), axis);
    if Get(r.dir, axis) == 0.0 then Get(box.min, axis) <= p <= Get(box.max, axis)
    else Get(box.min, axis) < p < Get(box.max, axis)
  }

  predicate InSlabsFrom(box: AABB, r: Ray, axis: nat, t: real)
    requires axis <= 3
    decreases 3 - axis
  {
    axis == 3 || (InSlab(box, r, axis, t) && InSlabsFrom(box, r, axis + 1, t))
  }

  /** The ray is inside the box at parameter `t`. */
  predicate InsideAt(box: AABB, r: Ray, t: real) { InSlabsFrom(box, r, 0, t) }

  /** The point lies strictly between the faces of the box on every axis. */
  predicate StrictlyContains(box: AABB, p: Point3) {
    && box.min.x < p.x < box.max.x
    && box.min.y < p.y < box.max.y
    && box.min.z < p.z < box.max.z
  }

  /** A ray whose point at `t` lies strictly inside the box is inside it at `t`, whichever
      of its direction components are zero. */
  lemma StrictlyContainedIsInside(box: AABB, r: Ray, t: real)
    requires StrictlyContains(box, At(r, t))
    ensures InsideAt(box, r, t)
  {
    GetAt(r, t, 0);
    GetAt(r, t, 1);
    GetAt(r, t, 2);
    assert InSlabsFrom(box, r, 3, t);
  }

  /** The slab test accepts exactly when some parameter in `(t_min, t_max)` puts the ray
      inside the box. */
  lemma BoxHitIffInside(box: AABB, r: Ray, tMin: real, tMax: Bound)
    ensures BoxHit(box, r, tMin, tMax) <==>
            exists t :: InWindow(t, Window(tMin, tMax)) && InsideAt(box, r, t)
  {
    BoxHitFromMeaning(box, r, 0, Window(tMin, tMax));
  }

  /** The slab test also accepts a ray that is strictly inside the box at an end of a range
      `[t_min, t_max]` with `t_min < t_max`: the window it narrows to still contains
      parameters next to that end. */
  lemma BoxHitClosedRange(box: AABB, r: Ray, tMin: real, tMax: Bound, t: real)
    requires NonEmpty(Window(tMin, tMax)) && tMin <= t && AtMost(t, tMax)
    requires StrictlyContains(box, At(r, t))
    ensures BoxHit(box, r, tMin, tMax)
  {
    BoxHitFromClosed(box, r, 0, Window(tMin, tMax), t);
  }

  lemma StrictlyContainsAxis(box: AABB, p: Point3, axis: nat)
    requires axis < 3 && StrictlyContains(box, p)
    ensures Get(box.min, axis) < Get(p, axis) < Get(box.max, axis)
  {
  }

  lemma {:induction false} BoxHitFromClosed(box: AABB, r: Ray, axis: nat, w: Window, t: real)
    requires axis <= 3
    requires NonEmpty(w) && w.tMin <= t && AtMost(t, w.tMax)
    requires StrictlyContains(box, At(r, t))
    ensures BoxHitFrom(box, r, axis, w)
    decreases 3 - axis
  {
    if axis < 3 {
      var lo, hi := Get(box.min, axis), Get(box.max, axis);
      var o, d := Get(r.origin, axis), Get(r.dir, axis);
      GetAt(r, t, axis);
      StrictlyContainsAxis(box, At(r, t), axis);
      if d == 0.0 {
        assert SlabStep(w, lo, hi, o, d) == Some(w);
        BoxHitFromClosed(box, r, axis + 1, w, t);
      } else {
        var narrowed := Narrow(w, SlabInterval(lo, hi, o, d));
        SlabIntervalMeaning(lo, hi, o, d, t);
        assert NonEmpty(narrowed);
        assert SlabStep(w, lo, hi, o, d) == Some(narrowed);
        BoxHitFromClosed(box, r, axis + 1, narrowed, t);
      }
    }
  }

  lemma {:induction false} BoxHitFromMeaning(box: AABB, r: Ray, axis: nat, w: Window)
    requires axis <= 3
    requires axis == 3 ==> NonEmpty(w)
    ensures BoxHitFrom(box, r, axis, w) <==> exists t :: InWindow(t, w) && InSlabsFrom(box, r, axis, t)
    decreases 3 - axis
  {
    if axis == 3 {
      var t := Inside(w);
      assert InWindow(t, w) && InSlabsFrom(box, r, axis, t);
    } else {
      var lo, hi := Get(box.min, axis), Get(box.max, axis);
      var o, d := Get(r.origin, axis), Get(r.dir, axis);
      SlabStepMeaning(w, lo, hi, o, d);
      forall t ensures InSlab(box, r, axis, t) <==> SlabHolds(lo, hi, o, d, t) {
        GetAt(r, t, axis);
      }
      match SlabStep(w, lo, hi, o, d)
      case None =>
      case Some(w') =>
        BoxHitFromMeaning(box, r, axis + 1, w');
        if BoxHitFrom(box, r, axis + 1, w') {
          var t :| InWindow(t, w') && InSlabsFrom(box, r, axis + 1, t);
          assert InWindow(t, w) && InSlabsFrom(box, r, axis, t);
        }
        if exists t :: InWindow(t, w) && InSlabsFrom(box, r, axis, t) {
          var t :| InWindow(t, w) && InSlabsFrom(box, r, axis, t);
          assert InWindow(t, w') && InSlabsFrom(box, r, axis + 1, t);
        }
    }
  }

  /** A parameter inside a non-empty window. */
  function Inside(w: Window): (t: real)
    requires NonEmpty(w)
    ensures InWindow(t, w)
  {
    if w.tMax.Infinity? then w.tMin + 1.0 else (w.tMin + w.tMax.value) / 2.0
  }

  lemma GetAt(r: Ray, t: real, axis: nat)
    requires axis < 3
    ensures Get(At(r, t), axis) == Get(r.origin, axis) + t * Get(r.dir, axis)
  {
  }

  /** `InSlab` on plain numbers, for a point `o + t * d` and a slab `[lo, hi]`. */
  predicate SlabHolds(lo: real, hi: real, o: real, d: real, t: real) {
    if d == 0.0 then lo <= o <= hi else lo < o + t * d < hi
  }

  /** A ray with non-zero direction component is strictly inside the slab exactly between
      its entry and exit parameters. */
  lemma SlabIntervalMeaning(lo: real, hi: real, o: real, d: real, t: real)
    requires d != 0.0
    ensures SlabHolds(lo, hi, o, d, t) <==> SlabInterval(lo, hi, o, d).near < t < SlabInterval(lo, hi, o, d).far
  {
    var invD := 1.0 / d;
    ScaledCompare(lo - o, t, d, invD);
    ScaledCompare(hi - o, t, d, invD);
  }

  /** Narrowing intersects the window with the open interval. */
  lemma NarrowMeaning(w: Window, iv: Interval, t: real)
    ensures InWindow(t, Narrow(w, iv)) <==> InWindow(t, w) && iv.near < t < iv.far
  {
  }

  /** A step keeps exactly the parameters of the old window that lie in the slab, and
      rejects only when there are none. */
  lemma SlabStepMeaning(w: Window, lo: real, hi: real, o: real, d: real)
    ensures SlabStep(w, lo, hi, o, d).Some? ==> NonEmpty(SlabStep(w, lo, hi, o, d).value)
    ensures SlabStep(w, lo, hi, o, d).Some? ==>
              forall t :: InWindow(t, SlabStep(w, lo, hi, o, d).value) <==> InWindow(t, w) && SlabHolds(lo, hi, o, d, t)
    ensures SlabStep(w, lo, hi, o, d).None? ==> forall t :: !(InWindow(t, w) && SlabHolds(lo, hi, o, d, t))
  {
    if d == 0.0 {
      if NonEmpty(w) {
        var t := Inside(w);
      }
    } else {
      var iv := SlabInterval(lo, hi, o, d);
      var narrowed := Narrow(w, iv);
      forall t ensures InWindow(t, narrowed) <==> InWindow(t, w) && SlabHolds(lo, hi, o, d, t) {
        SlabIntervalMeaning(lo, hi, o, d, t);
        NarrowMeaning(w, iv, t);
      }
    }
  }

  /** Dividing by `d` through multiplication by `1 / d` flips comparisons exactly when
      `d` is negative. */
  lemma ScaledCompare(a: real, t: real, d: real, invD: real)
    requires d != 0.0 && invD == 1.0 / d
    ensures d > 0.0 ==> invD > 0.0 && (a * invD < t <==> a < t * d) && (t < a * invD <==> t * d < a)
    ensures d < 0.0 ==> invD < 0.0 && (a * invD < t <==> t * d < a) && (t < a * invD <==> a < t * d)
  {
    var q := a * invD;
    assert q * d == a;
    if d > 0.0 {
      MulMonotone(q, t, d);
      MulMonotone(t, q, d);
    } else {
      MulMonotone(q, t, -d);
      MulMonotone(t, q, -d);
    }
  }

  lemma MulMonotone(x: real, y: real, k: real)
    requires k > 0.0
    ensures x < y <==> x * k < y * k
  {
    if x < y {
      assert (y - x) * k > 0.0;
    } else {
      assert (x - y) * k >= 0.0;
    }
  }
}
