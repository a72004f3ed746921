/** `HitableList`: a collection of spheres searched one by one for the nearest hit. */
module HitableLists {
  import opened Wrappers
  import opened Vec3Math
  import opened Boxes
  import opened Shapes

  /** Every sphere in `objects` can be intersected. */
  predicate AllValid(objects: seq<Sphere>) {
    forall i :: 0 <= i < |objects| ==> ValidSphere(objects[i])
  }

  /** Some sphere of `objects` meets the ray at `t` within `[t_min, t_max]`. */
  ghost predicate AnyHitsAt(objects: seq<Sphere>, r: Ray, tMin: real, tMax: Bound, t: real) {
    exists i :: 0 <= i < |objects| && HitsAt(objects[i], r, tMin, tMax, t)
  }

  /** `hit` is the nearest hit on `objects` within `[t_min, t_max]`: the record one of the
      spheres gives at that parameter, which no other intersection in range precedes. */
  ghost predicate IsNearestHit(objects: seq<Sphere>, r: Ray, tMin: real, tMax: Bound, hit: HitRecord)
    requires AllValid(objects)
  {
    && (exists i :: 0 <= i < |objects| && HitsAt(objects[i], r, tMin, tMax, hit.t)
                 && hit == RecordAt(objects[i], r, hit.t))
    && (forall i, t :: 0 <= i < |objects| && HitsAt(objects[i], r, tMin, tMax, t) ==> hit.t <= t)
  }

  /** The boxes of a list of child results that all succeeded. */
  function Unwrapped(boxes: seq<Option<AABB>>): (bs: seq<AABB>)
    requires forall i :: 0 <= i < |boxes| ==> boxes[i].Some?
    ensures |bs| == |boxes| && forall i :: 0 <= i < |boxes| ==> bs[i] == boxes[i].value
  {
    if |boxes| == 0 then [] else Unwrapped(boxes[..|boxes| - 1]) + [boxes[|boxes| - 1].value]
  }

  /** The loop of `HitableList::bounding_box` over its children's `bounding_box` results:
      no box for an empty list or when a child has none, otherwise the union of all of them,
      folded from the first. */
  method SurroundChildren(children: seq<Option<AABB>>) returns (box: Option<AABB>)
    ensures box.None? <==> |children| == 0 || exists i :: 0 <= i < |children| && children[i].None?
    ensures box.Some? ==> IsUnionOf(box.value, Unwrapped(children))
  {
    if |children| == 0 {
      return None;
    }
    var output: Option<AABB> := None;
    var firstBox := true;
    for k := 0 to |children|
      invariant firstBox <==> k == 0
      invariant forall i :: 0 <= i < k ==> children[i].Some?
      invariant k > 0 ==> output.Some? && IsUnionOf(output.value, Unwrapped(children[..k]))
    {
      var temp := children[k];
      if temp.None? {
        return None;
      }
      if firstBox {
        FoldFirst(children);
        output := temp;
      } else {
        FoldStep(children, k, output.value);
        output := Some(SurroundingBox(output.value, temp.value));
      }
      firstBox := false;
    }
    assert children[..|children|] == children;
    return output;
  }

  /** The first child's box is the union of the first child alone. */
  lemma FoldFirst(children: seq<Option<AABB>>)
    requires |children| > 0 && children[0].Some?
    ensures IsUnionOf(children[0].value, Unwrapped(children[..1]))
  {
    UnionOfSingleton(children[0].value);
    assert Unwrapped(children[..1]) == [children[0].value];
  }

  /** Surrounding the union of the first `k` boxes with box `k` gives the union of the first `k + 1`. */
  lemma FoldStep(children: seq<Option<AABB>>, k: nat, b: AABB)
    requires k < |children| && forall i :: 0 <= i <= k ==> children[i].Some?
    requires IsUnionOf(b, Unwrapped(children[..k]))
    ensures IsUnionOf(SurroundingBox(b, children[k].value), Unwrapped(children[..k + 1]))
  {
    UnionOfSingleton(children[k].value);
    UnionOfConcat(b, Unwrapped(children[..k]), children[k].value, [children[k].value]);
    assert Unwrapped(children[..k + 1]) == Unwrapped(children[..k]) + [children[k].value];
  }

  /** The children's `bounding_box` results for a list of spheres: each sphere has a box. */
  function SphereResults(objects: seq<Sphere>): (bs: seq<Option<AABB>>)
    ensures |bs| == |objects| && forall i :: 0 <= i < |objects| ==> bs[i] == Some(SphereBox(objects[i]))
  {
    if |objects| == 0 then [] else SphereResults(objects[..|objects| - 1]) + [Some(SphereBox(objects[|objects| - 1]))]
  }

  class HitableList {
    var objects: seq<Sphere>

    constructor ()
      ensures objects == []
    {
      objects := [];
    }

    constructor Single(sphere: Sphere)
      ensures objects == [sphere]
    {
      objects := [sphere];
    }

    method Clear()
      modifies this
      ensures objects == []
    {
      objects := [];
    }

    method Add(sphere: Sphere)
      modifies this
      ensures objects == old(objects) + [sphere]
    {
      objects := objects + [sphere];
    }

    /** `HitableList::hit`: try every sphere with the search bounded by the nearest hit so
        far, keeping the last record found. */
    method Hit(r: Ray, tMin: real, tMax: Bound, sqrt: real -> real) returns (hit: Option<HitRecord>)
      requires AllValid(objects) && LengthSquared(r.dir) != 0.0 && IsSqrt(sqrt)
      ensures hit.None? <==> forall t :: !AnyHitsAt(objects, r, tMin, tMax, t)
      ensures hit.Some? ==> IsNearestHit(objects, r, tMin, tMax, hit.value)
    {
      hit := None;
      var closest := tMax;
      for k := 0 to |objects|
        invariant hit.None? ==> closest == tMax
        invariant hit.None? ==> forall i, t :: 0 <= i < k ==> !HitsAt(objects[i], r, tMin, tMax, t)
        invariant hit.Some? ==> closest == Finite(hit.value.t) && IsNearestHit(objects[..k], r, tMin, tMax, hit.value)
      {
        var temp := SphereHit(objects[k], r, tMin, closest, sqrt);
        NextChild(objects, k, r, tMin, tMax, closest, sqrt, hit, temp);
        if temp.Some? {
          hit := temp;
          closest := Finite(temp.value.t);
        }
      }
      assert objects[..|objects|] == objects;
      if hit.None? {
        forall t ensures !AnyHitsAt(objects, r, tMin, tMax, t) {
        }
      } else {
        assert !AnyHitsAt(objects, r, tMin, tMax, hit.value.t) ==> false;
      }
    }

    /** `HitableList::bounding_box`. */
    method BoundingBox() returns (box: Option<AABB>)
      ensures box.None? <==> |objects| == 0
      ensures box.Some? ==> IsUnionOf(box.value, BoxesOf(objects))
    {
      box := SurroundChildren(SphereResults(objects));
      assert Unwrapped(SphereResults(objects)) == BoxesOf(objects);
    }
  }

  /** One iteration of the closest-hit loop keeps its invariant. */
  lemma NextChild(objects: seq<Sphere>, k: nat, r: Ray, tMin: real, tMax: Bound, closest: Bound,
                  sqrt: real -> real, hit: Option<HitRecord>, temp: Option<HitRecord>)
    requires k < |objects| && AllValid(objects) && LengthSquared(r.dir) != 0.0 && IsSqrt(sqrt)
    requires temp == SphereHit(objects[k], r, tMin, closest, sqrt)
    requires hit.None? ==> closest == tMax
    requires hit.None? ==> forall i, t :: 0 <= i < k ==> !HitsAt(objects[i], r, tMin, tMax, t)
    requires hit.Some? ==> closest == Finite(hit.value.t) && IsNearestHit(objects[..k], r, tMin, tMax, hit.value)
    ensures temp.None? && hit.None? ==> forall i, t :: 0 <= i < k + 1 ==> !HitsAt(objects[i], r, tMin, tMax, t)
    ensures temp.None? && hit.Some? ==> IsNearestHit(objects[..k + 1], r, tMin, tMax, hit.value)
    ensures temp.Some? ==> IsNearestHit(objects[..k + 1], r, tMin, tMax, temp.value)
  {
    var s := objects[k];
    var prefix := objects[..k + 1];
    assert prefix[k] == s;
    assert forall i :: 0 <= i < k ==> prefix[i] == objects[..k][i] == objects[i];
    SphereHitSound(s, r, tMin, closest, sqrt);
    // A hit on the new sphere within range that the search bound excluded lies beyond the bound.
    forall t | HitsAt(s, r, tMin, tMax, t) && AtMost(t, closest)
      ensures temp.Some? && temp.value.t <= t
    {
      SphereHitNearest(s, r, tMin, closest, sqrt, t);
    }
    if hit.Some? {
      var i0 :| 0 <= i0 < k && HitsAt(objects[..k][i0], r, tMin, tMax, hit.value.t)
                && hit.value == RecordAt(objects[..k][i0], r, hit.value.t);
      assert AtMost(hit.value.t, tMax);
      if temp.None? {
        assert HitsAt(prefix[i0], r, tMin, tMax, hit.value.t);
      }
    }
    if temp.Some? {
      assert AtMost(temp.value.t, tMax);
      assert HitsAt(prefix[k], r, tMin, tMax, temp.value.t);
    }
  }
}
