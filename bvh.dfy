/** The bounding volume hierarchy: a binary tree of boxes over the scene's spheres, built
    by sorting a range of the object vector on a randomly drawn axis and splitting it in
    half, and searched by pruning every subtree whose box the ray misses. */
module Bvh {
  import opened Wrappers
  import opened Vec3Math
  import opened Boxes
  import opened Shapes
  import opened Rng

  /** A `Hitable` in the hierarchy: a sphere, or a `BVHNode` with its two children and the
      box it stored when it was built. */
  datatype Tree = Leaf(sphere: Sphere) | Node(left: Tree, right: Tree, box: AABB)

  /** `bounding_box` of a hierarchy member, which always succeeds. */
  function BoxOf(t: Tree): AABB {
    match t
    case Leaf(s) => SphereBox(s)
    case Node(_, _, box) => box
  }

  /** The spheres reachable from a member. */
  function Elements(t: Tree): set<Sphere> {
    match t
    case Leaf(s) => {s}
    case Node(left, right, _) => Elements(left) + Elements(right)
  }

  /** Every node stores the surrounding box of its children's boxes, as the builder does. */
  predicate WellFormed(t: Tree) {
    match t
    case Leaf(_) => true
    case Node(left, right, box) =>
      box == SurroundingBox(BoxOf(left), BoxOf(right)) && WellFormed(left) && WellFormed(right)
  }

  predicate ValidTree(t: Tree) {
    forall s :: s in Elements(t) ==> ValidSphere(s)
  }

  function SetOf(s: seq<Sphere>): set<Sphere> {
    set x | x in s
  }

  /** `t` is a node built over the spheres `s`: well formed, holding exactly those spheres,
      with the union of their boxes (see `UnionBoxIsUnion`) as its box. */
  ghost predicate Spans(t: Tree, s: seq<Sphere>) {
    t.Node? && WellFormed(t) && |s| > 0 && Elements(t) == SetOf(s) && BoxOf(t) == UnionBox(BoxesOf(s))
  }

  // Ordering objects by their boxes.

  /** The sort key of `box_compare`: the minimum corner of the object's box on `axis`. */
  function Key(s: Sphere, axis: nat): real
    requires axis < 3
  {
    Get(SphereBox(s).min, axis)
  }

  /** `BVHNode::box_compare`, which `box_x_compare`, `box_y_compare` and `box_z_compare`
      fix to one axis each. */
  function BoxCompare(a: Sphere, b: Sphere, axis: nat): (less: bool)
    requires axis < 3
    ensures less <==> Get(a.center, axis) - a.radius < Get(b.center, axis) - b.radius
  {
    Key(a, axis) < Key(b, axis)
  }

  ghost predicate SortedBy(s: seq<Sphere>, axis: nat)
    requires axis < 3
  {
    forall i, j :: 0 <= i < j < |s| ==> Key(s[i], axis) <= Key(s[j], axis)
  }

  /** `static_cast<int>(3 * random_double())`: the axis drawn from a number in `[0, 1)`. */
  function AxisOf(u: real): (axis: nat)
    requires 0.0 <= u < 1.0
    ensures axis < 3
    ensures axis as real <= 3.0 * u < axis as real + 1.0
  {
    (3.0 * u).Floor
  }

  /** The `std::sort` call of the constructor, on `objects[start..end)` with the comparator
      for `axis`; any sorting algorithm meets this contract, insertion sort is used here. */
  method SortRange(objects: array<Sphere>, start: nat, end: nat, axis: nat)
    requires start <= end <= objects.Length && axis < 3
    modifies objects
    ensures SortedBy(objects[start..end], axis)
    ensures Rearranged(objects[..], old(objects[..]), start, end)
  {
    for i := start to end
      invariant SortedBetween(objects[..], start, i, axis)
      invariant Rearranged(objects[..], old(objects[..]), start, end)
    {
      ghost var before := objects[..];
      InsertDown(objects, start, i, end, axis);
      RearrangedTransitive(objects[..], before, old(objects[..]), start, end);
    }
    SortedSlice(objects[..], start, end, axis);
  }

  /** One pass of insertion sort: move `objects[i]` down past every larger element before it
      in the sorted run `objects[start..i)`. */
  method InsertDown(objects: array<Sphere>, start: nat, i: nat, end: nat, axis: nat)
    requires start <= i < end <= objects.Length && axis < 3
    requires SortedBetween(objects[..], start, i, axis)
    modifies objects
    ensures SortedBetween(objects[..], start, i + 1, axis)
    ensures Rearranged(objects[..], old(objects[..]), start, end)
  {
    SortedAroundLast(objects[..], start, i, axis);
    RearrangedReflexive(objects[..], start, end);
    var j := i;
    while j > start && BoxCompare(objects[j], objects[j - 1], axis)
      invariant start <= j <= i
      invariant SortedAround(objects[..], start, i + 1, j, axis)
      invariant Rearranged(objects[..], old(objects[..]), start, end)
    {
      ghost var before := objects[..];
      objects[j - 1], objects[j] := objects[j], objects[j - 1];
      assert objects[..] == before[j - 1 := before[j]][j := before[j - 1]];
      InsertStep(before, old(objects[..]), start, i, end, j, axis);
      j := j - 1;
    }
    SortedAroundDone(objects[..], start, i + 1, j, axis);
  }

  /** One swap of the insertion pass keeps the run sorted around the moving element and the
      array a rearrangement of the original. */
  lemma InsertStep(s: seq<Sphere>, orig: seq<Sphere>, start: nat, i: nat, end: nat, j: nat, axis: nat)
    requires start < j <= i < end <= |orig| && |s| == |orig| && axis < 3
    requires SortedAround(s, start, i + 1, j, axis) && Rearranged(s, orig, start, end)
    requires BoxCompare(s[j], s[j - 1], axis)
    ensures SortedAround(s[j - 1 := s[j]][j := s[j - 1]], start, i + 1, j - 1, axis)
    ensures Rearranged(s[j - 1 := s[j]][j := s[j - 1]], orig, start, end)
  {
    SwapStep(s, start, i + 1, j, axis);
    SwapRearranges(s, start, end, j);
    RearrangedTransitive(s[j - 1 := s[j]][j := s[j - 1]], s, orig, start, end);
  }

  /** `s` is a permutation of `t` that leaves everything outside `[lo, hi)` in place. */
  ghost predicate Rearranged(s: seq<Sphere>, t: seq<Sphere>, lo: nat, hi: nat)
    requires lo <= hi <= |t|
  {
    |s| == |t| && multiset(s) == multiset(t) && s[..lo] == t[..lo] && s[hi..] == t[hi..]
  }

  lemma RearrangedReflexive(s: seq<Sphere>, lo: nat, hi: nat)
    requires lo <= hi <= |s|
    ensures Rearranged(s, s, lo, hi)
  {
  }

  lemma RearrangedTransitive(a: seq<Sphere>, b: seq<Sphere>, c: seq<Sphere>, lo: nat, hi: nat)
    requires lo <= hi <= |c|
    requires Rearranged(b, c, lo, hi) && Rearranged(a, b, lo, hi)
    ensures Rearranged(a, c, lo, hi)
  {
  }

  lemma SwapRearranges(s: seq<Sphere>, lo: nat, hi: nat, j: nat)
    requires lo < j < hi <= |s|
    ensures Rearranged(s[j - 1 := s[j]][j := s[j - 1]], s, lo, hi)
  {
    var t := s[j - 1 := s[j]][j := s[j - 1]];
    assert t[..lo] == s[..lo];
    assert t[hi..] == s[hi..];
  }

  /** `s[lo..hi)` is in key order. */
  ghost predicate SortedBetween(s: seq<Sphere>, lo: nat, hi: nat, axis: nat)
    requires lo <= hi <= |s| && axis < 3
  {
    forall p, q :: lo <= p < q < hi ==> Key(s[p], axis) <= Key(s[q], axis)
  }

  /** `s[lo..hi)` is in key order apart from the element at `j`, which is being moved
      down and is smaller than everything after it. */
  ghost predicate SortedAround(s: seq<Sphere>, lo: nat, hi: nat, j: nat, axis: nat)
    requires lo <= j < hi <= |s| && axis < 3
  {
    && (forall p, q :: lo <= p < q < hi && p != j && q != j ==> Key(s[p], axis) <= Key(s[q], axis))
    && (forall q :: j < q < hi ==> Key(s[j], axis) < Key(s[q], axis))
  }

  lemma SortedAroundLast(s: seq<Sphere>, lo: nat, i: nat, axis: nat)
    requires lo <= i < |s| && axis < 3
    requires SortedBetween(s, lo, i, axis)
    ensures SortedAround(s, lo, i + 1, i, axis)
  {
  }

  /** Swapping the moving element with a larger left neighbour moves the hole one place down. */
  lemma SwapStep(s: seq<Sphere>, lo: nat, hi: nat, j: nat, axis: nat)
    requires lo < j < hi <= |s| && axis < 3
    requires SortedAround(s, lo, hi, j, axis)
    requires Key(s[j], axis) < Key(s[j - 1], axis)
    ensures SortedAround(s[j - 1 := s[j]][j := s[j - 1]], lo, hi, j - 1, axis)
  {
    var t := s[j - 1 := s[j]][j := s[j - 1]];
    forall p, q | lo <= p < q < hi && p != j - 1 && q != j - 1
      ensures Key(t[p], axis) <= Key(t[q], axis)
    {
      if p == j {
      } else if q == j {
        assert p < j - 1;
      }
    }
  }

  /** Once the moving element has reached a smaller-or-equal neighbour, or the start, the
      range is sorted. */
  lemma SortedAroundDone(s: seq<Sphere>, lo: nat, hi: nat, j: nat, axis: nat)
    requires lo <= j < hi <= |s| && axis < 3
    requires SortedAround(s, lo, hi, j, axis)
    requires j == lo || Key(s[j - 1], axis) <= Key(s[j], axis)
    ensures SortedBetween(s, lo, hi, axis)
  {
    forall p, q | lo <= p < q < hi
      ensures Key(s[p], axis) <= Key(s[q], axis)
    {
      if q == j && p < j - 1 {
        assert Key(s[p], axis) <= Key(s[j - 1], axis);
      }
    }
  }

  lemma SortedSlice(s: seq<Sphere>, lo: nat, hi: nat, axis: nat)
    requires lo <= hi <= |s| && axis < 3
    requires SortedBetween(s, lo, hi, axis)
    ensures SortedBy(s[lo..hi], axis)
  {
    var r := s[lo..hi];
    forall i, j | 0 <= i < j < |r|
      ensures Key(r[i], axis) <= Key(r[j], axis)
    {
      assert r[i] == s[lo + i] && r[j] == s[lo + j];
    }
  }

  // Construction.

  /** The `BVHNode` constructor over `objects[start..end)`. It draws the split axis first,
      fails on an empty range, makes both children the one object of a range of one, orders
      the two objects of a range of two by `box_compare`, and otherwise sorts the range on
      the axis and builds a node over each half. The ghost results name the axis drawn and,
      for a range of three or more, the order the sort left the range in. */
  method Build(objects: array<Sphere>, start: nat, end: nat, rng: RandomSource)
      returns (res: Result<Tree, string>, ghost axis: nat, ghost sorted: seq<Sphere>)
    requires start <= end <= objects.Length && rng.Valid()
    modifies objects, rng
    decreases end - start, 1
    ensures rng.Valid()
    ensures axis == AxisOf(RandomDouble(XorShiftOutput(old(rng.state)))) && axis < 3
    ensures Rearranged(objects[..], old(objects[..]), start, end)
    ensures res.Failure? <==> start == end
    ensures res.Success? ==> Spans(res.value, old(objects[start..end]))
    ensures end - start == 1 ==>
              var s := old(objects[start]);
              res.value == Node(Leaf(s), Leaf(s), SphereBox(s))
    ensures end - start == 2 ==>
              var a, b := old(objects[start]), old(objects[start + 1]);
              && res.value.left == Leaf(if BoxCompare(a, b, axis) then a else b)
              && res.value.right == Leaf(if BoxCompare(a, b, axis) then b else a)
    ensures end - start >= 3 ==>
              && multiset(sorted) == multiset(old(objects[start..end]))
              && SortedBy(sorted, axis)
              && Spans(res.value.left, sorted[..|sorted| / 2])
              && Spans(res.value.right, sorted[|sorted| / 2..])
  {
    var u := rng.NextDouble();
    var drawn := AxisOf(u);
    axis, sorted := drawn, [];
    if end == start {
      return Failure("BVHNode requires at least one object."), axis, sorted;
    }
    var left: Tree, right: Tree;
    if end - start == 1 {
      left := Leaf(objects[start]);
      right := left;
      RearrangedReflexive(objects[..], start, end);
      SpansOne(objects[start], objects[start..end]);
    } else if end - start == 2 {
      if BoxCompare(objects[start], objects[start + 1], drawn) {
        left := Leaf(objects[start]);
        right := Leaf(objects[start + 1]);
      } else {
        left := Leaf(objects[start + 1]);
        right := Leaf(objects[start]);
      }
      RearrangedReflexive(objects[..], start, end);
      SpansTwo(left.sphere, right.sphere, objects[start..end]);
    } else {
      left, right, sorted := BuildHalves(objects, start, end, drawn, rng);
    }
    res := Success(Node(left, right, SurroundingBox(BoxOf(left), BoxOf(right))));
  }

  /** The branch of the constructor for three or more objects: sort the range on `axis`,
      then build a node over `[start, mid)` and one over `[mid, end)`, `mid` being
      `start + span / 2`. */
  method BuildHalves(objects: array<Sphere>, start: nat, end: nat, axis: nat, rng: RandomSource)
      returns (left: Tree, right: Tree, ghost sorted: seq<Sphere>)
    requires start + 3 <= end <= objects.Length && axis < 3 && rng.Valid()
    modifies objects, rng
    decreases end - start, 0
    ensures rng.Valid()
    ensures Rearranged(objects[..], old(objects[..]), start, end)
    ensures multiset(sorted) == multiset(old(objects[start..end])) && SortedBy(sorted, axis)
    ensures Spans(left, sorted[..|sorted| / 2]) && Spans(right, sorted[|sorted| / 2..])
    ensures Spans(Node(left, right, SurroundingBox(BoxOf(left), BoxOf(right))), old(objects[start..end]))
  {
    ghost var initial := objects[..];
    SortRange(objects, start, end, axis);
    ghost var afterSort := objects[..];
    sorted := objects[start..end];
    RearrangedRange(afterSort, initial, start, end);
    var mid := start + (end - start) / 2;
    ghost var a1: nat, s1: seq<Sphere>, a2: nat, s2: seq<Sphere>;
    var builtLeft, builtRight;
    builtLeft, a1, s1 := Build(objects, start, mid, rng);
    ghost var afterLeft := objects[..];
    builtRight, a2, s2 := Build(objects, mid, end, rng);
    left, right := builtLeft.value, builtRight.value;
    CombineRearranged(initial, afterSort, afterLeft, objects[..], start, mid, end);
    CombineSpans(initial, afterSort, start, mid, end, left, right);
    Halves(afterSort, start, mid, end);
  }

  /** A node whose two children are the same sphere spans that sphere. */
  lemma SpansOne(s: Sphere, range: seq<Sphere>)
    requires range == [s]
    ensures Spans(Node(Leaf(s), Leaf(s), SurroundingBox(SphereBox(s), SphereBox(s))), range)
    ensures SurroundingBox(SphereBox(s), SphereBox(s)) == SphereBox(s)
  {
    SurroundingBoxAlgebra(SphereBox(s), SphereBox(s));
    assert BoxesOf(range) == [SphereBox(s)];
    assert SetOf(range) == {s};
  }

  /** A node over two spheres, in either order, spans both. */
  lemma SpansTwo(a: Sphere, b: Sphere, range: seq<Sphere>)
    requires range == [a, b] || range == [b, a]
    ensures Spans(Node(Leaf(a), Leaf(b), SurroundingBox(SphereBox(a), SphereBox(b))), range)
  {
    var boxes := [SphereBox(a), SphereBox(b)];
    assert UnionBox(boxes) == SurroundingBox(SphereBox(a), SphereBox(b)) by {
      assert boxes[..1] == [SphereBox(a)];
    }
    assert forall x :: x in boxes <==> x in BoxesOf(range);
    UnionBoxOfSameElements(boxes, BoxesOf(range));
    assert SetOf(range) == {a, b};
  }

  /** Rebuilding the two halves after the sort rearranges only the node's range, and the
      upper half is still as the sort left it when the second recursive call starts. */
  lemma CombineRearranged(a0: seq<Sphere>, a1: seq<Sphere>, a2: seq<Sphere>, a3: seq<Sphere>,
                          start: nat, mid: nat, end: nat)
    requires start <= mid <= end <= |a0|
    requires Rearranged(a1, a0, start, end)
    requires Rearranged(a2, a1, start, mid) && Rearranged(a3, a2, mid, end)
    ensures a2[mid..end] == a1[mid..end]
    ensures Rearranged(a3, a0, start, end)
    ensures multiset(a1[start..end]) == multiset(a0[start..end])
  {
    SuffixUntouched(a2, a1, start, mid, end);
    RearrangedWider(a2, a1, start, mid, end);
    RearrangedWider(a3, a2, mid, start, end);
    RearrangedTransitive(a3, a2, a1, start, end);
    RearrangedTransitive(a3, a1, a0, start, end);
    RearrangedRange(a1, a0, start, end);
  }

  /** The node over the two halves of the sorted range spans the range as it was before the
      sort. */
  lemma CombineSpans(a0: seq<Sphere>, a1: seq<Sphere>, start: nat, mid: nat, end: nat, left: Tree, right: Tree)
    requires start <= mid <= end <= |a0| == |a1|
    requires multiset(a1[start..end]) == multiset(a0[start..end])
    requires Spans(left, a1[start..mid]) && Spans(right, a1[mid..end])
    ensures Spans(Node(left, right, SurroundingBox(BoxOf(left), BoxOf(right))), a0[start..end])
  {
    SpansJoin(left, right, a1[start..mid], a1[mid..end]);
    SliceConcat(a1, start, mid, end);
    SpansPermutation(Node(left, right, SurroundingBox(BoxOf(left), BoxOf(right))), a1[start..end], a0[start..end]);
  }

  /** A rearrangement of `[lo, mid)` leaves `[mid, end)` as it was. */
  lemma SuffixUntouched(s: seq<Sphere>, t: seq<Sphere>, lo: nat, mid: nat, end: nat)
    requires lo <= mid <= end <= |t| && Rearranged(s, t, lo, mid)
    ensures s[mid..end] == t[mid..end]
  {
    assert s[mid..end] == s[mid..][..end - mid];
    assert t[mid..end] == t[mid..][..end - mid];
  }

  /** Two nodes spanning consecutive ranges make a node spanning their concatenation. */
  lemma SpansJoin(left: Tree, right: Tree, lower: seq<Sphere>, upper: seq<Sphere>)
    requires Spans(left, lower) && Spans(right, upper)
    ensures Spans(Node(left, right, SurroundingBox(BoxOf(left), BoxOf(right))), lower + upper)
  {
    BoxesOfConcat(lower, upper);
    UnionBoxConcat(BoxesOf(lower), BoxesOf(upper));
    assert SetOf(lower + upper) == SetOf(lower) + SetOf(upper);
  }

  /** A rearrangement of a range is a rearrangement of any range containing it. */
  lemma RearrangedWider(s: seq<Sphere>, t: seq<Sphere>, lo: nat, hi: nat, end: nat)
    requires (lo <= hi <= end <= |t| && Rearranged(s, t, lo, hi))
          || (hi <= lo <= end <= |t| && Rearranged(s, t, lo, end))
    ensures Rearranged(s, t, if lo <= hi then lo else hi, end)
  {
    if lo <= hi {
      assert s[end..] == s[hi..][end - hi..] && t[end..] == t[hi..][end - hi..];
    } else {
      assert s[..hi] == s[..lo][..hi] && t[..hi] == t[..lo][..hi];
    }
  }

  /** A rearrangement permutes the range itself. */
  lemma RearrangedRange(s: seq<Sphere>, t: seq<Sphere>, lo: nat, hi: nat)
    requires lo <= hi <= |t| && Rearranged(s, t, lo, hi)
    ensures multiset(s[lo..hi]) == multiset(t[lo..hi])
  {
    SplitMultiset(s, lo, hi);
    SplitMultiset(t, lo, hi);
    assert multiset(s[lo..hi]) == multiset(s) - multiset(s[..lo]) - multiset(s[hi..]);
    assert multiset(t[lo..hi]) == multiset(t) - multiset(t[..lo]) - multiset(t[hi..]);
  }

  lemma Halves(s: seq<Sphere>, lo: nat, mid: nat, hi: nat)
    requires lo <= mid <= hi <= |s| && mid == lo + (hi - lo) / 2
    ensures s[lo..hi][..|s[lo..hi]| / 2] == s[lo..mid]
    ensures s[lo..hi][|s[lo..hi]| / 2..] == s[mid..hi]
  {
  }

  lemma SliceConcat(s: seq<Sphere>, lo: nat, mid: nat, hi: nat)
    requires lo <= mid <= hi <= |s|
    ensures s[lo..mid] + s[mid..hi] == s[lo..hi]
  {
  }

  lemma SplitMultiset(s: seq<Sphere>, lo: nat, hi: nat)
    requires lo <= hi <= |s|
    ensures multiset(s) == multiset(s[..lo]) + multiset(s[lo..hi]) + multiset(s[hi..])
  {
    assert s == s[..lo] + s[lo..hi] + s[hi..];
  }

  lemma BoxesOfConcat(a: seq<Sphere>, b: seq<Sphere>)
    ensures BoxesOf(a + b) == BoxesOf(a) + BoxesOf(b)
  {
  }

  /** Spanning depends on the spheres of the range, not their order. */
  lemma SpansPermutation(t: Tree, s: seq<Sphere>, u: seq<Sphere>)
    requires Spans(t, s) && multiset(s) == multiset(u)
    ensures Spans(t, u)
  {
    SameElements(s, u);
    assert SetOf(s) == SetOf(u);
    BoxesSameElements(s, u);
    UnionBoxOfSameElements(BoxesOf(s), BoxesOf(u));
  }

  lemma SameElements(s: seq<Sphere>, u: seq<Sphere>)
    requires multiset(s) == multiset(u)
    ensures forall x :: x in s <==> x in u
  {
    forall x ensures x in s <==> x in u {
      assert x in s <==> x in multiset(s);
      assert x in u <==> x in multiset(u);
    }
  }

  lemma BoxesSameElements(s: seq<Sphere>, u: seq<Sphere>)
    requires forall x :: x in s <==> x in u
    ensures forall b :: b in BoxesOf(s) <==> b in BoxesOf(u)
  {
    forall b | b in BoxesOf(s) ensures b in BoxesOf(u) {
      BoxFromElement(s, u, b);
    }
    forall b | b in BoxesOf(u) ensures b in BoxesOf(s) {
      BoxFromElement(u, s, b);
    }
  }

  lemma BoxFromElement(s: seq<Sphere>, u: seq<Sphere>, b: AABB)
    requires forall x :: x in s ==> x in u
    requires b in BoxesOf(s)
    ensures b in BoxesOf(u)
  {
    var i :| 0 <= i < |s| && BoxesOf(s)[i] == b;
    assert s[i] in s;
    var j :| 0 <= j < |u| && u[j] == s[i];
    assert BoxesOf(u)[j] == b;
  }

  // Search.

  /** `BVHNode::hit`: nothing when the node's box misses the ray; otherwise the left child
      is searched over the whole range and the right child up to the left child's hit, and
      the right child's record, when it finds one, replaces the left's. */
  function TreeHit(t: Tree, r: Ray, tMin: real, tMax: Bound, sqrt: real -> real): Option<HitRecord>
    requires ValidTree(t) && LengthSquared(r.dir) != 0.0
  {
    match t
    case Leaf(s) => SphereHit(s, r, tMin, tMax, sqrt)
    case Node(left, right, box) =>
      if !BoxHit(box, r, tMin, tMax) then None
      else
        var hitLeft := TreeHit(left, r, tMin, tMax, sqrt);
        var hitRight := TreeHit(right, r, tMin, if hitLeft.Some? then Finite(hitLeft.value.t) else tMax, sqrt);
        if hitRight.Some? then hitRight else hitLeft
  }

  /** A record the search returns is the record of one of the spheres at a parameter within
      the range where it meets the ray. */
  lemma {:induction false} TreeHitSound(t: Tree, r: Ray, tMin: real, tMax: Bound, sqrt: real -> real)
    requires ValidTree(t) && LengthSquared(r.dir) != 0.0 && IsSqrt(sqrt)
    ensures var hit := TreeHit(t, r, tMin, tMax, sqrt);
            hit.Some? ==> exists s :: s in Elements(t) && HitsAt(s, r, tMin, tMax, hit.value.t)
                                     && hit.value == RecordAt(s, r, hit.value.t)
  {
    match t
    case Leaf(s) =>
      SphereHitSound(s, r, tMin, tMax, sqrt);
    case Node(left, right, box) =>
      if BoxHit(box, r, tMin, tMax) {
        var hitLeft := TreeHit(left, r, tMin, tMax, sqrt);
        var bound := if hitLeft.Some? then Finite(hitLeft.value.t) else tMax;
        TreeHitSound(left, r, tMin, tMax, sqrt);
        TreeHitSound(right, r, tMin, bound, sqrt);
        var hitRight := TreeHit(right, r, tMin, bound, sqrt);
        if hitRight.Some? {
          var s :| s in Elements(right) && HitsAt(s, r, tMin, bound, hitRight.value.t)
                   && hitRight.value == RecordAt(s, r, hitRight.value.t);
          if hitLeft.Some? {
            var s' :| s' in Elements(left) && HitsAt(s', r, tMin, tMax, hitLeft.value.t);
          }
          assert HitsAt(s, r, tMin, tMax, hitRight.value.t);
        }
      }
  }

  /** A hit the box tests cannot have pruned: within the closed range `[t_min, t_max]`, which
      the box test needs non-degenerate (`t_min < t_max`), and strictly inside the sphere's
      box, which excludes only the six points where a sphere touches its box. */
  ghost predicate ClearHit(s: Sphere, r: Ray, tMin: real, tMax: Bound, t: real) {
    HitsAt(s, r, tMin, tMax, t) && NonEmpty(Window(tMin, tMax)) && StrictlyContains(SphereBox(s), At(r, t))
  }

  /** In a well-formed tree every sphere's box lies within the tree's box. */
  lemma {:induction false} ElementBoxEnclosed(t: Tree, s: Sphere)
    requires WellFormed(t) && s in Elements(t)
    ensures Encloses(BoxOf(t), SphereBox(s))
  {
    match t
    case Leaf(_) =>
    case Node(left, right, box) =>
      if s in Elements(left) {
        ElementBoxEnclosed(left, s);
      } else {
        ElementBoxEnclosed(right, s);
      }
  }

  /** The search finds a hit no later than any clear hit on any of the tree's spheres: the
      nearest hit, up to those the box tests may prune. */
  lemma {:induction false} TreeHitNearest(t: Tree, r: Ray, tMin: real, tMax: Bound, sqrt: real -> real,
                                         s: Sphere, x: real)
    requires WellFormed(t) && ValidTree(t) && LengthSquared(r.dir) != 0.0 && IsSqrt(sqrt)
    requires s in Elements(t) && ClearHit(s, r, tMin, tMax, x)
    ensures TreeHit(t, r, tMin, tMax, sqrt).Some?
    ensures TreeHit(t, r, tMin, tMax, sqrt).value.t <= x
  {
    match t
    case Leaf(_) =>
      SphereHitNearest(s, r, tMin, tMax, sqrt, x);
    case Node(left, right, box) =>
      ElementBoxEnclosed(t, s);
      BoxHitClosedRange(box, r, tMin, tMax, x);
      var hitLeft := TreeHit(left, r, tMin, tMax, sqrt);
      var bound := if hitLeft.Some? then Finite(hitLeft.value.t) else tMax;
      TreeHitSound(right, r, tMin, bound, sqrt);
      if s in Elements(left) {
        TreeHitNearest(left, r, tMin, tMax, sqrt, s, x);
      } else if hitLeft.None? || x < hitLeft.value.t {
        TreeHitNearest(right, r, tMin, bound, sqrt, s, x);
      }
  }
}
