/** Tracing one ray through the scene: the nearest intersection strictly
    inside the parameter window (tMin, tMax), its sphere, and the character
    drawn for it. */
module Tracing {
  import opened Options
  import opened Vectors
  import opened Spheres
  import opened Shading

  /** An upper bound on ray parameters that may be infinite. */
  datatype Bound = Finite(value: real) | Infinity

  predicate Below(t: real, bound: Bound) {
    bound.Infinity? || t < bound.value
  }

  predicate InRange(t: real, tMin: real, tMax: Bound) {
    tMin < t && Below(t, tMax)
  }

  /** A ray parameter together with the index of the sphere it belongs to. */
  datatype Hit = Hit(t: real, sphere: nat)

  /** The intersections of the ray with each sphere of the list, in order. */
  function RootsOf(origin: Vec3, direction: Vec3, spheres: seq<Sphere>, sqrt: real -> real): (rs: seq<Option<(real, real)>>)
    ensures |rs| == |spheres|
    ensures forall i :: 0 <= i < |spheres| ==> rs[i] == Intersect(origin, direction, spheres[i], sqrt)
  {
    seq(|spheres|, i requires 0 <= i < |spheres| => Intersect(origin, direction, spheres[i], sqrt))
  }

  /** t is one of the reported intersections of sphere i and lies in the
      window. */
  predicate IsCandidate(roots: seq<Option<(real, real)>>, i: int, t: real, tMin: real, tMax: Bound) {
    && 0 <= i < |roots|
    && roots[i].Some?
    && (t == roots[i].value.0 || t == roots[i].value.1)
    && InRange(t, tMin, tMax)
  }

  ghost predicate NoCandidate(roots: seq<Option<(real, real)>>, tMin: real, tMax: Bound) {
    forall i, t :: !IsCandidate(roots, i, t, tMin, tMax)
  }

  /** h is a candidate, no candidate is nearer, and every candidate of an
      earlier sphere is strictly farther: among equally near candidates the
      first sphere in list order wins. */
  ghost predicate IsNearest(roots: seq<Option<(real, real)>>, h: Hit, tMin: real, tMax: Bound) {
    && IsCandidate(roots, h.sphere, h.t, tMin, tMax)
    && (forall i, t :: IsCandidate(roots, i, t, tMin, tMax) ==> h.t <= t)
    && (forall i, t :: IsCandidate(roots, i, t, tMin, tMax) && i < h.sphere ==> h.t < t)
  }

  /** One test of the loop body: t replaces the best hit so far only when it
      is in the window and strictly nearer. */
  function Offer(best: Option<Hit>, t: real, sphere: nat, tMin: real, tMax: Bound): Option<Hit> {
    if InRange(t, tMin, tMax) && (best.None? || t < best.value.t) then Some(Hit(t, sphere)) else best
  }

  /** One iteration of the loop: the first root, then the second. */
  function Consider(best: Option<Hit>, roots: Option<(real, real)>, sphere: nat, tMin: real, tMax: Bound): Option<Hit> {
    match roots
    case None => best
    case Some((t1, t2)) => Offer(Offer(best, t1, sphere, tMin, tMax), t2, sphere, tMin, tMax)
  }

  /** The hit the loop ends with, as a fold over the spheres in order; what
      it selects belongs to one of the spheres (SelectIffNearest says which
      hit it is). */
  function Select(roots: seq<Option<(real, real)>>, tMin: real, tMax: Bound): (r: Option<Hit>)
    ensures r.Some? ==> r.value.sphere < |roots|
    decreases |roots|
  {
    if |roots| == 0 then None
    else Consider(Select(roots[..|roots| - 1], tMin, tMax), roots[|roots| - 1], |roots| - 1, tMin, tMax)
  }

  lemma CandidatesOfExtension(roots: seq<Option<(real, real)>>, tMin: real, tMax: Bound)
    requires |roots| > 0
    ensures forall i, t :: IsCandidate(roots, i, t, tMin, tMax) <==>
              (IsCandidate(roots[..|roots| - 1], i, t, tMin, tMax) || (i == |roots| - 1 && IsCandidate(roots, i, t, tMin, tMax)))
  {
  }

  /** Nothing is selected exactly when there is no candidate; otherwise the
      selection is the nearest candidate, earliest sphere first. */
  lemma {:induction false} SelectIsNearest(roots: seq<Option<(real, real)>>, tMin: real, tMax: Bound)
    ensures Select(roots, tMin, tMax).None? <==> NoCandidate(roots, tMin, tMax)
    ensures Select(roots, tMin, tMax).Some? ==> IsNearest(roots, Select(roots, tMin, tMax).value, tMin, tMax)
    decreases |roots|
  {
    if |roots| > 0 {
      var n := |roots| - 1;
      var prefix := roots[..n];
      SelectIsNearest(prefix, tMin, tMax);
      CandidatesOfExtension(roots, tMin, tMax);
      var best := Select(prefix, tMin, tMax);
      if best.Some? {
        assert IsCandidate(roots, best.value.sphere, best.value.t, tMin, tMax);
      }
      if roots[n].Some? {
        var (t1, t2) := roots[n].value;
        var afterFirst := Offer(best, t1, n, tMin, tMax);
        if afterFirst.Some? {
          assert IsCandidate(roots, afterFirst.value.sphere, afterFirst.value.t, tMin, tMax);
        }
        if Offer(afterFirst, t2, n, tMin, tMax).Some? {
          var h := Offer(afterFirst, t2, n, tMin, tMax).value;
          assert IsCandidate(roots, h.sphere, h.t, tMin, tMax);
        }
      }
    }
  }

  /** At most one hit is the nearest one. */
  lemma NearestIsUnique(roots: seq<Option<(real, real)>>, h1: Hit, h2: Hit, tMin: real, tMax: Bound)
    requires IsNearest(roots, h1, tMin, tMax) && IsNearest(roots, h2, tMin, tMax)
    ensures h1 == h2
  {
    assert h1.t <= h2.t && h2.t <= h1.t;
  }

  /** Select is characterised by IsNearest. */
  lemma SelectIffNearest(roots: seq<Option<(real, real)>>, h: Hit, tMin: real, tMax: Bound)
    ensures Select(roots, tMin, tMax) == Some(h) <==> IsNearest(roots, h, tMin, tMax)
  {
    SelectIsNearest(roots, tMin, tMax);
    if IsNearest(roots, h, tMin, tMax) {
      assert !NoCandidate(roots, tMin, tMax);
      NearestIsUnique(roots, h, Select(roots, tMin, tMax).value, tMin, tMax);
    }
  }

  /** For a ray with a non-zero direction the candidates are exactly the
      points of the ray inside the window that lie on a sphere. */
  lemma CandidateIffOnSphere(origin: Vec3, direction: Vec3, spheres: seq<Sphere>, sqrt: real -> real, i: int, t: real, tMin: real, tMax: Bound)
    requires IsSqrt(sqrt)
    requires Dot(direction, direction) != 0.0
    ensures IsCandidate(RootsOf(origin, direction, spheres, sqrt), i, t, tMin, tMax) <==>
            0 <= i < |spheres| && InRange(t, tMin, tMax) && OnSphere(PointAt(origin, direction, t), spheres[i])
  {
    if 0 <= i < |spheres| {
      if Intersect(origin, direction, spheres[i], sqrt).Some? {
        HitsAreRoots(origin, direction, spheres[i], sqrt);
      }
      if OnSphere(PointAt(origin, direction, t), spheres[i]) {
        RootsAreHits(origin, direction, spheres[i], sqrt, t);
      }
    }
  }

  /** The character drawn for a ray: blank when nothing is hit, otherwise the
      shading of the nearest hit point with the unit normal of its sphere. */
  function RayChar(origin: Vec3, direction: Vec3, tMin: real, tMax: Bound, spheres: seq<Sphere>, sqrt: real -> real): (c: char)
    requires IsSqrt(sqrt)
    ensures c == ' ' || c in Palette[2..12]
  {
    var roots := RootsOf(origin, direction, spheres, sqrt);
    SelectIsNearest(roots, tMin, tMax);
    match Select(roots, tMin, tMax)
    case None => ' '
    case Some(h) =>
      var p := PointAt(origin, direction, h.t);
      Shade(p, Normalize(Sub(p, spheres[h.sphere].center), sqrt), sqrt)
  }

  /** The ray is drawn blank exactly when no sphere has an intersection
      inside the window; otherwise it is drawn with one of the palette
      characters 2..11. */
  lemma RayCharBlankIffNoCandidate(origin: Vec3, direction: Vec3, tMin: real, tMax: Bound, spheres: seq<Sphere>, sqrt: real -> real)
    requires IsSqrt(sqrt)
    ensures RayChar(origin, direction, tMin, tMax, spheres, sqrt) == ' ' <==> NoCandidate(RootsOf(origin, direction, spheres, sqrt), tMin, tMax)
    ensures RayChar(origin, direction, tMin, tMax, spheres, sqrt) != ' ' ==> RayChar(origin, direction, tMin, tMax, spheres, sqrt) in Palette[2..12]
  {
    SelectIsNearest(RootsOf(origin, direction, spheres, sqrt), tMin, tMax);
    assert ' ' !in Palette[2..12];
  }

  /** The best hit kept by the loop, read back as an optional Hit. */
  function Kept(closestT: Bound, closestSphere: Option<nat>): Option<Hit> {
    if closestSphere.Some? && closestT.Finite? then Some(Hit(closestT.value, closestSphere.value)) else None
  }

  /** Casts the ray against every sphere in list order, keeping the nearest
      parameter strictly inside (tMin, tMax) and the sphere it came from, and
      shades the point found. */
  method TraceRay(origin: Vec3, direction: Vec3, tMin: real, tMax: Bound, spheres: seq<Sphere>, sqrt: real -> real) returns (c: char)
    requires IsSqrt(sqrt)
    ensures c == RayChar(origin, direction, tMin, tMax, spheres, sqrt)
  {
    ghost var roots := RootsOf(origin, direction, spheres, sqrt);
    var closestT: Bound := Infinity;
    var closestSphere: Option<nat> := None;
    var k := 0;
    while k < |spheres|
      invariant 0 <= k <= |spheres|
      invariant closestSphere.None? <==> closestT.Infinity?
      invariant closestSphere.Some? ==> closestSphere.value < k
      invariant Kept(closestT, closestSphere) == Select(roots[..k], tMin, tMax)
    {
      var hit := Intersect(origin, direction, spheres[k], sqrt);
      assert roots[..k + 1][k] == hit;
      if hit.Some? {
        var (t1, t2) := hit.value;
        if tMin < t1 && Below(t1, tMax) && Below(t1, closestT) {
          closestT := Finite(t1);
          closestSphere := Some(k);
        }
        if tMin < t2 && Below(t2, tMax) && Below(t2, closestT) {
          closestT := Finite(t2);
          closestSphere := Some(k);
        }
      }
      assert roots[..k + 1][..k] == roots[..k];
      k := k + 1;
    }
    assert roots[..k] == roots;
    if closestSphere.Some? {
      var s := spheres[closestSphere.value];
      var p := Add(origin, Scale(closestT.value, direction));
      var n := Sub(p, s.center);
      c := Shade(p, Normalize(n, sqrt), sqrt);
    } else {
      c := ' ';
    }
  }
}
