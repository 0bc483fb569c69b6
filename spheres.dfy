/** Ray-sphere intersection. A ray origin + t * direction meets a sphere of
    centre c and radius r where |origin + t * direction - c|^2 == r^2, which
    is the quadratic a t^2 + b t + c' == 0 with a = d.d, b = 2 (co.d) and
    c' = co.co - r^2 for co = origin - c. */
module Spheres {
  import opened Options
  import opened Vectors
  import RealFacts

  datatype Sphere = Sphere(center: Vec3, radius: real)

  /** Coefficients of a t^2 + b t + c. */
  datatype Quadratic = Quadratic(a: real, b: real, c: real)

  function Coefficients(origin: Vec3, direction: Vec3, sphere: Sphere): Quadratic {
    var co := Sub(origin, sphere.center);
    Quadratic(Dot(direction, direction), 2.0 * Dot(co, direction), Dot(co, co) - sphere.radius * sphere.radius)
  }

  function Discriminant(q: Quadratic): real {
    q.b * q.b - 4.0 * q.a * q.c
  }

  function Eval(q: Quadratic, t: real): real {
    q.a * t * t + q.b * t + q.c
  }

  function PointAt(origin: Vec3, direction: Vec3, t: real): Vec3 {
    Add(origin, Scale(t, direction))
  }

  predicate OnSphere(p: Vec3, sphere: Sphere) {
    Dot(Sub(p, sphere.center), Sub(p, sphere.center)) == sphere.radius * sphere.radius
  }

  /** The two ray parameters at which the ray meets the sphere, the `+` root
      first. `None` stands for the pair of infinities the source returns when
      the discriminant is negative, and also for a zero direction, where the
      source divides by zero and obtains values that no range test accepts. */
  function Intersect(origin: Vec3, direction: Vec3, sphere: Sphere, sqrt: real -> real): (r: Option<(real, real)>)
    ensures r.None? <==> Discriminant(Coefficients(origin, direction, sphere)) < 0.0 || Coefficients(origin, direction, sphere).a == 0.0
  {
    var q := Coefficients(origin, direction, sphere);
    var disc := Discriminant(q);
    if disc < 0.0 || q.a == 0.0 then None
    else Some(((-q.b + sqrt(disc)) / (2.0 * q.a), (-q.b - sqrt(disc)) / (2.0 * q.a)))
  }

  /** The quadratic in t is the sphere equation along the ray. */
  lemma EvalIsSphereEquation(origin: Vec3, direction: Vec3, sphere: Sphere, t: real)
    ensures var p := Sub(PointAt(origin, direction, t), sphere.center);
            Eval(Coefficients(origin, direction, sphere), t) == Dot(p, p) - sphere.radius * sphere.radius
  {
  }

  lemma OnSphereIffRoot(origin: Vec3, direction: Vec3, sphere: Sphere, t: real)
    ensures OnSphere(PointAt(origin, direction, t), sphere) <==> Eval(Coefficients(origin, direction, sphere), t) == 0.0
  {
    EvalIsSphereEquation(origin, direction, sphere, t);
  }

  /** For a non-zero direction, there is no hit exactly when the discriminant
      is negative. */
  lemma NoHitIffNegativeDiscriminant(origin: Vec3, direction: Vec3, sphere: Sphere, sqrt: real -> real)
    requires Dot(direction, direction) != 0.0
    ensures Intersect(origin, direction, sphere, sqrt).None? <==> Discriminant(Coefficients(origin, direction, sphere)) < 0.0
  {
  }

  /** Both reported parameters solve the quadratic, so both lie on the sphere. */
  lemma HitsAreRoots(origin: Vec3, direction: Vec3, sphere: Sphere, sqrt: real -> real)
    requires IsSqrt(sqrt)
    requires Intersect(origin, direction, sphere, sqrt).Some?
    ensures var (t1, t2) := Intersect(origin, direction, sphere, sqrt).value;
            var q := Coefficients(origin, direction, sphere);
            Eval(q, t1) == 0.0 && Eval(q, t2) == 0.0
    ensures var (t1, t2) := Intersect(origin, direction, sphere, sqrt).value;
            OnSphere(PointAt(origin, direction, t1), sphere) && OnSphere(PointAt(origin, direction, t2), sphere)
  {
    var q := Coefficients(origin, direction, sphere);
    var (t1, t2) := Intersect(origin, direction, sphere, sqrt).value;
    SqrtSpec(Discriminant(q), sqrt);
    RealFacts.QuadraticRoot(q.a, q.b, q.c, sqrt(Discriminant(q)), t1);
    assert (-sqrt(Discriminant(q))) * (-sqrt(Discriminant(q))) == sqrt(Discriminant(q)) * sqrt(Discriminant(q));
    RealFacts.QuadraticRoot(q.a, q.b, q.c, -sqrt(Discriminant(q)), t2);
    assert Eval(q, t1) == 0.0;
    assert Eval(q, t2) == 0.0;
    OnSphereIffRoot(origin, direction, sphere, t1);
    OnSphereIffRoot(origin, direction, sphere, t2);
  }

  /** Conversely, for a non-zero direction every point of the ray on the
      sphere is reported: there is a hit and the parameter is one of the two. */
  lemma RootsAreHits(origin: Vec3, direction: Vec3, sphere: Sphere, sqrt: real -> real, t: real)
    requires IsSqrt(sqrt)
    requires Dot(direction, direction) != 0.0
    requires OnSphere(PointAt(origin, direction, t), sphere)
    ensures Intersect(origin, direction, sphere, sqrt).Some?
    ensures t == Intersect(origin, direction, sphere, sqrt).value.0 || t == Intersect(origin, direction, sphere, sqrt).value.1
  {
    OnSphereIffRoot(origin, direction, sphere, t);
    RootIsGivenByFormula(Coefficients(origin, direction, sphere), sqrt, t);
  }

  /** A root of a proper quadratic has a non-negative discriminant and is one
      of the two values of the quadratic formula. */
  lemma RootIsGivenByFormula(q: Quadratic, sqrt: real -> real, t: real)
    requires IsSqrt(sqrt)
    requires q.a != 0.0 && Eval(q, t) == 0.0
    ensures 0.0 <= Discriminant(q)
    ensures t == (-q.b + sqrt(Discriminant(q))) / (2.0 * q.a) || t == (-q.b - sqrt(Discriminant(q))) / (2.0 * q.a)
  {
    var d := Discriminant(q);
    RealFacts.DiscriminantAtRoot(q.a, q.b, q.c, t);
    SqrtSpec(d, sqrt);
    RealFacts.RootIsGivenByFormula(q.a, q.b, q.c, sqrt(d), t);
  }

  /** A direction of positive length gives the `+` root as the larger one. */
  lemma FirstRootIsFarther(origin: Vec3, direction: Vec3, sphere: Sphere, sqrt: real -> real)
    requires IsSqrt(sqrt)
    requires Intersect(origin, direction, sphere, sqrt).Some?
    ensures Intersect(origin, direction, sphere, sqrt).value.1 <= Intersect(origin, direction, sphere, sqrt).value.0
  {
    var q := Coefficients(origin, direction, sphere);
    DotSelfNonNegative(direction);
    SqrtSpec(Discriminant(q), sqrt);
    RealFacts.QuotientsOrdered(-q.b - sqrt(Discriminant(q)), -q.b + sqrt(Discriminant(q)), 2.0 * q.a);
  }
}
