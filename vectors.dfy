/** Three-component vectors and 3x3 matrices over the reals, standing in for
    the Vec3 and Mat3 types of the graphics library the ray caster uses.
    Square roots are not computable on `real`, so every operation that needs
    one takes it as a parameter `sqrt` constrained by `IsSqrt`. */
module Options {
  datatype Option<+T> = None | Some(value: T)
}

module Vectors {
  import RealFacts

  datatype Vec3 = Vec3(x: real, y: real, z: real)

  const Zero: Vec3 := Vec3(0.0, 0.0, 0.0)

  function Add(u: Vec3, v: Vec3): Vec3 {
    Vec3(u.x + v.x, u.y + v.y, u.z + v.z)
  }

  function Sub(u: Vec3, v: Vec3): Vec3 {
    Vec3(u.x - v.x, u.y - v.y, u.z - v.z)
  }

  function Scale(k: real, v: Vec3): Vec3 {
    Vec3(k * v.x, k * v.y, k * v.z)
  }

  function Dot(u: Vec3, v: Vec3): real {
    u.x * v.x + u.y * v.y + u.z * v.z
  }

  /** `sqrt` returns the non-negative square root of every non-negative real;
      what it does on negative arguments is left open. */
  ghost predicate IsSqrt(sqrt: real -> real) {
    forall x: real :: 0.0 <= x ==> 0.0 <= sqrt(x) && sqrt(x) * sqrt(x) == x
  }

  /** The Euclidean length, as the library computes it: the root of v.v. */
  function Length(v: Vec3, sqrt: real -> real): real {
    sqrt(Dot(v, v))
  }

  /** v / |v|: a unit vector pointing the same way as v, so that u.v is the
      length of v. The library would give NaN components for the zero
      vector, which this model replaces by the zero vector itself. */
  function Normalize(v: Vec3, sqrt: real -> real): (u: Vec3)
    requires IsSqrt(sqrt)
    ensures Dot(v, v) == 0.0 ==> u == v
    ensures Dot(v, v) != 0.0 ==> Dot(u, u) == 1.0 && Dot(u, v) == Length(v, sqrt)
  {
    var len := Length(v, sqrt);
    LengthZeroIff(v, sqrt);
    if len == 0.0 then v
    else
      LengthSpec(v, sqrt);
      ScaledDots(1.0 / len, v);
      RealFacts.ReciprocalScaling(1.0 / len, len);
      Scale(1.0 / len, v)
  }

  lemma ScaledDots(k: real, v: Vec3)
    ensures Dot(Scale(k, v), v) == k * Dot(v, v)
    ensures Dot(Scale(k, v), Scale(k, v)) == k * k * Dot(v, v)
  {
  }

  /** A vector has length zero exactly when v.v is zero. */
  lemma LengthZeroIff(v: Vec3, sqrt: real -> real)
    requires IsSqrt(sqrt)
    ensures Length(v, sqrt) == 0.0 <==> Dot(v, v) == 0.0
  {
    LengthSpec(v, sqrt);
    var len := Length(v, sqrt);
    if Dot(v, v) == 0.0 && len != 0.0 {
      RealFacts.SquareMonotone(len, 0.0);
    }
  }

  lemma DotSelfNonNegative(v: Vec3)
    ensures Dot(v, v) >= 0.0
  {
    RealFacts.SumOfSquaresNonNegative(v.x, v.y, v.z);
  }

  lemma SqrtSpec(x: real, sqrt: real -> real)
    requires IsSqrt(sqrt) && 0.0 <= x
    ensures 0.0 <= sqrt(x) && sqrt(x) * sqrt(x) == x
    ensures 0.0 < x ==> 0.0 < sqrt(x)
  {
  }

  lemma LengthSpec(v: Vec3, sqrt: real -> real)
    requires IsSqrt(sqrt)
    ensures 0.0 <= Length(v, sqrt)
    ensures Length(v, sqrt) * Length(v, sqrt) == Dot(v, v)
    ensures 0.0 < Dot(v, v) ==> 0.0 < Length(v, sqrt)
  {
    DotSelfNonNegative(v);
    SqrtSpec(Dot(v, v), sqrt);
  }

  /** Cauchy-Schwarz: (u.v)^2 <= (u.u)(v.v). */
  lemma CauchySchwarz(u: Vec3, v: Vec3)
    ensures Dot(u, v) * Dot(u, v) <= Dot(u, u) * Dot(v, v)
  {
    RealFacts.CauchySchwarz(u.x, u.y, u.z, v.x, v.y, v.z);
  }

  /** The cosine of the angle between two vectors whose dot product is
      positive lies in (0, 1]; in particular neither length is zero. */
  lemma CosineBounds(u: Vec3, v: Vec3, sqrt: real -> real)
    requires IsSqrt(sqrt)
    requires Dot(u, v) > 0.0
    ensures Length(u, sqrt) * Length(v, sqrt) > 0.0
    ensures 0.0 < Dot(u, v) / (Length(u, sqrt) * Length(v, sqrt)) <= 1.0
  {
    CauchySchwarz(u, v);
    LengthSpec(u, sqrt);
    LengthSpec(v, sqrt);
    RealFacts.RatioAtMostOne(Dot(u, v), Dot(u, u), Dot(v, v), Length(u, sqrt), Length(v, sqrt));
  }

  /** A 3x3 matrix given by its columns; M * v = v.x * X + v.y * Y + v.z * Z. */
  datatype Mat3 = Mat3(xAxis: Vec3, yAxis: Vec3, zAxis: Vec3)

  /** `Mat3::default()` is the identity matrix. */
  const Identity: Mat3 := Mat3(Vec3(1.0, 0.0, 0.0), Vec3(0.0, 1.0, 0.0), Vec3(0.0, 0.0, 1.0))

  function Apply(m: Mat3, v: Vec3): Vec3 {
    Add(Add(Scale(v.x, m.xAxis), Scale(v.y, m.yAxis)), Scale(v.z, m.zAxis))
  }

  lemma ApplyIdentity(v: Vec3)
    ensures Apply(Identity, v) == v
  {
  }
}
