/** Lambertian shading of a hit point and its mapping to a character of the
    ASCII palette. */
module Shading {
  import opened Vectors
  import RealFacts

  /** The single point light of the scene. */
  const LightPosition: Vec3 := Vec3(2.0, 1.0, 0.0)

  const Ambient: real := 0.2
  const Diffuse: real := 0.6

  /** From dark to bright. */
  const Palette: seq<char> := ['.', ',', ':', ';', '*', '+', 'o', 'x', '%', '&', '#', '$', '@', '9']

  /** The light intensity at point p with surface normal n: the ambient
      floor, plus the diffuse share of the cosine between n and the direction
      to the light when n faces the light. */
  function Intensity(p: Vec3, n: Vec3, sqrt: real -> real): (i: real)
    requires IsSqrt(sqrt)
    ensures Ambient <= i <= Ambient + Diffuse
    ensures i == Ambient <==> Dot(n, Sub(LightPosition, p)) <= 0.0
  {
    var l := Sub(LightPosition, p);
    if Dot(n, l) > 0.0 then
      CosineBounds(n, l, sqrt);
      RealFacts.ScaleQuotient(Diffuse, Dot(n, l), Length(n, sqrt) * Length(l, sqrt));
      Ambient + Diffuse * Dot(n, l) / (Length(n, sqrt) * Length(l, sqrt))
    else
      Ambient
  }

  /** A float-to-integer `as` cast: truncation toward zero, saturating at 0
      for negative values. */
  function CastToIndex(x: real): nat {
    if x <= 0.0 then 0 else x.Floor
  }

  /** The palette slot of an intensity: the intensity scaled by the palette
      length, truncated. */
  function PaletteIndex(i: real): nat {
    CastToIndex(i * |Palette| as real)
  }

  /** Every intensity between the ambient floor and full light selects one of
      the slots 2..11, so the lookup is in bounds and the last two characters
      are never used. */
  lemma PaletteIndexInRange(i: real)
    requires Ambient <= i <= Ambient + Diffuse
    ensures 2 <= PaletteIndex(i) <= 11
    ensures PaletteIndex(i) < |Palette|
  {
  }

  /** A brighter intensity never selects a darker character. */
  lemma PaletteIndexMonotone(i: real, j: real)
    requires i <= j
    ensures PaletteIndex(i) <= PaletteIndex(j)
  {
  }

  /** The character for a hit at p with unit normal n. */
  function Shade(p: Vec3, n: Vec3, sqrt: real -> real): (c: char)
    requires IsSqrt(sqrt)
    ensures c in Palette[2..12]
    ensures Dot(n, Sub(LightPosition, p)) <= 0.0 ==> c == Palette[2]
  {
    var i := Intensity(p, n, sqrt);
    PaletteIndexInRange(i);
    Palette[PaletteIndex(i)]
  }
}
