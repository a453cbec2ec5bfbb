/**
 * Silhouette projection (`affine_shadow_warp`): a shear anchored at the
 * contact row, stretched by the cotangent of the clamped light elevation,
 * pointing away from the light.
 */
module Projection {
  import opened Raster
  import opened Externals

  /** Bounds of the elevation clamp, in degrees. */
  const MinElevation: real := 0.1
  const MaxElevation: real := 89.9

  /** `max(0.1, min(89.9, elev_deg))`. */
  function ClampElevation(deg: real): (e: real)
    ensures MinElevation <= e <= MaxElevation
    ensures MinElevation <= deg <= MaxElevation ==> e == deg
    ensures deg < MinElevation ==> e == MinElevation
    ensures MaxElevation < deg ==> e == MaxElevation
  {
    Max(MinElevation, Min(MaxElevation, deg))
  }

  /** The unit vector towards the light, `(cos θ, sin θ)`. */
  function LightDirection(m: MathLib, angleDeg: real): (l: Vec)
    ensures m.Valid() ==> l.x * l.x + l.y * l.y == 1.0
  {
    var theta := m.Radians(angleDeg);
    Vec(m.cos(theta), m.sin(theta))
  }

  /** The shadow falls away from the light: a unit vector opposite to it. */
  function ShadowDirection(m: MathLib, angleDeg: real): (d: Vec)
    requires m.Valid()
    ensures d.x * d.x + d.y * d.y == 1.0
    ensures d.x == -LightDirection(m, angleDeg).x && d.y == -LightDirection(m, angleDeg).y
  {
    var light := LightDirection(m, angleDeg);
    Vec(-light.x, -light.y)
  }

  lemma AcuteDegrees(pi: real, e: real)
    requires pi > 0.0 && 0.0 < e < 90.0
    ensures 0.0 < e * pi / 180.0 < pi / 2.0
  {
    assert (90.0 - e) * pi > 0.0;
  }

  /** An elevation in the clamp range, in radians, lies strictly between 0 and π/2. */
  lemma ElevationIsAcute(m: MathLib, e: real)
    requires m.pi > 0.0 && MinElevation <= e <= MaxElevation
    ensures 0.0 < m.Radians(e) < m.pi / 2.0
  {
    AcuteDegrees(m.pi, e);
  }

  /** `1 / tan(elev)`: the length of shadow cast per unit of height. */
  function Stretch(m: MathLib, elevDeg: real): (cot: real)
    requires m.Valid()
    ensures cot > 0.0
  {
    ElevationIsAcute(m, ClampElevation(elevDeg));
    1.0 / m.tan(m.Radians(ClampElevation(elevDeg)))
  }

  /**
   * The matrix M of `affine_shadow_warp`, with a = cot·dir.x and
   * b = cot·dir.y: x' = x - a·y + a·contactY, y' = (1 - b)·y + b·contactY.
   */
  function AnchoredShear(cot: real, dir: Vec, contactY: int): (s: Affine)
    ensures s.m00 == 1.0 && s.m10 == 0.0
    ensures s.m01 * contactY as real + s.m02 == 0.0
    ensures s.m11 * contactY as real + s.m12 == contactY as real
  {
    var a := cot * dir.x;
    var b := cot * dir.y;
    Affine(1.0, -a, a * contactY as real,
           0.0, 1.0 - b, b * contactY as real)
  }

  /** Every point of the contact row is a fixed point of the shear, whatever the stretch and direction. */
  lemma ContactRowFixed(cot: real, dir: Vec, contactY: int, x: real)
    ensures Apply(AnchoredShear(cot, dir, contactY), Vec(x, contactY as real)) == Vec(x, contactY as real)
  {
  }

  /** How far the shear moves a point, and in which direction. */
  function Displacement(m: Affine, p: Vec): Vec
  {
    var q := Apply(m, p);
    Vec(q.x - p.x, q.y - p.y)
  }

  /**
   * A point at height contactY - y above the contact row moves by
   * (contactY - y)·cot along the shadow direction.
   */
  lemma ShearMovesAlongShadow(cot: real, dir: Vec, contactY: int, p: Vec)
    ensures var h := contactY as real - p.y;
            Displacement(AnchoredShear(cot, dir, contactY), p) == Vec(h * cot * dir.x, h * cot * dir.y)
  {
    var h := contactY as real - p.y;
    var a := cot * dir.x;
    var b := cot * dir.y;
    assert -a * p.y + a * contactY as real == h * cot * dir.x;
    assert (1.0 - b) * p.y + b * contactY as real - p.y == h * cot * dir.y;
  }

  /** With a positive stretch and a unit direction, the contact row is the ONLY fixed line. */
  lemma FixedExactlyOnContactRow(cot: real, dir: Vec, contactY: int, p: Vec)
    requires cot > 0.0 && dir.x * dir.x + dir.y * dir.y == 1.0
    ensures Apply(AnchoredShear(cot, dir, contactY), p) == p <==> p.y == contactY as real
  {
    ShearMovesAlongShadow(cot, dir, contactY, p);
  }

  function Square(k: real): real
  {
    k * k
  }

  lemma OnlyContactRowFixed(cot: real, dir: Vec, contactY: int)
    requires cot > 0.0 && dir.x * dir.x + dir.y * dir.y == 1.0
    ensures forall p :: Apply(AnchoredShear(cot, dir, contactY), p) == p <==> p.y == contactY as real
  {
    forall p
      ensures Apply(AnchoredShear(cot, dir, contactY), p) == p <==> p.y == contactY as real
    {
      FixedExactlyOnContactRow(cot, dir, contactY, p);
    }
  }

  function SquaredLength(v: Vec): real
  {
    v.x * v.x + v.y * v.y
  }

  /**
   * Off the contact row, a larger stretch moves a point strictly farther:
   * the squared distance the shear moves it grows with the stretch.
   */
  lemma LargerStretchMovesFarther(cot1: real, cot2: real, dir: Vec, contactY: int, p: Vec)
    requires 0.0 < cot1 < cot2 && p.y != contactY as real
    requires dir.x * dir.x + dir.y * dir.y == 1.0
    ensures SquaredLength(Displacement(AnchoredShear(cot1, dir, contactY), p))
          < SquaredLength(Displacement(AnchoredShear(cot2, dir, contactY), p))
  {
    OffsetSquaresGrow(p.y, contactY as real, cot1, cot2);
    DisplacementLength(cot1, dir, contactY, p);
    DisplacementLength(cot2, dir, contactY, p);
  }

  /** The offset (contactY - y)·c of a point off the contact row grows in magnitude with c. */
  lemma OffsetSquaresGrow(y: real, contactY: real, c1: real, c2: real)
    requires y != contactY && 0.0 < c1 < c2
    ensures Square((contactY - y) * c1) < Square((contactY - y) * c2)
  {
    OffsetGrows(y, contactY, c1, c2);
    SquaresOrdered((contactY - y) * c1, (contactY - y) * c2);
  }

  lemma OffsetGrows(y: real, contactY: real, c1: real, c2: real)
    requires y != contactY && 0.0 < c1 < c2
    ensures Abs((contactY - y) * c1) < Abs((contactY - y) * c2)
  {
    assert (contactY - y) * c2 - (contactY - y) * c1 == (contactY - y) * (c2 - c1);
    if y < contactY {
      assert (contactY - y) * c1 > 0.0;
      assert (contactY - y) * (c2 - c1) > 0.0;
    } else {
      assert (y - contactY) * c1 > 0.0;
      assert (y - contactY) * (c2 - c1) > 0.0;
      assert (contactY - y) * c1 == -((y - contactY) * c1);
      assert (contactY - y) * (c2 - c1) == -((y - contactY) * (c2 - c1));
    }
  }

  lemma SquaresOrdered(u: real, v: real)
    requires Abs(u) < Abs(v)
    ensures Square(u) < Square(v)
  {
    SquareOfAbs(u);
    SquareOfAbs(v);
    NonNegativeSquaresOrdered(Abs(u), Abs(v));
  }

  lemma SquareOfAbs(u: real)
    ensures Square(Abs(u)) == Square(u)
  {
    if u < 0.0 {
      assert (-u) * (-u) == u * u;
    }
  }

  lemma NonNegativeSquaresOrdered(a: real, b: real)
    requires 0.0 <= a < b
    ensures Square(a) < Square(b)
  {
    var d, s := b - a, b + a;
    ProductPositive(d, s);
    assert d * s == b * b - a * a;
  }

  lemma ProductPositive(u: real, v: real)
    requires 0.0 < u && 0.0 < v
    ensures 0.0 < u * v
  {
  }

  /**
   * A point moves along the unit shadow direction by its height times the
   * stretch, so the square of the distance it moves is the square of that.
   */
  lemma DisplacementLength(cot: real, dir: Vec, contactY: int, p: Vec)
    requires dir.x * dir.x + dir.y * dir.y == 1.0
    ensures SquaredLength(Displacement(AnchoredShear(cot, dir, contactY), p))
         == Square((contactY as real - p.y) * cot)
  {
    ShearMovesAlongShadow(cot, dir, contactY, p);
    SquaredLengthOfScaled(Displacement(AnchoredShear(cot, dir, contactY), p), (contactY as real - p.y) * cot, dir);
  }

  lemma SquaredLengthOfScaled(v: Vec, k: real, dir: Vec)
    requires dir.x * dir.x + dir.y * dir.y == 1.0
    requires v == Vec(k * dir.x, k * dir.y)
    ensures SquaredLength(v) == Square(k)
  {
    assert (k * dir.x) * (k * dir.x) + (k * dir.y) * (k * dir.y) == k * k * (dir.x * dir.x + dir.y * dir.y);
  }

  /** A lower sun gives a larger stretch: `1 / tan(elev)` never grows with the elevation. */
  lemma LowerSunStretchesMore(m: MathLib, e1: real, e2: real)
    requires m.Valid() && e1 < e2
    ensures Stretch(m, e2) <= Stretch(m, e1)
    ensures e1 < MaxElevation && MinElevation < e2 ==> Stretch(m, e2) < Stretch(m, e1)
  {
    var c1, c2 := ClampElevation(e1), ClampElevation(e2);
    ElevationIsAcute(m, c1);
    ElevationIsAcute(m, c2);
    if c1 < c2 {
      RadiansIncrease(m, c1, c2);
      ReciprocalDecreases(m.tan(m.Radians(c1)), m.tan(m.Radians(c2)));
    }
  }

  lemma RadiansIncrease(m: MathLib, e1: real, e2: real)
    requires m.pi > 0.0 && e1 < e2
    ensures m.Radians(e1) < m.Radians(e2)
  {
    assert m.Radians(e2) - m.Radians(e1) == (e2 - e1) * m.pi / 180.0;
    ProductPositive(e2 - e1, m.pi);
  }

  lemma ReciprocalDecreases(t1: real, t2: real)
    requires 0.0 < t1 < t2
    ensures 1.0 / t2 < 1.0 / t1
  {
    assert 1.0 / t1 - 1.0 / t2 == (t2 - t1) / (t1 * t2);
    ProductPositive(t1, t2);
  }

  /** The matrix `affine_shadow_warp` hands to `cv2.warpAffine`. */
  function WarpMatrix(m: MathLib, angleDeg: real, elevDeg: real, contactY: int): (w: Affine)
    requires m.Valid()
    ensures forall p :: Apply(w, p) == p <==> p.y == contactY as real
  {
    OnlyContactRowFixed(Stretch(m, elevDeg), ShadowDirection(m, angleDeg), contactY);
    AnchoredShear(Stretch(m, elevDeg), ShadowDirection(m, angleDeg), contactY)
  }

  /**
   * A lower sun casts a longer shadow: with the elevations apart after the
   * clamp, every point off the contact row moves strictly farther under the
   * lower sun's matrix.
   */
  lemma LowerSunCastsLongerShadow(m: MathLib, angleDeg: real, e1: real, e2: real, contactY: int, p: Vec)
    requires m.Valid() && e1 < e2 && e1 < MaxElevation && MinElevation < e2
    requires p.y != contactY as real
    ensures SquaredLength(Displacement(WarpMatrix(m, angleDeg, e2, contactY), p))
          < SquaredLength(Displacement(WarpMatrix(m, angleDeg, e1, contactY), p))
  {
    LowerSunStretchesMore(m, e1, e2);
    LargerStretchMovesFarther(Stretch(m, e2), Stretch(m, e1), ShadowDirection(m, angleDeg), contactY, p);
  }

  /** What `affine_shadow_warp` returns: the warped mask and the shadow direction. */
  datatype Projected = Projected(warped: Field, shadowDir: Vec)

  /**
   * `affine_shadow_warp`: the mask resampled through the anchored shear,
   * clipped to [0, 1], same shape as the mask, with the shadow direction.
   */
  function AffineShadowWarp(m: MathLib, cv: OpenCv, mask: Field, angleDeg: real, elevDeg: real,
                            contactY: int): (p: Projected)
    requires m.Valid() && Rectangular(mask)
    ensures IsGrid(p.warped, |mask|, Width(mask)) && InRange(p.warped, 0.0, 1.0)
    ensures p.shadowDir == ShadowDirection(m, angleDeg)
    ensures forall r, c :: 0 <= r < |mask| && 0 <= c < Width(mask) ==>
              p.warped[r][c] == Clip(cv.warpAffine(mask, WarpMatrix(m, angleDeg, elevDeg, contactY), r, c), 0.0, 1.0)
  {
    var shadowDir := ShadowDirection(m, angleDeg);
    var matrix := WarpMatrix(m, angleDeg, elevDeg, contactY);
    var warped := seq(|mask|, r => seq(Width(mask), c => Clip(cv.warpAffine(mask, matrix, r, c), 0.0, 1.0)));
    assert forall r, c :: 0 <= r < |warped| && 0 <= c < |warped[r]| ==>
             warped[r][c] == Clip(cv.warpAffine(mask, matrix, r, c), 0.0, 1.0);
    Projected(warped, shadowDir)
  }
}
