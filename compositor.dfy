/**
 * Shadow compositing (`build_realistic_shadow`): the projected shadow is
 * split into contact, mid and far zones by distance along the shadow
 * direction, each zone is blurred and weighted, an exponential fade is
 * applied, and the result is clamped to at most 0.85.
 */
module Compositor {
  import opened Raster
  import opened Externals

  /** Zone boundaries, in pixels of distance along the shadow direction. */
  const ContactZone: real := 35.0
  const MidZone: real := 180.0

  /** Gaussian blur sigma per zone. */
  const ContactSigma: real := 2.0
  const MidSigma: real := 10.0
  const FarSigma: real := 22.0

  /** Darkness weight per zone. */
  const ContactWeight: real := 0.85
  const MidWeight: real := 0.45
  const FarWeight: real := 0.22

  /** Distance over which the fade drops by a factor e. */
  const FadeScale: real := 260.0

  /** The darkest alpha a shadow may have. */
  const MaxAlpha: real := 0.85

  /** `(x - contact_x)·vx + (y - contact_y)·vy` before `np.maximum(dist, 0)`. */
  function AlongShadow(r: int, c: int, contactY: int, contactX: int, dir: Vec): (a: real)
    ensures r == contactY && c == contactX ==> a == 0.0
    ensures dir.x * dir.x + dir.y * dir.y == 1.0 ==>
              a * a <= (c - contactX) as real * (c - contactX) as real + (r - contactY) as real * (r - contactY) as real
  {
    var dx, dy := (c - contactX) as real, (r - contactY) as real;
    ProjectionBounded(dir.x, dir.y, dx, dy);
    dx * dir.x + dy * dir.y
  }

  /** Cauchy–Schwarz in the plane: (u·x + v·y)² <= (u² + v²)(x² + y²). */
  lemma ProjectionBounded(u: real, v: real, x: real, y: real)
    ensures (x * u + y * v) * (x * u + y * v) <= (u * u + v * v) * (x * x + y * y)
  {
    var w := u * y - v * x;
    assert (u * u + v * v) * (x * x + y * y) - (x * u + y * v) * (x * u + y * v) == w * w;
  }

  /**
   * Distance of pixel (r, c) from the contact point along the shadow
   * direction; pixels behind the contact point are at distance 0.
   */
  function Distance(r: int, c: int, contactY: int, contactX: int, dir: Vec): (d: real)
    ensures d >= 0.0
    ensures d == 0.0 <==> AlongShadow(r, c, contactY, contactX, dir) <= 0.0
    ensures d > 0.0 ==> d == AlongShadow(r, c, contactY, contactX, dir)
    ensures r == contactY && c == contactX ==> d == 0.0
  {
    Max(AlongShadow(r, c, contactY, contactX, dir), 0.0)
  }

  datatype Zone = ContactZ | MidZ | FarZ

  /** `dist <= 35`, `35 < dist <= 180`, `dist > 180`. */
  predicate InZone(z: Zone, d: real): (b: bool)
    ensures d <= 0.0 ==> (b <==> z == ContactZ)
  {
    match z
    case ContactZ => d <= ContactZone
    case MidZ => ContactZone < d <= MidZone
    case FarZ => MidZone < d
  }

  /** A boolean array used as a factor: 1 where true, 0 where false. */
  function Indicator(b: bool): real
  {
    if b then 1.0 else 0.0
  }

  /** Every distance lies in exactly one zone. */
  lemma ZonesPartitionDistances(d: real)
    ensures InZone(ContactZ, d) || InZone(MidZ, d) || InZone(FarZ, d)
    ensures !(InZone(ContactZ, d) && InZone(MidZ, d))
    ensures !(InZone(ContactZ, d) && InZone(FarZ, d))
    ensures !(InZone(MidZ, d) && InZone(FarZ, d))
  {
  }

  /** `shadow_base * (zone test on dist)`: the shadow restricted to one zone. */
  function ZoneMask(base: Field, z: Zone, contactY: int, contactX: int, dir: Vec): (m: Field)
    requires Rectangular(base)
    ensures IsGrid(m, |base|, Width(base))
    ensures forall r, c :: 0 <= r < |base| && 0 <= c < Width(base) ==>
              m[r][c] == if InZone(z, Distance(r, c, contactY, contactX, dir)) then base[r][c] else 0.0
  {
    var m := seq(|base|, r requires 0 <= r < |base| =>
               seq(Width(base), c requires 0 <= c < Width(base) =>
                 base[r][c] * Indicator(InZone(z, Distance(r, c, contactY, contactX, dir)))));
    assert forall r, c :: 0 <= r < |base| && 0 <= c < Width(base) ==>
             m[r][c] == base[r][c] * Indicator(InZone(z, Distance(r, c, contactY, contactX, dir)));
    m
  }

  /** The three zone masks add back up to the shadow, pixel by pixel: no gap, no overlap. */
  lemma ZoneMasksSumToShadow(base: Field, contactY: int, contactX: int, dir: Vec, r: int, c: int)
    requires Rectangular(base) && 0 <= r < |base| && 0 <= c < Width(base)
    ensures ZoneMask(base, ContactZ, contactY, contactX, dir)[r][c]
          + ZoneMask(base, MidZ, contactY, contactX, dir)[r][c]
          + ZoneMask(base, FarZ, contactY, contactX, dir)[r][c] == base[r][c]
  {
    ZonesPartitionDistances(Distance(r, c, contactY, contactX, dir));
  }

  /** The contact point and everything behind it belong to the contact zone. */
  lemma BehindContactIsContactZone(r: int, c: int, contactY: int, contactX: int, dir: Vec)
    requires AlongShadow(r, c, contactY, contactX, dir) <= 0.0
    ensures InZone(ContactZ, Distance(r, c, contactY, contactX, dir))
  {
  }

  /** The erosion step: to uint8, `cv2.erode` with a 3×3 kernel, back to [0, 1]. */
  function Eroded(cv: OpenCv, g: Field): (e: Field)
    requires Rectangular(g)
    ensures IsGrid(e, |g|, Width(g)) && InRange(e, 0.0, 1.0)
  {
    var bytes := seq(|g|, r requires 0 <= r < |g| =>
                   seq(Width(g), c requires 0 <= c < Width(g) => TruncateToByte(g[r][c] * 255.0)));
    var e := seq(|g|, r => seq(Width(g), c => cv.erode(bytes, r, c) as real / 255.0));
    assert forall r, c :: 0 <= r < |g| && 0 <= c < Width(g) ==> e[r][c] == cv.erode(bytes, r, c) as real / 255.0;
    e
  }

  /** `cv2.GaussianBlur(g, (0, 0), sigmaX=sigma)`. */
  function Blurred(cv: OpenCv, g: Field, sigma: real): (b: Field)
    requires Rectangular(g)
    ensures IsGrid(b, |g|, Width(g))
  {
    seq(|g|, r => seq(Width(g), c => cv.gaussianBlur(g, sigma, r, c)))
  }

  /** The blurred contact, mid and far layers. */
  datatype Layers = Layers(contact: Field, mid: Field, far: Field)

  function BlurredZones(cv: OpenCv, base: Field, contactY: int, contactX: int, dir: Vec): (l: Layers)
    requires Rectangular(base)
    ensures IsGrid(l.contact, |base|, Width(base))
    ensures IsGrid(l.mid, |base|, Width(base))
    ensures IsGrid(l.far, |base|, Width(base))
  {
    var contact := Eroded(cv, ZoneMask(base, ContactZ, contactY, contactX, dir));
    Layers(Blurred(cv, contact, ContactSigma),
           Blurred(cv, ZoneMask(base, MidZ, contactY, contactX, dir), MidSigma),
           Blurred(cv, ZoneMask(base, FarZ, contactY, contactX, dir), FarSigma))
  }

  /** `0.85·contact + 0.45·mid + 0.22·far`. */
  function Combine(contact: real, mid: real, far: real): (v: real)
    ensures 0.0 <= contact <= 1.0 && 0.0 <= mid <= 1.0 && 0.0 <= far <= 1.0 ==>
              0.0 <= v <= ContactWeight + MidWeight + FarWeight
  {
    ContactWeight * contact + MidWeight * mid + FarWeight * far
  }

  /** `np.exp(-dist / 260)`. */
  function Fade(m: MathLib, d: real): (f: real)
    ensures m.Valid() && 0.0 <= d ==> 0.0 < f <= 1.0
  {
    m.exp(-d / FadeScale)
  }

  /** One output pixel: the faded combination, clamped to [0, 0.85]. */
  function ShadowAlpha(combined: real, fade: real): (a: real)
    ensures 0.0 <= a <= MaxAlpha
  {
    Clip(combined * fade, 0.0, MaxAlpha)
  }

  /** A fade factor in (0, 1] never makes a pixel darker than its weighted layers. */
  lemma FadedAtMostCombined(combined: real, fade: real)
    requires 0.0 <= combined && 0.0 < fade <= 1.0
    ensures ShadowAlpha(combined, fade) <= combined
  {
    assert combined * fade <= combined * 1.0;
  }

  /** The fade is a factor in (0, 1] that never grows with distance. */
  lemma FadeIsDecreasingFactor(m: MathLib, d1: real, d2: real)
    requires m.Valid() && 0.0 <= d1 <= d2
    ensures 0.0 < Fade(m, d2) <= Fade(m, d1) <= 1.0
  {
    assert -d2 / FadeScale <= -d1 / FadeScale <= 0.0;
  }

  /**
   * `build_realistic_shadow`: the clamped, faded combination of the zone
   * layers. Whatever the inputs and the library functions, every value
   * lies in [0, 0.85] and the shape is the shadow's.
   */
  function BuildShadow(m: MathLib, cv: OpenCv, base: Field, contactY: int, contactX: int, dir: Vec): (alpha: Field)
    requires Rectangular(base)
    ensures IsGrid(alpha, |base|, Width(base))
    ensures InRange(alpha, 0.0, MaxAlpha)
    ensures var l := BlurredZones(cv, base, contactY, contactX, dir);
            forall r, c :: 0 <= r < |base| && 0 <= c < Width(base) ==>
              alpha[r][c] == ShadowAlpha(Combine(l.contact[r][c], l.mid[r][c], l.far[r][c]),
                                         Fade(m, Distance(r, c, contactY, contactX, dir)))
  {
    var h, w := |base|, Width(base);
    var l := BlurredZones(cv, base, contactY, contactX, dir);
    var alpha := seq(h, r requires 0 <= r < h =>
                   seq(w, c requires 0 <= c < w =>
                     ShadowAlpha(Combine(l.contact[r][c], l.mid[r][c], l.far[r][c]),
                                 Fade(m, Distance(r, c, contactY, contactX, dir)))));
    assert forall r, c :: 0 <= r < h && 0 <= c < w ==>
             alpha[r][c] == ShadowAlpha(Combine(l.contact[r][c], l.mid[r][c], l.far[r][c]),
                                        Fade(m, Distance(r, c, contactY, contactX, dir)));
    alpha
  }

  /**
   * The weights grade the zones: with every layer in [0, 1], a pixel lit
   * only by the far layer is at most 0.22 dark, one without the contact
   * layer at most 0.67, and no pixel is darker than the weighted sum.
   */
  lemma ZoneWeightsBoundAlpha(m: MathLib, cv: OpenCv, base: Field, contactY: int, contactX: int, dir: Vec,
                              r: int, c: int)
    requires m.Valid() && Rectangular(base) && 0 <= r < |base| && 0 <= c < Width(base)
    requires var l := BlurredZones(cv, base, contactY, contactX, dir);
             && 0.0 <= l.contact[r][c] <= 1.0 && 0.0 <= l.mid[r][c] <= 1.0 && 0.0 <= l.far[r][c] <= 1.0
    ensures var l := BlurredZones(cv, base, contactY, contactX, dir);
            var a := BuildShadow(m, cv, base, contactY, contactX, dir)[r][c];
            && a <= Combine(l.contact[r][c], l.mid[r][c], l.far[r][c])
            && (l.contact[r][c] == 0.0 ==> a <= MidWeight + FarWeight)
            && (l.contact[r][c] == 0.0 && l.mid[r][c] == 0.0 ==> a <= FarWeight)
  {
    var l := BlurredZones(cv, base, contactY, contactX, dir);
    var d := Distance(r, c, contactY, contactX, dir);
    FadeIsDecreasingFactor(m, d, d);
    var k := Combine(l.contact[r][c], l.mid[r][c], l.far[r][c]);
    FadedAtMostCombined(k, Fade(m, d));
  }
}
