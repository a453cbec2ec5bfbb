/**
 * Depth bending (`depth_warp`): a uint8 depth map, centred on one half,
 * becomes a displacement of up to 12.5 pixels along the shadow direction,
 * and the shadow is resampled through it.
 */
module DepthBend {
  import opened Raster
  import opened Externals

  /** Displacement, in pixels, for a depth of one full unit. */
  const DepthStrength: real := 25.0

  /** Largest displacement along each axis per unit of direction. */
  const MaxReach: real := 12.5

  /** `depth_gray / 255 - 0.5`: a byte mapped to the signed signal in [-0.5, 0.5]. */
  function Centered(d: byte): (s: real)
    ensures -0.5 <= s <= 0.5
    ensures s != 0.0
  {
    var s := d as real / 255.0 - 0.5;
    assert 2 * (d as int) != 255;
    s
  }

  /** `(dx, dy) = disp · strength · shadow_dir` at one pixel. */
  function DepthOffset(d: byte, dir: Vec): (v: Vec)
    ensures Abs(v.x) <= MaxReach * Abs(dir.x) && Abs(v.y) <= MaxReach * Abs(dir.y)
  {
    var s := Centered(d);
    ScaledReach(s, dir.x);
    ScaledReach(s, dir.y);
    Vec(s * DepthStrength * dir.x, s * DepthStrength * dir.y)
  }

  /** A signal in [-0.5, 0.5] scaled by the strength moves at most 12.5 per unit of `a`. */
  lemma ScaledReach(s: real, a: real)
    requires -0.5 <= s <= 0.5
    ensures Abs(s * DepthStrength * a) <= MaxReach * Abs(a)
  {
    var below, above := 0.5 - s, s + 0.5;
    if a >= 0.0 {
      ProductNonNegative(below, a);
      ProductNonNegative(above, a);
      assert below * a == 0.5 * a - s * a;
      assert above * a == s * a + 0.5 * a;
    } else {
      ProductNonNegative(below, -a);
      ProductNonNegative(above, -a);
      assert below * -a == s * a - 0.5 * a;
      assert above * -a == -(s * a) - 0.5 * a;
    }
  }

  /**
   * No byte is neutral: for any shadow direction other than zero, every
   * depth value moves the sample point. (Depth is uint8 / 255, and no byte
   * is 127.5.)
   */
  lemma NoNeutralDepth(d: byte, dir: Vec)
    requires dir != Vec(0.0, 0.0)
    ensures DepthOffset(d, dir) != Vec(0.0, 0.0)
  {
    var s := Centered(d);
    if dir.x != 0.0 {
      assert s * DepthStrength != 0.0;
      assert s * DepthStrength * dir.x != 0.0;
    } else {
      assert s * DepthStrength != 0.0;
      assert s * DepthStrength * dir.y != 0.0;
    }
  }

  /** The depth map at the shadow's size: as given when it already fits, else `cv2.resize` of it. */
  function FitDepth(cv: OpenCv, depth: ByteField, h: nat, w: nat): (f: ByteField)
    requires Rectangular(depth)
    ensures IsGrid(f, h, w)
    ensures |depth| == h && Width(depth) == w ==> f == depth
  {
    if |depth| == h && Width(depth) == w then depth
    else seq(h, r => seq(w, c => cv.resize(depth, h, w, r, c)))
  }

  /** `(map_x, map_y)`: every pixel's own coordinates plus its displacement. */
  function SampleMap(depth: ByteField, dir: Vec, h: nat, w: nat): (pts: seq<seq<Vec>>)
    requires IsGrid(depth, h, w)
    ensures IsGrid(pts, h, w)
    ensures forall r, c :: 0 <= r < h && 0 <= c < w ==>
              pts[r][c] == Vec(c as real + DepthOffset(depth[r][c], dir).x, r as real + DepthOffset(depth[r][c], dir).y)
    ensures forall r, c :: 0 <= r < h && 0 <= c < w ==>
              && Abs(pts[r][c].x - c as real) <= MaxReach * Abs(dir.x)
              && Abs(pts[r][c].y - r as real) <= MaxReach * Abs(dir.y)
  {
    var pts := seq(h, r requires 0 <= r < h =>
                 seq(w, c requires 0 <= c < w =>
                   var v := DepthOffset(depth[r][c], dir);
                   Vec(c as real + v.x, r as real + v.y)));
    assert forall r, c :: 0 <= r < h && 0 <= c < w ==>
             pts[r][c] == Vec(c as real + DepthOffset(depth[r][c], dir).x, r as real + DepthOffset(depth[r][c], dir).y);
    pts
  }

  /**
   * A uniform depth map is a uniform translation of the sample grid, by
   * the displacement of its one value, never the identity.
   */
  lemma UniformDepthTranslates(depth: ByteField, d: byte, dir: Vec, h: nat, w: nat, r: int, c: int)
    requires IsGrid(depth, h, w)
    requires forall i, j :: 0 <= i < h && 0 <= j < w ==> depth[i][j] == d
    requires 0 <= r < h && 0 <= c < w
    ensures var v := DepthOffset(d, dir);
            SampleMap(depth, dir, h, w)[r][c] == Vec(c as real + v.x, r as real + v.y)
  {
  }

  /**
   * `depth_warp`: the shadow resampled by `cv2.remap` at the sample map,
   * clipped to [0, 1], same shape as the shadow.
   */
  function DepthWarp(cv: OpenCv, shadow: Field, depth: ByteField, dir: Vec): (out: Field)
    requires Rectangular(shadow) && Rectangular(depth)
    ensures IsGrid(out, |shadow|, Width(shadow)) && InRange(out, 0.0, 1.0)
    ensures var pts := SampleMap(FitDepth(cv, depth, |shadow|, Width(shadow)), dir, |shadow|, Width(shadow));
            forall r, c :: 0 <= r < |shadow| && 0 <= c < Width(shadow) ==>
              out[r][c] == Clip(cv.remap(shadow, pts[r][c].x, pts[r][c].y), 0.0, 1.0)
  {
    var h, w := |shadow|, Width(shadow);
    var pts := SampleMap(FitDepth(cv, depth, h, w), dir, h, w);
    var out := seq(h, r requires 0 <= r < h =>
                 seq(w, c requires 0 <= c < w => Clip(cv.remap(shadow, pts[r][c].x, pts[r][c].y), 0.0, 1.0)));
    assert forall r, c :: 0 <= r < h && 0 <= c < w ==>
             out[r][c] == Clip(cv.remap(shadow, pts[r][c].x, pts[r][c].y), 0.0, 1.0);
    out
  }
}
