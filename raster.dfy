/**
 * Shared vocabulary of the shadow pipeline: single-channel fields (the
 * H×W float arrays numpy passes between stages), bytes, 2-D vectors,
 * 2×3 affine matrices, clipping and the float-to-uint8 cast.
 */
module Raster {

  datatype Option<+T> = None | Some(value: T)

  datatype Result<+T, +E> = Success(value: T) | Failure(error: E)

  /** An unsigned 8-bit value, as stored in a uint8 array. */
  newtype byte = x: int | 0 <= x < 256

  /** A single-channel float image, row by row. */
  type Field = seq<seq<real>>

  /** A single-channel uint8 image, row by row. */
  type ByteField = seq<seq<byte>>

  /** `g` has exactly `h` rows of `w` entries each (numpy shape (h, w)). */
  predicate IsGrid<T>(g: seq<seq<T>>, h: nat, w: nat)
  {
    |g| == h && forall r :: 0 <= r < h ==> |g[r]| == w
  }

  /** The number of columns, read off the first row. */
  function Width<T>(g: seq<seq<T>>): nat
  {
    if |g| == 0 then 0 else |g[0]|
  }

  /** Every row has the same length: the grid is a 2-D array. */
  predicate Rectangular<T>(g: seq<seq<T>>)
  {
    IsGrid(g, |g|, Width(g))
  }

  /** A grid of a known shape is a 2-D array of that width. */
  lemma GridIsRectangular<T>(g: seq<seq<T>>, h: nat, w: nat)
    requires IsGrid(g, h, w)
    ensures Rectangular(g) && (h > 0 ==> Width(g) == w)
  {
  }

  /** Every entry of `g` lies in the closed interval [lo, hi]. */
  predicate InRange(g: Field, lo: real, hi: real)
  {
    forall r, c :: 0 <= r < |g| && 0 <= c < |g[r]| ==> lo <= g[r][c] <= hi
  }

  function Min(a: real, b: real): (m: real)
    ensures m <= a && m <= b && (m == a || m == b)
  {
    if a <= b then a else b
  }

  function Max(a: real, b: real): (m: real)
    ensures a <= m && b <= m && (m == a || m == b)
  {
    if a <= b then b else a
  }

  function Abs(a: real): (m: real)
    ensures 0.0 <= m && (m == a || m == -a)
  {
    if a < 0.0 then -a else a
  }

  /** A product of two non-negative reals is non-negative. */
  lemma ProductNonNegative(u: real, v: real)
    requires 0.0 <= u && 0.0 <= v
    ensures 0.0 <= u * v
  {
  }

  /** numpy's `np.clip(v, lo, hi)`, that is `min(max(v, lo), hi)`. */
  function Clip(v: real, lo: real, hi: real): (r: real)
    requires lo <= hi
    ensures lo <= r <= hi
    ensures lo <= v <= hi ==> r == v
    ensures v < lo ==> r == lo
    ensures hi < v ==> r == hi
  {
    Min(Max(v, lo), hi)
  }

  /**
   * The cast `astype(np.uint8)` of a float: truncation toward zero, which
   * for the values in [0, 256) is the floor; values outside [0, 255]
   * saturate (numpy leaves that case unspecified).
   */
  function TruncateToByte(v: real): (b: byte)
    ensures 0.0 <= v < 256.0 ==> b as int == v.Floor
    ensures v < 0.0 ==> b == 0
    ensures 255.0 <= v ==> b == 255
  {
    if v < 0.0 then 0 else if 255.0 <= v then 255 else v.Floor as byte
  }

  /** The cast never reverses the order of two values. */
  lemma TruncateMonotone(u: real, v: real)
    requires u <= v
    ensures TruncateToByte(u) <= TruncateToByte(v)
  {
    if 0.0 <= u && v < 255.0 {
      assert u.Floor as real <= u <= v < v.Floor as real + 1.0;
    }
  }

  /** A point or direction in image coordinates (x = column, y = row). */
  datatype Vec = Vec(x: real, y: real)

  /**
   * A 2×3 matrix [[m00, m01, m02], [m10, m11, m12]] as OpenCV takes it,
   * mapping (x, y) to (m00·x + m01·y + m02, m10·x + m11·y + m12).
   */
  datatype Affine = Affine(m00: real, m01: real, m02: real, m10: real, m11: real, m12: real)

  function Apply(m: Affine, p: Vec): Vec
  {
    Vec(m.m00 * p.x + m.m01 * p.y + m.m02, m.m10 * p.x + m.m11 * p.y + m.m12)
  }
}
