/**
 * The library code the pipeline calls but does not define: Python's
 * `math` and numpy's `exp`, and five OpenCV routines. Each is a parameter
 * of the model. Only the properties listed in `MathLib.Valid` are assumed
 * of the transcendental functions; nothing is assumed of the pixel values
 * OpenCV computes.
 */
module Externals {
  import opened Raster

  /** `math.pi`, `math.cos`, `math.sin`, `math.tan` and `np.exp`. */
  datatype MathLib = MathLib(pi: real, cos: real -> real, sin: real -> real,
                             tan: real -> real, exp: real -> real)
  {
    /** The facts about these functions that the model relies on. */
    ghost predicate Valid()
    {
      && pi > 0.0
      && (forall t :: cos(t) * cos(t) + sin(t) * sin(t) == 1.0)
      && (forall t :: 0.0 < t < pi / 2.0 ==> tan(t) > 0.0)
      && (forall s, t :: 0.0 < s < t < pi / 2.0 ==> tan(s) < tan(t))
      && (forall t :: t <= 0.0 ==> 0.0 < exp(t) <= 1.0)
      && (forall s, t :: s <= t ==> exp(s) <= exp(t))
    }

    /** `math.radians`. */
    function Radians(deg: real): real
    {
      deg * pi / 180.0
    }
  }

  /**
   * OpenCV, one output pixel at a time. Each routine is given its input
   * image and parameters and the (row, col) of the output pixel asked for;
   * the size of every output is fixed by the caller, as `dsize` fixes it
   * for `warpAffine` and `resize`.
   *  - warpAffine(src, M, row, col): bilinear sample of `src` at the
   *    preimage of (col, row) under M, 0 outside the image;
   *  - remap(src, x, y): bilinear sample of `src` at (x, y), 0 outside;
   *  - resize(src, h, w, row, col): pixel of `src` resized to h×w;
   *  - erode(src, row, col): pixel of one 3×3 erosion of `src`;
   *  - gaussianBlur(src, sigma, row, col): pixel of the Gaussian blur.
   */
  datatype OpenCv = OpenCv(
    warpAffine: (Field, Affine, int, int) -> real,
    remap: (Field, real, real) -> real,
    resize: (ByteField, nat, nat, int, int) -> byte,
    erode: (ByteField, int, int) -> byte,
    gaussianBlur: (Field, real, int, int) -> real)
}
