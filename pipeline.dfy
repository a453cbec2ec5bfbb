/**
 * The order in which the driver script runs the core: contact point,
 * projection, optional depth bending, compositing. An empty mask stops
 * the run before any later stage.
 */
module Pipeline {
  import opened Raster
  import opened Externals
  import opened Contact
  import opened Projection
  import opened DepthBend
  import opened Compositor

  /**
   * The shadow alpha for a foreground mask, a light angle and elevation,
   * and an optional depth map: an error exactly when the mask has no
   * silhouette pixel, otherwise a mask-shaped field in [0, 0.85].
   */
  function SynthesizeShadow(m: MathLib, cv: OpenCv, mask: Field, angleDeg: real, elevDeg: real,
                            depth: Option<ByteField>): (res: Result<Field, ContactError>)
    requires m.Valid() && Rectangular(mask)
    requires depth.Some? ==> Rectangular(depth.value)
    ensures res.Failure? <==> !MaskHasHit(mask)
    ensures res.Success? ==> IsGrid(res.value, |mask|, Width(mask)) && InRange(res.value, 0.0, MaxAlpha)
  {
    match FindContact(mask)
    case Failure(e) => Failure(e)
    case Success(p) =>
      var projected := AffineShadowWarp(m, cv, mask, angleDeg, elevDeg, p.y);
      GridIsRectangular(projected.warped, |mask|, Width(mask));
      var base :=
        if depth.Some? then DepthWarp(cv, projected.warped, depth.value, projected.shadowDir)
        else projected.warped;
      GridIsRectangular(base, |mask|, Width(mask));
      Success(BuildShadow(m, cv, base, p.y, p.x, projected.shadowDir))
  }
}
