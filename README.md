# Shadow synthesis, modelled in Dafny

This project models the core of a small image tool. The tool composites a
cut-out foreground onto a background and gives it a plausible ground shadow.
The shadow is built in four stages, and each stage has its own module
here. A fifth module, Compose, handles the pixels.

- **Contact** (`find_contact_y_and_x`) finds where the object touches the
  ground.
  - The contact row is the lowest row that holds a silhouette pixel, meaning
    one with opacity above 0.05.
  - The contact column is the floored mean column of the silhouette pixels
    within three rows of the contact row.
  - A mask with no silhouette pixel is an error.
- **Projection** (`affine_shadow_warp`) projects the silhouette onto the
  ground with a 2×3 affine shear.
  - The shear is anchored on the contact row.
  - It points away from the light.
  - It is stretched by the cotangent of the light elevation, which is first
    clamped to [0.1°, 89.9°].
- **DepthBend** (`depth_warp`) optionally bends the shadow by a displacement
  field read from an 8-bit depth map.
- **Compositor** (`build_realistic_shadow`) splits the shadow into contact,
  mid and far zones by distance along the shadow direction.
  - Each zone is blurred and weighted.
  - An exponential fade is applied.
  - The result is clamped to a darkest alpha of 0.85.
- **Compose** (`paste_rgba`, `apply_shadow_to_bg`) handles the pixels.
  - `paste_rgba` alpha-blends a source image into a clipped window of a
    destination image, in place.
  - `apply_shadow_to_bg` returns a darkened copy of the background.

**Pipeline** chains the four shadow stages in the order the driver script
runs them.

## How the model is built

- The library code the pipeline calls is passed in as parameters
  (`Externals`).
  - `MathLib` holds π, cos, sin, tan and exp. Its `Valid()` predicate states
    the only facts used about them.
  - `OpenCv` holds warpAffine, remap, resize, erode and GaussianBlur, each
    as one opaque function per output pixel.
  - So every stage's output shape is known. Nothing is assumed about the
    pixel values OpenCV computes.
- Images are row-major `seq<seq<real>>` (`Field`) or `seq<seq<byte>>`
  (`ByteField`).
- The shadow stages are pure numpy expressions in the source, so they are
  modelled as functions.
- `paste_rgba` writes a slice of its argument in place. It is modelled as a
  method on `array2<Pixel>` with a `modifies` clause. The write is a single
  simultaneous `forall` assignment, which reads only the old contents, as
  numpy's copies do.
- `apply_shadow_to_bg` builds and returns a new array.
- `astype(np.uint8)` of a float is modelled as the floor for values in
  [0, 256), saturating outside [0, 255] (`Raster.TruncateToByte`).
- Exact reals stand in for float32.

## Where the code and its description differ

The model follows the code in each case.

- The contact column is `int(np.mean(...))`, the floor of the mean, not the
  nearest integer (shadow.py:18).
- The elevation clamp is the closed interval [0.1, 89.9], via
  `max(0.1, min(89.9, ·))` (shadow.py:37).
- A depth map of uniform mid-grey does not leave the shadow in place.
  - Depth is a byte divided by 255, and no byte is 127.5, so the centred
    signal `d/255 - 0.5` is never 0.
  - A uniform depth map therefore translates the whole sample grid by one
    non-zero offset (`DepthBend.NoNeutralDepth`,
    `DepthBend.UniformDepthTranslates`).
- `affine_shadow_warp` is annotated as returning one array but returns the
  pair (warped mask, shadow direction) (shadow.py:24, 62). It is modelled
  with the pair `Projection.Projected` (a datatype).

## Model

| member | source | states |
|---|---|---|
| Raster.Clip | shadow.py:61 | `np.clip` returns a value inside [lo, hi]. It returns the input itself when the input is already in range, and the nearer bound otherwise. |
| Raster.TruncateToByte | shadow.py:123 | The uint8 cast of a value in [0, 256) is its floor. Values below 0 give 0, and values of 255 or more give 255. |
| Raster.TruncateMonotone | shadow.py:123 | The uint8 cast never reverses the order of two values. |
| Contact.InBand | shadow.py:16 | The band test `abs(row − contact_y) <= 3` always admits the contact row itself, and admits no row more than 3 away. |
| Contact.RowTally | shadow.py:9 | A row contributes at least one pixel exactly when it has a pixel above 0.05. Every column it contributes lies inside the row. |
| Contact.RowTallyWithin | shadow.py:9 | Any bounds [lo, hi] that enclose the columns of a row's pixels above 0.05 enclose the tally: count·lo ≤ column sum ≤ count·hi. |
| Contact.NoHitNoTally | shadow.py:9 | A row with no pixel above 0.05 selects nothing: count 0 and column sum 0. |
| Contact.RowTallyAddHit | shadow.py:9 | Turning one pixel of column c into a pixel above 0.05 adds exactly 1 to the count and c to the column sum. With `NoHitNoTally`, the tally is exactly the number and the column sum of the row's pixels above 0.05. |
| Contact.AllTally | shadow.py:9-10 | The pixels above 0.05 in the first n rows are non-empty exactly when one of those rows has such a pixel. Every tallied column lies inside the mask. |
| Contact.BandTally | shadow.py:15-16 | The band selection is non-empty exactly when some row within 3 of the contact row has a pixel above 0.05. Every selected column lies inside the mask. |
| Contact.BandTallyAddHit | shadow.py:15-16 | Turning one pixel at (r, c) into a pixel above 0.05 adds exactly 1 to the band count and c to the band column sum when row r is in the band, and changes nothing otherwise. With `BandTally`'s emptiness clause, the band tally is exactly the number and the column sum of the band's pixels above 0.05. |
| Contact.BandTallyWithin | shadow.py:15-16 | Any bounds [lo, hi] that enclose the columns of the band's pixels above 0.05 enclose the band tally: count·lo ≤ column sum ≤ count·hi. |
| Contact.LowestHitRow | shadow.py:12 | `np.max(ys)` is absent exactly when no row has a pixel above 0.05. Otherwise it is a row that has one, and no later row has one. |
| Contact.FlooredMean | shadow.py:18 | `int(np.mean(cols))` is the floor m of the mean: count·m ≤ sum < count·m + count. It is a valid column (m < width). |
| Contact.FindContact | shadow.py:7-21 | Raises the empty-mask error exactly when no pixel exceeds 0.05. Otherwise the contact row is the lowest row with such a pixel, and the contact column lies inside the mask. |
| Contact.BandNeverEmpty | shadow.py:16-20 | The band always contains the contact row's own pixels, so the fallback at lines 19-20 is unreachable. |
| Contact.ContactXIsFlooredBandMean | shadow.py:15-18 | The returned column is the floor of the mean column of the band's pixels, not the fallback over all pixels. |
| Contact.ContactXWithinBand | shadow.py:15-18 | Any bounds that enclose the columns of the band's pixels above 0.05 enclose the contact column. It therefore lies between the leftmost and the rightmost such column, and equals it when they coincide. |
| Contact.ContactXBetweenBandHits | shadow.py:15-18 | The band has a pixel above 0.05 at or left of the contact column, and one at or right of it. |
| Contact.BandEndsAtContactRow | shadow.py:15-16 | Rows below the contact row add nothing to the band, so the band is rows contactY-3 .. contactY. |
| Projection.ClampElevation | shadow.py:37 | The elevation is clamped to the closed interval [0.1, 89.9]. In-range values are unchanged, and values outside become the nearer bound. |
| Projection.LightDirection | shadow.py:33-34 | With cos² + sin² = 1, the light direction `(cos θ, sin θ)` is a unit vector. |
| Projection.ShadowDirection | shadow.py:33-35 | The shadow direction is exactly the negation of (cos θ, sin θ), and it is a unit vector. |
| Projection.ElevationIsAcute | shadow.py:37 | A clamped elevation, in radians, lies strictly between 0 and π/2. |
| Projection.Stretch | shadow.py:37-38 | `1 / tan(elev)` of the clamped elevation is positive. |
| Projection.AnchoredShear | shadow.py:40-49 | M keeps the x scale (m00 = 1) and never mixes x into y (m10 = 0), so each row maps onto one row with its spacing kept. Its translation cancels on the contact row in both coordinates. |
| Projection.ContactRowFixed | shadow.py:40-49 | The matrix M maps every point (x, contact_y) to itself, for any stretch and direction. |
| Projection.ShearMovesAlongShadow | shadow.py:40-49 | M moves a point at height h = contact_y − y by exactly h·cot along the shadow direction. |
| Projection.FixedExactlyOnContactRow | shadow.py:40-49 | With a positive stretch and a unit direction, a point is fixed by M if and only if it lies on the contact row. |
| Projection.DisplacementLength | shadow.py:40-49 | The squared distance M moves a point is (h·cot)². |
| Projection.LargerStretchMovesFarther | shadow.py:38-49 | Off the contact row, a larger stretch moves a point strictly farther: the squared distance M moves it grows strictly with the stretch. |
| Projection.LowerSunStretchesMore | shadow.py:37-38 | `1 / tan(elev)` never grows with the elevation, and strictly falls between two elevations that the clamp keeps apart. This uses that tan increases on (0, π/2). |
| Projection.WarpMatrix | shadow.py:33-49 | The matrix handed to warpAffine fixes a point if and only if the point lies on the contact row. |
| Projection.LowerSunCastsLongerShadow | shadow.py:33-49 | For two elevations that the clamp keeps apart, every point off the contact row moves strictly farther under the lower sun's matrix. |
| Projection.AffineShadowWarp | shadow.py:24-62 | The warped mask has the mask's shape. Every value is the warpAffine sample through M, clipped to [0, 1]. The returned direction is the shadow direction. |
| DepthBend.Centered | shadow.py:74-76 | `d/255 − 0.5` lies in [−0.5, 0.5] and is never 0 for a byte d. |
| DepthBend.DepthOffset | shadow.py:79-81 | `disp·25·dir` moves at most 12.5·abs(dir_x) horizontally and 12.5·abs(dir_y) vertically. |
| DepthBend.NoNeutralDepth | shadow.py:74-81 | For any non-zero shadow direction, every depth byte moves the sample point. |
| DepthBend.FitDepth | shadow.py:71-72 | The depth map used has the shadow's shape. It is the given map itself when the shapes already match. |
| DepthBend.SampleMap | shadow.py:83-85 | The sample map is the pixel grid plus the displacement. Every sample lies within 12.5·abs(dir) of its own pixel, per axis. |
| DepthBend.UniformDepthTranslates | shadow.py:74-85 | A uniform depth map translates every sample point by the same offset. |
| DepthBend.DepthWarp | shadow.py:65-95 | The output has the shadow's shape. Every value is the remap sample at the sample map, clipped to [0, 1]. |
| Compositor.AlongShadow | shadow.py:110 | The projection onto the shadow direction is 0 at the contact point. For a unit direction, its square never exceeds the squared straight-line distance from the contact point (Cauchy–Schwarz). |
| Compositor.Distance | shadow.py:108-111 | The distance along the shadow direction is non-negative. It is 0 exactly for pixels at or behind the contact point, and equals the projection otherwise. |
| Compositor.InZone | shadow.py:117-119 | A distance of 0 or less belongs to the contact zone and to no other zone. |
| Compositor.ZonesPartitionDistances | shadow.py:114-119 | Every distance lies in exactly one of the three zones: ≤ 35, (35, 180] and > 180. |
| Compositor.ZoneMask | shadow.py:117-119 | A zone mask keeps the shadow's value where the distance lies in that zone and is 0 elsewhere. It has the shadow's shape. |
| Compositor.ZoneMasksSumToShadow | shadow.py:117-119 | contact_mask + mid_mask + far_mask equals shadow_base at every pixel. |
| Compositor.BehindContactIsContactZone | shadow.py:110-117 | The contact point and every pixel behind it belong to the contact zone. |
| Compositor.Eroded | shadow.py:122-125 | The eroded contact layer has the layer's shape, and its values lie in [0, 1]. |
| Compositor.Blurred | shadow.py:128-130 | A blurred layer has the layer's shape. |
| Compositor.BlurredZones | shadow.py:117-130 | The three blurred zone layers each have the shadow's shape. |
| Compositor.Combine | shadow.py:136-140 | With every layer in [0, 1], the weighted sum 0.85·contact + 0.45·mid + 0.22·far lies in [0, 1.52]. |
| Compositor.Fade | shadow.py:133-134 | With exp valid, the fade factor `exp(−d/260)` of a non-negative distance lies in (0, 1]. |
| Compositor.ShadowAlpha | shadow.py:136-143 | Every output alpha lies in [0, 0.85], whatever the layers and the fade. |
| Compositor.FadedAtMostCombined | shadow.py:133-143 | A fade factor in (0, 1] never makes a pixel darker than its weighted combination. |
| Compositor.FadeIsDecreasingFactor | shadow.py:133-134 | `exp(−d/260)` lies in (0, 1] and never grows with distance. |
| Compositor.BuildShadow | shadow.py:98-143 | The result has the shadow's shape, and every value lies in [0, 0.85]. Each value is the clamped, faded 0.85/0.45/0.22 combination of the blurred zone layers at that pixel. |
| Compositor.ZoneWeightsBoundAlpha | shadow.py:136-143 | With layers in [0, 1], no pixel is darker than its weighted sum. Without the contact layer a pixel is at most 0.67 dark, and with only the far layer at most 0.22. |
| Pipeline.SynthesizeShadow | main.py:39-52 | The driver's sequence fails exactly when the mask has no silhouette pixel. Otherwise it yields a mask-shaped alpha in [0, 0.85], with or without a depth map. |
| Compose.Unit | utils.py:35-45 | `v/255` of a byte lies in [0, 1]. It is 0 exactly for byte 0 and 1 exactly for byte 255. |
| Compose.Quantize | utils.py:45 | `(clip(v, 0, 1)·255).astype(uint8)` gives 0 for values of 0 or less and 255 for values of 1 or more. |
| Compose.QuantizeUnit | utils.py:35-45 | Converting a byte to [0, 1] and back through clip·255 and the cast gives the byte back. |
| Compose.QuantizeMonotone | utils.py:45 | Clip·255 and the cast never reverse the order of two values. |
| Compose.Over | utils.py:41 | `src·a + dst·(1−a)` is dst at a = 0 and src at a = 1. |
| Compose.OverAlpha | utils.py:42 | `a + dst_a·(1−a)` is dst_a at a = 0, and 1 at a = 1. |
| Compose.OverBetween | utils.py:41 | `src·a + dst·(1−a)` lies between src and dst for a in [0, 1]. |
| Compose.OverAlphaDominates | utils.py:42 | `a + dst_a·(1−a)` is at least a, at least dst_a, and at most 1. |
| Compose.BlendChannelBetween | utils.py:35-45 | Each blended colour byte lies between the source byte and the destination byte. |
| Compose.BlendProperties | utils.py:35-45 | A blended pixel is at least as opaque as both the source and the destination. Each colour channel lies between theirs. |
| Compose.Blend | utils.py:35-45 | A source pixel with alpha 255 replaces the destination pixel. A source pixel with alpha 0 leaves the destination pixel unchanged. |
| Compose.PasteWindow | utils.py:22-25 | The clipped window lies inside the destination [0, W) × [0, H), and inside the source rectangle placed at (x, y). |
| Compose.SourceWindow | utils.py:30-33 | The source window is the destination window shifted by (−x, −y): (i, j) is in it exactly when (i + y, j + x) is in the destination window. |
| Compose.WindowIsOverlap | utils.py:22-25 | A pixel is in the window [x0, x1) × [y0, y1) if and only if it is in the destination and covered by the source placed at (x, y). |
| Compose.WindowsInBounds | utils.py:22-33 | A non-empty window lies in [0, W) × [0, H). Its source window lies in [0, w) × [0, h), and both have the same width and height. |
| Compose.EmptyIffNoOverlap | utils.py:22-28 | The `x0 >= x1 or y0 >= y1` test holds exactly when the window contains no pixel. |
| Compose.Paste | utils.py:17-46 | Returns the same array it was given. With an empty window nothing changes. Otherwise every window pixel becomes the source pixel blended over the old destination pixel, and every other pixel keeps its value. |
| Compose.Scale | utils.py:51-54 | A channel scaled by a factor of 0 or less becomes black. |
| Compose.Darken | utils.py:51-54 | A darkened pixel keeps its alpha. |
| Compose.ScaledChannel | utils.py:51-54 | Scaling a channel by 1 − a never brightens it. It keeps it at a = 0 and makes it black at a = 1. |
| Compose.DarkenProperties | utils.py:51-54 | A darkened pixel is never brighter in R, G or B, and keeps its alpha. No shadow leaves it unchanged, and full shadow makes its colour black. |
| Compose.ApplyShadowToBg | utils.py:49-54 | Returns a new array of the background's shape. Each pixel is the background pixel darkened by the clamped shadow alpha at that place. The background is not changed. |

## Left out

- Command-line parsing, file and directory handling, image loading, the
  LANCZOS resize and the debug images of the driver script are I/O. They
  only sequence the core calls. `load_rgba` and `save_rgba` (utils.py:8-14)
  are left out for the same reason.
- The browser viewer (ts-viewer) is a user interface with no bearing on the
  shadow.
- The internals of `cv2.warpAffine`, `cv2.remap`, `cv2.resize`,
  `cv2.GaussianBlur` and `cv2.erode` are foreign library code. They are
  opaque per-pixel functions, and nothing is proved about their values.
- `math.cos`, `math.sin`, `math.tan` and `np.exp` are transcendental. Only
  the facts in `Externals.MathLib.Valid` are assumed: cos² + sin² = 1,
  tan > 0 and increasing on (0, π/2), exp ∈ (0, 1] on non-positive arguments, and exp
  monotone.
- float32 rounding is not modelled. For example, `(v/255)·255` is exactly v
  here, so the round trips in `Compose.QuantizeUnit` and
  `Compose.DarkenProperties` hold for exact reals. float32 could round
  them one unit lower before the cast.
- The float32 storage of the matrix M (shadow.py:49) is likewise exact.
- `Raster.TruncateToByte`: numpy leaves the uint8 cast of values outside
  [0, 255] unspecified. The model saturates, and every cast in the core is
  of a value already clipped to that range.
- `Compositor.Eroded`: `BuildShadow` accepts any base, and for values
  above 1 the model saturates at 255.
- `Pipeline.SynthesizeShadow` starts from the mask. Building the mask by
  pasting the foreground onto an empty canvas (main.py:36-39) is
  `Compose.Paste` on arrays, and that step is not chained into this
  function.
