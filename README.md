# Raster editor core in Dafny

A model of the editing operations of the `raster` crate's `src/editor.rs`, with proofs about them. The operations covered are:

- **blend**: composite one image over another at a resolved position, clipped to the canvas;
- **copy**, **crop** and **fill**;
- **resize**: the `exact`, `exact_width`, `exact_height`, `fit` and `fill` modes;
- **resample**: the nearest-neighbour interpolation that every resize delegates to.

The model has three modules:

- `arith.dfy` (module `Arith`)
  - Products and quotients of natural numbers, counted by repeated addition (`Mul`) and repeated subtraction (`Count`, `Quotient`).
  - Each is tied to Dafny's `*` and `/` by a lemma: `MulIsProduct`, `QuotientIsDiv`.
  - The resize ratios and resampling coordinates are stated with them. Their unfolding is linear, so those proofs stay small.
- `image.dfy` (module `Raster`): the pixel buffer and placement resolver that the editor relies on.
  - `image.rs`, `position.rs` and `color.rs` are not part of this model. They are specified by what the editor needs of them.
  - An `Image` is a width, a height and a row-major `seq<Color>` with `Area(width, height)` pixels. Pixel `(x, y)` is at index `Area(width, y) + x`.
  - `Image::get_pixel` and `Image::set_pixel` become bounds-checked `GetPixel` and `SetPixel`, which return `Result`. `Image::blank` becomes `Blank`.
  - `Position::get_x_y` becomes a function-typed parameter `Resolver`.
  - `Rows`, `Written` and `Build` describe an image that a row-by-row loop fills from a pixel function. The loops below are proved against them.
- `editor.dfy` (module `Editor`): the operations.
  - Where the source builds the result in a mutable `dest` buffer with nested loops, the model is a method with the same loops. `dest` is a local `Image` value reassigned through `SetPixel`. These are:
    - `Crop` with its loops `CopyRegion`, proved equal to the function `Cropped`;
    - `InterpolateNearest` with its inner loop `NearestRow`, proved equal to the function `NearestNeighbour`;
    - `Fill`, whose postcondition gives the size and every pixel of the result.
  - `Blend` is a method that reassigns the loop-bound locals as the source does. It is proved to return what the `Composite`, `ClippedBounds` and `ParseBlendMode` functions describe.
  - The dispatchers and size computations are functions.

The resize ratios are floating point in the source. The model uses exact integer arithmetic:

- `(a as float / b as float).round()` is `RoundDiv(a, b)`, the integer nearest `a / b` with halves rounded up.
- A truncating `as i32` cast of `a / b` is `Quotient(a, b)`.
- For example, `round(w / (sw / sh))` is `RoundDiv(Mul(sh, w), sw)`. `Mul(a, b)` is `a * b` by `Arith.MulIsProduct`.

The ratio lemmas state their results as inequalities over these products.

Two details of the code that the model keeps:

- `resize_exact_width` rounds the computed height (`src/editor.rs:337`), and `resize_exact_height` truncates the computed width (`src/editor.rs:311`).
- `blend`'s outside-canvas failure is the message string "Invalid blending. Image 2 is outside the canvas." at `src/editor.rs:74`.

## Model

| member | source | states |
|---|---|---|
| Editor.ClampOpacity | src/editor.rs:52-57 | The opacity ends up in `[0, 1]`. A value inside the range is kept, a value above it becomes 1 and a value below it becomes 0. |
| Editor.OverlapIffSharedPixel | src/editor.rs:69-75 | For non-empty images, the four-way overlap test of `blend` passes exactly when some overlay pixel, moved by the offset, lands on a canvas pixel (both directions). |
| Editor.ClippedBounds | src/editor.rs:77-107 | The four loop bounds keep every visited overlay pixel inside the overlay and, once moved by the offset, inside the canvas: `0 <= start <= end <= w2`, `0 <= offset + start`, `offset + end <= w1`, and the same for y. They also visit every pixel that lies in both images. |
| Editor.ParseBlendMode | src/editor.rs:110-133 | A keyword selects a mode exactly when it is that mode's name. Any other keyword selects none. |
| Editor.Lower | src/editor.rs:109 | Lower-casing keeps the length, maps each character through the ASCII lower-casing, and leaves no upper-case ASCII letter. |
| Editor.ModeNameIgnoresCase | src/editor.rs:109-130 | A mode name written in any mixture of upper and lower case selects that mode once lower-cased. |
| Editor.Composite | src/editor.rs:110-130 | The blended image has the canvas's size. Each canvas pixel covered by the clipped overlay is the per-pixel blend of the canvas pixel and the overlay pixel. Every other canvas pixel is unchanged. |
| Editor.CompositeKeepsBase | src/editor.rs:110-130 | A per-pixel blend that returns the base pixel leaves the whole canvas image unchanged. |
| Editor.TransparentBlendIsCopy | src/editor.rs:52-130 | With opacity at or below 0, the result is a copy of the canvas, for any per-pixel blend that keeps the base pixel at opacity 0. |
| Editor.Blend | src/editor.rs:50-135 | The resolver's error is returned as is. An overlay that misses the canvas gives the "outside the canvas" error. An unknown lower-cased mode gives "Invalid blend type <mode>.". Otherwise the result is the composite over the clipped bounds, with the selected mode and the clamped opacity. The checks run in that order. |
| Editor.Copy | src/editor.rs:150-156 | The copy has the source's width, height and pixels. |
| Raster.Blank | src/editor.rs:198 | A freshly allocated buffer has the requested size and only transparent (all-zero) pixels. |
| Raster.Image.GetPixel | src/editor.rs:202 | A read succeeds exactly inside the image and returns the pixel there. Outside, it fails with an out-of-bounds error naming the coordinates. |
| Raster.Image.SetPixel | src/editor.rs:203 | A write succeeds exactly inside the image. It replaces the one pixel at its row-major index and keeps the size. Outside, it fails with an out-of-bounds error. |
| Editor.CropRect | src/editor.rs:184-198 | Negative corners move to 0. The rectangle stays inside the source. Each side is at most the requested one, and is cut short only at the source's far edge. |
| Editor.WindowAt | src/editor.rs:202 | Every pixel `crop` reads, at `(offset_x + x, offset_y + y)`, lies inside the source. |
| Editor.SubImage | src/editor.rs:198-206 | The copied region has the rectangle's size. Its pixel `(x, y)` is the source pixel at the rectangle's corner plus `(x, y)`, which is in bounds. |
| Editor.Cropped | src/editor.rs:178-207 | A resolver error is returned as is. Otherwise the crop starts at the resolved corner clamped to non-negative values. Each side is the requested one, or is cut short exactly at the source's far edge, and never exceeds either. The pixels are copied from the source one by one. |
| Editor.CroppedOk | src/editor.rs:183-206 | A crop whose corner resolves is the sub-image of the clamped rectangle at that corner. |
| Editor.CropTopLeft | src/editor.rs:178-207 | A `top-left` crop with no offsets, within the source's size, is exactly the top-left corner of the source. This assumes the resolver places `top-left` at the origin. |
| Editor.Crop | src/editor.rs:178-207 | The imperative crop, with its clamping and copying loops, returns exactly `Cropped`. |
| Editor.CopyRegion | src/editor.rs:198-206 | The copying loops of `crop` never fail a read or a write, and produce exactly the sub-image of the source. |
| Editor.Fill | src/editor.rs:226-237 | The result has the source's size and every pixel is `color`. The source's pixels are never read. |
| Editor.SourceCoord | src/editor.rs:428-429 | For a non-empty source, the sampled coordinate lies inside the source. Coordinate 0 maps to 0. |
| Editor.SourceCoordInRange | src/editor.rs:428-430 | The floor of `d * srcSize / dstSize` is below `srcSize` for every `d < dstSize`, so every read of the resampler is in bounds. |
| Editor.SourceCoordIsFloor | src/editor.rs:421-429 | The sampled coordinate is the largest `s` with `dstSize * s <= srcSize * d`, that is `d * srcSize / dstSize` rounded down. |
| Editor.NearestAt | src/editor.rs:428-432 | Inside the destination, the nearest-neighbour pixel is the source pixel at the sampled coordinates, which is in bounds. |
| Editor.NearestNeighbour | src/editor.rs:419-437 | Resampling to `w` by `h` fails exactly when the source is empty and the target is not, with an out-of-bounds error at `(0, 0)`. Otherwise it gives a `w` by `h` image whose pixel `(x, y)` is the source pixel at `(floor(x * sw / w), floor(y * sh / h))`. |
| Editor.InterpolateNearest | src/editor.rs:419-437 | The imperative resampler returns exactly `NearestNeighbour`, including its error. |
| Editor.NearestRow | src/editor.rs:426-433 | One pass of the inner loop either writes row `y` of the nearest-neighbour image, keeping the rows above it, or fails on its first read. It fails exactly when the source is empty and the row is not. |
| Editor.Resample | src/editor.rs:440-459 | `bilinear`, `bicubic` and `nearest` resample to exactly `w` by `h` from the source pixels at the floored coordinates. They fail only on an empty source with a non-empty target. Any other keyword gives "Invalid interpolation '<keyword>'". |
| Editor.InterpolationsAgree | src/editor.rs:442-453 | `bilinear` and `bicubic` give the same result as `nearest`. |
| Editor.RoundDiv | src/editor.rs:337 | The rounded quotient `q` of `a / b` satisfies `2a - b < 2bq <= 2a + b`, that is `q` is within half a unit of `a / b`. |
| Arith.Quotient | src/editor.rs:311 | The truncated quotient `q` of `a / b` satisfies `bq <= a < bq + b`. |
| Arith.QuotientIsDiv | src/editor.rs:311 | The truncated quotient is Euclidean (and, for non-negative values, truncating) division. |
| Editor.ResizeExact | src/editor.rs:284-288 | `resize_exact` gives exactly `w` by `h`. It fails only on an empty source with a non-empty target. |
| Editor.ResizeExactHeight | src/editor.rs:304-315 | The height is `h`. The width is the largest `x` with `sh * x <= sw * h`, that is `h` times the aspect ratio, truncated. |
| Editor.ResizeExactWidth | src/editor.rs:331-341 | The width is `w`. The height `y` has `sw * y` within half a `sw` of `sh * w`, that is `w` over the aspect ratio, rounded. |
| Editor.ResizeExactHeightProducts | src/editor.rs:304-315 | The `resize_exact_height` width `x` satisfies `sh * x <= sw * h < sh * x + sh`, with Dafny's own multiplication. |
| Editor.ResizeExactWidthProducts | src/editor.rs:331-341 | The `resize_exact_width` height `y` satisfies `2 * (sh * w) - sw < 2 * (sw * y) <= 2 * (sh * w) + sw`, with Dafny's own multiplication. |
| Editor.FillSize | src/editor.rs:356-369 | The `resize_fill` size covers the box: neither side is smaller than the box's, and one side equals it. |
| Editor.FillSizeKeepsRatio | src/editor.rs:362-369 | The fill size keeps the source's aspect ratio. In the width-based case the height is rounded to nearest. In the height-based case the width is truncated. |
| Editor.FillSizeProducts | src/editor.rs:362-369 | The same ratio facts for the fill size, with Dafny's own multiplication. |
| Editor.HeightBasedCoversWidth | src/editor.rs:363-368 | When the width-based height falls short of the box, the height-based width still covers the box's width. |
| Editor.ResizeFill | src/editor.rs:356-375 | `resize_fill` on a non-empty source always succeeds with exactly `w` by `h`. |
| Editor.ResizeFillPixels | src/editor.rs:356-375 | Pixel `(x, y)` of the `resize_fill` result is the pixel that nearest-neighbour resampling to the fill size reads for `(x, y)`. The top-left crop keeps the resampled pixels in place. |
| Editor.CornerOfResampledAt | src/editor.rs:371-372 | The top-left corner of a resampled image, pixel by pixel, is the resampled pixel at the same coordinates. |
| Editor.FitSize | src/editor.rs:392-404 | The `resize_fit` size fits in the box: neither side is larger than the box's, and one side equals it. |
| Editor.FitSizeKeepsRatio | src/editor.rs:396-404 | The fit size keeps the source's aspect ratio, rounding the computed side to nearest. |
| Editor.FitSizeProducts | src/editor.rs:396-404 | The same ratio facts for the fit size, with Dafny's own multiplication. |
| Editor.HeightBasedFitsWidth | src/editor.rs:400-403 | When the width-based height overflows the box, the rounded height-based width does not overflow it. |
| Editor.ResizeFit | src/editor.rs:392-408 | `resize_fit` on a non-empty source succeeds with an image inside the box that touches it on one side. |
| Editor.Resize | src/editor.rs:241-268 | An unknown mode gives "Invalid resize mode '<mode>'.". Every known mode succeeds on a non-empty source with the size it promises: exactly `w` by `h` for `exact` and `fill`, width `w` for `exact_width`, height `h` for `exact_height`, and within the box for `fit`. |

## Left out

- `save` (`src/editor.rs:411-413`): file output through the `image` crate. It has no behaviour to model.
- `_bilinear` (`src/editor.rs:461-467`): an unused floating-point helper.
- Floating point.
  - The resize ratios (`f32` and `f64`) and the resampler's `floor` of `x as f64 * ratio` are modelled in exact integer arithmetic. Agreement with the float results is not claimed.
  - In particular, `Editor.ResizeFit` and `Editor.FitSize` prove that the exact-arithmetic size fits the box; agreement with the float results is not claimed.
- Editor.ClampOpacity: an `f32` is modelled as a `real`, so NaN (which passes both comparisons of the clamp unchanged) is not represented.
- Integer width: sizes and offsets are unbounded integers. The `i32` overflow of `offset_x + w2`, `offset_y + crop_height` and the ratio computations is not modelled.
- Negative sizes.
  - Image, crop and resize sizes are `nat`, so negative requests are outside the model.
  - `Editor.Crop` and `Editor.Cropped` require the resolved corner not to lie beyond the source's far edges. Otherwise `width2 - offset_x` at line 198 would be negative, and the source leaves that case unguarded.
- Editor.Blend: the per-pixel formulas of the `blend` module (`blend::normal` and the others) are not part of this model. They are a function parameter `PixelBlend`, applied to every pixel of the clipped region. Errors those functions might return are not modelled.
- Placement: `Position::get_x_y` is a function parameter `Resolver`. The anchor table is not modelled.
  - `Editor.ResizeFill` and `Editor.CropTopLeft` assume the resolver places a `top-left` request without offsets at `(0, 0)`.
- Editor.Resize: passes that resolver assumption on to the `fill` mode, and needs a non-empty source for the modes that divide by a side of the source.
- Editor.ResizeExactHeight: requires a non-zero source height. With height 0 the source's `f32` ratio is infinite or NaN, which the exact arithmetic does not represent.
- Editor.ResizeExactWidth: requires a non-zero source width, for the same reason: `w as f32 / ratio` then divides by a zero ratio.
- Editor.Lower: lower-cases ASCII letters only. For deciding whether a keyword is one of the five (ASCII) mode names, this agrees with Unicode lower-casing.
- Error texts of the pixel buffer: an out-of-bounds read or write is the value `OutOfBounds(x, y)`, not the buffer's message string.
- Crop's loops are modelled as their own method, `Editor.CopyRegion`, called from `Editor.Crop`.
- The inner loop of `interpolate_nearest` is modelled as `Editor.NearestRow`, called once per row from `Editor.InterpolateNearest`. An error in a row returns at once, as the source's `try!` does.
