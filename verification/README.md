# OrthoStack raster indexer and DoubleSlider, in Dafny

A model of the computational core of the VisBio OrthoStack ImageJ plugin:

- **The N-dimensional raster indexer** (`OrthoStack.positionToRaster` and the two
  `rasterToPosition` overloads). It turns a position (one coordinate per axis) into a
  flat index with axis 0 varying fastest, and back. The plugin uses it to fetch the
  1-based stack plane of every slice for the current channel and frame.
- **`DoubleSlider`**: a Swing scroll bar whose integer position `index` stands for the
  double value `index * step + min`. It has a constructor, `getDoubleValue`,
  `setDoubleValue`, the three getters, and the setters `setMin`, `setMax` and `setStep`.

Files:

- `java_numerics.dfy` (module `JavaNumerics`): the Java arithmetic the code relies on.
  - Integer `/` and `%` truncate toward zero; Dafny's own operators are Euclidean.
  - The `(int)` cast of a double truncates and saturates at the bounds of `int`.
  - The 32-bit `int` addition of the constructor's `+ 1` wraps around.
- `mixed_radix.dfy` (module `MixedRadix`): the reference mathematics.
  - `Product` of the axis lengths and `Encode` in Horner form.
  - `StrideSum`: coordinate times stride, summed.
  - `Decode`: the coordinates as digits, with the last axis unreduced.
  - The round trips, bounds, injectivity and stride lemmas.
- `ortho_stack.dfy` (module `OrthoStack`): the Java loops as methods with loop invariants.
  - They are proved equal to the reference.
  - The exceptions the loops can throw (`ArrayIndexOutOfBoundsException`,
    `ArithmeticException`) become `Failure` results.
- `double_slider.dfy` (module `DoubleSlider`): the slider as an immutable record.
  - Every setter is a function from the old state to the new one.
  - The getters `getMin`, `getMax` and `getStep` are the record's fields `min`, `max`
    and `step`.
  - Doubles are idealised as exact reals.

Behaviour of the code that is easy to miss:

- **Mismatched lengths are defined, not undefined.**
  - A position longer than `lengths` throws `ArrayIndexOutOfBoundsException`.
  - Surplus lengths are ignored.
- **Decoding then re-encoding is exact for every `int` raster**, negative or beyond the
  product. It is not limited to `[0, product)`, because the last axis is never reduced.
- **`valueToIndex` with a zero step returns the largest `int`, the smallest `int`, or 0.**
  The double division yields an infinity or NaN, and the cast maps those to these values.

## Model

| member | source | states |
|---|---|---|
| OrthoStack.PositionToRaster | src/main/java/loci/visbio/OrthoStack.java:386-394 | throws (index out of bounds) exactly when the position has more axes than `lengths`; otherwise the raster is the sum of each coordinate times the product of the earlier lengths, and equals the Horner-form `Encode` |
| OrthoStack.RasterToPositionN | src/main/java/loci/visbio/OrthoStack.java:417-430 | divides by zero exactly when a length used as a `%` divisor (any but the last of the first n) is zero; otherwise is out of bounds exactly when n exceeds the number of lengths; on success has n coordinates whose stride sum is the raster for any int raster, and for a non-negative raster and positive lengths equals the digit decoding |
| OrthoStack.DecodeAxis | src/main/java/loci/visbio/OrthoStack.java:423-426 | one loop step: coordinate times offset plus the new remainder gives back the old remainder; the new remainder is a multiple of the next offset, is zero on the last axis, and with non-negative input stays non-negative with the coordinate in `[0, length)` |
| OrthoStack.RasterToPosition | src/main/java/loci/visbio/OrthoStack.java:404-406 | the two-argument overload decodes into one coordinate per axis, fails only on a zero divisor length, and its coordinates re-encode to the raster |
| OrthoStack.RasterToPositionInto | src/main/java/loci/visbio/OrthoStack.java:417-430 | the three-argument overload writes the decoded coordinates into the caller's array and returns that same array |
| OrthoStack.PositionRoundTrip | src/main/java/loci/visbio/OrthoStack.java:386-430 | for positive lengths and a position within them, `rasterToPosition(positionToRaster(pos))` returns `pos` |
| OrthoStack.RasterRoundTrip | src/main/java/loci/visbio/OrthoStack.java:386-430 | for at least one axis and no zero divisor length, `positionToRaster(rasterToPosition(r))` returns `r` for every int `r` |
| OrthoStack.SlicePlanes | src/main/java/loci/visbio/OrthoStack.java:128-160 | the plane numbers fetched for a channel and frame: one per slice, each in `[1, C*Z*T]`, consecutive slices `sizeC` apart, each the encoded position plus one |
| OrthoStack.HyperstackExample | src/main/java/loci/visbio/OrthoStack.java:386-430 | with 2 channels, 3 slices and 4 frames, raster 17 decodes to channel 1, slice 2, frame 2 and encodes back to 17 |
| OrthoStack.PlaneProduct | src/main/java/loci/visbio/OrthoStack.java:128-128 | the product of the three hyperstack lengths is `sizeC * sizeZ * sizeT` |
| MixedRadix.Encode | src/main/java/loci/visbio/OrthoStack.java:386-394 | a position within the lengths encodes into `[0, product of the lengths)` |
| MixedRadix.EncodeIsStrideSum | src/main/java/loci/visbio/OrthoStack.java:386-394 | Horner form and stride-sum form of the raster agree |
| MixedRadix.EncodeSnoc | src/main/java/loci/visbio/OrthoStack.java:386-394 | appending an axis adds its coordinate times the product of all earlier lengths |
| MixedRadix.EncodeStep | src/main/java/loci/visbio/OrthoStack.java:386-394 | raising coordinate i by one raises the raster by the product of the earlier lengths: by exactly 1 on axis 0, which varies fastest |
| MixedRadix.EncodeInjective | src/main/java/loci/visbio/OrthoStack.java:386-394 | distinct positions (last coordinate unbounded) have distinct rasters |
| MixedRadix.Decode | src/main/java/loci/visbio/OrthoStack.java:417-430 | every coordinate but the last lies in `[0, length)`; a non-negative raster gives non-negative coordinates |
| MixedRadix.DecodeEncode | src/main/java/loci/visbio/OrthoStack.java:417-430 | decoding the encoding of a position (last coordinate unbounded) gives the position back |
| MixedRadix.EncodeDecode | src/main/java/loci/visbio/OrthoStack.java:417-430 | encoding the decoding of any integer gives it back |
| MixedRadix.DecodeInRange | src/main/java/loci/visbio/OrthoStack.java:417-430 | the decoded position lies within the lengths exactly when the raster is below the product, and it is the last coordinate that overflows otherwise |
| MixedRadix.NumeralBelowProduct | src/main/java/loci/visbio/OrthoStack.java:386-394 | a position whose raster lies below the product has its last coordinate within its length too |
| MixedRadix.DecodeDigits | src/main/java/loci/visbio/OrthoStack.java:417-430 | coordinate i is `(r / stride_i) % length_i`, and the last is `r / stride_last`, unreduced |
| MixedRadix.ProductPositive | src/main/java/loci/visbio/OrthoStack.java:425-425 | positive lengths give a positive stride |
| JavaNumerics.Rem | src/main/java/loci/visbio/OrthoStack.java:424-424 | Java's `%`: smaller in magnitude than the divisor, with the sign of the dividend |
| JavaNumerics.Quot | src/main/java/loci/visbio/OrthoStack.java:425-425 | Java's `/`: the quotient times the divisor plus Java's remainder gives back the dividend (section 15.17.2 of the Java Language Specification), which with the remainder's sign and magnitude fixes the quotient |
| JavaNumerics.QuotOfMultiple | src/main/java/loci/visbio/OrthoStack.java:425-425 | Java's `/` of an exact multiple gives the multiplier back |
| JavaNumerics.Truncate | src/main/java/loci/visbio/DoubleSlider.java:105-105 | rounding toward zero: within one below a non-negative input, within one above a negative one |
| JavaNumerics.Narrow | src/main/java/loci/visbio/DoubleSlider.java:105-105 | the `(int)` cast is an int; it is the truncation when that fits, otherwise the bound on the side it overflows |
| JavaNumerics.AddInt | src/main/java/loci/visbio/DoubleSlider.java:48-49 | the `+ 1` is an int; it is the exact sum when that fits, and otherwise differs from it by a multiple of 2^32 |
| DoubleSlider.ValueToIndex | src/main/java/loci/visbio/DoubleSlider.java:102-106 | the index is an int; with a zero step it is the largest int, the smallest int or 0 exactly when the value is above, below or at the offset |
| DoubleSlider.IndexToValue | src/main/java/loci/visbio/DoubleSlider.java:108-112 | position 0 stands for the offset, and with a non-zero step the value minus the offset is the index times the step |
| DoubleSlider.NewSlider | src/main/java/loci/visbio/DoubleSlider.java:45-53 | extent 1, minimum 0, position `valueToIndex(value)`, and maximum one above `valueToIndex(max)` (wrapping to the smallest int at the largest); min, max and step stored |
| DoubleSlider.DoubleValue | src/main/java/loci/visbio/DoubleSlider.java:55-57 | position 0 shows `min`, and with a positive step the value exceeds `min` exactly at positive positions |
| DoubleSlider.SetDoubleValue | src/main/java/loci/visbio/DoubleSlider.java:71-73 | only the position changes; it is an int, the truncated quotient when the cast does not saturate |
| DoubleSlider.SetMin | src/main/java/loci/visbio/DoubleSlider.java:75-79 | only `min` and the position change; the position is the old value's index against the new minimum |
| DoubleSlider.SetMax | src/main/java/loci/visbio/DoubleSlider.java:81-84 | only `max` and the scroll bar's maximum change; the maximum is `valueToIndex(max)` with no `+ 1`, and the position is untouched |
| DoubleSlider.SetStep | src/main/java/loci/visbio/DoubleSlider.java:86-90 | only `step` and the position change; the position is the old value's index under the new step |
| DoubleSlider.IndexValueRoundTrip | src/main/java/loci/visbio/DoubleSlider.java:102-112 | with a non-zero step, `valueToIndex(indexToValue(i)) == i` for every int i |
| DoubleSlider.ValueToIndexBrackets | src/main/java/loci/visbio/DoubleSlider.java:102-112 | the value lies between the values of its index and the next (at or above the offset) or of the previous index and its own (below it): truncation rounds toward the offset |
| DoubleSlider.IndexZeroBand | src/main/java/loci/visbio/DoubleSlider.java:102-106 | position 0 covers exactly the open interval between the values of positions -1 and 1, two steps wide |
| DoubleSlider.SetDoubleValueIdempotent | src/main/java/loci/visbio/DoubleSlider.java:55-73 | setting the value the slider shows leaves the slider unchanged |
| DoubleSlider.SetDoubleValueReadBack | src/main/java/loci/visbio/DoubleSlider.java:55-73 | the value read back after `setDoubleValue(v)` is `v` rounded to the grid toward `min`, within one step |
| DoubleSlider.SetMinSame | src/main/java/loci/visbio/DoubleSlider.java:75-79 | `setMin` with the current minimum changes nothing |
| DoubleSlider.SetMinOnGrid | src/main/java/loci/visbio/DoubleSlider.java:75-79 | moving `min` by k whole steps keeps the displayed value and lowers the position by k |
| DoubleSlider.SetMinKeepsValueWithinStep | src/main/java/loci/visbio/DoubleSlider.java:75-79 | moving `min` off the grid keeps the displayed value to within one step, rounding down |
| DoubleSlider.SetStepSame | src/main/java/loci/visbio/DoubleSlider.java:86-90 | `setStep` with the current step changes nothing |
| DoubleSlider.SetStepKeepsValueWithinStep | src/main/java/loci/visbio/DoubleSlider.java:86-90 | a new positive step keeps the displayed value to within one new step, rounding down |
| DoubleSlider.NewSliderRange | src/main/java/loci/visbio/DoubleSlider.java:45-53 | a new slider shows its initial value rounded down to the grid, and its highest reachable position shows `max` rounded down to the grid |
| DoubleSlider.SetMaxAsymmetry | src/main/java/loci/visbio/DoubleSlider.java:45-84 | `setMax` with the slider's own maximum lowers the scroll bar maximum, and the highest reachable position, by one |
| DoubleSlider.SetMaxUnreachable | src/main/java/loci/visbio/DoubleSlider.java:81-84 | after `setMax(m)` the grid value at or just below `m` is one position above the highest reachable one |
| DoubleSlider.SetMaxCorrected | src/main/java/loci/visbio/DoubleSlider.java:81-84 | the corrected `setMax`: only `max` and the scroll bar's maximum change, and the maximum is one above `valueToIndex(max)`, as in the constructor |
| DoubleSlider.SetMaxCorrectedReachesMax | src/main/java/loci/visbio/DoubleSlider.java:45-84 | after the corrected `setMax(m)` the highest reachable position stands for `m` rounded down to the grid |
| DoubleSlider.SetMaxCorrectedAgreesWithConstructor | src/main/java/loci/visbio/DoubleSlider.java:45-84 | the corrected `setMax` with the slider's own maximum leaves the slider unchanged |
| DoubleSlider.PluginSliders | src/main/java/loci/visbio/OrthoStack.java:86-99 | the stretch, angle and zoom sliders start exactly at 50, 75 and 0.75 and reach exactly 1000, 90 and 1.5 |

## Left out

- OrthoStack.PositionToRaster: Java's 32-bit `int` overflow of `offset * pos[i]`, `raster +=` and `offset *= lengths[i]` is not modelled; integers are unbounded, so the contract holds only while every intermediate product fits in an `int`.
- OrthoStack.RasterToPositionN: the 32-bit overflow of `offset * lengths[i]` is not modelled, for the same reason.
- OrthoStack.RasterToPositionInto: on an exception the Java loop leaves the coordinates of the axes already decoded in the caller's array; the model returns the failure without writing. Its contract uses `modifies`.
- OrthoStack.SlicePlanes: only the plane numbers are modelled. Fetching the processors, converting images and building VisAD fields are foreign calls.
- DoubleSlider.ValueToIndex: doubles are exact reals. IEEE rounding of `-`, `/`, `*` and `+`, negative zero, and NaN or infinite inputs other than a zero step are not modelled.
- DoubleSlider.IndexValueRoundTrip, DoubleSlider.SetDoubleValueIdempotent, DoubleSlider.SetMinSame and DoubleSlider.SetStepSame hold only in exact arithmetic. With IEEE doubles the angle slider (minimum 0, step 0.2) at position 43 shows 8.6. Dividing 8.6 by 0.2 gives 42.99999999999999, which the cast truncates to 42, so `setMin(getMin())` moves it.
- DoubleSlider.SetDoubleValue: the computed index is stored as is. `JScrollBar.setValue` would clamp it into `[minimum, maximum - extent]`; the Swing library is not part of this model.
- DoubleSlider.SetMax: `JScrollBar.setMaximum` may also adjust the position and extent to fit the new maximum; that library behaviour is not modelled.
- DoubleSlider.NewSlider: `JScrollBar`'s constructor validation of its range is not modelled, for the same reason.
- The rest of `OrthoStack` is not modelled:
  - the VisAD display, projection and aspect-ratio set-up;
  - the view-matrix construction from the slider values, which is floating-point and calls into VisAD;
  - the window and adjustment listeners;
  - the Swing layout.

## Findings

| source | as written | input that shows it | evidently intended | confidence | as-written member | corrected member |
|---|---|---|---|---|---|---|
| src/main/java/loci/visbio/DoubleSlider.java:81-84 | `setMax` sets the scroll bar maximum to `valueToIndex(max)`. The constructor (lines 48-49) uses `valueToIndex(max) + 1`, which keeps the position of `max` reachable with extent 1. | `new DoubleSlider(50, 1, 1000, 0.5)` has maximum 1999, so its top position 1998 shows 1000. A following `setMax(1000)` lowers the maximum to 1998, so the top position 1997 shows 999.5 and 1000 can no longer be selected. | `setMax` uses the same `valueToIndex(max) + 1` as the constructor. | medium; not executed | DoubleSlider.SetMaxAsymmetry | DoubleSlider.SetMaxCorrectedReachesMax |
