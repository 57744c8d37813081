# Bloom post-processing filter, modelled in Dafny

This project models the core of a bloom post-processing filter for a ray
tracer. It is the `BloomFilter` class, a filter that takes a high-dynamic-range
frame (a flat row-major array of linear RGB values, channel `c` of pixel
`(x, y)` at `(y*width + x)*3 + c`) and does five things in turn:

1. It box-averages the frame into a reduced buffer of
   `ceil(width/ratio) × ceil(height/ratio)` pixels.
2. It keeps the reduced pixels whose brightness is strictly above a
   threshold. The others stay black.
3. It blurs the kept pixels with a separable Gaussian kernel, horizontally
   and then vertically. Each output is renormalised by the weights of the
   taps that fall inside the buffer.
4. It bilinearly upsamples the blurred buffer back to full resolution.
5. It adds the result to the original pixel (unless in highlight-only mode),
   scales it by the exposure, applies the gamma step, caps it at 1 and writes
   it to the output image.

The object keeps its configuration in fields: the downsample ratio, the blur
radius, the derived kernel, the threshold and the highlight-only flag. The
setters keep the kernel in step with the radius. A change of ratio rescales
the radius so that the blur keeps its extent in full-resolution pixels.

## Layout

- `layout.dfy` (`Layout`): the flat row-major buffer layout, index
  arithmetic, and sequence-slicing facts.
- `config.dfy` (`Config`): ratio clamping and radius rescaling.
- `kernel.dfy` (`Kernel`): the normalised Gaussian kernel. It also holds the
  as-written float evaluation at radius 0 (see Findings).
- `downsample.dfy` (`Downsample`): the specification of stage 1 as a
  function on sequences, with its properties (tile bounds, mean of in-frame
  pixels, ratio 1 is the identity).
- `select.dfy` (`Select`): the specification of stage 2 (copy or zero).
- `blur.dfy` (`Blur`): the specification of stage 3 (renormalised 1-D blur
  along rows and columns), with boundedness, uniform buffers and the radius-0
  identity.
- `interpolate.dfy` (`Interpolate`): the specification of bilinear
  upsampling (sample indices, blend weights, convex combination).
- `pipeline.dfy` (`Pipeline`): the specification of a whole frame, as the
  sequence of `setPixel` writes it makes.
- `filter.dfy` (`Filter`): the imperative model.
  - `BloomFilter` is a class with the source's fields. Its setters update
    them in place.
  - Every stage is a method over `array<real>` with the source's loops. Each
    is proved to leave its destination equal to the stage's specification
    applied to its source.
  - `ProcessFrame` is proved to append exactly the frame's specified writes
    to the output image.

All paths below are relative to the repository root.

## Model

| member | source | states |
|---|---|---|
| Filter.BloomFilter.constructor | src/main/java/dev/ferrand/chunky/bloom/BloomFilter.java:17-21 | stores the ratio unclamped, the radius and the threshold; the kernel is the normalised Gaussian of the radius; highlight-only starts false |
| Filter.BloomFilter.SetDownSampleRatio | src/main/java/dev/ferrand/chunky/bloom/BloomFilter.java:27-32 | the stored ratio is the requested one raised to 1; the radius becomes old radius × old ratio / new ratio rounded half up; the kernel is regenerated for it; threshold and highlight-only are unchanged |
| Filter.BloomFilter.SetBlurRadius | src/main/java/dev/ferrand/chunky/bloom/BloomFilter.java:38-41 | the new kernel is a fresh array of length 2r+1 that is symmetric (`kernel[t] == kernel[2r-t]`), sums to 1 and keeps the class invariant (radius 0 gives [1.0], see Left out); the other fields are unchanged |
| Filter.BloomFilter.SetThreshold | src/main/java/dev/ferrand/chunky/bloom/BloomFilter.java:47-49 | the threshold is the given one, and nothing else changes |
| Filter.BloomFilter.SetHighlightOnly | src/main/java/dev/ferrand/chunky/bloom/BloomFilter.java:55-57 | the flag is the given one, and nothing else changes |
| Config.ClampRatio | src/main/java/dev/ferrand/chunky/bloom/BloomFilter.java:28-29 | a request of at least 1 is stored as it is, and any request below 1 is stored as exactly 1 |
| Config.RescaledRadius | src/main/java/dev/ferrand/chunky/bloom/BloomFilter.java:30 | the new radius is within one half of radius × old ratio / new ratio, with halves rounded up as Math.round does |
| Config.RescaleSameRatio | src/main/java/dev/ferrand/chunky/bloom/BloomFilter.java:30 | setting the ratio it already has leaves the radius unchanged |
| Config.RescaleNonNegative | src/main/java/dev/ferrand/chunky/bloom/BloomFilter.java:30 | from a non-negative old ratio the rescaled radius is never negative |
| Config.RescaleExamples | src/main/java/dev/ferrand/chunky/bloom/BloomFilter.java:30 | concrete rescalings: 4 at ratio 4 gives 8 at ratio 2 and 2 at ratio 8; 3 at ratio 2 gives 2 at ratio 4 (half rounds up) |
| Filter.BloomFilter.ComputeBlurKernel | src/main/java/dev/ferrand/chunky/bloom/BloomFilter.java:220-235 | returns a fresh array equal to the normalised Gaussian kernel of the radius (with the radius-0 factor taken as 0, see Left out) |
| Filter.BloomFilter.FillWeights | src/main/java/dev/ferrand/chunky/bloom/BloomFilter.java:222-229 | entry t holds exp(-(t-r)²·factor), and the returned sum is the total of those weights and is positive (factor 0 at radius 0, see Left out) |
| Filter.BloomFilter.DivideAll | src/main/java/dev/ferrand/chunky/bloom/BloomFilter.java:230-232 | every entry is its old value divided by the sum |
| Kernel.Sigma | src/main/java/dev/ferrand/chunky/bloom/BloomFilter.java:222 | sigma is never negative, and is 0 exactly at radius 0 |
| Kernel.Factor | src/main/java/dev/ferrand/chunky/bloom/BloomFilter.java:223 | the factor is never negative; for a positive radius it is positive and is the reciprocal of 2·sigma² (at radius 0 it is taken as 0, see Left out) |
| Kernel.Weight | src/main/java/dev/ferrand/chunky/bloom/BloomFilter.java:227 | the unnormalised weight exp(-(i·i)·factor) of offset i is positive whenever the exponential is |
| Kernel.WeightSum | src/main/java/dev/ferrand/chunky/bloom/BloomFilter.java:225-229 | the running sum of weights is positive once one tap is in, given a positive exponential |
| Kernel.GaussianKernel | src/main/java/dev/ferrand/chunky/bloom/BloomFilter.java:221 | the kernel has 2r+1 entries |
| Kernel.KernelPositive | src/main/java/dev/ferrand/chunky/bloom/BloomFilter.java:227-231 | every kernel weight is strictly positive |
| Kernel.KernelSymmetric | src/main/java/dev/ferrand/chunky/bloom/BloomFilter.java:226-227 | the kernel is symmetric about its centre tap, since the weight depends on i only through i*i |
| Kernel.WeightEven | src/main/java/dev/ferrand/chunky/bloom/BloomFilter.java:227 | the unnormalised weight of offset i equals that of offset -i |
| Kernel.ExponentEven | src/main/java/dev/ferrand/chunky/bloom/BloomFilter.java:227 | the exponent of offset i equals that of offset -i |
| Kernel.KernelPrefixTotal | src/main/java/dev/ferrand/chunky/bloom/BloomFilter.java:228-232 | the first n normalised weights add up to the first n raw weights over the full sum |
| Kernel.KernelSumsToOne | src/main/java/dev/ferrand/chunky/bloom/BloomFilter.java:230-232 | after normalisation the kernel sums to exactly 1 |
| Kernel.KernelRadiusZero | src/main/java/dev/ferrand/chunky/bloom/BloomFilter.java:221-232 | with the radius-0 factor taken as 0, the radius-0 kernel is the single weight 1.0 |
| Kernel.RadiusZeroWeightIsNaN | src/main/java/dev/ferrand/chunky/bloom/BloomFilter.java:222-227 | evaluated as written in IEEE arithmetic, the only weight at radius 0 is NaN (0·Infinity) |
| Kernel.WeightAsWrittenAgrees | src/main/java/dev/ferrand/chunky/bloom/BloomFilter.java:222-227 | for every positive radius the unguarded weight is the model's weight |
| Kernel.FactorAsWrittenAgrees | src/main/java/dev/ferrand/chunky/bloom/BloomFilter.java:222-223 | for every positive radius the unguarded factor is the model's factor |
| Downsample.ReducedSize | src/main/java/dev/ferrand/chunky/bloom/BloomFilter.java:61-62 | the reduced side is 0 exactly when the frame side is 0, so it is at least 1 for a non-empty frame |
| Downsample.ReducedSizeCovers | src/main/java/dev/ferrand/chunky/bloom/BloomFilter.java:61-62 | the reduced side is the ceiling of n/ratio: (m-1)·ratio < n ≤ m·ratio |
| Downsample.TileStartInFrame | src/main/java/dev/ferrand/chunky/bloom/BloomFilter.java:204-205 | every tile's first row and column lie inside the frame |
| Downsample.Span | src/main/java/dev/ferrand/chunky/bloom/BloomFilter.java:204-205 | a tile covers between 1 and ratio source columns (rows), never past the frame edge, and exactly ratio unless cut by the edge |
| Downsample.TileCount | src/main/java/dev/ferrand/chunky/bloom/BloomFilter.java:203-215 | a tile's `count` is between 1 and ratio², so the division is safe |
| Downsample.TileSum | src/main/java/dev/ferrand/chunky/bloom/BloomFilter.java:204-212 | no contract of its own: the sum of channel c over an nx×m block, added row by row as the loops add it; bounded by `TileSumAbove`/`TileSumBelow` and local by `TileSumLocal` |
| Downsample.DownSampleAt | src/main/java/dev/ferrand/chunky/bloom/BloomFilter.java:202-215 | no contract of its own: the tile sum divided by the tile count; its meaning (mean of in-frame pixels) is stated by `DownSampleWithin`, `DownSampleLocal` and `DownSampleAtOne` |
| Downsample.DownSampleImage | src/main/java/dev/ferrand/chunky/bloom/BloomFilter.java:199-218 | the reduced buffer has rw·rh·3 values |
| Downsample.AreaIsProduct | src/main/java/dev/ferrand/chunky/bloom/BloomFilter.java:203-212 | the count accumulated row by row is nx·m |
| Downsample.RowSumAbove | src/main/java/dev/ferrand/chunky/bloom/BloomFilter.java:205-209 | a sum of n values each at least lo is at least lo added n times |
| Downsample.RowSumBelow | src/main/java/dev/ferrand/chunky/bloom/BloomFilter.java:205-209 | a sum of n values each at most hi is at most hi added n times |
| Downsample.TileSumAbove | src/main/java/dev/ferrand/chunky/bloom/BloomFilter.java:204-212 | a block sum is at least lo added once per pixel of the block |
| Downsample.TileSumBelow | src/main/java/dev/ferrand/chunky/bloom/BloomFilter.java:204-212 | a block sum is at most hi added once per pixel of the block |
| Downsample.AreaPositive | src/main/java/dev/ferrand/chunky/bloom/BloomFilter.java:210-214 | a non-empty block has a positive count |
| Downsample.TileMeanAbove | src/main/java/dev/ferrand/chunky/bloom/BloomFilter.java:213-215 | the mean of a block is at least any lower bound of the frame |
| Downsample.TileMeanBelow | src/main/java/dev/ferrand/chunky/bloom/BloomFilter.java:213-215 | the mean of a block is at most any upper bound of the frame |
| Downsample.DownSampleWithin | src/main/java/dev/ferrand/chunky/bloom/BloomFilter.java:199-218 | every reduced value lies within any bounds of the frame |
| Downsample.DownSampleConstant | src/main/java/dev/ferrand/chunky/bloom/BloomFilter.java:199-218 | a constant frame downsamples to that constant |
| Downsample.DownSampleBelow | src/main/java/dev/ferrand/chunky/bloom/BloomFilter.java:199-218 | a frame bounded above by hi downsamples to a buffer bounded above by hi |
| Downsample.RowSumLocal | src/main/java/dev/ferrand/chunky/bloom/BloomFilter.java:205-209 | a row sum reads only the pixels of its own run |
| Downsample.TileSumLocal | src/main/java/dev/ferrand/chunky/bloom/BloomFilter.java:204-212 | a block sum reads only the pixels of its own block |
| Downsample.DownSampleLocal | src/main/java/dev/ferrand/chunky/bloom/BloomFilter.java:204-205 | a reduced pixel depends only on the in-frame pixels of its ratio×ratio tile |
| Downsample.ReducedSizeOne | src/main/java/dev/ferrand/chunky/bloom/BloomFilter.java:61-62 | with ratio 1 the reduced side is the frame side |
| Downsample.SpanOne | src/main/java/dev/ferrand/chunky/bloom/BloomFilter.java:204-205 | with ratio 1 every tile is one pixel wide and one high |
| Downsample.DownSampleAtOne | src/main/java/dev/ferrand/chunky/bloom/BloomFilter.java:199-218 | with ratio 1 a reduced pixel is the frame pixel at the same place |
| Downsample.DownSampleIdentity | src/main/java/dev/ferrand/chunky/bloom/BloomFilter.java:199-218 | with ratio 1 the reduced buffer is the frame itself |
| Downsample.DownSampleAtArea | src/main/java/dev/ferrand/chunky/bloom/BloomFilter.java:213-215 | a reduced pixel is its tile's sum divided by the count the loops arrive at |
| Downsample.DownSampleImageAt | src/main/java/dev/ferrand/chunky/bloom/BloomFilter.java:202 | the reduced buffer holds tile (x, y) at index (y·rw + x)·3 + c |
| Filter.BloomFilter.DownSample | src/main/java/dev/ferrand/chunky/bloom/BloomFilter.java:199-218 | from a zeroed destination, the destination becomes exactly the downsampled frame |
| Filter.BloomFilter.DownSampleRow | src/main/java/dev/ferrand/chunky/bloom/BloomFilter.java:201-216 | one more row of the destination equals the downsampled frame; the rest is still zero |
| Filter.BloomFilter.AverageTile | src/main/java/dev/ferrand/chunky/bloom/BloomFilter.java:202-215 | the three channels of the reduced pixel become its tile's mean of in-frame pixels; nothing else changes |
| Filter.BloomFilter.AccumulateTile | src/main/java/dev/ferrand/chunky/bloom/BloomFilter.java:203-212 | the reduced pixel gains the tile's in-frame sum and the count is the tile's pixel count |
| Filter.BloomFilter.AccumulateRow | src/main/java/dev/ferrand/chunky/bloom/BloomFilter.java:205-211 | the reduced pixel gains the sum of the row's in-frame run and the count grows by its length |
| Filter.BloomFilter.AddPixel | src/main/java/dev/ferrand/chunky/bloom/BloomFilter.java:207-209 | the three channels of one frame pixel are added into the reduced pixel; nothing else changes |
| Filter.BloomFilter.DividePixel | src/main/java/dev/ferrand/chunky/bloom/BloomFilter.java:213-215 | the three channels of one pixel are divided by the divisor; nothing else changes |
| Select.BrightnessIsChannelZero | src/main/java/dev/ferrand/chunky/bloom/BloomFilter.java:189-191 | the brightness is channel 0 of the pixel, because the three luma weights sum to 1 |
| Select.Brightness | src/main/java/dev/ferrand/chunky/bloom/BloomFilter.java:189-191 | no contract of its own: the three luma weights applied to channel 0 of the pixel; `BrightnessIsChannelZero` shows it is channel 0 |
| Select.SelectAt | src/main/java/dev/ferrand/chunky/bloom/BloomFilter.java:192-194 | channel c of a selected pixel is the reduced value when channel 0 is above the threshold, and 0 otherwise |
| Select.SelectImage | src/main/java/dev/ferrand/chunky/bloom/BloomFilter.java:185-197 | the selected buffer has the size of the reduced buffer |
| Select.SelectImageAt | src/main/java/dev/ferrand/chunky/bloom/BloomFilter.java:188 | the selected buffer holds pixel (x, y) at index (y·rw + x)·3 + c |
| Select.SelectPixelAt | src/main/java/dev/ferrand/chunky/bloom/BloomFilter.java:188-194 | the three channels from index (y·rw + x)·3 on are pixel (x, y) of the selected buffer |
| Select.SelectCopyOrZero | src/main/java/dev/ferrand/chunky/bloom/BloomFilter.java:189-194 | a pixel whose channel 0 is above the threshold is copied channel for channel; any other pixel is black |
| Select.SelectNothing | src/main/java/dev/ferrand/chunky/bloom/BloomFilter.java:185-197 | a threshold at or above channel 0 of every reduced pixel selects nothing (the selection reads channel 0 only) |
| Select.SelectEverything | src/main/java/dev/ferrand/chunky/bloom/BloomFilter.java:185-197 | a threshold below channel 0 of every pixel selects the whole buffer |
| Filter.BloomFilter.SelectBrightPixels | src/main/java/dev/ferrand/chunky/bloom/BloomFilter.java:185-197 | from a zeroed destination, the destination becomes exactly the selected buffer |
| Filter.BloomFilter.SelectRow | src/main/java/dev/ferrand/chunky/bloom/BloomFilter.java:187-195 | one more row of the destination equals the selected buffer; the rest is still zero |
| Filter.BloomFilter.SelectPixel | src/main/java/dev/ferrand/chunky/bloom/BloomFilter.java:188-194 | the pixel is copied when its brightness is above the threshold and left zero otherwise; nothing else changes |
| Filter.ArrayCopy | src/main/java/dev/ferrand/chunky/bloom/BloomFilter.java:193 | System.arraycopy: the given range is copied; nothing else in the destination changes |
| Blur.TapWeight | src/main/java/dev/ferrand/chunky/bloom/BloomFilter.java:136-141 | the accumulated `kernelSum` is non-negative, and at least the centre weight once the centre tap is in |
| Blur.CentreTapInRange | src/main/java/dev/ferrand/chunky/bloom/BloomFilter.java:136-151 | the full `kernelSum` is at least the centre weight and so is positive: the division is safe |
| Blur.TapAbove | src/main/java/dev/ferrand/chunky/bloom/BloomFilter.java:141-146 | one tap over a value at least lo adds at least lo times its counted weight |
| Blur.TapBelow | src/main/java/dev/ferrand/chunky/bloom/BloomFilter.java:141-146 | one tap over a value at most hi adds at most hi times its counted weight |
| Blur.TapSumAbove | src/main/java/dev/ferrand/chunky/bloom/BloomFilter.java:136-147 | the weighted sum is at least lo times `kernelSum` |
| Blur.TapSumBelow | src/main/java/dev/ferrand/chunky/bloom/BloomFilter.java:136-147 | the weighted sum is at most hi times `kernelSum` |
| Blur.Blur1DAt | src/main/java/dev/ferrand/chunky/bloom/BloomFilter.java:136-151 | no contract of its own: the in-range weighted sum over the in-range weight; bounded by `Blur1DWithin`, fixed on constant lines by `Blur1DUniform` |
| Blur.HorizontalAt | src/main/java/dev/ferrand/chunky/bloom/BloomFilter.java:165-180 | no contract of its own: the 1-D blur of row y at column x; its reading of the buffer is tied to the line by `RowTapSumIsTapSum` |
| Blur.VerticalAt | src/main/java/dev/ferrand/chunky/bloom/BloomFilter.java:136-151 | no contract of its own: the 1-D blur of column x at row y; its reading of the buffer is tied to the line by `ColumnTapSumIsTapSum` |
| Blur.Blur1DAbove | src/main/java/dev/ferrand/chunky/bloom/BloomFilter.java:136-151 | a blurred value is at least any lower bound of its line |
| Blur.Blur1DBelow | src/main/java/dev/ferrand/chunky/bloom/BloomFilter.java:136-151 | a blurred value is at most any upper bound of its line |
| Blur.Blur1DWithin | src/main/java/dev/ferrand/chunky/bloom/BloomFilter.java:136-151 | a blurred value is a convex combination of its line, at borders too |
| Blur.Blur1DUniform | src/main/java/dev/ferrand/chunky/bloom/BloomFilter.java:136-151 | a constant line is unchanged by the renormalised blur |
| Blur.Blur1DIdentity | src/main/java/dev/ferrand/chunky/bloom/BloomFilter.java:136-151 | the kernel [1.0] of radius 0 is the identity on a line |
| Blur.RowTapSumIsTapSum | src/main/java/dev/ferrand/chunky/bloom/BloomFilter.java:165-176 | reading the buffer along row y at index (y·rw + currentX)·3 + c is taking the taps of the row's line |
| Blur.ColumnTapSumIsTapSum | src/main/java/dev/ferrand/chunky/bloom/BloomFilter.java:136-147 | reading the buffer down column x at index (currentY·rw + x)·3 + c is taking the taps of the column's line |
| Blur.HorizontalBlurImage | src/main/java/dev/ferrand/chunky/bloom/BloomFilter.java:156-183 | the horizontal pass's output has the size of its input |
| Blur.VerticalBlurImage | src/main/java/dev/ferrand/chunky/bloom/BloomFilter.java:127-154 | the vertical pass's output has the size of its input |
| Blur.HorizontalIdentity | src/main/java/dev/ferrand/chunky/bloom/BloomFilter.java:165-180 | with kernel [1.0] and radius 0 the horizontal pass is the identity |
| Blur.VerticalIdentity | src/main/java/dev/ferrand/chunky/bloom/BloomFilter.java:136-151 | with kernel [1.0] and radius 0 the vertical pass is the identity |
| Blur.SeparableIdentity | src/main/java/dev/ferrand/chunky/bloom/BloomFilter.java:75-80 | with kernel [1.0] and radius 0 both passes together are the identity |
| Blur.HorizontalUniform | src/main/java/dev/ferrand/chunky/bloom/BloomFilter.java:156-183 | a uniform buffer comes out of the horizontal pass unchanged, borders included |
| Blur.VerticalUniform | src/main/java/dev/ferrand/chunky/bloom/BloomFilter.java:127-154 | a uniform buffer comes out of the vertical pass unchanged, borders included |
| Blur.HorizontalImageAt | src/main/java/dev/ferrand/chunky/bloom/BloomFilter.java:159 | the horizontal pass's output holds pixel (x, y) at index (y·rw + x)·3 + c |
| Blur.VerticalImageAt | src/main/java/dev/ferrand/chunky/bloom/BloomFilter.java:130 | the vertical pass's output holds pixel (x, y) at index (y·rw + x)·3 + c |
| Blur.HorizontalPixelAt | src/main/java/dev/ferrand/chunky/bloom/BloomFilter.java:159 | the three values from index (y·rw + x)·3 on are pixel (x, y) of the horizontal pass |
| Blur.VerticalPixelAt | src/main/java/dev/ferrand/chunky/bloom/BloomFilter.java:130 | the three values from index (y·rw + x)·3 on are pixel (x, y) of the vertical pass |
| Filter.BloomFilter.HorizontalBlur | src/main/java/dev/ferrand/chunky/bloom/BloomFilter.java:156-183 | whatever the destination held, it becomes exactly the horizontal pass of the source; source and kernel are unchanged |
| Filter.BloomFilter.HorizontalBlurRow | src/main/java/dev/ferrand/chunky/bloom/BloomFilter.java:157-182 | one more row of the destination equals the horizontal pass |
| Filter.BloomFilter.HorizontalBlurPixel | src/main/java/dev/ferrand/chunky/bloom/BloomFilter.java:159-180 | the pixel is cleared, accumulates the in-range taps and is divided by their weight, giving the renormalised blur; nothing else changes |
| Filter.BloomFilter.HorizontalTap | src/main/java/dev/ferrand/chunky/bloom/BloomFilter.java:170-175 | one in-range tap adds its weight times the source pixel; nothing else changes |
| Filter.BloomFilter.VerticalBlur | src/main/java/dev/ferrand/chunky/bloom/BloomFilter.java:127-154 | whatever the destination held, it becomes exactly the vertical pass of the source; source and kernel are unchanged |
| Filter.BloomFilter.VerticalBlurRow | src/main/java/dev/ferrand/chunky/bloom/BloomFilter.java:128-153 | one more row of the destination equals the vertical pass |
| Filter.BloomFilter.VerticalBlurPixel | src/main/java/dev/ferrand/chunky/bloom/BloomFilter.java:130-151 | the pixel is cleared, accumulates the in-range taps and is divided by their weight, giving the renormalised blur; nothing else changes |
| Filter.BloomFilter.VerticalTap | src/main/java/dev/ferrand/chunky/bloom/BloomFilter.java:141-146 | one in-range tap adds its weight times the source pixel; nothing else changes |
| Filter.BloomFilter.AddWeightedPixel | src/main/java/dev/ferrand/chunky/bloom/BloomFilter.java:144-146 | weight times the three source channels is added into the destination pixel; nothing else changes |
| Filter.BloomFilter.ClearPixel | src/main/java/dev/ferrand/chunky/bloom/BloomFilter.java:132-134 | the three channels of the pixel become 0; nothing else changes |
| Interpolate.FloorOfQuotient | src/main/java/dev/ferrand/chunky/bloom/BloomFilter.java:101-103 | `(int)(x / (double) ratio)` is the integer quotient x / ratio, and the fraction left over is (x % ratio)/ratio |
| Interpolate.FloorOfSum | src/main/java/dev/ferrand/chunky/bloom/BloomFilter.java:104 | `(int)(smallx + 1)` is the integer quotient plus 1 |
| Interpolate.FractionBelowOne | src/main/java/dev/ferrand/chunky/bloom/BloomFilter.java:107-108 | the fractional part lies in [0, 1) |
| Interpolate.FractionZero | src/main/java/dev/ferrand/chunky/bloom/BloomFilter.java:107-108 | the fractional part is 0 exactly when the position is a multiple of the ratio |
| Interpolate.SampleAxis | src/main/java/dev/ferrand/chunky/bloom/BloomFilter.java:101-108 | the samples are x0 = x/ratio and x1 = min(rw-1, x0+1) with x0 ≤ x1 < rw, and t in [0, 1) is 0 exactly at multiples of the ratio |
| Interpolate.SampleInRange | src/main/java/dev/ferrand/chunky/bloom/BloomFilter.java:101-106 | every full-resolution position maps into the reduced buffer |
| Interpolate.InterpolateAt | src/main/java/dev/ferrand/chunky/bloom/BloomFilter.java:100-116 | no contract of its own: two horizontal blends of the four samples, blended vertically; stated by `InterpolateWithin` and `InterpolateAtTileCorner` |
| Interpolate.LerpWithin | src/main/java/dev/ferrand/chunky/bloom/BloomFilter.java:111-113 | a blend with t in [0, 1] of two values within bounds stays within them |
| Interpolate.InterpolateWithin | src/main/java/dev/ferrand/chunky/bloom/BloomFilter.java:100-116 | the upsampled value is a convex combination of four samples: it lies within any bounds of the blurred buffer |
| Interpolate.InterpolateAtTileCorner | src/main/java/dev/ferrand/chunky/bloom/BloomFilter.java:100-116 | at multiples of the ratio the upsampled value is sample (x/ratio, y/ratio) itself |
| Interpolate.InterpolateRatioOne | src/main/java/dev/ferrand/chunky/bloom/BloomFilter.java:100-116 | with ratio 1 upsampling reads the pixel itself |
| Filter.BloomFilter.InterpolatePixel | src/main/java/dev/ferrand/chunky/bloom/BloomFilter.java:100-116 | each channel of the pixel buffer becomes the bilinear upsample of the blurred buffer at (x, y) |
| Pipeline.Linear | src/main/java/dev/ferrand/chunky/bloom/BloomFilter.java:89-90 | no contract of its own: the bloom plus the original value unless in highlight-only mode; see `HighlightOnlyIgnoresOriginal` |
| Pipeline.Exposed | src/main/java/dev/ferrand/chunky/bloom/BloomFilter.java:91 | no contract of its own: the linear value times the exposure; see `CompositeChannel` |
| Pipeline.CompositeChannel | src/main/java/dev/ferrand/chunky/bloom/BloomFilter.java:88-94 | a channel is at most 1; it is 1 exactly when the gamma-stepped exposed value is at least 1, and otherwise equals that value (no lower clamp) |
| Pipeline.HighlightOnlyIgnoresOriginal | src/main/java/dev/ferrand/chunky/bloom/BloomFilter.java:89-90 | in highlight-only mode the original value plays no part |
| Filter.BloomFilter.CompositeChannels | src/main/java/dev/ferrand/chunky/bloom/BloomFilter.java:88-94 | each channel of the pixel buffer becomes its composite with the original pixel |
| Pipeline.BloomImage | src/main/java/dev/ferrand/chunky/bloom/BloomFilter.java:61-80 | stages 1 to 3 give a buffer of rw·rh·3 values |
| Pipeline.PixelColor | src/main/java/dev/ferrand/chunky/bloom/BloomFilter.java:86-95 | each channel of the written colour is the composite of the upsampled bloom and the original channel |
| Pipeline.FrameWrites | src/main/java/dev/ferrand/chunky/bloom/BloomFilter.java:84-97 | a frame makes exactly width·height writes |
| Pipeline.WritesOver | src/main/java/dev/ferrand/chunky/bloom/BloomFilter.java:84-97 | for a given bloom buffer, a frame makes exactly width·height writes |
| Pipeline.RowWrites | src/main/java/dev/ferrand/chunky/bloom/BloomFilter.java:85-96 | a row makes exactly width writes |
| Pipeline.FrameWritesRowMajor | src/main/java/dev/ferrand/chunky/bloom/BloomFilter.java:84-95 | every pixel is written once, in row-major order: write number y·width + x is for (x, y) with that pixel's colour |
| Pipeline.WritesOverAt | src/main/java/dev/ferrand/chunky/bloom/BloomFilter.java:84-95 | write number y·width + x is for (x, y) |
| Pipeline.WritesByRow | src/main/java/dev/ferrand/chunky/bloom/BloomFilter.java:84-97 | the width writes from number y·width on are those of row y |
| Pipeline.RowsWritesPrefix | src/main/java/dev/ferrand/chunky/bloom/BloomFilter.java:84-97 | writing the first n rows one after another makes the first n·width writes of the frame |
| Pipeline.FrameWritesCapped | src/main/java/dev/ferrand/chunky/bloom/BloomFilter.java:93 | every channel of every written colour is at most 1 |
| Pipeline.DarkFrame | src/main/java/dev/ferrand/chunky/bloom/BloomFilter.java:59-98 | when no input value in any channel exceeds the threshold (a sufficient condition), every written channel is the composite of a zero bloom with the original value |
| Pipeline.BloomOfDarkFrame | src/main/java/dev/ferrand/chunky/bloom/BloomFilter.java:64-80 | when no input value in any channel exceeds the threshold (a sufficient condition), the blurred reduced buffer is black |
| Pipeline.BlackUniform | src/main/java/dev/ferrand/chunky/bloom/BloomFilter.java:72-80 | a black buffer is uniform, so the blur leaves it black |
| Pipeline.IdentityFrame | src/main/java/dev/ferrand/chunky/bloom/BloomFilter.java:59-98 | with ratio 1, kernel [1.0] and a threshold below every channel 0, every written channel is the original value composited with itself |
| Filter.BitmapImage.SetPixel | src/main/java/dev/ferrand/chunky/bloom/BloomFilter.java:95 | a write is appended to the output image's log |
| Filter.BloomFilter.ComputeBloom | src/main/java/dev/ferrand/chunky/bloom/BloomFilter.java:61-80 | the reduced sizes are the ceilings, and the buffer left in `blurred` (the reused selection buffer) is stages 1 to 3 of the frame |
| Filter.BloomFilter.RenderPixel | src/main/java/dev/ferrand/chunky/bloom/BloomFilter.java:86-95 | the colour for (x, y) is the specified pixel colour |
| Filter.BloomFilter.RenderRow | src/main/java/dev/ferrand/chunky/bloom/BloomFilter.java:85-96 | the output gains the writes of row y, from left to right |
| Filter.BloomFilter.RenderFrame | src/main/java/dev/ferrand/chunky/bloom/BloomFilter.java:83-97 | the output gains the writes of every row, top to bottom |
| Filter.BloomFilter.ProcessFrame | src/main/java/dev/ferrand/chunky/bloom/BloomFilter.java:59-98 | the output gains exactly the frame's writes: one per pixel, in row-major order, each the composite of the upsampled bloom with the original |
| Layout.Idx | src/main/java/dev/ferrand/chunky/bloom/BloomFilter.java:86 | the position (y·w + x)·3 + c of an in-range pixel is inside the buffer |

## Left out

- `synchronized` on the setters and on `processFrame` is not modelled: the
  object is single-threaded. The frame reads its configuration once, as
  `Snapshot`.
- `Math.exp` is the parameter `exp`, a `const` of the object that is assumed
  to be positive. Its values are not modelled.
- The gamma step `FastMath.pow(v, 1 / Scene.DEFAULT_GAMMA)` is the parameter
  `gammaStep` of `ProcessFrame`. The host's gamma constant is not part of
  this model.
- `ColorUtil.getRGB` and the output `BitmapImage` are not part of this
  model. The output is the class `BitmapImage`, a log of `setPixel` calls,
  each carrying the three capped channels rather than a packed int.
- The `TaskTracker.Task` argument is not modelled (the frame pass does not
  use it).
- Pixel values are reals. The rounding of `float` (the reduced buffers, the
  kernel, `kernelSum`) and of `double` is not modelled, and neither is the
  float luma constant `0.2126f` differing from the real 0.2126.
- Java `int` overflow in the index arithmetic (very large frames) is not
  modelled. Integers are unbounded.
- The radius is a `nat`: a negative radius, which makes the source throw
  `NegativeArraySizeException` when the kernel is allocated
  (BloomFilter.java:221), is excluded. The source stores the field before
  that allocation fails (BloomFilter.java:39), so a throwing `setBlurRadius`
  leaves the negative radius stored with the old kernel; the model has no
  such state.
- SetDownSampleRatio: requires the rescaled radius to be non-negative. The
  source throws there instead, which happens from a negative stored ratio
  (the constructor does not clamp it) or from a negative radius left stored
  by a `setBlurRadius` call that threw after assigning the field
  (BloomFilter.java:39, 221).
- ProcessFrame: requires `downSampleRatio >= 1`. The constructor stores the
  ratio unclamped, and the source would divide by zero (ratio 0) or compute
  negative reduced sizes.
- `interpolatePixelClosest` (never called), the getters, `getName` and
  `getId` are not modelled.
- The UI tab and the plugin entry point are not part of this model.
- The loops of `processFrame`, `downSample`, `selectBrightPixels`, both blur
  passes and `computeBlurKernel` are the source's loops. Their bodies are
  split into methods per row, per pixel and per tap, so that each is proved
  on its own.
- `processFrame` caps each channel with `Math.min(1.0, ·)`
  (BloomFilter.java:93) and has no lower clamp; the model follows it (see
  `Pipeline.CompositeChannel`), so nothing bounds a channel from below.
- FillWeights / ComputeBlurKernel / Kernel.Factor: the factor of the exponent
  is taken as 0 at radius 0, a guard BloomFilter.java:222-223 does not have.
  There `sigma` is 0, the factor `1 / (2 * sigma * sigma)` is +Infinity and the
  single weight is NaN (see Findings). So the constructor, `SetBlurRadius`,
  `SetDownSampleRatio`, `ComputeBlurKernel` and `ProcessFrame` model the
  corrected program at radius 0, where the kernel is [1.0]; for every positive
  radius they compute the source's weights (`Kernel.WeightAsWrittenAgrees`).

## Findings

| source | as written | input that shows it | evidently intended | confidence | as-written member | corrected member |
|---|---|---|---|---|---|---|
| src/main/java/dev/ferrand/chunky/bloom/BloomFilter.java:222-227 | `sigma = blurRadius / 3.0f` and `factor = 1 / (2 * sigma * sigma)` are computed without a guard, so radius 0 gives factor +Infinity and the single weight `exp(-(0*0) * Infinity)` = `exp(NaN)` = NaN. The whole kernel, and every blurred value, is then NaN. | blurRadius = 0, which `setDownSampleRatio` can produce by rounding (radius 1 at ratio 1 set to ratio 3 gives round(1/3) = 0) | radius 0 gives the single-tap identity kernel [1.0] (the model takes the factor as 0 at radius 0) | not executed | Kernel.RadiusZeroWeightIsNaN | Kernel.KernelRadiusZero |
