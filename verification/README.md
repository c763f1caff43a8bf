# imageproc kernels in Dafny

A model of the two integer kernels of the `imageproc` library, with proofs
about them:

- **Sigma filter.** An edge-preserving smoother. Each output sample is the
  rounded mean of the samples in its (2k+1) x (2k+1) neighbourhood whose
  value lies within `sigma` of its own. The neighbourhood is clipped at the
  image border. The kernel keeps one 256-bin histogram per channel and
  slides it along each row: at column 0 the histogram is built from
  scratch, and after that one column leaves and one enters.
- **Fixed-point rotation.** Each output pixel is mapped back through a
  rotation about the image centre, using 8 fractional bits (scale 256). The
  integer part of the source position comes from `>> 8` and the fraction
  from `& 255`. When the 2 x 2 neighbourhood of that position lies inside
  the input, the four neighbours are blended with integer bilinear weights
  and the result is shifted down by 16 bits. Otherwise the output pixel is
  left untouched.

Both kernels work on flat, row-major buffers of `width * height * depth`
bytes with interleaved channels, addressed by the `LOC` macro.

Files:

- `arith.dfy` (module `Arith`): monotonicity of multiplication, and
  uniqueness of Euclidean quotient and remainder.
- `imageproc.dfy` (module `ImageProc`):
  - the `Byte` type and `static_cast<unsigned char>`;
  - `LOC` and its inverse `PosOf`;
  - the `Image` view of a buffer.
- `histogram.dfy` (module `Histogram`):
  - window value counts, both as recursive counts and as sample sequences;
  - the in-place histogram updates of the sigma filter, each against those
    counts.
- `sigma_filter.dfy` (module `SigmaFilter`):
  - the reference definition of one output sample (`SigmaValue`);
  - the bin-summing loop;
  - the sliding kernel and the depth dispatcher;
  - the Finding below.
- `fixed_point.dfy` (module `FixedPoint`): `>>` and `&` on a signed 32-bit
  `int`, defined on its two's-complement bit pattern.
- `rotation_fix_point.dfy` (module `RotationFixPoint`):
  - the inverse mapping and the guard;
  - the bilinear weights and the interpolation;
  - the kernel and the depth dispatcher;
  - properties of the mapping for particular angles.

Buffers are modelled as `seq<Byte>`. A kernel takes `input` and the
previous `output` and returns the new `output`. The template parameter
`Depth` becomes a run-time `depth`.

## Model

| member | source | states |
|---|---|---|
| ImageProc.Loc | include/imageproc.h:9 | the LOC macro, `(row * ld + col) * depth + d`; its layout properties are the rows below |
| ImageProc.PosOf | include/imageproc.h:9 | every offset below `width * height * depth` is the LOC of an in-range (row, column, channel) triple |
| ImageProc.PosOfLoc | include/imageproc.h:9 | LOC of an in-range triple is in bounds, and `PosOf` recovers the triple from it (round trip) |
| ImageProc.LocInjective | include/imageproc.h:9 | two in-range triples have the same LOC if and only if they are equal |
| ImageProc.LocInBounds | include/imageproc.h:9 | LOC of an in-range triple lies in [0, width * height * depth) |
| ImageProc.LocNextChannel | include/imageproc.h:9 | the channels of one pixel are consecutive offsets |
| ImageProc.LocNextColumn | include/imageproc.h:9 | neighbouring pixels of a row are `depth` offsets apart |
| ImageProc.LocNextRow | include/imageproc.h:9 | rows are `ld * depth` apart; one past the last sample of a row is the first sample of the next row |
| ImageProc.ToByte | src/sigma_filter.cc:104-105 | the cast to `unsigned char` is the identity on [0, 255] and is congruent to its argument mod 256 |
| SigmaFilter.DefaultWindowIsThreeByThree | include/imageproc.h:16 | with the default `kernel_size` of 1, the window of an interior pixel is exactly its 3 x 3 block of 9 samples; the filter averages those of them similar to the centre |
| SigmaFilter.SpanLo | src/sigma_filter.cc:52 | the first row (column) of the window, max(0, x - k); NeighbourhoodSize shows it is at most x and at least x - k |
| SigmaFilter.SpanEnd | src/sigma_filter.cc:53 | one past the last row (column) of the window, min(size - 1, x + k) + 1; NeighbourhoodSize shows it exceeds x by at most k + 1 |
| SigmaFilter.NeighbourhoodSize | src/sigma_filter.cc:52-57 | the window of (row, col) is rows max(0, row-k)..min(height-1, row+k) by the matching columns; it contains the pixel and has at most 2k+1 rows and 2k+1 columns |
| SigmaFilter.Apply | src/sigma_filter.cc:14-25 | depth 1 or 3 filters every sample; any other depth leaves the output unchanged; a call that omits `kernelSize` uses the default of 1 (include/imageproc.h:16) |
| SigmaFilter.Kernel | src/sigma_filter.cc:35-109 | every sample of the output (every index is written) equals the reference value `SigmaValue` of the same sample of the input |
| SigmaFilter.SigmaValue | src/sigma_filter.cc:91-105 | the output sample lies in [max(0, v-sigma), min(255, v+sigma)] for input sample v |
| SigmaFilter.CentreIsSimilar | src/sigma_filter.cc:95-105 | the pixel itself is always among the selected samples, so n >= 1 and the `pix_val` fallback is never taken |
| SigmaFilter.SigmaZeroIsIdentity | src/sigma_filter.cc:96-97 | with sigma = 0 every output sample equals its input sample |
| SigmaFilter.SigmaFullIsBoxMean | src/sigma_filter.cc:96-102 | with sigma = 255 the output is the rounded mean of the whole clipped window |
| SigmaFilter.SelectCount | src/sigma_filter.cc:99-102 | per value, the selection holds every sample of the window inside [pix_min, pix_max] and none outside |
| SigmaFilter.SelectStep | src/sigma_filter.cc:99-102 | widening the range by bin p adds that bin's count to n and p times it to sum |
| SigmaFilter.SumBins | src/sigma_filter.cc:99-102 | from bins holding the window's value counts, the loop returns the size and the sum of the selected samples |
| SigmaFilter.RoundedMean | src/sigma_filter.cc:104-105 | `(sum + n/2) / n` is the mean rounded half up: n(2m-1) <= 2 sum < n(2m+1) |
| SigmaFilter.MeanWithin | src/sigma_filter.cc:104-105 | the rounded mean of samples that all lie in [lo, hi] lies in [lo, hi] |
| SigmaFilter.MeanOfSums | src/sigma_filter.cc:104-105 | the kernel's expression equals the rounded mean of the selection |
| SigmaFilter.SigmaSample | src/sigma_filter.cc:91-106 | from a histogram of the pixel's window, the computed channel value equals `SigmaValue` |
| SigmaFilter.Slide | src/sigma_filter.cc:72-88 | a histogram of the window of column col-1 becomes a histogram of the window of column col (the sliding-window invariant) |
| SigmaFilter.EmitPixel | src/sigma_filter.cc:91-106 | writes every channel of one pixel and nothing else: all earlier offsets stay final and every later offset keeps its previous value |
| SigmaFilter.FilterRow | src/sigma_filter.cc:55-107 | after one row, every offset up to the start of the next row holds its reference value |
| SigmaFilter.InitReadsOutsideBuffer | src/sigma_filter.cc:65-69 | when k >= width, the initial window of the last row reads at or past the end of the input |
| SigmaFilter.InitColumnEnd | src/sigma_filter.cc:66 | the clamped end of the initial window stays inside the row, equals the source's bound whenever k < width, and is the window span of column 0 |
| Histogram.WindowSamplesCount | src/sigma_filter.cc:65-71 | the counts the histogram must hold are the value counts of the window's samples |
| Histogram.CountsOwnPixel | src/sigma_filter.cc:65-71 | a window counts each of its pixels under that pixel's own value |
| Histogram.WindowDropFirst | src/sigma_filter.cc:74-80 | a window's count is its leftmost column's count plus the rest |
| Histogram.CountAppend | src/sigma_filter.cc:65-71 | the count of a concatenation is the sum of the counts |
| Histogram.CountIsMultiplicity | src/sigma_filter.cc:68 | `Count` is the multiplicity in the multiset of samples |
| Histogram.WindowSamplesSize | src/sigma_filter.cc:65-71 | a window of r rows and c columns holds r * c samples |
| Histogram.ClearHistogram | src/sigma_filter.cc:60-63 | afterwards every bin of every channel is zero |
| Histogram.AddPixel | src/sigma_filter.cc:67-69 | each channel's bin for that channel's value of the pixel grows by one and no other bin changes |
| Histogram.InitHistogram | src/sigma_filter.cc:59-71 | clearing and counting rows [row_min, row_max] by columns [0, end) makes the histogram hold exactly that window |
| Histogram.CountRow | src/sigma_filter.cc:65-71 | counting one more row grows the held window by that row |
| Histogram.AddColumn | src/sigma_filter.cc:82-88 | each bin grows by the count of the added column |
| Histogram.RemoveColumn | src/sigma_filter.cc:74-80 | when the bins hold at least the column's counts (true inside `Slide`), no decrement hits an empty bin, and each bin shrinks by the column's count |
| Histogram.RemovePixel | src/sigma_filter.cc:76-78 | decrementing one pixel's bins never takes a bin below zero |
| Histogram.HoldsCounts | src/sigma_filter.cc:91-102 | a histogram of a window gives, per bin, the value count of the window's samples |
| FixedPoint.ShiftRight | src/rotation_fix_point.cc:52-53 | `x >> k` on a two's-complement `int` is floor division by 2^k |
| FixedPoint.LowBits | src/rotation_fix_point.cc:58-59 | `x & (2^k - 1)` is the non-negative remainder of that division, in [0, 2^k) |
| FixedPoint.SplitFixed | src/rotation_fix_point.cc:52-59 | x == (x >> k) * 2^k + (x & (2^k - 1)) |
| RotationFixPoint.HalfDim | src/rotation_fix_point.cc:43-44 | `n >> 1` is n div 2: 2h <= n <= 2h+1 |
| RotationFixPoint.FixedRow | src/rotation_fix_point.cc:49 | `idx_fract[0]`: the source row relative to the centre, rotated and scaled by 256; FixedFits bounds it and MapPixel splits it |
| RotationFixPoint.FixedCol | src/rotation_fix_point.cc:50 | `idx_fract[1]`: the source column likewise |
| RotationFixPoint.FixedFits | src/rotation_fix_point.cc:49-50 | with \|sin\|, \|cos\| <= 256 and dimensions <= 2^21, the scaled source coordinates fit a 32-bit `int` |
| RotationFixPoint.MapPixel | src/rotation_fix_point.cc:49-59 | (integer part - half dimension) * 256 + fraction is exactly the rotated scaled coordinate, with the fraction in [0, 256) |
| RotationFixPoint.Inside | src/rotation_fix_point.cc:55-56 | the guard: the top-left neighbour lies in rows [0, height - 1) and columns [0, width - 1); NeighboursInBounds shows this keeps all four reads in bounds |
| RotationFixPoint.NeighboursInBounds | src/rotation_fix_point.cc:55-74 | under the guard, all four neighbour reads are in bounds |
| RotationFixPoint.BilinearWeights | src/rotation_fix_point.cc:61-64 | weights are non-negative and total 65536; the next column gets 256 * fracCol of it and the next row 256 * fracRow; zero fractions put all weight on the top-left neighbour |
| RotationFixPoint.Accumulate | src/rotation_fix_point.cc:78-79 | the weighted sum lies between 65536 * min and 65536 * max of the four samples, and fits an `int` |
| RotationFixPoint.Interpolate | src/rotation_fix_point.cc:76-80 | the shifted result lies between the smallest and the largest neighbour, so the cast never truncates; all weight on one neighbour returns it |
| RotationFixPoint.RotatedWithinNeighbours | src/rotation_fix_point.cc:55-81 | a written output sample lies between the min and the max of its four source neighbours |
| RotationFixPoint.UntouchedOutside | src/rotation_fix_point.cc:55-56 | when the guard fails, the output sample keeps its previous value |
| RotationFixPoint.RotatePixel | src/rotation_fix_point.cc:49-82 | one pixel: all channels get their reference value; outside the guard nothing is written |
| RotationFixPoint.RotateRow | src/rotation_fix_point.cc:47-83 | after one row, every offset before the next row's start holds its reference value and every later offset still holds the previous output |
| RotationFixPoint.Kernel | src/rotation_fix_point.cc:25-85 | every output sample equals `RotatedValue`: the interpolated value when the guard holds, the previous output otherwise |
| RotationFixPoint.Apply | src/rotation_fix_point.cc:14-23 | depth 1 or 3 rotates; any other depth leaves the output unchanged |
| RotationFixPoint.CentreIsFixed | src/rotation_fix_point.cc:43-53 | for every angle, pixel (height/2, width/2) maps exactly onto itself |
| RotationFixPoint.IdentityMap | src/rotation_fix_point.cc:49-59 | with cos = 256 and sin = 0 every pixel maps onto itself with zero fractions |
| RotationFixPoint.RotateZeroIsIdentity | src/rotation_fix_point.cc:49-81 | at angle 0, interior pixels are copied and the last row and column are left untouched |
| RotationFixPoint.HalfTurnMap | src/rotation_fix_point.cc:49-59 | with cos = -256 and sin = 0, (row, col) maps exactly onto (2*half_height - row, 2*half_width - col) |
| RotationFixPoint.RotateHalfTurn | src/rotation_fix_point.cc:49-81 | a half turn copies the mirrored pixel wherever that pixel passes the guard |

## Left out

- The floating-point rotation (`src/rotation.cc`), the raw-image container
  (`src/rawimage.cc`, `include/rawimage.h`) and the test driver
  (`test/test.cc`) are not part of this model.
- Converting the angle to fixed point (`sinf`/`cosf` times 256, truncated)
  is floating point. The rotation instead takes `sin_th` and `cos_th` as
  integers with |x| <= 256, which is the range that conversion produces.
- The error message printed for an unsupported depth is I/O. The model
  keeps only its effect: the output is unchanged.
- SigmaFilter.Kernel: `sum` and `n` are unbounded integers. In the source's
  `uint32_t` the first value that can wrap is `sum + (n >> 1)` of line 105:
  with every sample 255 it reaches 2^32 once the window holds 16,810,049
  samples (255 * n + n / 2 >= 2^32). The model does not represent this.
- SigmaFilter.Kernel: `kernel_size`, `width` and `height` are converted to
  `int` in the source. Values above `INT_MAX` are not modelled.
- SigmaFilter.Kernel: builds the first window of each row with the clamped
  bound of the Finding below. For k < width this is the source's own
  bound.
- RotationFixPoint.Kernel: requires width and height <= 2^21 so that no
  intermediate overflows a 32-bit `int`, instead of modelling overflow for
  larger images.
- FixedPoint.ShiftRight: models `>>` on a negative `int` as an arithmetic
  shift. C++20 mandates this; earlier standards leave it to the
  implementation.
- The `all_non_negative` assertion (sigma_filter.cc:92) holds by
  construction, because bins are natural numbers. The sigma filter also
  never decrements an empty bin (Histogram.RemoveColumn).
- Aliasing of `input` and `output` is not modelled: they are separate
  sequences.
- The histogram update methods (`Histogram.*`, `SigmaFilter.Slide`) change
  an array in place, and their contracts are stated with `old()`.

## Findings

| source | as written | input that shows it | evidently intended | confidence | as-written member | corrected member |
|---|---|---|---|---|---|---|
| src/sigma_filter.cc:66 | the first window of each row counts columns 0..kernel_size, with no clamp at width - 1 | width 2, height 1, depth 1, kernel_size 2: the last (only) row counts column 2, offset 2 of a 2-sample buffer; on earlier rows such columns read pixels of the next row instead | count columns 0..min(width - 1, kernel_size), as the later columns do through the `col_plus < width` test | not executed | SigmaFilter.InitReadsOutsideBuffer | SigmaFilter.InitColumnEnd |
