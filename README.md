# Separable Gaussian filter over a grayscale image

This project models `gaussianfilterSep`, the separable Gaussian smoothing filter of
`3_Region/SepGaussianGraySkeleton.cpp`, and proves properties of the model in Dafny.

The function has three parts.

- **Kernels.** It builds two 1-D kernels of 2n+1 weights: `kernel_t` from `sigmaT` for the
  horizontal pass and `kernel_s` from `sigmaS` for the vertical pass. Each weight is the
  Gaussian at its offset, divided by the sum of all the Gaussian values.
- **Pixel loop.** It visits the pixels in raster order. At each pixel it computes the
  horizontal weighted sum along the pixel's row and the vertical weighted sum along its column.
- **Boundary policy.** The option string selects one of three policies:
  - `zero-paddle` drops the taps outside the image;
  - `mirroring` reflects them: past the far edge about the current pixel (j-b), before 0
    about index 0 (-(j+b));
  - `adjustkernel` drops them and divides by the weights that were kept.

The model is imperative where the source is.

- `Kernel.BuildKernel` fills an `array<real>` and then divides it in place.
- `SepGaussian.GaussianFilterSep` runs the two pixel loops over the `array` of an image header
  `Mat`.
- Copying a header (`Mat temp = input;`) shares the pixel buffer, as OpenCV's `Mat` does.
- Each method is proved against a function specification:
  - `Boundary.Filtered` gives the value written for one position of one line (a row or a
    column) under one policy;
  - `SepSpec.Run` gives the two buffers after the first visits in raster order;
  - `SepSpec.Final` gives them when the call returns.
- The lemmas state what those functions promise:
  - normalised kernels;
  - values that stay in the sample range;
  - the identity for radius 0;
  - the behaviour on constant images;
  - the zero-paddle drop rule;
  - the in-place aliasing.

A separable Gaussian filter is meant to run a horizontal pass over the caller's image into a
separate intermediate image, and then a vertical pass over that intermediate image, leaving the
caller's image untouched. Where that intent and the code differ, the model follows the code.

- **Shared buffer.** The code does not keep the passes apart.
  - `temp` shares the buffer of `input`.
  - The horizontal value of each pixel is written into the input's buffer before the vertical
    sum of the same pixel is taken.
  - Later horizontal and vertical sums read values that are already filtered.
  - `GaussianFilterSep` therefore modifies `input.data`, and its result is `SepSpec.Final`,
    not `Separable.SeparableFilter`. See "Findings".
- **Unknown option.** A configuration error would be the natural answer to an unknown option.
  The code instead runs the pixel loops without writing anything and returns the zero image,
  and so does the model.

## Model

| member | source | states |
|---|---|---|
| Kernel.KernelOf | 3_Region/SepGaussianGraySkeleton.cpp:74-96 | the kernel the two loops build: 2n+1 weights, the Gaussian at each offset divided by the sum of all of them, summing to 1 |
| Kernel.RawKernel | 3_Region/SepGaussianGraySkeleton.cpp:80-90 | the kernel before division: slot a+n holds the Gaussian at offset a, as the filling loops store it; `FillKernel` and `KernelOfIsNormalized` state it |
| Kernel.KernelOfSymmetric | 3_Region/SepGaussianGraySkeleton.cpp:80-90 | the Gaussian depends on the offset only through `pow(a, 2)`, so offsets a and -a get the same weight in the normalised kernel |
| Kernel.FillKernel | 3_Region/SepGaussianGraySkeleton.cpp:78-90 | after the filling loop, slot a+n holds the Gaussian at offset a and `denom` holds the left-to-right sum of all slots |
| Kernel.DivideAll | 3_Region/SepGaussianGraySkeleton.cpp:92-96 | the division loop leaves every slot divided by `denom` and changes nothing else |
| Kernel.BuildKernel | 3_Region/SepGaussianGraySkeleton.cpp:74-96 | the kernel has 2n+1 weights, each the Gaussian divided by the sum of all of them; the weights are positive and sum to 1 |
| Kernel.SumOfPositives | 3_Region/SepGaussianGraySkeleton.cpp:78-90 | a sum of positive values is non-negative, and positive when there is at least one value |
| Kernel.RawSumPositive | 3_Region/SepGaussianGraySkeleton.cpp:80-84 | the denominator `denom1`/`denom2` is positive, so the division loops never divide by 0 |
| Kernel.SumScaled | 3_Region/SepGaussianGraySkeleton.cpp:92-93 | scaling every element by x scales the sum by x |
| Kernel.SumDivided | 3_Region/SepGaussianGraySkeleton.cpp:92-96 | dividing every element by d divides the sum by d |
| Kernel.NormalizedSumsToOne | 3_Region/SepGaussianGraySkeleton.cpp:92-96 | after the division the weights sum to exactly 1 (over the reals) |
| Kernel.KernelOfIsNormalized | 3_Region/SepGaussianGraySkeleton.cpp:74-96 | the kernel of any radius has 2n+1 positive weights that sum to 1, and weight a+n is the Gaussian at a divided by the raw sum |
| Kernel.KernelOfRadiusZero | 3_Region/SepGaussianGraySkeleton.cpp:80-96 | with n = 0 the kernel is [1.0] whatever the sigma |
| Kernel.UnitKernel | 3_Region/SepGaussianGraySkeleton.cpp:66 | the only positive kernel of size 1 that sums to 1 is [1.0] |
| Boundary.PolicyOf | 3_Region/SepGaussianGraySkeleton.cpp:106-160 | the strcmp chain: a policy is selected exactly when the option is one of the three names, and it is the policy that name denotes |
| Boundary.MirrorIndex | 3_Region/SepGaussianGraySkeleton.cpp:130-138 | the mirroring index rule: j-b past the far edge, -(j+b) before 0, j+b otherwise; its properties are in `MirrorIndexInRange` |
| Boundary.Kept | 3_Region/SepGaussianGraySkeleton.cpp:164 | the per-policy tap test of lines 110/119, 164/175 and the unconditional taps of mirroring; its properties are in `InRangeTapRead` and `ZeroPaddleAndAdjustShareSums` |
| Boundary.TapIndex | 3_Region/SepGaussianGraySkeleton.cpp:139 | the position a tap reads, j+b or the mirrored index; its properties are in `InRangeTapRead` and `TapIndexInRange` |
| Boundary.InRangeTapRead | 3_Region/SepGaussianGraySkeleton.cpp:126-139 | every tap inside the line contributes under every policy and reads the sample at j+b, mirroring included |
| Boundary.Truncate | 3_Region/SepGaussianGraySkeleton.cpp:114 | the `(G)` cast of a float to an integer type; its properties are in `TruncateTowardZero` |
| Boundary.TruncateTowardZero | 3_Region/SepGaussianGraySkeleton.cpp:114 | the cast rounds toward zero: a non-negative value goes to the largest integer not above it, a negative one to the smallest integer not below it |
| Boundary.Filtered | 3_Region/SepGaussianGraySkeleton.cpp:106-181 | the value written for one position of one line under one policy; its properties are the lemmas below |
| Boundary.MirrorIndexInRange | 3_Region/SepGaussianGraySkeleton.cpp:130-138 | with 2n <= length the mirrored index lies in the line; it is j+b when that is in range, it is positive when j+b < 0, it is j when n = 0, and it is never farther from j than the offset b (past the far edge it reflects about the current pixel, j-b; before 0 it reflects about index 0, -(j+b)) |
| Boundary.MirrorBoundIsTight | 3_Region/SepGaussianGraySkeleton.cpp:130-139 | on a non-empty line shorter than 2n some mirrored tap reads outside the line, so 2n <= length is the exact condition |
| Boundary.TapIndexInRange | 3_Region/SepGaussianGraySkeleton.cpp:164-165 | every tap that contributes, under any policy, reads inside the line |
| Boundary.TapStep | 3_Region/SepGaussianGraySkeleton.cpp:161-168 | one tap adds weight times sample to `sum1` and its weight to `sum2` when it contributes, and adds nothing otherwise |
| Boundary.Tap | 3_Region/SepGaussianGraySkeleton.cpp:111 | one tap's contribution to `sum1`: weight times the sample it reads (lines 111, 139, 165), or nothing when the tap is dropped; `TapStep` and `TapBounds` state it |
| Boundary.Weight | 3_Region/SepGaussianGraySkeleton.cpp:166 | one tap's contribution to `sum2`: its weight when it is kept, nothing otherwise; `TapStep` states it |
| Boundary.TapSum | 3_Region/SepGaussianGraySkeleton.cpp:101-113 | the accumulator `sum1_t`/`sum1_s` after the taps up to an offset (also lines 161-168); `SumsArePrefixSums`, `TapSumBounds` and `TapSumConstant` state it |
| Boundary.WeightSum | 3_Region/SepGaussianGraySkeleton.cpp:101-104 | the accumulator `sum2_t`/`sum2_s` after the taps up to an offset (lines 161-168); `DenominatorPositive` and `WeightSumAtMostPrefix` state it |
| Boundary.FilteredOfSums | 3_Region/SepGaussianGraySkeleton.cpp:169 | the value written is the truncated `sum1`, or the truncated `sum1 / sum2` under adjustkernel, with `sum2 > 0` |
| Boundary.CastOfSums | 3_Region/SepGaussianGraySkeleton.cpp:114 | with samples in 0..m the cast value lies in 0..m, so the uchar cast never wraps |
| Boundary.DenominatorPositive | 3_Region/SepGaussianGraySkeleton.cpp:164-169 | the centre tap always contributes, so `sum2` is at least the centre weight and adjustkernel never divides by 0 |
| Boundary.WeightSumAtMostPrefix | 3_Region/SepGaussianGraySkeleton.cpp:161-168 | the kept weights sum to at most all the weights seen, and to exactly those when no tap was dropped |
| Boundary.WeightSumWithoutDropped | 3_Region/SepGaussianGraySkeleton.cpp:110-112 | a dropped tap removes its whole weight from the sum of kept weights |
| Boundary.TapBounds | 3_Region/SepGaussianGraySkeleton.cpp:111 | a tap over a sample in 0..m contributes between 0 and m times its weight |
| Boundary.TapSumBounds | 3_Region/SepGaussianGraySkeleton.cpp:107-113 | `sum1` lies between 0 and m times the kept weights |
| Boundary.SumsArePrefixSums | 3_Region/SepGaussianGraySkeleton.cpp:161-168 | the accumulators after offsets -n..hi-1 are the sums of the first hi+n tap contributions and kept weights |
| Boundary.SumsAreTotals | 3_Region/SepGaussianGraySkeleton.cpp:161-168 | at the end of the tap loop the accumulators hold the sums of all contributions and of all kept weights |
| Boundary.TapConstant | 3_Region/SepGaussianGraySkeleton.cpp:139 | on a constant line v a tap contributes v times its kept weight |
| Boundary.TapsConstant | 3_Region/SepGaussianGraySkeleton.cpp:127-140 | on a constant line v every tap contributes v times its kept weight |
| Boundary.TapSumConstant | 3_Region/SepGaussianGraySkeleton.cpp:127-140 | on a constant line v, `sum1` is v times the sum of the kept weights |
| Boundary.ZeroPaddleAndAdjustShareSums | 3_Region/SepGaussianGraySkeleton.cpp:164 | zero-paddle and adjustkernel keep the same taps, so they accumulate the same `sum1` and `sum2` |
| Boundary.TruncateMonotone | 3_Region/SepGaussianGraySkeleton.cpp:114 | on non-negative values the truncating cast is monotone |
| Boundary.TruncateOfInt | 3_Region/SepGaussianGraySkeleton.cpp:114 | the cast of a whole number is that number |
| Boundary.FilteredInRange | 3_Region/SepGaussianGraySkeleton.cpp:106-181 | under every policy, with samples in 0..m and a kernel that sums to 1, the value written lies in 0..m |
| Boundary.QuotientInRange | 3_Region/SepGaussianGraySkeleton.cpp:169 | if `0 <= sum1 <= m * sum2` then the cast of `sum1 / sum2` lies in 0..m |
| Boundary.SumInRange | 3_Region/SepGaussianGraySkeleton.cpp:114 | if `0 <= sum1 <= m * d` with d <= 1 then the cast of `sum1` lies in 0..m |
| Boundary.ZeroPaddleAtMostAdjusted | 3_Region/SepGaussianGraySkeleton.cpp:160-169 | zero-paddle never exceeds adjustkernel, and the two agree at every position whose taps all fall inside the line |
| Boundary.DividingByAtMostOne | 3_Region/SepGaussianGraySkeleton.cpp:169 | dividing a non-negative sum by kept weights in (0, 1] does not decrease it, and leaves it unchanged when they sum to 1 |
| Boundary.ConstantLineMirroring | 3_Region/SepGaussianGraySkeleton.cpp:126-141 | mirroring leaves a constant line unchanged at every position |
| Boundary.ConstantLineAdjust | 3_Region/SepGaussianGraySkeleton.cpp:160-169 | adjustkernel leaves a constant line unchanged at every position, edges included |
| Boundary.MultiplyThenDivide | 3_Region/SepGaussianGraySkeleton.cpp:169 | v times the kept weights, divided by them and cast, is v |
| Boundary.ConstantLineZeroPaddle | 3_Region/SepGaussianGraySkeleton.cpp:106-114 | on a constant line v >= 0, zero-paddle gives v where all taps are inside, strictly less than v (for v > 0) within n of either end, and never more than v |
| Boundary.ScaledAtMost | 3_Region/SepGaussianGraySkeleton.cpp:114 | v times a weight total in (0, 1], cast, lies in 0..v, and is v when the total is 1 |
| Boundary.ScaledBelow | 3_Region/SepGaussianGraySkeleton.cpp:114 | v > 0 times a weight total below 1, cast, is below v |
| Boundary.RadiusZeroIdentity | 3_Region/SepGaussianGraySkeleton.cpp:107-114 | with kernel [1.0] every policy writes the sample itself |
| Raster.CellInBounds | 3_Region/SepGaussianGraySkeleton.cpp:99-100 | the cell (i, j) and its whole row lie inside the rows x cols buffer |
| Raster.DivModOfCell | 3_Region/SepGaussianGraySkeleton.cpp:99-100 | the flat index i*cols+j gives back i and j |
| Raster.CellOfIndex | 3_Region/SepGaussianGraySkeleton.cpp:99-100 | every index of the buffer names a cell of the image |
| Raster.CellBefore | 3_Region/SepGaussianGraySkeleton.cpp:99-100 | every cell of an earlier row comes before every cell of a later row in raster order |
| SepSpec.SettingOf | 3_Region/SepGaussianGraySkeleton.cpp:59-96 | the parameters of a call, with the kernels built from the two Gaussians, satisfy the filter's setting invariant |
| SepSpec.ColumnAt | 3_Region/SepGaussianGraySkeleton.cpp:120 | `temp.at<G>(r, j)` is cell r of column j |
| SepSpec.Zeros | 3_Region/SepGaussianGraySkeleton.cpp:98 | `Mat::zeros(row, col, ...)`: the output starts all 0; `RunLeavesUnvisited` states that unvisited output cells keep it |
| SepSpec.Row | 3_Region/SepGaussianGraySkeleton.cpp:111 | `input.at<G>(i, j + b)`: row i of the row-major buffer; `HorizontalReadsAliased` states what it holds when pixel (i, j) reads it |
| SepSpec.Column | 3_Region/SepGaussianGraySkeleton.cpp:120 | `temp.at<G>(i + a, j)`: column j of the row-major buffer; `ColumnAt` states its cells |
| SepSpec.HValue | 3_Region/SepGaussianGraySkeleton.cpp:114 | the horizontal value of a pixel, written at lines 114, 141 and 169; `SepGaussian.HorizontalValue` is the loop proved to compute it |
| SepSpec.VValue | 3_Region/SepGaussianGraySkeleton.cpp:123 | the vertical value of a pixel, written at lines 123, 157 and 180; `SepGaussian.VerticalValue` is the loop proved to compute it |
| SepSpec.ColumnBounded | 3_Region/SepGaussianGraySkeleton.cpp:116-122 | a column of a buffer with samples in 0..m has its samples in 0..m |
| SepSpec.PositionInBounds | 3_Region/SepGaussianGraySkeleton.cpp:99-100 | every position the loops reach has been preceded by at most rows*cols visits |
| SepSpec.Visit | 3_Region/SepGaussianGraySkeleton.cpp:105-123 | a visit keeps both buffers at rows*cols cells |
| SepSpec.Run | 3_Region/SepGaussianGraySkeleton.cpp:99-183 | the buffers after the first visits in raster order keep their shape |
| SepSpec.VisitCell | 3_Region/SepGaussianGraySkeleton.cpp:105-123 | the visit of (i, j) writes the row-filtered value into the shared buffer, then the column-filtered value of the updated buffer into the output |
| SepSpec.Final | 3_Region/SepGaussianGraySkeleton.cpp:99-184 | the buffers when the call returns: the overwritten input and the output, both of the image's size |
| SepSpec.RunLeavesUnvisited | 3_Region/SepGaussianGraySkeleton.cpp:99-114 | cells not yet visited still hold the input in the shared buffer and 0 in the output |
| SepSpec.VisitFrame | 3_Region/SepGaussianGraySkeleton.cpp:114-123 | a visit writes only its own cell of each buffer |
| SepSpec.RunKeepsVisited | 3_Region/SepGaussianGraySkeleton.cpp:99-183 | a visited cell is never written again, in either buffer |
| SepSpec.HorizontalReadsAliased | 3_Region/SepGaussianGraySkeleton.cpp:105-114 | the row read for pixel (i, j) holds final filtered values left of j and input values from j on |
| SepSpec.VerticalReadsAliased | 3_Region/SepGaussianGraySkeleton.cpp:114-120 | the column read for pixel (i, j) holds final filtered values in rows 0..i and input values below row i |
| SepSpec.FinalPixel | 3_Region/SepGaussianGraySkeleton.cpp:99-183 | each final cell holds the value its own visit wrote, computed from the buffer as that visit found it |
| SepSpec.Copied | 3_Region/SepGaussianGraySkeleton.cpp:98 | buffers made of the input and a partly copied, otherwise zero output have the image's size |
| SepSpec.VisitOfFixed | 3_Region/SepGaussianGraySkeleton.cpp:105-123 | on an image both filters give back, a visit rewrites the input cell with its own value and copies it to the output |
| SepSpec.RunOfFixedStep | 3_Region/SepGaussianGraySkeleton.cpp:100-123 | one visit of the inner loop extends that copy by one cell |
| SepSpec.RunOfFixed | 3_Region/SepGaussianGraySkeleton.cpp:99-183 | on such an image the visits so far leave the input as it was and copy the visited samples to the output |
| SepSpec.FinalOfFixed | 3_Region/SepGaussianGraySkeleton.cpp:59-185 | on such an image the call returns the input and leaves the input buffer unchanged |
| SepSpec.FinalRadiusZero | 3_Region/SepGaussianGraySkeleton.cpp:59-185 | with n = 0 the filter is the identity under every policy and the input buffer is left unchanged |
| SepSpec.RadiusZeroFixedAt | 3_Region/SepGaussianGraySkeleton.cpp:106-181 | with n = 0 both filters give back every sample |
| SepSpec.FinalConstant | 3_Region/SepGaussianGraySkeleton.cpp:126-181 | under mirroring and adjustkernel a constant image comes out unchanged, and the input buffer is left as it was |
| SepSpec.ConstantFixedAt | 3_Region/SepGaussianGraySkeleton.cpp:126-181 | under mirroring and adjustkernel both filters give back every sample of a constant image |
| SepSpec.ConstantRow | 3_Region/SepGaussianGraySkeleton.cpp:107-113 | every row of a constant image is constant |
| SepSpec.ConstantColumn | 3_Region/SepGaussianGraySkeleton.cpp:116-122 | every column of a constant image is constant |
| SepSpec.RunBounded | 3_Region/SepGaussianGraySkeleton.cpp:114-123 | every value written, into either buffer, lies in the range 0..m of the input |
| SepSpec.FinalBounded | 3_Region/SepGaussianGraySkeleton.cpp:98-184 | the returned image and the overwritten input stay in the range 0..m of the input |
| Separable.HorizontalPass | 3_Region/SepGaussianGraySkeleton.cpp:107-114 | the intended horizontal pass has one value per pixel |
| Separable.VerticalPass | 3_Region/SepGaussianGraySkeleton.cpp:116-123 | the intended vertical pass has one value per pixel |
| Separable.SeparableFilter | 3_Region/SepGaussianGraySkeleton.cpp:99-183 | the intended result: the vertical pass over the horizontal pass of the unmodified input, one value per pixel |
| Separable.SeparablePixel | 3_Region/SepGaussianGraySkeleton.cpp:105-123 | pixel (i, j) of the two-pass filter is the column filter over column j of the row-filtered input |
| Separable.HorizontalPassBounded | 3_Region/SepGaussianGraySkeleton.cpp:107-114 | the intended horizontal pass stays in the input's range |
| Separable.VerticalPassBounded | 3_Region/SepGaussianGraySkeleton.cpp:116-123 | the intended vertical pass stays in its input's range |
| Separable.SeparableBounded | 3_Region/SepGaussianGraySkeleton.cpp:99-183 | the two-pass filter stays in the input's range |
| Separable.HorizontalPassRadiusZero | 3_Region/SepGaussianGraySkeleton.cpp:107-114 | with n = 0 the horizontal pass is the identity |
| Separable.VerticalPassRadiusZero | 3_Region/SepGaussianGraySkeleton.cpp:116-123 | with n = 0 the vertical pass is the identity |
| Separable.SeparableRadiusZero | 3_Region/SepGaussianGraySkeleton.cpp:99-183 | with n = 0 the two-pass filter is the identity |
| Separable.Counterexample | 3_Region/SepGaussianGraySkeleton.cpp:59 | the 1 x 2, radius 1, weights 1/4, 1/2, 1/4 zero-paddle setting satisfies the setting invariant; `CounterexamplesAreCalls` shows the function builds it |
| Separable.CounterexampleLines | 3_Region/SepGaussianGraySkeleton.cpp:107-123 | the zero-paddle values of the lines that setting reads |
| Separable.AliasingCounterexample | 3_Region/SepGaussianGraySkeleton.cpp:105 | as written, the call on [200, 0] returns [50, 12] and leaves [100, 25] in the input |
| Separable.SeparableCounterexample | 3_Region/SepGaussianGraySkeleton.cpp:99-183 | the two-pass filter on the same image gives [50, 25] |
| Separable.SeparableConstantZeroPaddle | 3_Region/SepGaussianGraySkeleton.cpp:106-124 | on a constant image v >= 0 under zero-paddle, the two-pass filter gives v at every pixel at least n away from all edges and less than v (for v > 0) at every other pixel |
| Separable.ConstantPassColumn | 3_Region/SepGaussianGraySkeleton.cpp:107-114 | on such an image, a column of the horizontal pass is all v away from the row ends and all below v near them |
| Separable.HorizontalConstantAt | 3_Region/SepGaussianGraySkeleton.cpp:107-114 | on such an image, the horizontal pass is v away from the row ends and below v near them |
| Separable.QuarterKernel | 3_Region/SepGaussianGraySkeleton.cpp:74-96 | the weights 1/4, 1/2, 1/4 form a kernel of radius 1 that sums to 1 |
| Separable.KernelOfHalfSides | 3_Region/SepGaussianGraySkeleton.cpp:78-96 | a Gaussian whose values at offsets -1 and 1 are half its value at 0 gives, after the division loops, exactly the weights 1/4, 1/2, 1/4 |
| Separable.CounterexamplesAreCalls | 3_Region/SepGaussianGraySkeleton.cpp:59-96 | both counterexample settings are what the function builds from such a Gaussian with n = 1 under zero-paddle |
| Separable.ConstantCounterexample | 3_Region/SepGaussianGraySkeleton.cpp:59 | the 3 x 3, radius 1, weights 1/4, 1/2, 1/4 zero-paddle setting satisfies the setting invariant; `CounterexamplesAreCalls` shows the function builds it |
| Separable.ConstantCounterexampleLines | 3_Region/SepGaussianGraySkeleton.cpp:107-123 | the zero-paddle values of the lines the constant counterexample reads |
| Separable.ConstantAliasingCounterexample | 3_Region/SepGaussianGraySkeleton.cpp:105 | as written, the centre of the 3 x 3 image of 100 comes out 94, where the two-pass filter gives 100 |
| Separable.CentreOfConstant | 3_Region/SepGaussianGraySkeleton.cpp:105-123 | on any 3 x 3 image of 100 in that setting the as-written centre is 94 and the two-pass centre is 100 |
| Separable.FirstTwoOfRow | 3_Region/SepGaussianGraySkeleton.cpp:105-114 | the first two cells of rows 0 and 1 end holding 75 and 93 in the overwritten input |
| SepGaussian.HorizontalSums | 3_Region/SepGaussianGraySkeleton.cpp:161-168 | the horizontal tap loop leaves `sum1_t` and `sum2_t` equal to the weighted taps and kept weights of the pixel's row |
| SepGaussian.HorizontalValue | 3_Region/SepGaussianGraySkeleton.cpp:106-114 | the value written into `temp` is the filtered value of the pixel's row |
| SepGaussian.ColumnSample | 3_Region/SepGaussianGraySkeleton.cpp:120 | `temp.at<G>(r, j)` reads cell r of column j |
| SepGaussian.VerticalSums | 3_Region/SepGaussianGraySkeleton.cpp:172-179 | the vertical tap loop leaves `sum1_s` and `sum2_s` equal to the weighted taps and kept weights of the pixel's column |
| SepGaussian.VerticalValue | 3_Region/SepGaussianGraySkeleton.cpp:116-123 | the value written into `output` is the filtered value of the pixel's column |
| SepGaussian.VisitPixel | 3_Region/SepGaussianGraySkeleton.cpp:105-123 | one visit takes the buffers of the visits before (i, j) to those of one more visit |
| SepGaussian.SweepRow | 3_Region/SepGaussianGraySkeleton.cpp:100-182 | the inner loop visits row i; with an unknown option it changes nothing |
| SepGaussian.Sweep | 3_Region/SepGaussianGraySkeleton.cpp:99-183 | the outer loop leaves the buffers `SepSpec.Final` describes; with an unknown option it changes nothing |
| SepGaussian.GaussianFilterSep | 3_Region/SepGaussianGraySkeleton.cpp:59-185 | the call returns a fresh image of the input's shape; with a known option the output and the overwritten input are `SepSpec.Final` of the input; with an unknown option the output is all zeros and the input is unchanged |
| SepGaussian.HorizontalSweep | 3_Region/SepGaussianGraySkeleton.cpp:99-114 | the corrected horizontal pass fills a separate buffer with the row filter of the unmodified input |
| SepGaussian.VerticalSweep | 3_Region/SepGaussianGraySkeleton.cpp:99-123 | the corrected vertical pass fills the output with the column filter of the intermediate image |
| SepGaussian.GaussianFilterSepTwoPass | 3_Region/SepGaussianGraySkeleton.cpp:59-185 | the corrected call leaves the input unchanged and returns the two-pass filter of the input, or all zeros for an unknown option |

## Left out

- **Floating point.** `float` arithmetic and `exp`/`pow` are not modelled. Weights, sums and
  quotients are exact reals. The Gaussian of each sigma is the parameter `gauss`, which must be
  positive on -n..n. So "sums to one" holds exactly here, not within rounding.
- **Evenness of the Gaussian.** The model does not require `gauss` to be even, so it also admits
  kernels the source never builds. The source's Gaussian is even because it uses `pow(a, 2)`.
  `KernelOfSymmetric` takes evenness as a hypothesis and proves the kernel symmetric.
- **What exact reals cost.** Some results rely on exact cancellation before a truncating cast.
  In `float` they can be off by one: if the weights sum to 0.99999994, then 255 times that sum
  truncates to 254. These results are:
  - `FinalConstant`, `ConstantLineMirroring`, `ConstantLineAdjust` and `MultiplyThenDivide`;
  - the equality half of `ZeroPaddleAtMostAdjusted`;
  - both halves of `ConstantLineZeroPaddle` and `SeparableConstantZeroPaddle`, and
    `ScaledBelow`, `HorizontalConstantAt` and `ConstantPassColumn`. The "keeps v" half needs the
    weights to sum to exactly 1. The "strictly less than v near the edges" half needs a dropped
    weight to lower the kept sum; in `float` a weight below the resolution of 1.0f (n = 1 with
    sigma 0.15 gives side weights near 2e-10) leaves the kept sum at 1.0f and v unchanged;
  - `FinalRadiusZero` and the radius-0 lemmas, where the single weight 1 is exact in `float`
    too.
- **Sample type.** The sample type is fixed to `uchar`, which is the type the configured
  `IM_TYPE` selects. The other four sample types are not modelled.
- **Truncating cast.** The `(G)` cast is modelled as truncation toward zero. `FilteredInRange`
  proves the value is always in 0..255, so the out-of-range cast never arises.
- **The rest of the file.** `main` (image loading, grayscale conversion, display) is not part of
  this model. Neither are OpenCV's `Mat` internals (reference counting, steps, the element
  type); the model keeps only the shape and the shared buffer.
- **Option string.** `strcmp` on a C string is modelled as equality of strings.
- **Kernel build order.** The source fills both kernels and then divides both. The model builds
  each kernel completely before the other. The two kernels do not interact, so the results are
  the same.
- **Redundant range tests.** The zero-paddle tests `i <= row - 1 && i >= 0` and
  `j <= col - 1 && j >= 0` are always true inside the loops. They are dropped.
- **`sum2`.** The source accumulates `sum2_t` and `sum2_s` only under adjustkernel
  (lines 166 and 177). The model accumulates it under every policy and reads it only under
  adjustkernel, so the values written are those of the source.
- **Negative radius.** A negative `n` (where `2 * n + 1` would be a negative kernel size) and
  the overflow of `int` counters are not modelled; `n` is a `nat`.
- GaussianFilterSep: requires `2n <= rows` and `2n <= cols` under mirroring.
  - Without it, the source reads outside the pixel buffer, which is undefined behaviour.
  - `MirrorBoundIsTight` shows the bound is exact.
- GaussianFilterSepTwoPass: carries the same mirroring requirement.

## Findings

| source | as written | input that shows it | evidently intended | confidence | as-written member | corrected member |
|---|---|---|---|---|---|---|
| 3_Region/SepGaussianGraySkeleton.cpp:105 | `Mat temp = input;` shares the input's pixel buffer, so each horizontal value overwrites the input before later pixels read it, and the input image is modified | 1 x 2 image [200, 0], n = 1, weights 1/4, 1/2, 1/4 in both directions, zero-paddle: the call returns [50, 12] and leaves [100, 25] in the input | a separate intermediate image: horizontal pass over the unmodified input, then vertical pass over the intermediate, giving [50, 25] and leaving the input unchanged | not executed | Separable.AliasingCounterexample | SepGaussian.GaussianFilterSepTwoPass |
| 3_Region/SepGaussianGraySkeleton.cpp:105 | the same shared buffer also dims the interior of a constant image under zero-paddle: pixels away from every edge read neighbours that are already filtered and attenuated | 3 x 3 image of 100, n = 1, weights 1/4, 1/2, 1/4 in both directions, zero-paddle: the centre pixel reads the row [75, 100, 100] and the column [93, 93, 100], and comes out 94 | 100 at every pixel at least n away from all edges, below 100 only near the edges | not executed | Separable.ConstantAliasingCounterexample | Separable.SeparableConstantZeroPaddle |
