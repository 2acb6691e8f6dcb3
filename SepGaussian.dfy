/** gaussianfilterSep: the separable Gaussian filter over a single-channel 8-bit image, with the
    pixel buffer of the input written in place by the horizontal pass. */
module SepGaussian {
  import opened Kernel
  import opened Boundary
  import opened Raster
  import opened SepSpec
  import opened Separable

  /** The sample type G: `uchar`, as the configured image type CV_8UC3 selects. */
  type Sample = x: int | 0 <= x <= 255

  /** An OpenCV Mat header: the shape and a reference to the row-major pixel buffer. Copying a
      header, as `Mat temp = input;` does, copies these fields and shares the buffer. */
  datatype Mat = Mat(rows: nat, cols: nat, data: array<Sample>)
  {
    predicate Valid()
    {
      data.Length == rows * cols
    }
  }

  /** The horizontal tap loop for a pixel at position j of the row that starts at `start` in
      `data`: the weighted taps (sum1_t) and the weights of the taps that contribute (sum2_t). */
  method HorizontalSums(data: array<Sample>, start: nat, cols: nat, kernel: array<real>, n: nat, pol: Policy, j: nat)
    returns (sum1: real, sum2: real)
    requires start + cols <= data.Length && j < cols
    requires IsKernel(kernel[..], n) && Fits(pol, n, cols)
    ensures sum1 == TapSum(Slice(data[..], start, cols), kernel[..], n, j, pol, n + 1)
    ensures sum2 == WeightSum(kernel[..], n, j, cols, pol, n + 1)
  {
    ghost var line := Slice(data[..], start, cols);
    ghost var w := kernel[..];
    sum1, sum2 := 0.0, 0.0;
    for b := -(n as int) to n + 1
      invariant sum1 == TapSum(line, w, n, j, pol, b)
      invariant sum2 == WeightSum(w, n, j, cols, pol, b)
    {
      var kernelvalue := kernel[b + n];
      if Kept(pol, j, b, cols) {
        TapIndexInRange(pol, j, b, cols, n);
        var tempb := TapIndex(pol, j, b, cols);
        var x := data[start + tempb];
        TapStep(line, w, n, j, pol, b, x);
        assert kernelvalue * (x as real) == Scaled(w[b + n], x as real);
        sum1 := sum1 + kernelvalue * (x as real);
        sum2 := sum2 + kernelvalue;
      } else {
        TapStep(line, w, n, j, pol, b, 0);
      }
    }
  }

  /** The horizontal value of the pixel: the sums of its taps, cast to a sample (divided by the
      contributing weights first under adjustkernel). */
  method HorizontalValue(data: array<Sample>, start: nat, cols: nat, kernel: array<real>, n: nat, pol: Policy, j: nat)
    returns (v: Sample)
    requires start + cols <= data.Length && j < cols
    requires IsKernel(kernel[..], n) && Sum(kernel[..]) == 1.0 && Fits(pol, n, cols)
    ensures v == Filtered(Slice(data[..], start, cols), kernel[..], n, j, pol)
  {
    var sum1, sum2 := HorizontalSums(data, start, cols, kernel, n, pol, j);
    ghost var line := Slice(data[..], start, cols);
    assert Bounded(line, 255);
    CastOfSums(line, kernel[..], n, j, pol, sum1, sum2, 255);
    if pol == AdjustKernel {
      v := Truncate(sum1 / sum2);
    } else {
      v := Truncate(sum1);
    }
  }

  /** The read `temp.at<G>(r, j)`: cell r of column j of a rows x cols buffer. */
  method ColumnSample(data: array<Sample>, rows: nat, cols: nat, j: nat, r: nat, ghost line: seq<int>)
    returns (x: Sample)
    requires data.Length == rows * cols && j < cols && r < rows
    requires line == Column(data[..], rows, cols, j)
    ensures x == line[r]
  {
    ColumnAt(data[..], rows, cols, j, r);
    x := data[r * cols + j];
  }

  /** The vertical tap loop for pixel (i, j): the weighted taps of column j of `data` (sum1_s)
      and the weights of the taps that contribute (sum2_s). */
  method VerticalSums(data: array<Sample>, rows: nat, cols: nat, kernel: array<real>, n: nat, pol: Policy, i: nat, j: nat)
    returns (sum1: real, sum2: real)
    requires data.Length == rows * cols && i < rows && j < cols
    requires IsKernel(kernel[..], n) && Fits(pol, n, rows)
    ensures sum1 == TapSum(Column(data[..], rows, cols, j), kernel[..], n, i, pol, n + 1)
    ensures sum2 == WeightSum(kernel[..], n, i, rows, pol, n + 1)
  {
    ghost var line := Column(data[..], rows, cols, j);
    ghost var w := kernel[..];
    sum1, sum2 := 0.0, 0.0;
    for a := -(n as int) to n + 1
      invariant sum1 == TapSum(line, w, n, i, pol, a)
      invariant sum2 == WeightSum(w, n, i, rows, pol, a)
    {
      var kernelvalue := kernel[a + n];
      if Kept(pol, i, a, rows) {
        TapIndexInRange(pol, i, a, rows, n);
        var tempa := TapIndex(pol, i, a, rows);
        var x := ColumnSample(data, rows, cols, j, tempa, line);
        TapStep(line, w, n, i, pol, a, x);
        assert kernelvalue * (x as real) == Scaled(w[a + n], x as real);
        sum1 := sum1 + kernelvalue * (x as real);
        sum2 := sum2 + kernelvalue;
      } else {
        TapStep(line, w, n, i, pol, a, 0);
      }
    }
  }

  /** The vertical value of pixel (i, j): the sums of its taps, cast to a sample (divided by
      the contributing weights first under adjustkernel). */
  method VerticalValue(data: array<Sample>, rows: nat, cols: nat, kernel: array<real>, n: nat, pol: Policy, i: nat, j: nat)
    returns (v: Sample)
    requires data.Length == rows * cols && i < rows && j < cols
    requires IsKernel(kernel[..], n) && Sum(kernel[..]) == 1.0 && Fits(pol, n, rows)
    ensures v == Filtered(Column(data[..], rows, cols, j), kernel[..], n, i, pol)
  {
    var sum1, sum2 := VerticalSums(data, rows, cols, kernel, n, pol, i, j);
    ghost var line := Column(data[..], rows, cols, j);
    ColumnBounded(data[..], rows, cols, j, 255);
    CastOfSums(line, kernel[..], n, i, pol, sum1, sum2, 255);
    if pol == AdjustKernel {
      v := Truncate(sum1 / sum2);
    } else {
      v := Truncate(sum1);
    }
  }

  /** The body of the pixel loop for (i, j): the horizontal value is written into the shared
      buffer `data` (through `temp`), and the vertical value, read from that updated buffer,
      into `out`. Starting from the buffers of the first i * cols + j visits, it leaves the
      buffers of one more visit. */
  method VisitPixel(data: array<Sample>, out: array<Sample>, rows: nat, cols: nat, kernel_t: array<real>,
                    kernel_s: array<real>, n: nat, pol: Policy, i: nat, j: nat, ghost img: seq<int>, ghost s: Setting)
    requires s.Valid() && s == Setting(rows, cols, n, kernel_t[..], kernel_s[..], pol)
    requires data != out && |img| == rows * cols && i < rows && j < cols
    requires data.Length == rows * cols && out.Length == rows * cols
    requires Buffers(data[..], out[..]) == Run(img, s, i, j)
    modifies data, out
    ensures Buffers(data[..], out[..]) == Run(img, s, i, j + 1)
  {
    CellInBounds(i, j, rows, cols);
    ghost var before := Buffers(data[..], out[..]);
    var h := HorizontalValue(data, i * cols, cols, kernel_t, n, pol, j);
    data[i * cols + j] := h;
    ghost var shared := data[..];
    var v := VerticalValue(data, rows, cols, kernel_s, n, pol, i, j);
    out[i * cols + j] := v;
    VisitCell(img, s, i, j, before, h, v, shared, out[..]);
  }

  /** The inner pixel loop of gaussianfilterSep over row i, each visit re-reading the option
      and doing nothing when it names no policy. */
  method SweepRow(input: Mat, output: Mat, kernel_t: array<real>, kernel_s: array<real>, n: nat, opt: string,
                  i: nat, ghost img: seq<int>, ghost s: Setting)
    requires input.Valid() && output.Valid() && input.data != output.data && i < input.rows
    requires s.Valid() && s.rows == input.rows && s.cols == input.cols && s.n == n
    requires s.kt == kernel_t[..] && s.ks == kernel_s[..]
    requires PolicyOf(opt).Some? ==> s.pol == PolicyOf(opt).value
    requires output.rows == input.rows && output.cols == input.cols && |img| == s.rows * s.cols
    requires PolicyOf(opt).Some? ==> Buffers(input.data[..], output.data[..]) == Run(img, s, i, 0)
    modifies input.data, output.data
    ensures PolicyOf(opt).None? ==> input.data[..] == old(input.data[..]) && output.data[..] == old(output.data[..])
    ensures PolicyOf(opt).Some? ==> Buffers(input.data[..], output.data[..]) == Run(img, s, i, s.cols)
  {
    var row, col := input.rows, input.cols;
    for j := 0 to col
      invariant PolicyOf(opt).Some? ==> Buffers(input.data[..], output.data[..]) == Run(img, s, i, j)
      invariant PolicyOf(opt).None? ==> input.data[..] == old(input.data[..]) && output.data[..] == old(output.data[..])
    {
      var temp := input;
      var policy := PolicyOf(opt);
      if policy.Some? {
        VisitPixel(temp.data, output.data, row, col, kernel_t, kernel_s, n, policy.value, i, j, img, s);
      }
    }
  }

  /** The outer pixel loop of gaussianfilterSep: the rows in order. */
  method Sweep(input: Mat, output: Mat, kernel_t: array<real>, kernel_s: array<real>, n: nat, opt: string,
               ghost s: Setting)
    requires input.Valid() && output.Valid() && input.data != output.data
    requires s.Valid() && s.rows == input.rows && s.cols == input.cols && s.n == n
    requires s.kt == kernel_t[..] && s.ks == kernel_s[..]
    requires PolicyOf(opt).Some? ==> s.pol == PolicyOf(opt).value
    requires output.rows == input.rows && output.cols == input.cols
    requires output.data[..] == Zeros(input.rows * input.cols)
    modifies input.data, output.data
    ensures PolicyOf(opt).None? ==> input.data[..] == old(input.data[..]) && output.data[..] == old(output.data[..])
    ensures PolicyOf(opt).Some? ==> Buffers(input.data[..], output.data[..]) == Final(old(input.data[..]), s)
  {
    var row, col := input.rows, input.cols;
    ghost var img := input.data[..];
    assert |img| == s.rows * s.cols;
    for i := 0 to row
      invariant PolicyOf(opt).Some? ==> Buffers(input.data[..], output.data[..]) == Run(img, s, i, 0)
      invariant PolicyOf(opt).None? ==> input.data[..] == img && output.data[..] == old(output.data[..])
    {
      SweepRow(input, output, kernel_t, kernel_s, n, opt, i, img, s);
    }
  }

  /** gaussianfilterSep(input, n, sigmaT, sigmaS, opt). The Gaussians of sigmaT and sigmaS are
      passed as gaussT and gaussS. The pixel buffer of `input` is overwritten in raster order
      with the horizontal values; the result is a fresh image of the same shape. */
  method GaussianFilterSep(input: Mat, n: nat, gaussT: int -> real, gaussS: int -> real, opt: string)
    returns (output: Mat)
    requires input.Valid() && Positive(gaussT, n) && Positive(gaussS, n)
    requires opt == "mirroring" && input.rows > 0 && input.cols > 0 ==>
               2 * n <= input.rows && 2 * n <= input.cols
    modifies input.data
    ensures output.Valid() && output.rows == input.rows && output.cols == input.cols
    ensures fresh(output.data)
    ensures PolicyOf(opt).None? ==>
              input.data[..] == old(input.data[..]) && output.data[..] == Zeros(input.rows * input.cols)
    ensures PolicyOf(opt).Some? ==>
              var s := SettingOf(input.rows, input.cols, n, gaussT, gaussS, PolicyOf(opt).value);
              Buffers(input.data[..], output.data[..]) == Final(old(input.data[..]), s)
  {
    var kernel_s := BuildKernel(n, gaussS);
    var kernel_t := BuildKernel(n, gaussT);
    var row, col := input.rows, input.cols;
    ghost var found := PolicyOf(opt);
    ghost var s := SettingOf(row, col, n, gaussT, gaussS, if found.Some? then found.value else ZeroPaddle);
    var zeros := new Sample[row * col](_ => 0);
    output := Mat(row, col, zeros);
    Sweep(input, output, kernel_t, kernel_s, n, opt, s);
  }

  /** The corrected horizontal pass: every pixel of `src`, in raster order, filtered along its
      row into the separate buffer `dst`; `src` is only read. */
  method HorizontalSweep(src: array<Sample>, dst: array<Sample>, rows: nat, cols: nat, kernel: array<real>,
                         n: nat, pol: Policy, ghost s: Setting)
    requires s.Valid() && s.rows == rows && s.cols == cols && s.n == n && s.kt == kernel[..] && s.pol == pol
    requires src != dst && src.Length == rows * cols && dst.Length == rows * cols
    modifies dst
    ensures dst[..] == HorizontalPass(src[..], s)
  {
    ghost var h := HorizontalPass(src[..], s);
    for i := 0 to rows
      invariant i * cols <= |h|
      invariant forall m :: 0 <= m < i * cols ==> dst[m] == h[m]
    {
      MulStep(i, rows, cols);
      for j := 0 to cols
        invariant forall m :: 0 <= m < i * cols + j ==> dst[m] == h[m]
      {
        CellInBounds(i, j, rows, cols);
        DivModOfCell(i, j, cols);
        var v := HorizontalValue(src, i * cols, cols, kernel, n, pol, j);
        dst[i * cols + j] := v;
      }
      assert i * cols + cols == (i + 1) * cols;
    }
    assert dst[..] == h;
  }

  /** The corrected vertical pass: every pixel of `src`, in raster order, filtered along its
      column into the separate buffer `dst`; `src` is only read. */
  method VerticalSweep(src: array<Sample>, dst: array<Sample>, rows: nat, cols: nat, kernel: array<real>,
                       n: nat, pol: Policy, ghost s: Setting)
    requires s.Valid() && s.rows == rows && s.cols == cols && s.n == n && s.ks == kernel[..] && s.pol == pol
    requires src != dst && src.Length == rows * cols && dst.Length == rows * cols
    modifies dst
    ensures dst[..] == VerticalPass(src[..], s)
  {
    ghost var v := VerticalPass(src[..], s);
    for i := 0 to rows
      invariant i * cols <= |v|
      invariant forall m :: 0 <= m < i * cols ==> dst[m] == v[m]
    {
      MulStep(i, rows, cols);
      for j := 0 to cols
        invariant forall m :: 0 <= m < i * cols + j ==> dst[m] == v[m]
      {
        CellInBounds(i, j, rows, cols);
        DivModOfCell(i, j, cols);
        var x := VerticalValue(src, rows, cols, kernel, n, pol, i, j);
        dst[i * cols + j] := x;
      }
      assert i * cols + cols == (i + 1) * cols;
    }
    assert dst[..] == v;
  }

  /** gaussianfilterSep with its evidently intended buffers: the horizontal pass writes a fresh
      intermediate image instead of the input's buffer, and the vertical pass starts only once
      that image is complete. The input is left as it was and the output is the separable
      filter of the input. */
  method GaussianFilterSepTwoPass(input: Mat, n: nat, gaussT: int -> real, gaussS: int -> real, opt: string)
    returns (output: Mat)
    requires input.Valid() && Positive(gaussT, n) && Positive(gaussS, n)
    requires opt == "mirroring" && input.rows > 0 && input.cols > 0 ==>
               2 * n <= input.rows && 2 * n <= input.cols
    ensures output.Valid() && output.rows == input.rows && output.cols == input.cols
    ensures fresh(output.data) && unchanged(input.data)
    ensures PolicyOf(opt).None? ==> output.data[..] == Zeros(input.rows * input.cols)
    ensures PolicyOf(opt).Some? ==>
              var s := SettingOf(input.rows, input.cols, n, gaussT, gaussS, PolicyOf(opt).value);
              output.data[..] == SeparableFilter(input.data[..], s)
  {
    var kernel_s := BuildKernel(n, gaussS);
    var kernel_t := BuildKernel(n, gaussT);
    var row, col := input.rows, input.cols;
    var zeros := new Sample[row * col](_ => 0);
    output := Mat(row, col, zeros);
    var policy := PolicyOf(opt);
    if policy.Some? {
      ghost var s := SettingOf(row, col, n, gaussT, gaussS, policy.value);
      var temp := new Sample[row * col](_ => 0);
      HorizontalSweep(input.data, temp, row, col, kernel_t, n, policy.value, s);
      VerticalSweep(temp, output.data, row, col, kernel_s, n, policy.value, s);
    }
  }
}
