/** Specification of gaussianfilterSep as it is written: one visit per pixel in raster order, each
    visit writing the horizontal value into the buffer shared by `temp` and `input`, then the
    vertical value, computed from that same buffer, into the output. */
module SepSpec {
  import opened Kernel
  import opened Boundary
  import opened Raster

  /** The fixed parameters of one call: the image shape, the radius, the horizontal kernel
      (kernel_t, from sigmaT), the vertical kernel (kernel_s, from sigmaS) and the policy. */
  datatype Setting = Setting(rows: nat, cols: nat, n: nat, kt: seq<real>, ks: seq<real>, pol: Policy)
  {
    predicate Valid()
    {
      IsKernel(kt, n) && IsKernel(ks, n) && Sum(kt) == 1.0 && Sum(ks) == 1.0 &&
      (rows > 0 && cols > 0 ==> Fits(pol, n, rows) && Fits(pol, n, cols))
    }
  }

  /** The setting of a call with radius n, Gaussians gaussT and gaussS and policy pol. */
  function SettingOf(rows: nat, cols: nat, n: nat, gaussT: int -> real, gaussS: int -> real, pol: Policy): (s: Setting)
    requires Positive(gaussT, n) && Positive(gaussS, n)
    requires pol == Mirroring && rows > 0 && cols > 0 ==> 2 * n <= rows && 2 * n <= cols
    ensures s.Valid() && s.rows == rows && s.cols == cols && s.n == n && s.pol == pol
  {
    KernelOfIsNormalized(gaussT, n);
    KernelOfIsNormalized(gaussS, n);
    Setting(rows, cols, n, KernelOf(gaussT, n), KernelOf(gaussS, n), pol)
  }

  function Zeros(len: nat): seq<int>
  {
    seq(len, _ => 0)
  }

  /** The len cells of a buffer from index start on. */
  function Slice(buf: seq<int>, start: nat, len: nat): seq<int>
    requires start + len <= |buf|
  {
    seq(len, q requires 0 <= q < len => buf[start + q])
  }

  /** Row i of a row-major buffer. */
  function Row(buf: seq<int>, cols: nat, i: nat): seq<int>
    requires i * cols + cols <= |buf|
  {
    Slice(buf, i * cols, cols)
  }

  /** Cell r of column j is element r * cols + j of the buffer. */
  lemma ColumnAt(buf: seq<int>, rows: nat, cols: nat, j: nat, r: nat)
    requires |buf| == rows * cols && j < cols && r < rows
    ensures r * cols + j < |buf| && Column(buf, rows, cols, j)[r] == buf[r * cols + j]
  {
    CellInBounds(r, j, rows, cols);
  }

  /** Column j of a row-major buffer of rows x cols cells. */
  function Column(buf: seq<int>, rows: nat, cols: nat, j: nat): seq<int>
    requires |buf| == rows * cols && j < cols
  {
    seq(rows, r requires 0 <= r < rows => CellInBounds(r, j, rows, cols); buf[r * cols + j])
  }

  /** A column of a buffer whose samples lie in 0..m has its samples in 0..m. */
  lemma ColumnBounded(buf: seq<int>, rows: nat, cols: nat, j: nat, m: int)
    requires |buf| == rows * cols && j < cols && Bounded(buf, m)
    ensures Bounded(Column(buf, rows, cols, j), m)
  {
    var line := Column(buf, rows, cols, j);
    forall r | 0 <= r < rows ensures 0 <= line[r] <= m {
      CellInBounds(r, j, rows, cols);
    }
  }

  /** The horizontal value of pixel (i, j), read from row i of the buffer `buf`. */
  function HValue(buf: seq<int>, s: Setting, i: nat, j: nat): int
    requires s.Valid() && |buf| == s.rows * s.cols && i < s.rows && j < s.cols
  {
    CellInBounds(i, j, s.rows, s.cols);
    Filtered(Row(buf, s.cols, i), s.kt, s.n, j, s.pol)
  }

  /** The vertical value of pixel (i, j), read from column j of the buffer `buf`. */
  function VValue(buf: seq<int>, s: Setting, i: nat, j: nat): int
    requires s.Valid() && |buf| == s.rows * s.cols && i < s.rows && j < s.cols
  {
    Filtered(Column(buf, s.rows, s.cols, j), s.ks, s.n, i, s.pol)
  }

  /** The two pixel buffers of a call: the one shared by `input` and `temp`, and `output`. */
  datatype Buffers = Buffers(shared: seq<int>, output: seq<int>)

  predicate Shaped(b: Buffers, s: Setting)
  {
    |b.shared| == s.rows * s.cols && |b.output| == s.rows * s.cols
  }

  /** Whether the pixel loops reach (i, j): just before pixel (i, j) of a row, at the end of a
      row (j == cols), or past the last row (i == rows, j == 0). */
  predicate Position(s: Setting, i: nat, j: nat)
  {
    (i < s.rows && j <= s.cols) || (i == s.rows && j == 0)
  }

  /** Position (i, j) is no later than (i2, j2) in raster order. */
  predicate NoLater(i: nat, j: nat, i2: nat, j2: nat)
  {
    i < i2 || (i == i2 && j <= j2)
  }

  /** Position (i, j) is reached after the first i * cols + j visits. */
  lemma PositionInBounds(s: Setting, i: nat, j: nat)
    requires Position(s, i, j)
    ensures i * s.cols + j <= s.rows * s.cols
  {
    if i < s.rows {
      MulStep(i, s.rows, s.cols);
    }
  }

  /** The visit of pixel (i, j): the horizontal value of the shared buffer is written into cell
      (i, j) of the shared buffer, then the vertical value of the updated shared buffer into cell
      (i, j) of the output. */
  function Visit(b: Buffers, s: Setting, i: nat, j: nat): (r: Buffers)
    requires s.Valid() && Shaped(b, s) && i < s.rows && j < s.cols
    ensures Shaped(r, s)
  {
    CellInBounds(i, j, s.rows, s.cols);
    var k := i * s.cols + j;
    var shared := b.shared[k := HValue(b.shared, s, i, j)];
    Buffers(shared, b.output[k := VValue(shared, s, i, j)])
  }

  /** The buffers at position (i, j), starting from the input image and a zero output: every
      pixel of rows 0..i-1 and pixels 0..j-1 of row i visited, in raster order. */
  function Run(img: seq<int>, s: Setting, i: nat, j: nat): (r: Buffers)
    requires s.Valid() && |img| == s.rows * s.cols && Position(s, i, j)
    ensures Shaped(r, s)
    decreases i, j
  {
    if j > 0 then Visit(Run(img, s, i, j - 1), s, i, j - 1)
    else if i > 0 then Run(img, s, i - 1, s.cols)
    else Buffers(img, Zeros(|img|))
  }

  /** The visit of (i, j) in terms of the values it writes: the filtered row value h read from the
      shared buffer as the visit found it, and the filtered column value v read after h is
      written. */
  lemma VisitCell(img: seq<int>, s: Setting, i: nat, j: nat, before: Buffers, h: int, v: int,
                  shared: seq<int>, output: seq<int>)
    requires s.Valid() && |img| == s.rows * s.cols && i < s.rows && j < s.cols
    requires i * s.cols + s.cols <= |img| && before == Run(img, s, i, j)
    requires h == Filtered(Row(before.shared, s.cols, i), s.kt, s.n, j, s.pol)
    requires shared == before.shared[i * s.cols + j := h]
    requires v == Filtered(Column(shared, s.rows, s.cols, j), s.ks, s.n, i, s.pol)
    requires output == before.output[i * s.cols + j := v]
    ensures Run(img, s, i, j + 1) == Buffers(shared, output)
  {
  }

  /** The final buffers of the call. */
  function Final(img: seq<int>, s: Setting): (r: Buffers)
    requires s.Valid() && |img| == s.rows * s.cols
    ensures Shaped(r, s)
  {
    Run(img, s, s.rows, 0)
  }

  /** The cells not yet visited still hold the input in the shared buffer and 0 in the output. */
  lemma {:induction false} RunLeavesUnvisited(img: seq<int>, s: Setting, i: nat, j: nat)
    requires s.Valid() && |img| == s.rows * s.cols && Position(s, i, j)
    ensures forall m :: i * s.cols + j <= m < |img| ==> Run(img, s, i, j).shared[m] == img[m]
    ensures forall m :: i * s.cols + j <= m < |img| ==> Run(img, s, i, j).output[m] == 0
    decreases i, j
  {
    if j > 0 {
      RunLeavesUnvisited(img, s, i, j - 1);
      CellInBounds(i, j - 1, s.rows, s.cols);
      VisitFrame(Run(img, s, i, j - 1), s, i, j - 1, img);
    } else if i > 0 {
      RunLeavesUnvisited(img, s, i - 1, s.cols);
      RowEnd(i, s.cols);
    }
  }

  /** A visit writes cell (i, j) of each buffer and no other: the cells after it still hold
      what they held. */
  lemma VisitFrame(b: Buffers, s: Setting, i: nat, j: nat, img: seq<int>)
    requires s.Valid() && Shaped(b, s) && i < s.rows && j < s.cols && |img| == |b.shared|
    requires i * s.cols + s.cols <= |img|
    requires forall m :: i * s.cols + j <= m < |img| ==> b.shared[m] == img[m] && b.output[m] == 0
    ensures forall m :: i * s.cols + j < m < |img| ==> Visit(b, s, i, j).shared[m] == img[m] && Visit(b, s, i, j).output[m] == 0
  {
  }

  /** A visited cell is never written again, in either buffer. */
  lemma {:induction false} RunKeepsVisited(img: seq<int>, s: Setting, i: nat, j: nat, i2: nat, j2: nat)
    requires s.Valid() && |img| == s.rows * s.cols
    requires Position(s, i, j) && Position(s, i2, j2) && NoLater(i, j, i2, j2)
    ensures i * s.cols + j <= |img|
    ensures forall m :: 0 <= m < i * s.cols + j ==> Run(img, s, i2, j2).shared[m] == Run(img, s, i, j).shared[m]
    ensures forall m :: 0 <= m < i * s.cols + j ==> Run(img, s, i2, j2).output[m] == Run(img, s, i, j).output[m]
    decreases i2, j2
  {
    PositionInBounds(s, i, j);
    if i != i2 || j != j2 {
      if j2 > 0 {
        RunKeepsVisited(img, s, i, j, i2, j2 - 1);
        if i < i2 {
          MulStep(i, i2, s.cols);
        }
      } else {
        RunKeepsVisited(img, s, i, j, i2 - 1, s.cols);
      }
    }
  }

  /** In-place aliasing, horizontal pass: pixel (i, j) reads its row from the shared buffer,
      where the cells left of j already hold their final, filtered values and the cells from
      j on still hold the input. */
  lemma HorizontalReadsAliased(img: seq<int>, s: Setting, i: nat, j: nat, q: nat)
    requires s.Valid() && |img| == s.rows * s.cols && i < s.rows && j < s.cols && q < s.cols
    ensures i * s.cols + q < |img| && i * s.cols + s.cols <= |img|
    ensures Row(Run(img, s, i, j).shared, s.cols, i)[q] ==
              if q < j then Final(img, s).shared[i * s.cols + q] else img[i * s.cols + q]
  {
    CellInBounds(i, q, s.rows, s.cols);
    if q < j {
      RunKeepsVisited(img, s, i, j, s.rows, 0);
    } else {
      RunLeavesUnvisited(img, s, i, j);
    }
  }

  /** In-place aliasing, vertical pass: pixel (i, j) reads its column from the shared buffer just
      after its own horizontal write, so the cells of rows 0..i hold filtered values and the
      cells below row i still hold the input. */
  lemma VerticalReadsAliased(img: seq<int>, s: Setting, i: nat, j: nat, r: nat)
    requires s.Valid() && |img| == s.rows * s.cols && i < s.rows && j < s.cols && r < s.rows
    ensures r * s.cols + j < |img|
    ensures Column(Run(img, s, i, j + 1).shared, s.rows, s.cols, j)[r] ==
              if r <= i then Final(img, s).shared[r * s.cols + j] else img[r * s.cols + j]
  {
    CellInBounds(i, j, s.rows, s.cols);
    var k := i * s.cols + j + 1;
    var buf := Run(img, s, i, j + 1).shared;
    RunKeepsVisited(img, s, i, j + 1, s.rows, 0);
    RunLeavesUnvisited(img, s, i, j + 1);
    ColumnAt(buf, s.rows, s.cols, j, r);
    if r < i {
      CellBefore(r, j, i, j, s.cols);
    } else if r > i {
      CellBefore(i, j, r, j, s.cols);
    }
    CellSplit(buf, Final(img, s).shared, img, k, r * s.cols + j);
  }

  /** A buffer that agrees with `before` below index k and with `after` from k on. */
  lemma CellSplit(buf: seq<int>, before: seq<int>, after: seq<int>, k: nat, m: nat)
    requires |buf| == |before| == |after| && k <= |buf| && m < |buf|
    requires forall q :: 0 <= q < k ==> before[q] == buf[q]
    requires forall q :: k <= q < |buf| ==> buf[q] == after[q]
    ensures buf[m] == if m < k then before[m] else after[m]
  {
  }

  /** The whole result, pixel by pixel: the shared buffer ends holding at (i, j) the horizontal
      value computed when (i, j) was reached, and the output holds the vertical value computed
      right after it. */
  lemma FinalPixel(img: seq<int>, s: Setting, i: nat, j: nat)
    requires s.Valid() && |img| == s.rows * s.cols && i < s.rows && j < s.cols
    ensures i * s.cols + j < |img|
    ensures Final(img, s).shared[i * s.cols + j] == HValue(Run(img, s, i, j).shared, s, i, j)
    ensures Final(img, s).output[i * s.cols + j] == VValue(Run(img, s, i, j + 1).shared, s, i, j)
  {
    CellInBounds(i, j, s.rows, s.cols);
    RunKeepsVisited(img, s, i, j + 1, s.rows, 0);
  }

  /** Both filters, applied to the unmodified image, give back the sample at (i, j). */
  predicate FixedAt(img: seq<int>, s: Setting, i: nat, j: nat)
    requires s.Valid() && |img| == s.rows * s.cols && i < s.rows && j < s.cols
  {
    CellInBounds(i, j, s.rows, s.cols);
    HValue(img, s, i, j) == img[i * s.cols + j] && VValue(img, s, i, j) == img[i * s.cols + j]
  }

  /** Both filters give back every sample of the image. */
  predicate Fixes(img: seq<int>, s: Setting)
    requires s.Valid() && |img| == s.rows * s.cols
  {
    forall i, j :: 0 <= i < s.rows && 0 <= j < s.cols ==> FixedAt(img, s, i, j)
  }

  /** The buffers of a call on an image the filters give back, after k visits: the shared
      buffer as it was, and the first k samples copied into the output. */
  function Copied(img: seq<int>, k: nat): (b: Buffers)
    requires k <= |img|
    ensures |b.shared| == |img| && |b.output| == |img|
  {
    Buffers(img, img[..k] + Zeros(|img| - k))
  }

  /** On an image the filters give back, a visit rewrites the shared buffer with the value it
      already holds and copies the input sample into the output. */
  lemma VisitOfFixed(img: seq<int>, s: Setting, i: nat, j: nat)
    requires s.Valid() && |img| == s.rows * s.cols && i < s.rows && j < s.cols && FixedAt(img, s, i, j)
    ensures i * s.cols + j < |img|
    ensures Visit(Copied(img, i * s.cols + j), s, i, j) == Copied(img, i * s.cols + j + 1)
  {
    CellInBounds(i, j, s.rows, s.cols);
    var k := i * s.cols + j;
    assert img[k := img[k]] == img;
    assert (img[..k] + Zeros(|img| - k))[k := img[k]] == img[..k + 1] + Zeros(|img| - k - 1);
  }

  lemma RunOfFixedStep(img: seq<int>, s: Setting, i: nat, j: nat)
    requires s.Valid() && |img| == s.rows * s.cols && i < s.rows && 0 < j <= s.cols && i * s.cols + s.cols <= |img|
    requires FixedAt(img, s, i, j - 1) && Run(img, s, i, j - 1) == Copied(img, i * s.cols + j - 1)
    ensures Run(img, s, i, j) == Copied(img, i * s.cols + j)
  {
    VisitOfFixed(img, s, i, j - 1);
  }

  /** On an image the filters give back, the visits up to (i, j) leave the shared buffer as it
      was and copy the samples visited so far into the output. */
  lemma {:induction false} RunOfFixed(img: seq<int>, s: Setting, i: nat, j: nat)
    requires s.Valid() && |img| == s.rows * s.cols && Position(s, i, j) && Fixes(img, s)
    ensures i * s.cols + j <= |img|
    ensures Run(img, s, i, j) == Copied(img, i * s.cols + j)
    decreases i, j
  {
    PositionInBounds(s, i, j);
    if j > 0 {
      RunOfFixed(img, s, i, j - 1);
      CellInBounds(i, j - 1, s.rows, s.cols);
      RunOfFixedStep(img, s, i, j);
    } else if i > 0 {
      RunOfFixed(img, s, i - 1, s.cols);
      RowEnd(i, s.cols);
    } else {
      assert img[..0] + Zeros(|img|) == Zeros(|img|);
    }
  }

  /** An image the filters give back pixel by pixel is what the whole call returns, and the
      input buffer ends as it began. */
  lemma FinalOfFixed(img: seq<int>, s: Setting)
    requires s.Valid() && |img| == s.rows * s.cols && Fixes(img, s)
    ensures Final(img, s) == Buffers(img, img)
  {
    RunOfFixed(img, s, s.rows, 0);
    assert Copied(img, |img|).output == img;
  }

  /** With radius 0 both kernels are the single weight 1 and the filter is the identity: the
      output is the input, and the input buffer is left as it was. */
  lemma FinalRadiusZero(img: seq<int>, s: Setting)
    requires s.Valid() && |img| == s.rows * s.cols && s.n == 0
    ensures Final(img, s) == Buffers(img, img)
  {
    forall i, j | 0 <= i < s.rows && 0 <= j < s.cols ensures FixedAt(img, s, i, j) {
      RadiusZeroFixedAt(img, s, i, j);
    }
    FinalOfFixed(img, s);
  }

  lemma RadiusZeroFixedAt(img: seq<int>, s: Setting, i: nat, j: nat)
    requires s.Valid() && |img| == s.rows * s.cols && s.n == 0 && i < s.rows && j < s.cols
    ensures FixedAt(img, s, i, j)
  {
    UnitKernel(s.kt);
    UnitKernel(s.ks);
    CellInBounds(i, j, s.rows, s.cols);
    RadiusZeroIdentity(Row(img, s.cols, i), j, s.pol);
    RadiusZeroIdentity(Column(img, s.rows, s.cols, j), i, s.pol);
    ColumnAt(img, s.rows, s.cols, j, i);
  }

  /** Under mirroring and adjustkernel an image of one constant value v comes out unchanged, and
      the input buffer is left as it was. */
  lemma FinalConstant(img: seq<int>, s: Setting, v: int)
    requires s.Valid() && |img| == s.rows * s.cols && s.pol != ZeroPaddle
    requires forall m :: 0 <= m < |img| ==> img[m] == v
    ensures Final(img, s) == Buffers(img, img)
  {
    forall i, j | 0 <= i < s.rows && 0 <= j < s.cols ensures FixedAt(img, s, i, j) {
      ConstantFixedAt(img, s, i, j, v);
    }
    FinalOfFixed(img, s);
  }

  lemma ConstantFixedAt(img: seq<int>, s: Setting, i: nat, j: nat, v: int)
    requires s.Valid() && |img| == s.rows * s.cols && s.pol != ZeroPaddle && i < s.rows && j < s.cols
    requires forall m :: 0 <= m < |img| ==> img[m] == v
    ensures FixedAt(img, s, i, j)
  {
    CellInBounds(i, j, s.rows, s.cols);
    ConstantRow(img, s, i, v);
    ConstantColumn(img, s, j, v);
    var row, column := Row(img, s.cols, i), Column(img, s.rows, s.cols, j);
    if s.pol == Mirroring {
      ConstantLineMirroring(row, s.kt, s.n, j, v);
      ConstantLineMirroring(column, s.ks, s.n, i, v);
    } else {
      ConstantLineAdjust(row, s.kt, s.n, j, v);
      ConstantLineAdjust(column, s.ks, s.n, i, v);
    }
  }

  lemma ConstantRow(img: seq<int>, s: Setting, i: nat, v: int)
    requires |img| == s.rows * s.cols && i < s.rows && forall m :: 0 <= m < |img| ==> img[m] == v
    ensures i * s.cols + s.cols <= |img|
    ensures forall q :: 0 <= q < s.cols ==> Row(img, s.cols, i)[q] == v
  {
    MulStep(i, s.rows, s.cols);
  }

  lemma ConstantColumn(img: seq<int>, s: Setting, j: nat, v: int)
    requires |img| == s.rows * s.cols && j < s.cols && forall m :: 0 <= m < |img| ==> img[m] == v
    ensures forall r :: 0 <= r < s.rows ==> Column(img, s.rows, s.cols, j)[r] == v
  {
    forall r | 0 <= r < s.rows ensures Column(img, s.rows, s.cols, j)[r] == v {
      CellInBounds(r, j, s.rows, s.cols);
    }
  }

  /** Every value written lies in the range 0..m of the input image, in both buffers. */
  lemma {:induction false} RunBounded(img: seq<int>, s: Setting, i: nat, j: nat, m: int)
    requires s.Valid() && |img| == s.rows * s.cols && Position(s, i, j) && 0 <= m && Bounded(img, m)
    ensures Bounded(Run(img, s, i, j).shared, m) && Bounded(Run(img, s, i, j).output, m)
    decreases i, j
  {
    if j > 0 {
      RunBounded(img, s, i, j - 1, m);
      var b := Run(img, s, i, j - 1);
      CellInBounds(i, j - 1, s.rows, s.cols);
      FilteredInRange(Row(b.shared, s.cols, i), s.kt, s.n, j - 1, s.pol, m);
      var shared := b.shared[i * s.cols + j - 1 := HValue(b.shared, s, i, j - 1)];
      ColumnBounded(shared, s.rows, s.cols, j - 1, m);
      FilteredInRange(Column(shared, s.rows, s.cols, j - 1), s.ks, s.n, i, s.pol, m);
    } else if i > 0 {
      RunBounded(img, s, i - 1, s.cols, m);
    } else {
      assert Zeros(|img|) == seq(|img|, _ => 0);
    }
  }

  /** The final image, and what is left in the input buffer, stay in the range 0..m of the input. */
  lemma FinalBounded(img: seq<int>, s: Setting, m: int)
    requires s.Valid() && |img| == s.rows * s.cols && 0 <= m && Bounded(img, m)
    ensures Bounded(Final(img, s).shared, m) && Bounded(Final(img, s).output, m)
  {
    RunBounded(img, s, s.rows, 0, m);
  }
}
