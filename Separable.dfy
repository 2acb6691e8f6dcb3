/** The separable Gaussian filter as two full passes: the horizontal pass reads only the input
    image and fills an intermediate image, and the vertical pass reads only that intermediate
    image. gaussianfilterSep does not compute this, because its intermediate buffer is the input
    buffer itself and the two passes are interleaved pixel by pixel. */
module Separable {
  import opened Kernel
  import opened Boundary
  import opened Raster
  import opened SepSpec

  /** The horizontal pass over the whole image: each pixel filtered along its row of `img`. */
  function HorizontalPass(img: seq<int>, s: Setting): (h: seq<int>)
    requires s.Valid() && |img| == s.rows * s.cols
    ensures |h| == |img|
  {
    seq(|img|, m requires 0 <= m < |img| =>
      CellOfIndex(m, s.rows, s.cols);
      HValue(img, s, m / s.cols, m % s.cols))
  }

  /** The vertical pass over the whole image: each pixel filtered along its column of `h`. */
  function VerticalPass(h: seq<int>, s: Setting): (v: seq<int>)
    requires s.Valid() && |h| == s.rows * s.cols
    ensures |v| == |h|
  {
    seq(|h|, m requires 0 <= m < |h| =>
      CellOfIndex(m, s.rows, s.cols);
      VValue(h, s, m / s.cols, m % s.cols))
  }

  /** The separable filter: the vertical pass over the result of the horizontal pass. */
  function SeparableFilter(img: seq<int>, s: Setting): (v: seq<int>)
    requires s.Valid() && |img| == s.rows * s.cols
    ensures |v| == |img|
  {
    VerticalPass(HorizontalPass(img, s), s)
  }

  /** Pixel (i, j) of the separable result: the column filter over column j of the row-filtered
      image, whose cell (r, j) is the row filter over row r of the input. */
  lemma SeparablePixel(img: seq<int>, s: Setting, i: nat, j: nat)
    requires s.Valid() && |img| == s.rows * s.cols && i < s.rows && j < s.cols
    ensures i * s.cols + j < |img|
    ensures forall r :: 0 <= r < s.rows ==>
              Column(HorizontalPass(img, s), s.rows, s.cols, j)[r] == HValue(img, s, r, j)
    ensures SeparableFilter(img, s)[i * s.cols + j] == VValue(HorizontalPass(img, s), s, i, j)
  {
    CellInBounds(i, j, s.rows, s.cols);
    DivModOfCell(i, j, s.cols);
    forall r | 0 <= r < s.rows
      ensures Column(HorizontalPass(img, s), s.rows, s.cols, j)[r] == HValue(img, s, r, j)
    {
      CellInBounds(r, j, s.rows, s.cols);
      DivModOfCell(r, j, s.cols);
    }
  }

  /** Every value of either pass lies in the range 0..m of the image it reads. */
  lemma HorizontalPassBounded(img: seq<int>, s: Setting, m: int)
    requires s.Valid() && |img| == s.rows * s.cols && 0 <= m && Bounded(img, m)
    ensures Bounded(HorizontalPass(img, s), m)
  {
    var h := HorizontalPass(img, s);
    forall k | 0 <= k < |img| ensures 0 <= h[k] <= m {
      CellOfIndex(k, s.rows, s.cols);
      var i, j := k / s.cols, k % s.cols;
      CellInBounds(i, j, s.rows, s.cols);
      FilteredInRange(Row(img, s.cols, i), s.kt, s.n, j, s.pol, m);
    }
  }

  lemma VerticalPassBounded(h: seq<int>, s: Setting, m: int)
    requires s.Valid() && |h| == s.rows * s.cols && 0 <= m && Bounded(h, m)
    ensures Bounded(VerticalPass(h, s), m)
  {
    var v := VerticalPass(h, s);
    forall k | 0 <= k < |h| ensures 0 <= v[k] <= m {
      CellOfIndex(k, s.rows, s.cols);
      var j := k % s.cols;
      ColumnBounded(h, s.rows, s.cols, j, m);
      FilteredInRange(Column(h, s.rows, s.cols, j), s.ks, s.n, k / s.cols, s.pol, m);
    }
  }

  /** Every value of the separable result lies in the range 0..m of the input. */
  lemma SeparableBounded(img: seq<int>, s: Setting, m: int)
    requires s.Valid() && |img| == s.rows * s.cols && 0 <= m && Bounded(img, m)
    ensures Bounded(SeparableFilter(img, s), m)
  {
    HorizontalPassBounded(img, s, m);
    VerticalPassBounded(HorizontalPass(img, s), s, m);
  }

  /** With radius 0 each pass is the identity. */
  lemma HorizontalPassRadiusZero(img: seq<int>, s: Setting)
    requires s.Valid() && |img| == s.rows * s.cols && s.n == 0
    ensures HorizontalPass(img, s) == img
  {
    UnitKernel(s.kt);
    var h := HorizontalPass(img, s);
    forall k | 0 <= k < |img| ensures h[k] == img[k] {
      CellOfIndex(k, s.rows, s.cols);
      var i, j := k / s.cols, k % s.cols;
      CellInBounds(i, j, s.rows, s.cols);
      RadiusZeroIdentity(Row(img, s.cols, i), j, s.pol);
    }
  }

  lemma VerticalPassRadiusZero(h: seq<int>, s: Setting)
    requires s.Valid() && |h| == s.rows * s.cols && s.n == 0
    ensures VerticalPass(h, s) == h
  {
    UnitKernel(s.ks);
    var v := VerticalPass(h, s);
    forall k | 0 <= k < |h| ensures v[k] == h[k] {
      CellOfIndex(k, s.rows, s.cols);
      var i, j := k / s.cols, k % s.cols;
      CellInBounds(i, j, s.rows, s.cols);
      RadiusZeroIdentity(Column(h, s.rows, s.cols, j), i, s.pol);
    }
  }

  /** With radius 0 the separable filter is the identity. */
  lemma SeparableRadiusZero(img: seq<int>, s: Setting)
    requires s.Valid() && |img| == s.rows * s.cols && s.n == 0
    ensures SeparableFilter(img, s) == img
  {
    HorizontalPassRadiusZero(img, s);
    VerticalPassRadiusZero(img, s);
  }

  /** The weights 1/4, 1/2, 1/4: a kernel of radius 1. */
  function QuarterKernel(): (w: seq<real>)
    ensures IsKernel(w, 1) && Sum(w) == 1.0
  {
    var w := [0.25, 0.5, 0.25];
    assert Sum(w) == 1.0 by {
      assert w[..2] == [0.25, 0.5];
      assert w[..2][..1] == [0.25];
      assert [0.25][..0] == [];
    }
    w
  }

  /** A Gaussian whose values at offsets -1 and 1 are half its value at 0 (sigma about 0.85)
      gives, after the division loops, exactly the weights 1/4, 1/2, 1/4. */
  lemma KernelOfHalfSides(gauss: int -> real)
    requires gauss(0) > 0.0 && gauss(-1) == gauss(0) / 2.0 && gauss(1) == gauss(0) / 2.0
    ensures Positive(gauss, 1) && KernelOf(gauss, 1) == QuarterKernel()
  {
    assert Positive(gauss, 1) by {
      forall a | -1 <= a <= 1 ensures gauss(a) > 0.0 {
        assert a == -1 || a == 0 || a == 1;
      }
    }
    var g := gauss(0);
    var raw := RawKernel(gauss, 1);
    assert raw == [g / 2.0, g, g / 2.0];
    SumOfThree(g / 2.0, g, g / 2.0);
    KernelOfIsNormalized(gauss, 1);
    HalfSidesRatios(g);
    var w := KernelOf(gauss, 1);
    assert w[0] == 0.25 && w[1] == 0.5 && w[2] == 0.25;
  }

  /** The sum of three reals, unfolded. */
  lemma SumOfThree(x: real, y: real, z: real)
    ensures Sum([x, y, z]) == x + y + z
  {
    assert [x, y, z][..2] == [x, y];
    assert [x, y][..1] == [x];
    assert [x][..0] == [];
    assert Sum([x]) == x;
    assert Sum([x, y]) == Sum([x]) + y;
  }

  /** Dividing g / 2, g and g / 2 by their sum 2g. */
  lemma HalfSidesRatios(g: real)
    requires g > 0.0
    ensures (g / 2.0) / (g / 2.0 + g + g / 2.0) == 0.25
    ensures g / (g / 2.0 + g + g / 2.0) == 0.5
  {
    assert g / 2.0 + g + g / 2.0 == 2.0 * g;
  }

  /** Both counterexample settings are what gaussianfilterSep builds from such a Gaussian,
      with n = 1, under zero-paddle. */
  lemma CounterexamplesAreCalls(gauss: int -> real)
    requires gauss(0) > 0.0 && gauss(-1) == gauss(0) / 2.0 && gauss(1) == gauss(0) / 2.0
    ensures Positive(gauss, 1)
    ensures SettingOf(1, 2, 1, gauss, gauss, ZeroPaddle) == Counterexample()
    ensures SettingOf(3, 3, 1, gauss, gauss, ZeroPaddle) == ConstantCounterexample()
  {
    KernelOfHalfSides(gauss);
  }

  /** The setting of the counterexample: one row of two pixels, radius 1, weights 1/4, 1/2,
      1/4 in both directions, zero-paddle. */
  function Counterexample(): (s: Setting)
    ensures s.Valid() && s.rows == 1 && s.cols == 2 && s.n == 1 && s.pol == ZeroPaddle
  {
    Setting(1, 2, 1, QuarterKernel(), QuarterKernel(), ZeroPaddle)
  }

  /** The filter values the counterexample needs, one line at a time. */
  lemma CounterexampleLines()
    ensures Filtered([200, 0], Counterexample().kt, 1, 0, ZeroPaddle) == 100
    ensures Filtered([200, 0], Counterexample().kt, 1, 1, ZeroPaddle) == 50
    ensures Filtered([100, 0], Counterexample().kt, 1, 1, ZeroPaddle) == 25
    ensures Filtered([100], Counterexample().ks, 1, 0, ZeroPaddle) == 50
    ensures Filtered([50], Counterexample().ks, 1, 0, ZeroPaddle) == 25
    ensures Filtered([25], Counterexample().ks, 1, 0, ZeroPaddle) == 12
  {
    var w := Counterexample().kt;
    FilteredOfSums([200, 0], w, 1, 0, ZeroPaddle, 100.0, 0.75);
    FilteredOfSums([200, 0], w, 1, 1, ZeroPaddle, 50.0, 0.75);
    FilteredOfSums([100, 0], w, 1, 1, ZeroPaddle, 25.0, 0.75);
    FilteredOfSums([100], w, 1, 0, ZeroPaddle, 50.0, 0.5);
    FilteredOfSums([50], w, 1, 0, ZeroPaddle, 25.0, 0.5);
    FilteredOfSums([25], w, 1, 0, ZeroPaddle, 12.5, 0.5);
  }

  /** gaussianfilterSep as written, on the 1 x 2 image [200, 0]: the second pixel's horizontal
      taps read the already filtered 100 at its left instead of the input's 200, so the call
      returns [50, 12] and leaves [100, 25] in the input buffer. */
  lemma AliasingCounterexample()
    ensures Final([200, 0], Counterexample()) == Buffers([100, 25], [50, 12])
  {
    var s := Counterexample();
    CounterexampleLines();
    var img := [200, 0];
    assert Row(img, 2, 0) == img;
    assert Column([100, 0], 1, 2, 0) == [100];
    var r1 := Run(img, s, 0, 1);
    assert r1 == Buffers([100, 0], [50, 0]);
    assert Row([100, 0], 2, 0) == [100, 0];
    assert Column([100, 25], 1, 2, 1) == [25];
    assert Final(img, s) == Visit(r1, s, 0, 1);
  }

  /** The separable filter on the same image gives [50, 25]: the second pixel's row value is
      the filtered input 50, not 25. */
  lemma SeparableCounterexample()
    ensures HorizontalPass([200, 0], Counterexample()) == [100, 50]
    ensures SeparableFilter([200, 0], Counterexample()) == [50, 25]
  {
    var s := Counterexample();
    CounterexampleLines();
    var img := [200, 0];
    assert Row(img, 2, 0) == img;
    assert HorizontalPass(img, s) == [100, 50];
    assert Column([100, 50], 1, 2, 0) == [100];
    assert Column([100, 50], 1, 2, 1) == [50];
  }

  /** Zero-paddle on an image of one value v >= 0, filtered in two passes: pixels at least n away
      from every edge keep v, and every other pixel drops below v (when v > 0). */
  lemma SeparableConstantZeroPaddle(img: seq<int>, s: Setting, v: int, i: nat, j: nat)
    requires s.Valid() && |img| == s.rows * s.cols && s.pol == ZeroPaddle && v >= 0
    requires forall m :: 0 <= m < |img| ==> img[m] == v
    requires i < s.rows && j < s.cols
    ensures i * s.cols + j < |img|
    ensures 0 <= SeparableFilter(img, s)[i * s.cols + j] <= v
    ensures s.n <= i < s.rows - s.n && s.n <= j < s.cols - s.n ==> SeparableFilter(img, s)[i * s.cols + j] == v
    ensures v > 0 && !(s.n <= i < s.rows - s.n && s.n <= j < s.cols - s.n) ==>
              SeparableFilter(img, s)[i * s.cols + j] < v
  {
    SeparablePixel(img, s, i, j);
    SeparableBounded(img, s, v);
    var column := Column(HorizontalPass(img, s), s.rows, s.cols, j);
    ConstantPassColumn(img, s, v, j);
    if s.n <= j < s.cols - s.n {
      ConstantLineZeroPaddle(column, s.ks, s.n, i, v);
    } else if v > 0 {
      FilteredInRange(column, s.ks, s.n, i, s.pol, v - 1);
    }
  }

  /** Column j of the horizontal pass of zero-paddle on an image of one value v >= 0: all v when
      j is at least n away from the row ends, all below v (when v > 0) otherwise. */
  lemma ConstantPassColumn(img: seq<int>, s: Setting, v: int, j: nat)
    requires s.Valid() && |img| == s.rows * s.cols && s.pol == ZeroPaddle && v >= 0
    requires forall m :: 0 <= m < |img| ==> img[m] == v
    requires j < s.cols
    ensures s.n <= j < s.cols - s.n ==>
              forall r :: 0 <= r < s.rows ==> Column(HorizontalPass(img, s), s.rows, s.cols, j)[r] == v
    ensures v > 0 && !(s.n <= j < s.cols - s.n) ==> Bounded(Column(HorizontalPass(img, s), s.rows, s.cols, j), v - 1)
  {
    var h := HorizontalPass(img, s);
    var column := Column(h, s.rows, s.cols, j);
    forall r | 0 <= r < s.rows
      ensures 0 <= column[r] <= v
      ensures s.n <= j < s.cols - s.n ==> column[r] == v
      ensures v > 0 && !(s.n <= j < s.cols - s.n) ==> column[r] < v
    {
      HorizontalConstantAt(img, s, v, r, j);
      ColumnAt(h, s.rows, s.cols, j, r);
    }
  }

  /** The horizontal pass of zero-paddle on an image of one value v >= 0: v at least n away from
      the row ends, below v (when v > 0) nearer to them. */
  lemma HorizontalConstantAt(img: seq<int>, s: Setting, v: int, i: nat, j: nat)
    requires s.Valid() && |img| == s.rows * s.cols && s.pol == ZeroPaddle && v >= 0
    requires forall m :: 0 <= m < |img| ==> img[m] == v
    requires i < s.rows && j < s.cols
    ensures i * s.cols + j < |img|
    ensures 0 <= HorizontalPass(img, s)[i * s.cols + j] <= v
    ensures s.n <= j < s.cols - s.n ==> HorizontalPass(img, s)[i * s.cols + j] == v
    ensures v > 0 && !(s.n <= j < s.cols - s.n) ==> HorizontalPass(img, s)[i * s.cols + j] < v
  {
    CellInBounds(i, j, s.rows, s.cols);
    DivModOfCell(i, j, s.cols);
    HorizontalPassBounded(img, s, v);
    ConstantRow(img, s, i, v);
    ConstantLineZeroPaddle(Row(img, s.cols, i), s.kt, s.n, j, v);
  }

  /** A 3 x 3 image of 100 under zero-paddle, radius 1, weights 1/4, 1/2, 1/4. */
  function ConstantCounterexample(): (s: Setting)
    ensures IsConstantCounterexampleSetting(s)
  {
    Setting(3, 3, 1, QuarterKernel(), QuarterKernel(), ZeroPaddle)
  }

  /** The setting of the constant counterexample, as a property of a setting. */
  predicate IsConstantCounterexampleSetting(s: Setting)
  {
    s.Valid() && s.rows == 3 && s.cols == 3 && s.n == 1 && s.kt == QuarterKernel() &&
    s.ks == QuarterKernel() && s.pol == ZeroPaddle
  }

  function ConstantImage100(): (img: seq<int>)
    ensures |img| == 9 && forall m :: 0 <= m < |img| ==> img[m] == 100
  {
    seq(9, _ => 100)
  }

  /** The filter values the constant counterexample needs, one line at a time. */
  lemma ConstantCounterexampleLines()
    ensures Filtered([100, 100, 100], QuarterKernel(), 1, 0, ZeroPaddle) == 75
    ensures Filtered([75, 100, 100], QuarterKernel(), 1, 1, ZeroPaddle) == 93
    ensures Filtered([93, 93, 100], QuarterKernel(), 1, 1, ZeroPaddle) == 94
  {
    var w := QuarterKernel();
    FilteredOfSums([100, 100, 100], w, 1, 0, ZeroPaddle, 75.0, 0.75);
    FilteredOfSums([75, 100, 100], w, 1, 1, ZeroPaddle, 93.75, 1.0);
    FilteredOfSums([93, 93, 100], w, 1, 1, ZeroPaddle, 94.75, 1.0);
  }

  /** gaussianfilterSep as written dims the interior of a constant image under zero-paddle: on the
      3 x 3 image of 100 the centre pixel reads a row whose left cell already holds 75 and a
      column whose upper cell already holds 93, and comes out 94, where the separable filter
      gives 100. */
  lemma ConstantAliasingCounterexample()
    ensures Final(ConstantImage100(), ConstantCounterexample()).output[4] == 94
    ensures SeparableFilter(ConstantImage100(), ConstantCounterexample())[4] == 100
  {
    CentreOfConstant(ConstantImage100(), ConstantCounterexample());
  }

  lemma CentreOfConstant(img: seq<int>, s: Setting)
    requires IsConstantCounterexampleSetting(s) && |img| == 9 && forall m :: 0 <= m < |img| ==> img[m] == 100
    ensures Final(img, s).output[4] == 94
    ensures SeparableFilter(img, s)[4] == 100
  {
    var fin := Final(img, s);
    FirstTwoOfRow(img, s, 0);
    FirstTwoOfRow(img, s, 1);
    FinalPixel(img, s, 1, 1);
    var buf := Run(img, s, 1, 2).shared;
    RunKeepsVisited(img, s, 1, 2, s.rows, 0);
    RunLeavesUnvisited(img, s, 1, 2);
    ColumnIs(buf, 93, 93, 100);
    ConstantCounterexampleLines();
    SeparableConstantZeroPaddle(img, s, 100, 1, 1);
  }

  /** On the 3 x 3 image of 100, the first two cells of row i end holding 75 and 93 in the input
      buffer. */
  lemma FirstTwoOfRow(img: seq<int>, s: Setting, i: nat)
    requires IsConstantCounterexampleSetting(s) && |img| == 9 && forall m :: 0 <= m < |img| ==> img[m] == 100
    requires i < 3
    ensures Final(img, s).shared[3 * i] == 75 && Final(img, s).shared[3 * i + 1] == 93
  {
    ConstantCounterexampleLines();
    var before := Run(img, s, i, 0).shared;
    RunLeavesUnvisited(img, s, i, 0);
    RowIs(before, i, 100, 100, 100);
    FinalPixel(img, s, i, 0);
    var after := Run(img, s, i, 1).shared;
    RunLeavesUnvisited(img, s, i, 1);
    RunKeepsVisited(img, s, i, 1, s.rows, 0);
    RowIs(after, i, 75, 100, 100);
    FinalPixel(img, s, i, 1);
  }

  lemma RowIs(buf: seq<int>, i: nat, a: int, b: int, c: int)
    requires |buf| == 9 && i < 3 && buf[3 * i] == a && buf[3 * i + 1] == b && buf[3 * i + 2] == c
    ensures Row(buf, 3, i) == [a, b, c]
  {
  }

  lemma ColumnIs(buf: seq<int>, a: int, b: int, c: int)
    requires |buf| == 9 && buf[1] == a && buf[4] == b && buf[7] == c
    ensures Column(buf, 3, 3, 1) == [a, b, c]
  {
  }
}
