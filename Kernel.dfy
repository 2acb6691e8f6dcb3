/** Construction of the two 1-D Gaussian kernels of the separable filter.
    The Gaussian itself, exp(-k^2 / (2 sigma^2)), is floating-point numerics; the model takes it
    as a parameter `gauss` that is strictly positive on the offsets of the kernel. */
module Kernel {

  /** Sum of a sequence of reals, accumulated left to right as the source's loops do. */
  function Sum(s: seq<real>): real
  {
    if |s| == 0 then 0.0 else Sum(s[..|s| - 1]) + s[|s| - 1]
  }

  /** The Gaussian is strictly positive at every offset -n..n of a kernel of radius n. */
  predicate Positive(gauss: int -> real, n: nat)
  {
    forall a :: -(n as int) <= a <= n ==> gauss(a) > 0.0
  }

  /** Unnormalised kernel: slot a + n holds the Gaussian at offset a. */
  function RawKernel(gauss: int -> real, n: nat): seq<real>
  {
    seq(2 * n + 1, k => gauss(k - n))
  }

  /** Every element divided by d. */
  function Divide(s: seq<real>, d: real): seq<real>
    requires d != 0.0
  {
    seq(|s|, k requires 0 <= k < |s| => s[k] / d)
  }

  /** Every weight divided by the sum of all weights. */
  function Normalize(raw: seq<real>): seq<real>
    requires Sum(raw) != 0.0
  {
    Divide(raw, Sum(raw))
  }

  /** The normalised kernel of radius n for the Gaussian `gauss`. */
  function KernelOf(gauss: int -> real, n: nat): (w: seq<real>)
    requires Positive(gauss, n)
    ensures |w| == 2 * n + 1 && Sum(w) == 1.0
  {
    RawSumPositive(gauss, n);
    NormalizedSumsToOne(RawKernel(gauss, n));
    Normalize(RawKernel(gauss, n))
  }

  /** A kernel of radius n: 2n+1 strictly positive weights. */
  predicate IsKernel(w: seq<real>, n: nat)
  {
    |w| == 2 * n + 1 && forall k :: 0 <= k < |w| ==> w[k] > 0.0
  }

  lemma {:induction false} SumOfPositives(s: seq<real>)
    requires forall k :: 0 <= k < |s| ==> s[k] > 0.0
    ensures |s| > 0 ==> Sum(s) > 0.0
    ensures Sum(s) >= 0.0
  {
    if |s| > 0 {
      SumOfPositives(s[..|s| - 1]);
    }
  }

  lemma RawSumPositive(gauss: int -> real, n: nat)
    requires Positive(gauss, n)
    ensures Sum(RawKernel(gauss, n)) > 0.0
  {
    var raw := RawKernel(gauss, n);
    forall k | 0 <= k < |raw| ensures raw[k] > 0.0 {
      assert raw[k] == gauss(k - n);
    }
    SumOfPositives(raw);
  }

  /** x times y, as a function of its own: the tap products of the filter loops then reach the
      solver as one term, which lemmas stated about a product in one module can be matched
      against in another without the solver reasoning about real multiplication again. */
  function Scaled(x: real, y: real): real
  {
    x * y
  }

  /** Scaling every element by x scales the sum by x. */
  lemma {:induction false} SumScaled(a: seq<real>, b: seq<real>, x: real)
    requires |a| == |b| && forall k :: 0 <= k < |a| ==> a[k] == Scaled(x, b[k])
    ensures Sum(a) == Scaled(x, Sum(b))
  {
    if |a| > 0 {
      SumScaled(a[..|a| - 1], b[..|b| - 1], x);
      assert x * Sum(b) == x * Sum(b[..|b| - 1]) + x * b[|b| - 1];
    }
  }

  /** Dividing every element by d divides the sum by d. */
  lemma SumDivided(s: seq<real>, d: real)
    requires d != 0.0
    ensures Sum(Divide(s, d)) == Sum(s) / d
  {
    var q := Divide(s, d);
    forall k | 0 <= k < |q| ensures q[k] == Scaled(1.0 / d, s[k]) { }
    SumScaled(q, s, 1.0 / d);
  }

  /** After the division loops the weights sum to one (exactly, over the reals). */
  lemma NormalizedSumsToOne(raw: seq<real>)
    requires Sum(raw) != 0.0
    ensures |Normalize(raw)| == |raw|
    ensures Sum(Normalize(raw)) == 1.0
  {
    var total := Sum(raw);
    SumDivided(raw, total);
    assert Normalize(raw) == Divide(raw, total);
    assert total / total == 1.0;
  }

  /** A positive real divided by a positive real is positive. */
  lemma DivPositive(x: real, y: real)
    requires x > 0.0 && y > 0.0
    ensures x / y > 0.0
  {
  }

  /** The kernel of any radius is a proper kernel: 2n+1 positive weights summing to one,
      each weight the raw Gaussian divided by the sum of all raw weights. */
  lemma KernelOfIsNormalized(gauss: int -> real, n: nat)
    requires Positive(gauss, n)
    ensures IsKernel(KernelOf(gauss, n), n)
    ensures Sum(KernelOf(gauss, n)) == 1.0
    ensures Sum(RawKernel(gauss, n)) > 0.0
    ensures forall a :: -(n as int) <= a <= n ==> KernelOf(gauss, n)[a + n] == gauss(a) / Sum(RawKernel(gauss, n))
  {
    RawSumPositive(gauss, n);
    NormalizedSumsToOne(RawKernel(gauss, n));
    var w := KernelOf(gauss, n);
    forall k | 0 <= k < |w| ensures w[k] > 0.0 {
      assert w[k] == gauss(k - n) / Sum(RawKernel(gauss, n));
      DivPositive(gauss(k - n), Sum(RawKernel(gauss, n)));
    }
  }

  /** With radius 0 the kernel is the single weight 1, whatever the Gaussian. */
  lemma KernelOfRadiusZero(gauss: int -> real)
    requires Positive(gauss, 0)
    ensures KernelOf(gauss, 0) == [1.0]
  {
    var raw := RawKernel(gauss, 0);
    assert Sum(raw) == Sum(raw[..0]) + raw[0];
    assert Sum(raw) == gauss(0);
    assert KernelOf(gauss, 0) == Divide(raw, gauss(0));
    assert gauss(0) / gauss(0) == 1.0;
  }

  /** The Gaussian depends on the offset only through its square, so the kernel built from it is
      symmetric about its centre slot n: offsets a and -a get the same weight. */
  lemma KernelOfSymmetric(gauss: int -> real, n: nat, a: int)
    requires Positive(gauss, n) && -(n as int) <= a <= n && gauss(-a) == gauss(a)
    ensures KernelOf(gauss, n)[n + a] == KernelOf(gauss, n)[n - a]
  {
    KernelOfIsNormalized(gauss, n);
    assert KernelOf(gauss, n)[a + n] == gauss(a) / Sum(RawKernel(gauss, n));
    assert KernelOf(gauss, n)[-a + n] == gauss(-a) / Sum(RawKernel(gauss, n));
  }

  /** The only kernel of radius 0 that sums to one is the single weight 1. */
  lemma UnitKernel(w: seq<real>)
    requires IsKernel(w, 0) && Sum(w) == 1.0
    ensures w == [1.0]
  {
    assert Sum(w) == Sum(w[..0]) + w[0];
  }

  /** The division loop of gaussianfilterSep: every slot of the kernel divided in place by the
      sum of the Gaussian. */
  method DivideAll(kernel: array<real>, denom: real)
    requires denom != 0.0
    modifies kernel
    ensures kernel[..] == Divide(old(kernel[..]), denom)
  {
    ghost var raw := kernel[..];
    for k := 0 to kernel.Length
      invariant forall q :: 0 <= q < k ==> kernel[q] == raw[q] / denom
      invariant forall q :: k <= q < kernel.Length ==> kernel[q] == raw[q]
    {
      kernel[k] := kernel[k] / denom;
    }
  }

  /** The filling loop of gaussianfilterSep: slot a + n receives the Gaussian at offset a, and
      denom accumulates the slots in order. */
  method FillKernel(n: nat, gauss: int -> real) returns (kernel: array<real>, denom: real)
    ensures fresh(kernel) && kernel.Length == 2 * n + 1
    ensures kernel[..] == RawKernel(gauss, n)
    ensures denom == Sum(RawKernel(gauss, n))
  {
    ghost var raw := RawKernel(gauss, n);
    kernel := new real[2 * n + 1](_ => 0.0);
    denom := 0.0;
    for a := -(n as int) to n + 1
      invariant forall k :: 0 <= k < a + n ==> kernel[k] == raw[k]
      invariant denom == Sum(raw[..a + n])
    {
      var value := gauss(a);
      kernel[a + n] := value;
      assert raw[..a + n + 1][..a + n] == raw[..a + n];
      assert raw[a + n] == value;
      denom := denom + value;
    }
    assert raw[..2 * n + 1] == raw;
  }

  /** The kernel loops of gaussianfilterSep: fill the 2n+1 slots with the Gaussian while summing it,
      then divide every slot in place by the sum. */
  method BuildKernel(n: nat, gauss: int -> real) returns (kernel: array<real>)
    requires Positive(gauss, n)
    ensures fresh(kernel) && kernel.Length == 2 * n + 1
    ensures kernel[..] == KernelOf(gauss, n)
    ensures Sum(kernel[..]) == 1.0
    ensures forall k :: 0 <= k < kernel.Length ==> kernel[k] > 0.0
  {
    var denom;
    kernel, denom := FillKernel(n, gauss);
    RawSumPositive(gauss, n);
    DivideAll(kernel, denom);
    KernelOfIsNormalized(gauss, n);
  }
}
