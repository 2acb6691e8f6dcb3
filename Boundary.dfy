/** One pass of the separable filter along one axis, for a single output sample: the weighted sum
    of the taps at offsets -n..n around position p of a line (a row for the horizontal pass, a
    column for the vertical pass), under one of the three boundary policies. */
module Boundary {
  import opened Kernel

  /** The boundary policies named by the option string. */
  datatype Policy = ZeroPaddle | Mirroring | AdjustKernel

  datatype Option<T> = None | Some(value: T)

  /** The option string that names a policy. */
  function NameOf(pol: Policy): string
  {
    match pol
    case ZeroPaddle => "zero-paddle"
    case Mirroring => "mirroring"
    case AdjustKernel => "adjustkernel"
  }

  /** The strcmp chain of gaussianfilterSep: only the three exact names select a policy, and each
      selects the policy it names. */
  function PolicyOf(opt: string): (r: Option<Policy>)
    ensures r.Some? ==> NameOf(r.value) == opt
    ensures r.None? ==> forall pol :: NameOf(pol) != opt
  {
    if opt == "zero-paddle" then Some(ZeroPaddle)
    else if opt == "mirroring" then Some(Mirroring)
    else if opt == "adjustkernel" then Some(AdjustKernel)
    else None
  }

  /** The source's range test `q <= len - 1 && q >= 0`. */
  predicate InRange(q: int, len: int)
  {
    0 <= q <= len - 1
  }

  /** Mirroring's index rule: past the far edge the tap is reflected about the current position
      p (p - o); before 0 it is reflected about index 0 (-(p + o)). */
  function MirrorIndex(p: int, o: int, len: int): int
  {
    if p + o > len - 1 then p - o
    else if p + o < 0 then -(p + o)
    else p + o
  }

  /** Whether the tap at offset o contributes: zero-paddle and adjustkernel drop the taps that
      fall outside the line, mirroring keeps all of them. */
  predicate Kept(pol: Policy, p: int, o: int, len: int)
  {
    pol == Mirroring || InRange(p + o, len)
  }

  /** Position along the line that the tap at offset o reads. */
  function TapIndex(pol: Policy, p: int, o: int, len: int): int
  {
    if pol == Mirroring then MirrorIndex(p, o, len) else p + o
  }

  /** Every tap that falls inside the line contributes under every policy, and reads the sample
      at its own offset. */
  lemma InRangeTapRead(pol: Policy, p: int, o: int, len: int)
    requires InRange(p + o, len)
    ensures Kept(pol, p, o, len) && TapIndex(pol, p, o, len) == p + o
  {
  }

  /** Mirroring reads inside the line only when the kernel is at most as wide as the line. */
  predicate Fits(pol: Policy, n: nat, len: nat)
  {
    pol == Mirroring ==> 2 * n <= len
  }

  /** Every sample of a line lies in 0..m. */
  predicate Bounded(line: seq<int>, m: int)
  {
    forall k :: 0 <= k < |line| ==> 0 <= line[k] <= m
  }

  /** With 2n <= len the mirrored index stays in the line: it is p + o when that is in range,
      it is strictly positive when p + o falls before 0, and with n = 0 it is p itself. Under
      either reflection (about p past the far edge, about 0 before 0) the tap read is never
      farther from p than o. */
  lemma MirrorIndexInRange(p: int, o: int, len: int, n: nat)
    requires 0 <= p < len && -(n as int) <= o <= n && 2 * n <= len
    ensures 0 <= MirrorIndex(p, o, len) < len
    ensures InRange(p + o, len) ==> MirrorIndex(p, o, len) == p + o
    ensures p + o < 0 ==> MirrorIndex(p, o, len) > 0
    ensures n == 0 ==> MirrorIndex(p, o, len) == p
    ensures var r := MirrorIndex(p, o, len); if o >= 0 then p - o <= r <= p + o else p + o <= r <= p - o
  {
  }

  /** The bound 2n <= len is exact: on any non-empty line shorter than 2n some tap of the
      mirroring rule reads outside the line. */
  lemma MirrorBoundIsTight(len: nat, n: nat)
    requires 0 < len < 2 * n
    ensures exists p, o :: 0 <= p < len && -(n as int) <= o <= n && !InRange(MirrorIndex(p, o, len), len)
  {
    var p, o := len / 2, len / 2 + 1;
    assert MirrorIndex(p, o, len) == -1;
  }

  lemma TapIndexInRange(pol: Policy, p: int, o: int, len: nat, n: nat)
    requires 0 <= p < len && -(n as int) <= o <= n && Fits(pol, n, len) && Kept(pol, p, o, len)
    ensures 0 <= TapIndex(pol, p, o, len) < len
  {
    if pol == Mirroring {
      MirrorIndexInRange(p, o, len, n);
    }
  }

  /** Contribution of the tap at offset o to the weighted sum. */
  function Tap(line: seq<int>, w: seq<real>, n: nat, p: nat, pol: Policy, o: int): real
    requires |w| == 2 * n + 1 && p < |line| && Fits(pol, n, |line|)
    requires -(n as int) <= o <= n
  {
    if Kept(pol, p, o, |line|) then
      TapIndexInRange(pol, p, o, |line|, n);
      Scaled(w[o + n], line[TapIndex(pol, p, o, |line|)] as real)
    else 0.0
  }

  /** Weight of the tap at offset o if it contributes, 0 otherwise. */
  function Weight(w: seq<real>, n: nat, p: nat, len: nat, pol: Policy, o: int): real
    requires |w| == 2 * n + 1 && -(n as int) <= o <= n
  {
    if Kept(pol, p, o, len) then w[o + n] else 0.0
  }

  /** The accumulator `sum1` after the taps at offsets -n..hi-1. */
  function TapSum(line: seq<int>, w: seq<real>, n: nat, p: nat, pol: Policy, hi: int): real
    requires |w| == 2 * n + 1 && p < |line| && Fits(pol, n, |line|)
    requires -(n as int) <= hi <= n + 1
    decreases hi + n
  {
    if hi == -(n as int) then 0.0
    else TapSum(line, w, n, p, pol, hi - 1) + Tap(line, w, n, p, pol, hi - 1)
  }

  /** The accumulator `sum2` (the weights of the contributing taps) after offsets -n..hi-1. */
  function WeightSum(w: seq<real>, n: nat, p: nat, len: nat, pol: Policy, hi: int): real
    requires |w| == 2 * n + 1 && -(n as int) <= hi <= n + 1
    decreases hi + n
  {
    if hi == -(n as int) then 0.0
    else WeightSum(w, n, p, len, pol, hi - 1) + Weight(w, n, p, len, pol, hi - 1)
  }

  /** One step of the tap loop: the tap at offset o adds its weight times the sample x it reads
      to sum1, and its weight to sum2, when it contributes, and nothing otherwise. */
  lemma TapStep(line: seq<int>, w: seq<real>, n: nat, p: nat, pol: Policy, o: int, x: int)
    requires |w| == 2 * n + 1 && p < |line| && Fits(pol, n, |line|) && -(n as int) <= o <= n
    requires Kept(pol, p, o, |line|) ==>
               0 <= TapIndex(pol, p, o, |line|) < |line| && line[TapIndex(pol, p, o, |line|)] == x
    ensures TapSum(line, w, n, p, pol, o + 1) ==
              TapSum(line, w, n, p, pol, o) + if Kept(pol, p, o, |line|) then Scaled(w[o + n], x as real) else 0.0
    ensures WeightSum(w, n, p, |line|, pol, o + 1) ==
              WeightSum(w, n, p, |line|, pol, o) + if Kept(pol, p, o, |line|) then w[o + n] else 0.0
  {
  }

  /** C's conversion of a floating value to an integer type: truncation toward zero. */
  function Truncate(x: real): int
  {
    if x >= 0.0 then x.Floor else -((-x).Floor)
  }

  /** The cast rounds toward zero: it drops the fraction, down for a non-negative value and up
      for a negative one. */
  lemma TruncateTowardZero(x: real)
    ensures x >= 0.0 ==> 0 <= Truncate(x) && Truncate(x) as real <= x < Truncate(x) as real + 1.0
    ensures x < 0.0 ==> Truncate(x) <= 0 && Truncate(x) as real - 1.0 < x <= Truncate(x) as real
  {
  }

  /** The value the source writes for position p: the truncated weighted sum, divided first by
      the sum of the contributing weights under adjustkernel. */
  function Filtered(line: seq<int>, w: seq<real>, n: nat, p: nat, pol: Policy): int
    requires IsKernel(w, n) && p < |line| && Fits(pol, n, |line|)
  {
    if pol == AdjustKernel then
      DenominatorPositive(w, n, p, |line|, pol, n + 1);
      Truncate(TapSum(line, w, n, p, pol, n + 1) / WeightSum(w, n, p, |line|, pol, n + 1))
    else Truncate(TapSum(line, w, n, p, pol, n + 1))
  }

  /** The value written, in terms of the two accumulators at the end of the tap loop; the
      division by sum2 of adjustkernel is by a positive number. */
  lemma FilteredOfSums(line: seq<int>, w: seq<real>, n: nat, p: nat, pol: Policy, sum1: real, sum2: real)
    requires IsKernel(w, n) && p < |line| && Fits(pol, n, |line|)
    requires sum1 == TapSum(line, w, n, p, pol, n + 1) && sum2 == WeightSum(w, n, p, |line|, pol, n + 1)
    ensures sum2 > 0.0
    ensures Filtered(line, w, n, p, pol) == if pol == AdjustKernel then Truncate(sum1 / sum2) else Truncate(sum1)
  {
    DenominatorPositive(w, n, p, |line|, pol, n + 1);
  }

  /** The cast that ends the tap loop: with samples in 0..m the value written lies in 0..m and
      is the filtered value of the line. */
  lemma CastOfSums(line: seq<int>, w: seq<real>, n: nat, p: nat, pol: Policy, sum1: real, sum2: real, m: int)
    requires IsKernel(w, n) && Sum(w) == 1.0 && p < |line| && Fits(pol, n, |line|) && Bounded(line, m)
    requires sum1 == TapSum(line, w, n, p, pol, n + 1) && sum2 == WeightSum(w, n, p, |line|, pol, n + 1)
    ensures sum2 > 0.0
    ensures var r := if pol == AdjustKernel then Truncate(sum1 / sum2) else Truncate(sum1);
            0 <= r <= m && r == Filtered(line, w, n, p, pol)
  {
    FilteredOfSums(line, w, n, p, pol, sum1, sum2);
    FilteredInRange(line, w, n, p, pol, m);
  }

  /** The centre tap (offset 0) is always in range, so once it has been accumulated the sum of
      the contributing weights is at least the centre weight: adjustkernel never divides by 0. */
  lemma {:induction false} DenominatorPositive(w: seq<real>, n: nat, p: nat, len: nat, pol: Policy, hi: int)
    requires IsKernel(w, n) && p < len && -(n as int) <= hi <= n + 1
    ensures WeightSum(w, n, p, len, pol, hi) >= 0.0
    ensures hi > 0 ==> WeightSum(w, n, p, len, pol, hi) >= w[n] > 0.0
    decreases hi + n
  {
    if hi > -(n as int) {
      DenominatorPositive(w, n, p, len, pol, hi - 1);
    }
  }

  /** The contributing weights never sum to more than all the weights seen so far. */
  lemma {:induction false} WeightSumAtMostPrefix(w: seq<real>, n: nat, p: nat, len: nat, pol: Policy, hi: int)
    requires IsKernel(w, n) && -(n as int) <= hi <= n + 1
    ensures WeightSum(w, n, p, len, pol, hi) <= Sum(w[..hi + n])
    ensures (forall o :: -(n as int) <= o < hi ==> Kept(pol, p, o, len)) ==>
              WeightSum(w, n, p, len, pol, hi) == Sum(w[..hi + n])
    decreases hi + n
  {
    if hi > -(n as int) {
      WeightSumAtMostPrefix(w, n, p, len, pol, hi - 1);
      assert w[..hi + n][..hi + n - 1] == w[..hi + n - 1];
    }
  }

  /** A dropped tap takes its whole weight out of the sum of the contributing weights. */
  lemma {:induction false} WeightSumWithoutDropped(w: seq<real>, n: nat, p: nat, len: nat, pol: Policy, hi: int, d: int)
    requires IsKernel(w, n) && -(n as int) <= d < hi <= n + 1 && !Kept(pol, p, d, len)
    ensures WeightSum(w, n, p, len, pol, hi) <= Sum(w[..hi + n]) - w[d + n]
    decreases hi + n
  {
    assert w[..hi + n][..hi + n - 1] == w[..hi + n - 1];
    if hi - 1 == d {
      WeightSumAtMostPrefix(w, n, p, len, pol, hi - 1);
    } else {
      WeightSumWithoutDropped(w, n, p, len, pol, hi - 1, d);
    }
  }

  /** One tap reads a sample in 0..m, so it contributes between 0 and m times its weight. */
  lemma TapBounds(line: seq<int>, w: seq<real>, n: nat, p: nat, pol: Policy, o: int, m: int)
    requires IsKernel(w, n) && p < |line| && Fits(pol, n, |line|) && -(n as int) <= o <= n
    requires Bounded(line, m)
    ensures 0.0 <= Tap(line, w, n, p, pol, o) <= Scaled(m as real, Weight(w, n, p, |line|, pol, o))
  {
    if Kept(pol, p, o, |line|) {
      TapIndexInRange(pol, p, o, |line|, n);
      var x := line[TapIndex(pol, p, o, |line|)] as real;
      ScaleBounds(w[o + n], x, m as real);
    } else {
      assert 0 <= line[p] <= m;
    }
  }

  /** With samples in 0..m the weighted sum lies between 0 and m times the contributing weights. */
  lemma {:induction false} TapSumBounds(line: seq<int>, w: seq<real>, n: nat, p: nat, pol: Policy, hi: int, m: int)
    requires IsKernel(w, n) && p < |line| && Fits(pol, n, |line|) && -(n as int) <= hi <= n + 1
    requires Bounded(line, m)
    ensures 0.0 <= TapSum(line, w, n, p, pol, hi) <= Scaled(m as real, WeightSum(w, n, p, |line|, pol, hi))
    decreases hi + n
  {
    if hi > -(n as int) {
      var o := hi - 1;
      TapSumBounds(line, w, n, p, pol, o, m);
      TapBounds(line, w, n, p, pol, o, m);
      Distribute(m as real, WeightSum(w, n, p, |line|, pol, o), Weight(w, n, p, |line|, pol, o));
    }
  }

  lemma Distribute(x: real, c: real, d: real)
    ensures Scaled(x, c + d) == Scaled(x, c) + Scaled(x, d)
  {
  }

  lemma ScaleBounds(c: real, x: real, m: real)
    requires c > 0.0 && 0.0 <= x <= m
    ensures 0.0 <= Scaled(c, x) <= Scaled(m, c)
  {
  }

  /** The contributions of all 2n+1 taps, in offset order. */
  function Taps(line: seq<int>, w: seq<real>, n: nat, p: nat, pol: Policy): (t: seq<real>)
    requires |w| == 2 * n + 1 && p < |line| && Fits(pol, n, |line|)
    ensures |t| == 2 * n + 1
  {
    seq(2 * n + 1, k requires 0 <= k < 2 * n + 1 => Tap(line, w, n, p, pol, k - n))
  }

  /** The contributing weights of all 2n+1 taps, in offset order. */
  function Weights(w: seq<real>, n: nat, p: nat, len: nat, pol: Policy): (t: seq<real>)
    requires |w| == 2 * n + 1
    ensures |t| == 2 * n + 1
  {
    seq(2 * n + 1, k requires 0 <= k < 2 * n + 1 => Weight(w, n, p, len, pol, k - n))
  }

  /** The accumulators after offsets -n..hi-1 are the sums of the first hi + n contributions. */
  lemma {:induction false} SumsArePrefixSums(line: seq<int>, w: seq<real>, n: nat, p: nat, pol: Policy, hi: int)
    requires |w| == 2 * n + 1 && p < |line| && Fits(pol, n, |line|) && -(n as int) <= hi <= n + 1
    ensures TapSum(line, w, n, p, pol, hi) == Sum(Taps(line, w, n, p, pol)[..hi + n])
    ensures WeightSum(w, n, p, |line|, pol, hi) == Sum(Weights(w, n, p, |line|, pol)[..hi + n])
    decreases hi + n
  {
    if hi > -(n as int) {
      SumsArePrefixSums(line, w, n, p, pol, hi - 1);
      var t, u := Taps(line, w, n, p, pol), Weights(w, n, p, |line|, pol);
      assert t[..hi + n][..hi + n - 1] == t[..hi + n - 1];
      assert u[..hi + n][..hi + n - 1] == u[..hi + n - 1];
    }
  }

  /** On a line of one constant value v the weighted sum is v times the contributing weights. */
  lemma TapSumConstant(line: seq<int>, w: seq<real>, n: nat, p: nat, pol: Policy, v: int)
    requires |w| == 2 * n + 1 && p < |line| && Fits(pol, n, |line|)
    requires forall k :: 0 <= k < |line| ==> line[k] == v
    ensures TapSum(line, w, n, p, pol, n + 1) == Scaled(v as real, WeightSum(w, n, p, |line|, pol, n + 1))
  {
    TapsConstant(line, w, n, p, pol, v);
    var t, u := Taps(line, w, n, p, pol), Weights(w, n, p, |line|, pol);
    SumScaled(t, u, v as real);
    SumsAreTotals(line, w, n, p, pol);
  }

  /** On a line of one constant value v every tap contributes v times its weight. */
  lemma TapsConstant(line: seq<int>, w: seq<real>, n: nat, p: nat, pol: Policy, v: int)
    requires |w| == 2 * n + 1 && p < |line| && Fits(pol, n, |line|)
    requires forall k :: 0 <= k < |line| ==> line[k] == v
    ensures forall k :: 0 <= k < 2 * n + 1 ==>
              Taps(line, w, n, p, pol)[k] == Scaled(v as real, Weights(w, n, p, |line|, pol)[k])
  {
    forall k | 0 <= k < 2 * n + 1
      ensures Taps(line, w, n, p, pol)[k] == Scaled(v as real, Weights(w, n, p, |line|, pol)[k])
    {
      TapConstant(line, w, n, p, pol, k - n, v);
    }
  }

  /** At the end of the tap loop the accumulators hold the sums of all contributions. */
  lemma SumsAreTotals(line: seq<int>, w: seq<real>, n: nat, p: nat, pol: Policy)
    requires |w| == 2 * n + 1 && p < |line| && Fits(pol, n, |line|)
    ensures TapSum(line, w, n, p, pol, n + 1) == Sum(Taps(line, w, n, p, pol))
    ensures WeightSum(w, n, p, |line|, pol, n + 1) == Sum(Weights(w, n, p, |line|, pol))
  {
    SumsArePrefixSums(line, w, n, p, pol, n + 1);
    var t, u := Taps(line, w, n, p, pol), Weights(w, n, p, |line|, pol);
    assert t[..2 * n + 1] == t && u[..2 * n + 1] == u;
  }

  /** On a line of one constant value v a tap contributes v times its weight. */
  lemma TapConstant(line: seq<int>, w: seq<real>, n: nat, p: nat, pol: Policy, o: int, v: int)
    requires |w| == 2 * n + 1 && p < |line| && Fits(pol, n, |line|) && -(n as int) <= o <= n
    requires forall k :: 0 <= k < |line| ==> line[k] == v
    ensures Tap(line, w, n, p, pol, o) == Scaled(v as real, Weight(w, n, p, |line|, pol, o))
  {
    if Kept(pol, p, o, |line|) {
      TapIndexInRange(pol, p, o, |line|, n);
    }
  }

  /** Zero-paddle and adjustkernel keep the same taps, so they accumulate the same sums. */
  lemma {:induction false} ZeroPaddleAndAdjustShareSums(line: seq<int>, w: seq<real>, n: nat, p: nat, hi: int)
    requires |w| == 2 * n + 1 && p < |line| && -(n as int) <= hi <= n + 1
    ensures TapSum(line, w, n, p, ZeroPaddle, hi) == TapSum(line, w, n, p, AdjustKernel, hi)
    ensures WeightSum(w, n, p, |line|, ZeroPaddle, hi) == WeightSum(w, n, p, |line|, AdjustKernel, hi)
    decreases hi + n
  {
    if hi > -(n as int) {
      ZeroPaddleAndAdjustShareSums(line, w, n, p, hi - 1);
    }
  }

  lemma TruncateMonotone(x: real, y: real)
    requires 0.0 <= x <= y
    ensures Truncate(x) <= Truncate(y)
  {
  }

  lemma TruncateOfInt(v: int)
    ensures Truncate(v as real) == v
  {
  }

  /** The cast never leaves the sample range: with samples in 0..m and a kernel summing to 1,
      every policy yields a value in 0..m (so with m = 255 the uchar cast is always defined). */
  lemma FilteredInRange(line: seq<int>, w: seq<real>, n: nat, p: nat, pol: Policy, m: int)
    requires IsKernel(w, n) && Sum(w) == 1.0 && p < |line| && Fits(pol, n, |line|)
    requires Bounded(line, m)
    ensures 0 <= Filtered(line, w, n, p, pol) <= m
  {
    var s := TapSum(line, w, n, p, pol, n + 1);
    var ws := WeightSum(w, n, p, |line|, pol, n + 1);
    TapSumBounds(line, w, n, p, pol, n + 1, m);
    DenominatorPositive(w, n, p, |line|, pol, n + 1);
    WeightSumAtMostPrefix(w, n, p, |line|, pol, n + 1);
    assert w[..2 * n + 1] == w;
    assert 0 <= line[p] <= m;
    if pol == AdjustKernel {
      assert Filtered(line, w, n, p, pol) == Truncate(s / ws);
      QuotientInRange(s, ws, m);
    } else {
      assert Filtered(line, w, n, p, pol) == Truncate(s);
      SumInRange(s, ws, m);
    }
  }

  lemma QuotientInRange(s: real, d: real, m: int)
    requires d > 0.0 && 0.0 <= s <= Scaled(m as real, d)
    ensures 0 <= Truncate(s / d) <= m
  {
    DivideAtMost(s, d, m as real);
  }

  lemma DivideAtMost(s: real, d: real, m: real)
    requires d > 0.0 && s <= m * d
    ensures s / d <= m
  {
  }

  lemma SumInRange(s: real, d: real, m: int)
    requires 0.0 < d <= 1.0 && m >= 0 && 0.0 <= s <= Scaled(m as real, d)
    ensures 0 <= Truncate(s) <= m
  {
    assert (m as real) * d <= m as real;
  }

  /** Dropped taps are not compensated: on non-negative samples zero-paddle never exceeds
      adjustkernel, and the two agree at every position whose taps all fall inside the line. */
  lemma ZeroPaddleAtMostAdjusted(line: seq<int>, w: seq<real>, n: nat, p: nat, m: int)
    requires IsKernel(w, n) && Sum(w) == 1.0 && p < |line| && Bounded(line, m)
    ensures Filtered(line, w, n, p, ZeroPaddle) <= Filtered(line, w, n, p, AdjustKernel)
    ensures n <= p < |line| - n ==> Filtered(line, w, n, p, ZeroPaddle) == Filtered(line, w, n, p, AdjustKernel)
  {
    var s := TapSum(line, w, n, p, ZeroPaddle, n + 1);
    var ws := WeightSum(w, n, p, |line|, ZeroPaddle, n + 1);
    ZeroPaddleAndAdjustShareSums(line, w, n, p, n + 1);
    TapSumBounds(line, w, n, p, ZeroPaddle, n + 1, m);
    DenominatorPositive(w, n, p, |line|, ZeroPaddle, n + 1);
    WeightSumAtMostPrefix(w, n, p, |line|, ZeroPaddle, n + 1);
    assert w[..2 * n + 1] == w;
    DividingByAtMostOne(s, ws);
    TruncateMonotone(s, s / ws);
    if n <= p < |line| - n {
      assert ws == 1.0;
    }
  }

  lemma DividingByAtMostOne(s: real, d: real)
    requires 0.0 <= s && 0.0 < d <= 1.0
    ensures s <= s / d
    ensures d == 1.0 ==> s / d == s
  {
    var q := s / d;
    assert q * d == s;
    assert q >= 0.0;
    assert q * d <= q * 1.0;
  }

  /** Mirroring leaves a constant line unchanged: every tap reads the constant and all weights count. */
  lemma ConstantLineMirroring(line: seq<int>, w: seq<real>, n: nat, p: nat, v: int)
    requires IsKernel(w, n) && Sum(w) == 1.0 && p < |line| && 2 * n <= |line|
    requires forall k :: 0 <= k < |line| ==> line[k] == v
    ensures Filtered(line, w, n, p, Mirroring) == v
  {
    TapSumConstant(line, w, n, p, Mirroring, v);
    WeightSumAtMostPrefix(w, n, p, |line|, Mirroring, n + 1);
    assert w[..2 * n + 1] == w;
    TruncateOfInt(v);
  }

  /** Adjustkernel leaves a constant line unchanged everywhere, edges included. */
  lemma ConstantLineAdjust(line: seq<int>, w: seq<real>, n: nat, p: nat, v: int)
    requires IsKernel(w, n) && p < |line|
    requires forall k :: 0 <= k < |line| ==> line[k] == v
    ensures Filtered(line, w, n, p, AdjustKernel) == v
  {
    var ws := WeightSum(w, n, p, |line|, AdjustKernel, n + 1);
    var ts := TapSum(line, w, n, p, AdjustKernel, n + 1);
    TapSumConstant(line, w, n, p, AdjustKernel, v);
    FilteredOfSums(line, w, n, p, AdjustKernel, ts, ws);
    assert Filtered(line, w, n, p, AdjustKernel) == Truncate(ts / ws);
    MultiplyThenDivide(v, ws);
  }

  /** v times d, divided by d and cast back, is v. */
  lemma MultiplyThenDivide(v: int, d: real)
    requires d > 0.0
    ensures Truncate(Scaled(v as real, d) / d) == v
  {
    var x := Scaled(v as real, d);
    assert x == (v as real) * d;
    assert x / d == v as real;
    TruncateOfInt(v);
  }

  /** Zero-paddle on a constant line v >= 0: v wherever all taps are inside the line, and
      strictly less than v (when v > 0) within n of either end, where taps are dropped. */
  lemma ConstantLineZeroPaddle(line: seq<int>, w: seq<real>, n: nat, p: nat, v: int)
    requires IsKernel(w, n) && Sum(w) == 1.0 && p < |line| && v >= 0
    requires forall k :: 0 <= k < |line| ==> line[k] == v
    ensures Filtered(line, w, n, p, ZeroPaddle) <= v
    ensures n <= p < |line| - n ==> Filtered(line, w, n, p, ZeroPaddle) == v
    ensures v > 0 && !(n <= p < |line| - n) ==> Filtered(line, w, n, p, ZeroPaddle) < v
  {
    var ws := WeightSum(w, n, p, |line|, ZeroPaddle, n + 1);
    var ts := TapSum(line, w, n, p, ZeroPaddle, n + 1);
    TapSumConstant(line, w, n, p, ZeroPaddle, v);
    FilteredOfSums(line, w, n, p, ZeroPaddle, ts, ws);
    WeightSumAtMostPrefix(w, n, p, |line|, ZeroPaddle, n + 1);
    assert w[..2 * n + 1] == w;
    ScaledAtMost(v, ws);
    if v > 0 && !(n <= p < |line| - n) {
      var d := if p < n then -(n as int) else n;
      WeightSumWithoutDropped(w, n, p, |line|, ZeroPaddle, n + 1, d);
      ScaledBelow(v, ws);
    }
  }

  /** v >= 0 scaled by a weight total 0 < d <= 1 and cast lies in 0..v, and is v when d is 1. */
  lemma ScaledAtMost(v: int, d: real)
    requires v >= 0 && 0.0 < d <= 1.0
    ensures 0 <= Truncate(Scaled(v as real, d)) <= v
    ensures d == 1.0 ==> Truncate(Scaled(v as real, d)) == v
  {
    SumInRange(Scaled(v as real, d), d, v);
    if d == 1.0 {
      TruncateOfInt(v);
    }
  }

  lemma ScaledBelow(v: int, d: real)
    requires v > 0 && 0.0 < d < 1.0
    ensures 0 <= Truncate(Scaled(v as real, d)) < v
  {
    assert (v as real) * d < v as real;
  }

  /** With radius 0 the single tap reads the sample itself, so every policy is the identity. */
  lemma RadiusZeroIdentity(line: seq<int>, p: nat, pol: Policy)
    requires p < |line|
    ensures Filtered(line, [1.0], 0, p, pol) == line[p]
  {
    assert Kept(pol, p, 0, |line|) && TapIndex(pol, p, 0, |line|) == p;
    assert TapSum(line, [1.0], 0, p, pol, 1) == line[p] as real;
    assert WeightSum([1.0], 0, p, |line|, pol, 1) == 1.0;
    TruncateOfInt(line[p]);
  }
}
