/**
 What the 16-bit forward transform of ExtLibs/FFT/fft.c guarantees: with inputs a little inside the
 unit circle nothing wraps in any pass, and every output is close to the DFT divided by n.
 */
module FftBounds {
  import opened BitReversal
  import opened FftSchedule
  import opened Sinewave
  import opened FftFixed
  import opened Complex
  import opened Rings

  function ToC(z: Cx<int>): C {
    Cx(z.re as real, z.im as real)
  }

  // ----- one butterfly, before the results are stored into shorts

  function RawT(w: Cx<Short>, z: Cx<Short>): Cx<int> {
    Cx(FixMpy(w.re, z.re) as int - FixMpy(w.im, z.im) as int, FixMpy(w.re, z.im) as int + FixMpy(w.im, z.re) as int)
  }

  function HalfOf(q: Cx<Short>): Cx<int> {
    Cx(Half(q.re), Half(q.im))
  }

  function RawSum(w: Cx<Short>, q: Cx<Short>, z: Cx<Short>): Cx<int> {
    Cx(HalfOf(q).re + RawT(w, z).re, HalfOf(q).im + RawT(w, z).im)
  }

  function RawDifference(w: Cx<Short>, q: Cx<Short>, z: Cx<Short>): Cx<int> {
    Cx(HalfOf(q).re - RawT(w, z).re, HalfOf(q).im - RawT(w, z).im)
  }

  predicate FitsBoth(z: Cx<int>) {
    Fits(z.re) && Fits(z.im)
  }

  /** No assignment to a short in this scaled butterfly loses anything. */
  predicate NoWrap(w: Cx<Short>, q: Cx<Short>, z: Cx<Short>) {
    && w.re > -0x8000 && w.im > -0x8000
    && FitsBoth(RawT(w, z)) && FitsBoth(RawSum(w, q, z)) && FitsBoth(RawDifference(w, q, z))
  }

  lemma NoWrapExact(w: Cx<Short>, q: Cx<Short>, z: Cx<Short>)
    requires NoWrap(w, q, z)
    ensures FixStep(w, true, q, z) == (RawSum(w, q, z), RawDifference(w, q, z))
  {
  }

  // ----- rounding errors

  lemma MpyError(a: Short, b: Short)
    requires a > -0x8000
    ensures -0x4000 <= a * b - 0x8000 * FixMpy(a, b) <= 0x4000
  {
    FixMpyRounds(a, b);
  }

  lemma SmallParts(e: C, h: real, r: real)
    requires -h <= e.re <= h && -h <= e.im <= h && r >= 0.0 && 2.0 * (h * h) <= r * r
    ensures Within(e, r)
  {
    SquareBound(e.re, h);
    SquareBound(e.im, h);
  }

  lemma SquareBound(x: real, h: real)
    requires -h <= x <= h
    ensures x * x <= h * h
  {
    assert (h - x) * (h + x) == h * h - x * x;
    assert (h - x) * (h + x) >= 0.0;
  }

  /** Difference between the rounded and the exact product with the twiddle. */
  function ErrT(w: Cx<Short>, z: Cx<Short>): C {
    Sub(ToC(RawT(w, z)), Scale(1.0 / 32768.0, Mul(ToC(w), ToC(z))))
  }

  lemma ErrTSmall(w: Cx<Short>, z: Cx<Short>)
    requires w.re > -0x8000 && w.im > -0x8000
    ensures Within(ErrT(w, z), 1.5)
  {
    MpyError(w.re, z.re);
    MpyError(w.im, z.im);
    MpyError(w.re, z.im);
    MpyError(w.im, z.re);
    ProductReal(w.re, z.re);
    ProductReal(w.im, z.im);
    ProductReal(w.re, z.im);
    ProductReal(w.im, z.re);
    SmallParts(ErrT(w, z), 1.0, 1.5);
  }

  lemma ProductReal(a: int, b: int)
    ensures (a * b) as real == a as real * b as real
  {
  }

  /** Difference between the shifted and the exact half. */
  function ErrQ(q: Cx<Short>): C {
    Sub(ToC(HalfOf(q)), Scale(0.5, ToC(q)))
  }

  lemma ErrQSmall(q: Cx<Short>)
    ensures Within(ErrQ(q), 0.75)
  {
    SmallParts(ErrQ(q), 0.5, 0.75);
  }

  lemma HalvedBound(w: Cx<Short>)
    requires w.re * w.re + w.im * w.im <= 32767 * 32767
    ensures Within(ToC(HalfOf(w)), 16385.0)
  {
    ProductReal(w.re, w.re);
    ProductReal(w.im, w.im);
    ErrQSmall(w);
    ScaleWithin(0.5, ToC(w), 32767.0);
    AddWithin(Scale(0.5, ToC(w)), ErrQ(w), 16383.5, 0.75);
    assert Add(Scale(0.5, ToC(w)), ErrQ(w)) == ToC(HalfOf(w));
    Weaken(ToC(HalfOf(w)), 16384.25, 16385.0);
  }

  lemma SameSquare(c: int, d: int, x: int, bound: int)
    requires c * c + d * d <= bound && (x == d || x == -d)
    ensures c * c + x * x <= bound
  {
    if x == -d {
      SquareNeg(d, x);
    }
  }

  lemma SineRange(j: nat)
    ensures -0x8000 < Sine(j) < 0x8000
  {
    QuarterRange(if j <= 256 then j else if j <= 512 then 512 - j else j - 512);
  }

  /** Both halved twiddles, forward and inverse, stay just about inside radius 1/2. */
  lemma TwiddleBound(j: nat, inverse: bool)
    requires j < 512
    ensures Within(ToC(Twiddle(j, inverse, true)), 16385.0)
  {
    var w := Twiddle(j, inverse, false);
    var (c, d) := (Sine(j + 256), Sine(j));
    SineRange(j);
    TwiddlePairs(j);
    SameSquare(c, d, w.im, 32767 * 32767);
    HalvedBound(w);
  }

  // ----- growth in one butterfly

  const GROWTH := 3.25

  /** The exact part of the twiddled operand. */
  function ExactT(w: Cx<Short>, z: Cx<Short>): C {
    Scale(1.0 / 32768.0, Mul(ToC(w), ToC(z)))
  }

  lemma ExactTBound(w: Cx<Short>, z: Cx<Short>, r: real)
    requires Within(ToC(w), 16385.0) && Within(ToC(z), r) && r <= 32768.0
    ensures Within(ExactT(w, z), 0.5 * r + 1.0)
  {
    var p := Mul(ToC(w), ToC(z));
    MulWithin(ToC(w), ToC(z), 16385.0, r);
    ScaleWithin(1.0 / 32768.0, p, 16385.0 * r);
    assert (1.0 / 32768.0) * (16385.0 * r) <= 0.5 * r + 1.0;
    Weaken(ExactT(w, z), (1.0 / 32768.0) * (16385.0 * r), 0.5 * r + 1.0);
  }

  lemma RawTBound(w: Cx<Short>, z: Cx<Short>, r: real)
    requires Within(ToC(w), 16385.0) && Within(ToC(z), r) && r <= 32768.0
    ensures w.re > -0x8000 && w.im > -0x8000
    ensures Within(ToC(RawT(w, z)), 0.5 * r + 2.5)
  {
    PartsWithin(ToC(w), 16385.0);
    ErrTSmall(w, z);
    ExactTBound(w, z, r);
    AddWithin(ExactT(w, z), ErrT(w, z), 0.5 * r + 1.0, 1.5);
    assert Add(ExactT(w, z), ErrT(w, z)) == ToC(RawT(w, z));
  }

  lemma HalfBound(q: Cx<Short>, r: real)
    requires Within(ToC(q), r)
    ensures Within(ToC(HalfOf(q)), 0.5 * r + 0.75)
  {
    ErrQSmall(q);
    ScaleWithin(0.5, ToC(q), r);
    AddWithin(Scale(0.5, ToC(q)), ErrQ(q), 0.5 * r, 0.75);
    assert Add(Scale(0.5, ToC(q)), ErrQ(q)) == ToC(HalfOf(q));
  }

  lemma SumBound(w: Cx<Short>, q: Cx<Short>, z: Cx<Short>, r: real)
    requires Within(ToC(w), 16385.0) && Within(ToC(q), r) && Within(ToC(z), r) && r <= 32768.0
    ensures Within(ToC(RawSum(w, q, z)), r + GROWTH)
  {
    RawTBound(w, z, r);
    HalfBound(q, r);
    AddWithin(ToC(HalfOf(q)), ToC(RawT(w, z)), 0.5 * r + 0.75, 0.5 * r + 2.5);
    assert Add(ToC(HalfOf(q)), ToC(RawT(w, z))) == ToC(RawSum(w, q, z));
  }

  lemma DifferenceBound(w: Cx<Short>, q: Cx<Short>, z: Cx<Short>, r: real)
    requires Within(ToC(w), 16385.0) && Within(ToC(q), r) && Within(ToC(z), r) && r <= 32768.0
    ensures Within(ToC(RawDifference(w, q, z)), r + GROWTH)
  {
    RawTBound(w, z, r);
    HalfBound(q, r);
    NegWithin(ToC(RawT(w, z)), 0.5 * r + 2.5);
    AddWithin(ToC(HalfOf(q)), Neg(ToC(RawT(w, z))), 0.5 * r + 0.75, 0.5 * r + 2.5);
    assert Add(ToC(HalfOf(q)), Neg(ToC(RawT(w, z)))) == ToC(RawDifference(w, q, z));
  }

  lemma FitsWithin(z: Cx<int>, r: real)
    requires Within(ToC(z), r) && r <= 32767.0
    ensures FitsBoth(z)
  {
    PartsWithin(ToC(z), r);
  }

  /** A scaled butterfly on data of absolute value r grows it by at most GROWTH, and wraps nothing. */
  lemma StepBound(w: Cx<Short>, q: Cx<Short>, z: Cx<Short>, r: real)
    requires Within(ToC(w), 16385.0) && Within(ToC(q), r) && Within(ToC(z), r) && r + GROWTH <= 32767.0
    ensures NoWrap(w, q, z)
    ensures Within(ToC(FixStep(w, true, q, z).0), r + GROWTH)
    ensures Within(ToC(FixStep(w, true, q, z).1), r + GROWTH)
  {
    RawTBound(w, z, r);
    FitsWithin(RawT(w, z), 0.5 * r + 2.5);
    SumBound(w, q, z, r);
    FitsWithin(RawSum(w, q, z), r + GROWTH);
    DifferenceBound(w, q, z, r);
    FitsWithin(RawDifference(w, q, z), r + GROWTH);
    NoWrapExact(w, q, z);
  }

  // ----- a whole forward transform never wraps

  predicate Bounded(s: seq<Cx<Short>>, r: real) {
    forall i :: 0 <= i < |s| ==> Within(ToC(s[i]), r)
  }

  /** The butterfly that produces index x of a forward pass of span l wraps nothing. */
  ghost predicate WrapFreeAt(s: seq<Cx<Short>>, l: nat, k: nat, x: nat)
    requires l > 0 && |s| % (2 * l) == 0 && x < |s|
  {
    ButterfliesPartition(x, 0, l, |s|);
    var u := Upper(x, l);
    NoWrap(Twiddle(Shl(u % (2 * l), k), false, true), s[u], s[u + l])
  }

  ghost predicate WrapFree(s: seq<Cx<Short>>, l: nat, k: nat)
    requires l > 0 && |s| % (2 * l) == 0
  {
    forall x :: 0 <= x < |s| ==> WrapFreeAt(s, l, k, x)
  }

  lemma PassAtBounded(s: seq<Cx<Short>>, p: nat, l: nat, k: nat, x: nat, r: real)
    requires p < LOG2_N_WAVE && l == Pow2(p) && k == LOG2_N_WAVE - 1 - p
    requires |s| % (2 * l) == 0 && x < |s| && Bounded(s, r) && r + GROWTH <= 32767.0
    ensures WrapFreeAt(s, l, k, x)
    ensures Within(ToC(PassAt(s, l, FixButterfly(k, false, true), x)), r + GROWTH)
  {
    var u, block, m := Position(x, l);
    PassAtIs(s, l, FixButterfly(k, false, true), x, u, m);
    TwiddleInRange(p, m);
    var j := Shl(m, k);
    TwiddleBound(j, false);
    StepBound(Twiddle(j, false, true), s[u], s[u + l], r);
  }

  lemma PassBounded(s: seq<Cx<Short>>, p: nat, l: nat, k: nat, r: real)
    requires p < LOG2_N_WAVE && l == Pow2(p) && k == LOG2_N_WAVE - 1 - p
    requires |s| % (2 * l) == 0 && Bounded(s, r) && r + GROWTH <= 32767.0
    ensures WrapFree(s, l, k)
    ensures Bounded(Pass(s, l, FixButterfly(k, false, true)), r + GROWTH)
  {
    var bf := FixButterfly(k, false, true);
    forall x | 0 <= x < |s|
      ensures WrapFreeAt(s, l, k, x) && Within(ToC(PassAt(s, l, bf, x)), r + GROWTH)
    {
      PassAtBounded(s, p, l, k, x, r);
    }
  }

  /** Pass p of a forward transform of size 2^b. */
  ghost function ForwardPass(s: seq<Cx<Short>>, b: nat, p: nat): (r: seq<Cx<Short>>)
    requires |s| == Pow2(b) && p < b <= LOG2_N_WAVE
    ensures |r| == Pow2(b)
  {
    Pow2Divides(p + 1, b);
    Pass(s, Pow2(p), FixButterfly(LOG2_N_WAVE - 1 - p, false, true))
  }

  ghost predicate ForwardWrapFree(s: seq<Cx<Short>>, b: nat, p: nat)
    requires |s| == Pow2(b) && p < b <= LOG2_N_WAVE
  {
    Pow2Divides(p + 1, b);
    WrapFree(s, Pow2(p), LOG2_N_WAVE - 1 - p)
  }

  lemma ForwardPassBounded(s: seq<Cx<Short>>, b: nat, p: nat, r: real, r': real)
    requires |s| == Pow2(b) && p < b <= LOG2_N_WAVE && Bounded(s, r) && r' == r + GROWTH <= 32767.0
    ensures ForwardWrapFree(s, b, p)
    ensures Bounded(ForwardPass(s, b, p), r')
  {
    Pow2Divides(p + 1, b);
    PassBounded(s, p, Pow2(p), LOG2_N_WAVE - 1 - p, r);
  }

  /** The data of a forward transform after p passes. */
  ghost function ForwardStage(s: seq<Cx<Short>>, b: nat, p: nat): (r: seq<Cx<Short>>)
    requires |s| == Pow2(b) && p <= b <= LOG2_N_WAVE
    ensures |r| == Pow2(b)
  {
    if p == 0 then s else ForwardPass(ForwardStage(s, b, p - 1), b, p - 1)
  }

  lemma {:induction false} ForwardRun(s: seq<Cx<Short>>, b: nat, p: nat)
    requires |s| == Pow2(b) && p <= b <= LOG2_N_WAVE
    ensures FixRun(s, b, 0, false, 0) == FixRun(ForwardStage(s, b, p), b, p, false, 0)
  {
    if p > 0 {
      ForwardRun(s, b, p - 1);
      FixRunStep(ForwardStage(s, b, p - 1), b, p - 1, false, 0, true, Pow2(p - 1), LOG2_N_WAVE - p);
    }
  }

  /** GROWTH * p more than r0, added up pass by pass. */
  ghost function RadiusAfter(r0: real, p: nat): real {
    if p == 0 then r0 else RadiusAfter(r0, p - 1) + GROWTH
  }

  lemma {:induction false} RadiusAfterIs(r0: real, p: nat)
    ensures RadiusAfter(r0, p) == r0 + GROWTH * p as real
  {
    if p > 0 {
      RadiusAfterIs(r0, p - 1);
    }
  }

  /** Each pass uses up at most GROWTH of the room left below 32767. */
  lemma {:induction false} StageBounded(s: seq<Cx<Short>>, b: nat, p: nat, r0: real, r: real)
    requires |s| == Pow2(b) && p <= b <= LOG2_N_WAVE && Bounded(s, r0)
    requires r == RadiusAfter(r0, p) && r <= 32767.0
    ensures Bounded(ForwardStage(s, b, p), r)
  {
    if p > 0 {
      var r' := RadiusAfter(r0, p - 1);
      StageBounded(s, b, p - 1, r0, r');
      NextStageBounded(s, b, p - 1, p, r', r);
    }
  }

  lemma NextStageBounded(s: seq<Cx<Short>>, b: nat, q: nat, p: nat, r: real, r': real)
    requires |s| == Pow2(b) && p == q + 1 <= b <= LOG2_N_WAVE && Bounded(ForwardStage(s, b, q), r) && r' == r + GROWTH <= 32767.0
    ensures Bounded(ForwardStage(s, b, p), r')
  {
    ForwardPassBounded(ForwardStage(s, b, q), b, q, r, r');
  }

  /** The largest absolute value of an input from which log2(n) passes cannot reach 32767. */
  function InputLimit(b: nat): real {
    32767.0 - GROWTH * b as real
  }

  /**
   With inputs of absolute value at most 32767 - 3.25 log2(n), no intermediate of any butterfly of any
   pass leaves 16 bits.
   */
  lemma ForwardNeverWraps(s: seq<Cx<Short>>, b: nat, p: nat)
    requires |s| == Pow2(b) && p < b <= LOG2_N_WAVE && Bounded(s, InputLimit(b))
    ensures ForwardWrapFree(ForwardStage(s, b, p), b, p)
  {
    var r := InputLimit(b) + GROWTH * p as real;
    RadiusAfterIs(InputLimit(b), p);
    StageBounded(s, b, p, InputLimit(b), r);
    ForwardPassBounded(ForwardStage(s, b, p), b, p, r, r + GROWTH);
  }
}
