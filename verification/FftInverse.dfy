/**
 The inverse transform of ExtLibs/FFT/fft.c, which halves only in passes whose data are large (lines 202-218):
 what a pass can do to its data, and how close the result is for every run that wraps nothing.
 */
module FftInverse {
  import opened BitReversal
  import opened FftSchedule
  import opened Sinewave
  import opened FftFixed
  import opened Complex
  import opened Rings
  import opened FftBounds
  import opened FftAccuracy
  import FftExact

  // ----- one butterfly without halving

  function PlainSum(w: Cx<Short>, q: Cx<Short>, z: Cx<Short>): Cx<int> {
    Cx(q.re + RawT(w, z).re, q.im + RawT(w, z).im)
  }

  function PlainDifference(w: Cx<Short>, q: Cx<Short>, z: Cx<Short>): Cx<int> {
    Cx(q.re - RawT(w, z).re, q.im - RawT(w, z).im)
  }

  /** No assignment to a short in this unscaled butterfly loses anything. */
  predicate PlainNoWrap(w: Cx<Short>, q: Cx<Short>, z: Cx<Short>) {
    && w.re > -0x8000 && w.im > -0x8000
    && FitsBoth(RawT(w, z)) && FitsBoth(PlainSum(w, q, z)) && FitsBoth(PlainDifference(w, q, z))
  }

  lemma PlainExact(w: Cx<Short>, q: Cx<Short>, z: Cx<Short>)
    requires PlainNoWrap(w, q, z)
    ensures FixStep(w, false, q, z) == (PlainSum(w, q, z), PlainDifference(w, q, z))
  {
  }

  lemma IntegerNorm(w: Cx<Short>)
    requires w.re * w.re + w.im * w.im <= 32767 * 32767
    ensures Within(ToC(w), 32767.0)
  {
    ProductReal(w.re, w.re);
    ProductReal(w.im, w.im);
  }

  /** An entry pair of the table stays inside radius 1. */
  lemma FullTwiddleBound(j: nat, w: Cx<Short>)
    requires j < 512 && w == Twiddle(j, true, false)
    ensures Within(ToC(w), 32767.0)
  {
    TwiddlePairs(j);
    IntegerNorm(w);
  }

  lemma PlainTBound(w: Cx<Short>, z: Cx<Short>, r: real)
    requires Within(ToC(w), 32767.0) && Within(ToC(z), r)
    ensures w.re > -0x8000 && w.im > -0x8000 && Within(ToC(RawT(w, z)), r + 1.5)
  {
    PartsWithin(ToC(w), 32767.0);
    var p := Mul(ToC(w), ToC(z));
    MulWithin(ToC(w), ToC(z), 32767.0, r);
    ScaleWithin(1.0 / 32768.0, p, 32767.0 * r);
    Weaken(ExactT(w, z), (1.0 / 32768.0) * (32767.0 * r), r);
    ErrTSmall(w, z);
    AddWithin(ExactT(w, z), ErrT(w, z), r, 1.5);
    assert Add(ExactT(w, z), ErrT(w, z)) == ToC(RawT(w, z));
  }

  lemma PlainSumBound(w: Cx<Short>, q: Cx<Short>, z: Cx<Short>, rq: real, rz: real, r': real)
    requires Within(ToC(w), 32767.0) && Within(ToC(q), rq) && Within(ToC(z), rz) && r' == rq + (rz + 1.5)
    ensures Within(ToC(PlainSum(w, q, z)), r') && Within(ToC(PlainDifference(w, q, z)), r')
  {
    PlainTBound(w, z, rz);
    var t := ToC(RawT(w, z));
    NegWithin(t, rz + 1.5);
    AddWithin(ToC(q), t, rq, rz + 1.5);
    AddWithin(ToC(q), Neg(t), rq, rz + 1.5);
    assert Add(ToC(q), t) == ToC(PlainSum(w, q, z));
    assert Add(ToC(q), Neg(t)) == ToC(PlainDifference(w, q, z));
  }

  /** An unscaled butterfly adds up the absolute values of its operands, and wraps nothing while that fits. */
  lemma PlainStepBound(w: Cx<Short>, q: Cx<Short>, z: Cx<Short>, rq: real, rz: real, r': real)
    requires Within(ToC(w), 32767.0) && Within(ToC(q), rq) && Within(ToC(z), rz) && r' == rq + (rz + 1.5) <= 32767.0
    ensures PlainNoWrap(w, q, z)
    ensures Within(ToC(FixStep(w, false, q, z).0), r') && Within(ToC(FixStep(w, false, q, z).1), r')
  {
    PlainTBound(w, z, rz);
    FitsWithin(RawT(w, z), rz + 1.5) by { RadiusNonNegative(ToC(q), rq); }
    PlainSumBound(w, q, z, rq, rz, r');
    FitsWithin(PlainSum(w, q, z), r');
    FitsWithin(PlainDifference(w, q, z), r');
    PlainExact(w, q, z);
  }

  lemma RadiusNonNegative(a: C, r: real)
    requires Within(a, r)
    ensures r >= 0.0
  {
  }

  // ----- one pass

  /** How far a pass can grow data of absolute value r. */
  function Grown(shift: bool, r: real): real {
    if shift then r + GROWTH else 2.0 * r + 1.5
  }

  predicate StepWrapFree(shift: bool, w: Cx<Short>, q: Cx<Short>, z: Cx<Short>) {
    if shift then NoWrap(w, q, z) else PlainNoWrap(w, q, z)
  }

  /** Twiddle and operands of the butterfly that produces index x. */
  ghost function OperandsAt(s: seq<Cx<Short>>, l: nat, k: nat, shift: bool, x: nat): (Cx<Short>, Cx<Short>, Cx<Short>)
    requires l > 0 && |s| % (2 * l) == 0 && x < |s|
  {
    ButterfliesPartition(x, 0, l, |s|);
    var u := Upper(x, l);
    (Twiddle(Shl(u % (2 * l), k), true, shift), s[u], s[u + l])
  }

  /** That butterfly wraps nothing. */
  ghost predicate SparesAt(s: seq<Cx<Short>>, l: nat, k: nat, shift: bool, x: nat)
    requires l > 0 && |s| % (2 * l) == 0 && x < |s|
  {
    var (w, q, z) := OperandsAt(s, l, k, shift, x);
    StepWrapFree(shift, w, q, z)
  }

  lemma OperandsAre(s: seq<Cx<Short>>, l: nat, k: nat, shift: bool, x: nat, u: nat, m: nat, w: Cx<Short>)
    requires l > 0 && |s| % (2 * l) == 0 && x < |s| && u == Upper(x, l) && u % (2 * l) == m
    requires w == Twiddle(Shl(m, k), true, shift)
    ensures u + l < |s| && OperandsAt(s, l, k, shift, x) == (w, s[u], s[u + l])
  {
    ButterfliesPartition(x, 0, l, |s|);
  }

  lemma SparesFrom(s: seq<Cx<Short>>, l: nat, k: nat, shift: bool, x: nat, w: Cx<Short>, q: Cx<Short>, z: Cx<Short>)
    requires l > 0 && |s| % (2 * l) == 0 && x < |s| && OperandsAt(s, l, k, shift, x) == (w, q, z)
    ensures SparesAt(s, l, k, shift, x) == StepWrapFree(shift, w, q, z)
  {
  }

  /** Upper or lower result. */
  function Pick<T>(upper: bool, r: (T, T)): T {
    if upper then r.0 else r.1
  }

  /** Entry x after a pass. */
  lemma EntryOf(s: seq<Cx<Short>>, s': seq<Cx<Short>>, l: nat, k: nat, shift: bool, x: nat, u: nat, m: nat, w: Cx<Short>)
    requires l > 0 && |s| % (2 * l) == 0 && x < |s| && u == Upper(x, l) && u % (2 * l) == m
    requires w == Twiddle(Shl(m, k), true, shift) && s' == Pass(s, l, FixButterfly(k, true, shift))
    ensures u + l < |s| && |s'| == |s| && s'[x] == Pick(x == u, FixStep(w, shift, s[u], s[u + l]))
  {
    PassAtIs(s, l, FixButterfly(k, true, shift), x, u, m);
  }

  /** SparesAt in terms of the operands. */
  lemma SparesAtIs(s: seq<Cx<Short>>, l: nat, k: nat, shift: bool, x: nat, u: nat, m: nat, w: Cx<Short>)
    requires l > 0 && |s| % (2 * l) == 0 && x < |s| && u == Upper(x, l) && u % (2 * l) == m
    requires w == Twiddle(Shl(m, k), true, shift)
    ensures u + l < |s| && SparesAt(s, l, k, shift, x) == StepWrapFree(shift, w, s[u], s[u + l])
  {
    OperandsAre(s, l, k, shift, x, u, m, w);
    SparesFrom(s, l, k, shift, x, w, s[u], s[u + l]);
  }

  lemma StepGrows(j: nat, shift: bool, q: Cx<Short>, z: Cx<Short>, r: real, r': real)
    requires j < 512 && Within(ToC(q), r) && Within(ToC(z), r) && r' == Grown(shift, r) <= 32767.0
    ensures var w := Twiddle(j, true, shift);
      StepWrapFree(shift, w, q, z) &&
      Within(ToC(FixStep(w, shift, q, z).0), r') && Within(ToC(FixStep(w, shift, q, z).1), r')
  {
    if shift {
      TwiddleBound(j, true);
      StepBound(Twiddle(j, true, true), q, z, r);
    } else {
      FullTwiddleBound(j, Twiddle(j, true, false));
      PlainStepBound(Twiddle(j, true, false), q, z, r, r, r');
    }
  }

  lemma InversePassAt(s: seq<Cx<Short>>, p: nat, l: nat, k: nat, shift: bool, x: nat, r: real, r': real)
    requires p < LOG2_N_WAVE && l == Pow2(p) && k == LOG2_N_WAVE - 1 - p
    requires |s| % (2 * l) == 0 && x < |s| && Bounded(s, r) && r' == Grown(shift, r) <= 32767.0
    ensures SparesAt(s, l, k, shift, x) == true
    ensures Within(ToC(PassAt(s, l, FixButterfly(k, true, shift), x)), r')
  {
    var u, block, m := Position(x, l);
    PassAtIs(s, l, FixButterfly(k, true, shift), x, u, m);
    TwiddleInRange(p, m);
    var j := Shl(m, k);
    SparesAtIs(s, l, k, shift, x, u, m, Twiddle(j, true, shift));
    StepGrows(j, shift, s[u], s[u + l], r, r');
  }

  /** Pass p of an inverse transform of size 2^b. */
  ghost function InversePass(s: seq<Cx<Short>>, b: nat, p: nat): (r: seq<Cx<Short>>)
    requires |s| == Pow2(b) && p < b <= LOG2_N_WAVE
    ensures |r| == Pow2(b)
  {
    Pow2Divides(p + 1, b);
    Pass(s, Pow2(p), FixButterfly(LOG2_N_WAVE - 1 - p, true, AnyLarge(s)))
  }

  ghost predicate Spares(s: seq<Cx<Short>>, l: nat, k: nat, shift: bool)
    requires l > 0 && |s| % (2 * l) == 0
  {
    forall x :: 0 <= x < |s| ==> SparesAt(s, l, k, shift, x)
  }

  /** No butterfly of pass p wraps anything. */
  ghost predicate PassSpares(s: seq<Cx<Short>>, b: nat, p: nat)
    requires |s| == Pow2(b) && p < b <= LOG2_N_WAVE
  {
    Pow2Divides(p + 1, b);
    Spares(s, Pow2(p), LOG2_N_WAVE - 1 - p, AnyLarge(s))
  }

  /** A halving pass wraps nothing up to radius 32763.75, one without halving up to 16382.75. */
  lemma InversePassBounded(s: seq<Cx<Short>>, b: nat, p: nat, r: real, r': real)
    requires |s| == Pow2(b) && p < b <= LOG2_N_WAVE && Bounded(s, r) && r' == Grown(AnyLarge(s), r) <= 32767.0
    ensures PassSpares(s, b, p) && Bounded(InversePass(s, b, p), r')
  {
    Pow2Divides(p + 1, b);
    var (l, k, shift) := (Pow2(p), LOG2_N_WAVE - 1 - p, AnyLarge(s));
    forall x | 0 <= x < |s|
      ensures SparesAt(s, l, k, shift, x) == true && Within(ToC(PassAt(s, l, FixButterfly(k, true, shift), x)), r')
    {
      InversePassAt(s, p, l, k, shift, x, r, r');
    }
  }

  // ----- the whole transform

  /** The data of an inverse transform after p passes. */
  ghost function InverseStage(s: seq<Cx<Short>>, b: nat, p: nat): (r: seq<Cx<Short>>)
    requires |s| == Pow2(b) && p <= b <= LOG2_N_WAVE
    ensures |r| == Pow2(b)
  {
    if p == 0 then s else InversePass(InverseStage(s, b, p - 1), b, p - 1)
  }

  /** How many of the first p passes halve their data. */
  ghost function ScaleAt(s: seq<Cx<Short>>, b: nat, p: nat): (scale: nat)
    requires |s| == Pow2(b) && p <= b <= LOG2_N_WAVE
    ensures scale <= p
  {
    if p == 0 then 0 else ScaleAt(s, b, p - 1) + if AnyLarge(InverseStage(s, b, p - 1)) then 1 else 0
  }

  /** How many of them do not. */
  ghost function PlainAt(s: seq<Cx<Short>>, b: nat, p: nat): (plain: nat)
    requires |s| == Pow2(b) && p <= b <= LOG2_N_WAVE
    ensures plain + ScaleAt(s, b, p) == p
  {
    if p == 0 then 0 else PlainAt(s, b, p - 1) + if AnyLarge(InverseStage(s, b, p - 1)) then 0 else 1
  }

  lemma StageStep(s: seq<Cx<Short>>, b: nat, q: nat, p: nat, f: seq<Cx<Short>>)
    requires |s| == Pow2(b) && p == q + 1 <= b <= LOG2_N_WAVE && f == InverseStage(s, b, q)
    ensures InverseStage(s, b, p) == InversePass(f, b, q)
  {
  }

  lemma ScaleStep(s: seq<Cx<Short>>, b: nat, q: nat, p: nat, f: seq<Cx<Short>>)
    requires |s| == Pow2(b) && p == q + 1 <= b <= LOG2_N_WAVE && f == InverseStage(s, b, q)
    ensures ScaleAt(s, b, p) == if AnyLarge(f) then ScaleAt(s, b, q) + 1 else ScaleAt(s, b, q)
  {
  }

  lemma PlainStep(s: seq<Cx<Short>>, b: nat, q: nat, p: nat, f: seq<Cx<Short>>)
    requires |s| == Pow2(b) && p == q + 1 <= b <= LOG2_N_WAVE && f == InverseStage(s, b, q)
    ensures PlainAt(s, b, p) == if AnyLarge(f) then PlainAt(s, b, q) else PlainAt(s, b, q) + 1
  {
  }

  /** One pass of FixRun in terms of InversePass. */
  lemma InverseRunStep(s: seq<Cx<Short>>, b: nat, p: nat, scale: nat)
    requires |s| == Pow2(b) && p < b <= LOG2_N_WAVE
    ensures FixRun(s, b, p, true, scale) ==
            FixRun(InversePass(s, b, p), b, p + 1, true, if AnyLarge(s) then scale + 1 else scale)
  {
    FixRunStep(s, b, p, true, scale, AnyLarge(s), Pow2(p), LOG2_N_WAVE - 1 - p);
  }

  lemma {:induction false} InverseRun(s: seq<Cx<Short>>, b: nat, p: nat)
    requires |s| == Pow2(b) && p <= b <= LOG2_N_WAVE
    ensures FixRun(s, b, 0, true, 0) == FixRun(InverseStage(s, b, p), b, p, true, ScaleAt(s, b, p))
  {
    if p > 0 {
      var q := p - 1;
      InverseRun(s, b, q);
      var f := InverseStage(s, b, q);
      InverseRunStep(f, b, q, ScaleAt(s, b, q));
      StageStep(s, b, q, p, f);
      ScaleStep(s, b, q, p, f);
    }
  }

  /** The stages are those of the transform as modelled by FixRun. */
  lemma InverseResult(s: seq<Cx<Short>>, b: nat)
    requires |s| == Pow2(b) && b <= LOG2_N_WAVE
    ensures FixRun(s, b, 0, true, 0) == (InverseStage(s, b, b), ScaleAt(s, b, b))
  {
    InverseRun(s, b, b);
  }

  /** No butterfly of any pass wraps anything. */
  ghost predicate NeverWraps(s: seq<Cx<Short>>, b: nat)
    requires |s| == Pow2(b) && b <= LOG2_N_WAVE
  {
    forall p: nat :: p < b ==> PassSpares(InverseStage(s, b, p), b, p)
  }

  /** Before every pass all data are of absolute value at most `size`. */
  ghost predicate StaysWithin(s: seq<Cx<Short>>, b: nat, size: real)
    requires |s| == Pow2(b) && b <= LOG2_N_WAVE
  {
    forall p: nat :: p < b ==> Bounded(InverseStage(s, b, p), size)
  }

  /** No pair of shorts is larger. */
  const LARGEST := 46694.4

  lemma ShortWithin(z: Cx<Short>)
    ensures Within(ToC(z), LARGEST)
  {
    SquareBound(ToC(z).re, 32768.0);
    SquareBound(ToC(z).im, 32768.0);
  }

  lemma ShortsBounded(s: seq<Cx<Short>>)
    ensures Bounded(s, LARGEST)
  {
    forall i | 0 <= i < |s|
      ensures Within(ToC(s[i]), LARGEST)
    {
      ShortWithin(s[i]);
    }
  }

  // ----- how close the result is

  /** The full table entry at j is within 2.5 units of the last place of w^j, and the halved one as before. */
  ghost predicate NearInverseAt(w: C, j: nat) {
    var root := Pow(Complexes(), w, j);
    && Within(TableError(Twiddle(j, true, true), root), 2.0 / 32768.0)
    && Within(FullError(Twiddle(j, true, false), root), 2.5 / 32768.0)
    && Within(root, 1.0)
  }

  /** The table approximates the powers of w, a root that turns the other way than the forward transform's. */
  ghost predicate NearInverseTable(w: C) {
    forall j: nat :: j < 512 ==> NearInverseAt(w, j)
  }

  function FullError(w: Cx<Short>, root: C): C {
    Sub(Scale(1.0 / 32768.0, ToC(w)), root)
  }

  lemma BilinearFull(k: real, w: C, z: C, root: C, x: C)
    ensures Sub(Scale(k, Mul(w, z)), Mul(root, x)) == Add(Mul(Sub(Scale(k, w), root), z), Mul(root, Sub(z, x)))
  {
    MulSubLeft(Scale(k, w), root, z);
    MulScale(k, w, z);
    MulSubRight(root, z, x);
    var (l, r) := (Sub(Scale(k, Mul(w, z)), Mul(root, x)), Add(Mul(Sub(Scale(k, w), root), z), Mul(root, Sub(z, x))));
    assert l.re == r.re && l.im == r.im;
  }

  /** The twiddled operand of an unscaled butterfly against the exact one. */
  lemma PlainTClose(w: Cx<Short>, z: Cx<Short>, root: C, x: C, e: real, size: real)
    requires Within(FullError(w, root), 2.5 / 32768.0) && Within(root, 1.0) && size <= 49152.0
    requires Within(ToC(z), size) && Within(Sub(ToC(z), x), e) && w.re > -0x8000 && w.im > -0x8000
    ensures Within(Sub(ToC(RawT(w, z)), Mul(root, x)), e + Slack(size))
  {
    var (d, g) := (Mul(FullError(w, root), ToC(z)), Mul(root, Sub(ToC(z), x)));
    var h := 2.5 / 32768.0 * size;
    MulWithin(FullError(w, root), ToC(z), 2.5 / 32768.0, size);
    MulWithin(root, Sub(ToC(z), x), 1.0, e);
    assert 1.0 * e == e;
    AddWithin(d, g, h, e);
    BilinearFull(1.0 / 32768.0, ToC(w), ToC(z), root, x);
    ErrTSmall(w, z);
    var t := Sub(ExactT(w, z), Mul(root, x));
    AddWithin(t, ErrT(w, z), h + e, 1.5);
    var (l, r) := (Sub(ToC(RawT(w, z)), Mul(root, x)), Add(t, ErrT(w, z)));
    assert l.re == r.re && l.im == r.im;
    Weaken(l, h + e + 1.5, e + Slack(size));
  }

  /** One wrap-free unscaled butterfly doubles the distance from the exact one and adds at most Slack(size). */
  lemma PlainStepClose(w: Cx<Short>, q: Cx<Short>, z: Cx<Short>, root: C, a: C, x: C, e: real, e': real, size: real)
    requires PlainNoWrap(w, q, z) && size <= 49152.0 && e' == 2.0 * e + Slack(size)
    requires Within(FullError(w, root), 2.5 / 32768.0) && Within(root, 1.0) && Within(ToC(z), size)
    requires Within(Sub(ToC(q), a), e) && Within(Sub(ToC(z), x), e)
    ensures Within(Sub(ToC(FixStep(w, false, q, z).0), Add(a, Mul(root, x))), e')
    ensures Within(Sub(ToC(FixStep(w, false, q, z).1), Add(a, Neg(Mul(root, x)))), e')
  {
    PlainExact(w, q, z);
    PlainTClose(w, z, root, x, e, size);
    var low := e + Slack(size);
    var t := Mul(root, x);
    var (u, v) := (Sub(ToC(q), a), Sub(ToC(RawT(w, z)), t));
    AddWithin(u, v, e, low);
    NegWithin(v, low);
    AddWithin(u, Neg(v), e, low);
    assert Sub(ToC(PlainSum(w, q, z)), Add(a, t)) == Add(u, v);
    assert Sub(ToC(PlainDifference(w, q, z)), Add(a, Neg(t))) == Add(u, Neg(v));
  }

  lemma ScaledParts(c: real, root: C, a: C, x: C)
    ensures Scale(c, Add(a, Mul(root, x))) == Add(Scale(c, a), Mul(root, Scale(c, x)))
    ensures Scale(c, Add(a, Neg(Mul(root, x)))) == Add(Scale(c, a), Neg(Mul(root, Scale(c, x))))
  {
    MulComm(root, x);
    MulScale(c, x, root);
    MulComm(root, Scale(c, x));
    ScaleAdd(c, a, Mul(root, x));
    ScaleAdd(c, a, Neg(Mul(root, x)));
    ScaleNeg(c, Mul(root, x));
  }

  lemma ScaleAdd(c: real, a: C, b: C)
    ensures Scale(c, Add(a, b)) == Add(Scale(c, a), Scale(c, b))
  {
    assert c * (a.re + b.re) == c * a.re + c * b.re && c * (a.im + b.im) == c * a.im + c * b.im;
    var (l, r) := (Scale(c, Add(a, b)), Add(Scale(c, a), Scale(c, b)));
    assert l.re == r.re && l.im == r.im;
  }

  lemma ScaleNeg(c: real, a: C)
    ensures Scale(c, Neg(a)) == Neg(Scale(c, a))
  {
    assert c * -a.re == -(c * a.re) && c * -a.im == -(c * a.im);
    var (l, r) := (Scale(c, Neg(a)), Neg(Scale(c, a)));
    assert l.re == r.re && l.im == r.im;
  }

  /** A butterfly of the inverse transform, halving or not, against the exact one. */
  lemma InverseStepClose(j: nat, shift: bool, q: Cx<Short>, z: Cx<Short>, root: C, a: C, x: C,
                         c: real, c': real, e: real, e': real, size: real)
    requires StepWrapFree(shift, Twiddle(j, true, shift), q, z) && Within(ToC(z), size) && size <= 49152.0
    requires Within(TableError(Twiddle(j, true, true), root), 2.0 / 32768.0) && Within(root, 1.0)
    requires Within(FullError(Twiddle(j, true, false), root), 2.5 / 32768.0)
    requires Within(Sub(ToC(q), Scale(c, a)), e) && Within(Sub(ToC(z), Scale(c, x)), e)
    requires c' == (if shift then 0.5 * c else c) && e' == ErrorAfter(size, shift, e)
    ensures Within(Sub(ToC(FixStep(Twiddle(j, true, shift), shift, q, z).0), Scale(c', Add(a, Mul(root, x)))), e')
    ensures Within(Sub(ToC(FixStep(Twiddle(j, true, shift), shift, q, z).1), Scale(c', Add(a, Neg(Mul(root, x))))), e')
  {
    if shift {
      ButterflyClose(Twiddle(j, true, true), q, z, root, a, x, c, c', e, e', size);
    } else {
      PlainStepClose(Twiddle(j, true, false), q, z, root, Scale(c, a), Scale(c, x), e, e', size);
      ScaledParts(c, root, a, x);
    }
  }

  /** What scale and distance become in one pass. */
  function ScaleAfter(shift: bool, c: real): real {
    if shift then 0.5 * c else c
  }

  function ErrorAfter(size: real, shift: bool, e: real): real {
    (if shift then e else 2.0 * e) + Slack(size)
  }

  /** Entry y of both passes, through the operands of its butterfly. */
  lemma Operands(f: seq<Cx<Short>>, x: seq<C>, l: nat, k: nat, shift: bool, w: C, y: nat) returns (u: nat, m: nat)
    requires l > 0 && |f| == |x| && |f| % (2 * l) == 0 && y < |f|
    ensures u + l < |f| && m < l && u == Upper(y, l) && u % (2 * l) == m
    ensures PassAt(f, l, FixButterfly(k, true, shift), y) ==
            Pick(y == u, FixStep(Twiddle(Shl(m, k), true, shift), shift, f[u], f[u + l]))
    ensures PassAt(x, l, FftExact.ExactButterfly(Complexes(), w, k), y) ==
            Pick(y == u, (Add(x[u], Mul(Pow(Complexes(), w, Shl(m, k)), x[u + l])),
                          Add(x[u], Neg(Mul(Pow(Complexes(), w, Shl(m, k)), x[u + l])))))
  {
    var block;
    u, block, m := Position(y, l);
    PassAtIs(f, l, FixButterfly(k, true, shift), y, u, m);
    PassAtIs(x, l, FftExact.ExactButterfly(Complexes(), w, k), y, u, m);
  }

  lemma InversePassAtClose(f: seq<Cx<Short>>, x: seq<C>, p: nat, l: nat, k: nat, shift: bool, w: C,
                           c: real, e: real, size: real, y: nat)
    requires p < LOG2_N_WAVE && l == Pow2(p) && k == LOG2_N_WAVE - 1 - p && y < |f| && |f| % (2 * l) == 0
    requires Close(f, x, c, e) && Bounded(f, size) && size <= 49152.0 && SparesAt(f, l, k, shift, y) && NearInverseTable(w)
    ensures Within(Sub(ToC(PassAt(f, l, FixButterfly(k, true, shift), y)),
                       Scale(ScaleAfter(shift, c), PassAt(x, l, FftExact.ExactButterfly(Complexes(), w, k), y))),
                   ErrorAfter(size, shift, e))
  {
    var u, m := Operands(f, x, l, k, shift, w, y);
    TwiddleInRange(p, m);
    var j := Shl(m, k);
    SparesAtIs(f, l, k, shift, y, u, m, Twiddle(j, true, shift));
    assert NearInverseAt(w, j);
    InverseStepClose(j, shift, f[u], f[u + l], Pow(Complexes(), w, j), x[u], x[u + l], c, ScaleAfter(shift, c), e,
                     ErrorAfter(size, shift, e), size);
  }

  lemma InversePassClose(f: seq<Cx<Short>>, x: seq<C>, b: nat, p: nat, w: C, c: real, e: real, size: real,
                         stage: nat -> seq<C>, bx: nat -> Butterfly<C>)
    requires |f| == Pow2(b) && p < b <= LOG2_N_WAVE && NearInverseTable(w) && ExactAt(stage, bx, b, w, p) && stage(p) == x
    requires Close(f, x, c, e) && Bounded(f, size) && size <= 49152.0 && PassSpares(f, b, p)
    ensures Close(InversePass(f, b, p), stage(p + 1), ScaleAfter(AnyLarge(f), c), ErrorAfter(size, AnyLarge(f), e))
  {
    Pow2Divides(p + 1, b);
    var (l, k, shift) := (Pow2(p), LOG2_N_WAVE - 1 - p, AnyLarge(f));
    forall y | 0 <= y < |f|
      ensures Within(Sub(ToC(PassAt(f, l, FixButterfly(k, true, shift), y)),
                         Scale(ScaleAfter(shift, c), PassAt(x, l, FftExact.ExactButterfly(Complexes(), w, k), y))),
                     ErrorAfter(size, shift, e))
    {
      assert SparesAt(f, l, k, shift, y);
      InversePassAtClose(f, x, p, l, k, shift, w, c, e, size, y);
    }
  }

  /** (scale + 1) * 2^k. */
  function Spread(scale: nat, k: nat): (n: nat)
    ensures n >= 1
  {
    SpreadPositive(scale + 1, Pow2(k));
    (scale + 1) * Pow2(k)
  }

  lemma SpreadPositive(c: nat, n: nat)
    requires c >= 1 && n >= 1
    ensures c * n >= 1
  {
  }

  /**
   The distance after `scale` passes with a shift and k without, each adding d: without a shift it doubles, and it is
   largest when the shifts come first.
   */
  function ErrorLimit(d: real, scale: nat, k: nat): real {
    d * (Spread(scale, k) - 1) as real
  }

  lemma SpreadStep(scale: nat, k: nat)
    ensures Spread(scale + 1, k) == Spread(scale, k) + Pow2(k) && Spread(scale, k + 1) == 2 * Spread(scale, k)
  {
    var (c, n) := (scale + 1, Pow2(k));
    assert (c + 1) * n == c * n + n && c * (2 * n) == 2 * (c * n);
  }

  lemma Longer(d: real, n: nat, p: nat, m: nat)
    requires d >= 0.0 && p >= 1 && m == n + p
    ensures d * n as real + d <= d * m as real
  {
    SplitProduct(d, n, p, m);
    SplitProduct(d, p - 1, 1, p);
    assert d * (p - 1) as real >= 0.0;
  }

  lemma SplitProduct(d: real, a: nat, c: nat, sum: nat)
    requires sum == a + c
    ensures d * sum as real == d * a as real + d * c as real
  {
    assert sum as real == a as real + c as real;
  }

  lemma Doubled(d: real, n: nat, m: nat)
    requires n >= 1 && m == 2 * n
    ensures 2.0 * (d * (n - 1) as real) + d == d * (m - 1) as real
  {
    SplitProduct(d, n - 1, n, m - 1);
    SplitProduct(d, n - 1, 1, n);
  }

  lemma LimitIs(d: real, scale: nat, k: nat, n: nat)
    requires n == Spread(scale, k)
    ensures ErrorLimit(d, scale, k) == d * (n - 1) as real
  {
  }

  lemma ErrorLimitStep(d: real, scale: nat, k: nat)
    requires d >= 0.0
    ensures ErrorLimit(d, scale, k) + d <= ErrorLimit(d, scale + 1, k)
    ensures 2.0 * ErrorLimit(d, scale, k) + d == ErrorLimit(d, scale, k + 1)
  {
    SpreadStep(scale, k);
    var (n, n1, n2) := (Spread(scale, k), Spread(scale + 1, k), Spread(scale, k + 1));
    Longer(d, n - 1, Pow2(k), n1 - 1);
    Doubled(d, n, n2);
    LimitIs(d, scale, k, n);
    LimitIs(d, scale + 1, k, n1);
    LimitIs(d, scale, k + 1, n2);
  }

  lemma CloseMore(f: seq<Cx<Short>>, x: seq<C>, c: real, e: real, e': real)
    requires Close(f, x, c, e) && 0.0 <= e <= e'
    ensures Close(f, x, c, e')
  {
    forall i | 0 <= i < |f|
      ensures Within(Sub(ToC(f[i]), Scale(c, x[i])), e')
    {
      Weaken(Sub(ToC(f[i]), Scale(c, x[i])), e, e');
    }
  }

  lemma LimitAfter(size: real, shift: bool, scale: nat, scale': nat, k: nat, k': nat, e: real, e': real)
    requires size >= 0.0 && scale' == (if shift then scale + 1 else scale) && k' == (if shift then k else k + 1)
    requires e == ErrorLimit(Slack(size), scale, k) && e' == ErrorLimit(Slack(size), scale', k')
    ensures 0.0 <= ErrorAfter(size, shift, e) <= e' && Shrink(scale') == ScaleAfter(shift, Shrink(scale))
  {
    ErrorLimitStep(Slack(size), scale, k);
    LimitNonNegative(Slack(size), scale, k);
  }

  lemma LimitNonNegative(d: real, scale: nat, k: nat)
    requires d >= 0.0
    ensures ErrorLimit(d, scale, k) >= 0.0
  {
    var n := (Spread(scale, k) - 1) as real;
    assert n >= 0.0;
  }

  /** The data before a pass that wraps nothing, and after it. */
  lemma InverseStageStep(f: seq<Cx<Short>>, b: nat, p: nat, w: C, size: real, scale: nat, scale': nat, k: nat, k': nat,
                         stage: nat -> seq<C>, bx: nat -> Butterfly<C>)
    requires |f| == Pow2(b) && p < b <= LOG2_N_WAVE && NearInverseTable(w) && ExactAt(stage, bx, b, w, p)
    requires PassSpares(f, b, p) && Bounded(f, size) && 0.0 <= size <= 49152.0
    requires scale' == (if AnyLarge(f) then scale + 1 else scale) && k' == (if AnyLarge(f) then k else k + 1)
    requires Close(f, stage(p), Shrink(scale), ErrorLimit(Slack(size), scale, k))
    ensures Close(InversePass(f, b, p), stage(p + 1), Shrink(scale'), ErrorLimit(Slack(size), scale', k'))
  {
    var (shift, d) := (AnyLarge(f), Slack(size));
    var (e, e') := (ErrorLimit(d, scale, k), ErrorLimit(d, scale', k'));
    InversePassClose(f, stage(p), b, p, w, Shrink(scale), e, size, stage, bx);
    LimitAfter(size, shift, scale, scale', k, k', e, e');
    CloseMore(InversePass(f, b, p), stage(p + 1), Shrink(scale'), ErrorAfter(size, shift, e), e');
  }

  ghost predicate StageClose(s: seq<Cx<Short>>, b: nat, p: nat, size: real, stage: nat -> seq<C>)
    requires |s| == Pow2(b) && p <= b <= LOG2_N_WAVE
  {
    var (scale, k) := (ScaleAt(s, b, p), PlainAt(s, b, p));
    Close(InverseStage(s, b, p), stage(p), Shrink(scale), ErrorLimit(Slack(size), scale, k))
  }

  lemma NextStageClose(s: seq<Cx<Short>>, b: nat, q: nat, p: nat, w: C, size: real, stage: nat -> seq<C>,
                       bx: nat -> Butterfly<C>)
    requires |s| == Pow2(b) && p == q + 1 <= b <= LOG2_N_WAVE && NearInverseTable(w) && ExactAt(stage, bx, b, w, q)
    requires PassSpares(InverseStage(s, b, q), b, q) && Bounded(InverseStage(s, b, q), size) && 0.0 <= size <= 49152.0
    requires StageClose(s, b, q, size, stage)
    ensures StageClose(s, b, p, size, stage)
  {
    var f := InverseStage(s, b, q);
    StageStep(s, b, q, p, f);
    ScaleStep(s, b, q, p, f);
    PlainStep(s, b, q, p, f);
    InverseStageStep(f, b, q, w, size, ScaleAt(s, b, q), ScaleAt(s, b, p), PlainAt(s, b, q), PlainAt(s, b, p), stage, bx);
  }

  lemma FirstStageClose(s: seq<Cx<Short>>, b: nat, p: nat, size: real, stage: nat -> seq<C>)
    requires |s| == Pow2(b) && b <= LOG2_N_WAVE && p == 0 && Close(s, stage(0), 1.0, 0.0)
    ensures StageClose(s, b, p, size, stage)
  {
    assert Spread(0, 0) == 1;
  }

  lemma {:induction false} StagesClose(s: seq<Cx<Short>>, b: nat, p: nat, w: C, size: real, stage: nat -> seq<C>,
                                       bx: nat -> Butterfly<C>)
    requires |s| == Pow2(b) && p <= b <= LOG2_N_WAVE && NearInverseTable(w) && 0.0 <= size <= 49152.0
    requires NeverWraps(s, b) && StaysWithin(s, b, size) && Close(s, stage(0), 1.0, 0.0)
    requires forall i: nat :: i < b ==> ExactAt(stage, bx, b, w, i)
    ensures StageClose(s, b, p, size, stage) == true
  {
    if p == 0 {
      FirstStageClose(s, b, p, size, stage);
    } else {
      var q := p - 1;
      StagesClose(s, b, q, w, size, stage, bx);
      assert ExactAt(stage, bx, b, w, q) && PassSpares(InverseStage(s, b, q), b, q) == true;
      NextStageClose(s, b, q, p, w, size, stage, bx);
    }
  }

  /** Output q of a run with scale s is within d ((s + 1) n/2^s - 1) of the DFT divided by 2^s. */
  ghost predicate Accurate(f: seq<Cx<Short>>, scale: nat, x: seq<Cx<Short>>, b: nat, logN: nat, w: C, q: nat, d: real)
    requires |x| == Pow2(b) && b <= logN && q < |x|
  {
    |f| == |x| && scale <= b &&
    var k := b - scale;
    Within(Sub(ToC(f[q]), Scale(Shrink(scale), FftExact.Dft(Complexes(), Exactly(x), b, logN, w, q))), ErrorLimit(d, scale, k))
  }

  /**
   fix_fft, inverse, on any run that wraps nothing: with scale s returned, every output is within
   5.1 ((s + 1) n/2^s - 1) units of the DFT with the inverse root divided by 2^s.
   */
  lemma InverseAccurate(x: seq<Cx<Short>>, b: nat, logN: nat, w: C, q: nat)
    requires |x| == Pow2(b) && b <= logN == LOG2_N_WAVE && q < |x| && NeverWraps(Reordered(x, b), b)
    requires FftExact.HalfTurn(Complexes(), w, logN) && NearInverseTable(w)
    ensures var r := FixRun(Reordered(x, b), b, 0, true, 0); Accurate(r.0, r.1, x, b, logN, w, q, 5.1)
  {
    var s := Reordered(x, b);
    forall p: nat | p < b
      ensures Bounded(InverseStage(s, b, p), LARGEST)
    {
      ShortsBounded(InverseStage(s, b, p));
    }
    var f, scale := RunAccurate(x, b, logN, w, q, LARGEST, 5.1);
  }

  /** The same from a bound on the data of all passes. */
  lemma RunAccurate(x: seq<Cx<Short>>, b: nat, logN: nat, w: C, q: nat, size: real, d: real)
    returns (f: seq<Cx<Short>>, scale: nat)
    requires |x| == Pow2(b) && b <= logN == LOG2_N_WAVE && q < |x|
    requires NeverWraps(Reordered(x, b), b) && StaysWithin(Reordered(x, b), b, size)
    requires 0.0 <= size <= 49152.0 && d == Slack(size) && FftExact.HalfTurn(Complexes(), w, logN) && NearInverseTable(w)
    ensures (f, scale) == FixRun(Reordered(x, b), b, 0, true, 0) && Accurate(f, scale, x, b, logN, w, q, d)
  {
    var y, e;
    f, scale, y, e := InverseTransforms(x, b, logN, w, size);
    CloseAt(f, y, Shrink(scale), e, e, q);
    AccurateWith(f, scale, x, b, logN, w, q, d, e, PlainAt(Reordered(x, b), b, b), y[q]);
  }

  lemma AccurateWith(f: seq<Cx<Short>>, scale: nat, x: seq<Cx<Short>>, b: nat, logN: nat, w: C, q: nat, d: real, e: real, k: nat,
                     y: C)
    requires |f| == |x| == Pow2(b) && b <= logN && q < |x| && k + scale == b && e == ErrorLimit(d, scale, k)
    requires y == FftExact.Dft(Complexes(), Exactly(x), b, logN, w, q) && Within(Sub(ToC(f[q]), Scale(Shrink(scale), y)), e)
    ensures Accurate(f, scale, x, b, logN, w, q, d)
  {
    assert b - scale == k;
  }

  lemma InverseTransforms(x: seq<Cx<Short>>, b: nat, logN: nat, w: C, size: real)
    returns (f: seq<Cx<Short>>, scale: nat, d: seq<C>, e: real)
    requires |x| == Pow2(b) && b <= logN == LOG2_N_WAVE
    requires NeverWraps(Reordered(x, b), b) && StaysWithin(Reordered(x, b), b, size)
    requires 0.0 <= size <= 49152.0 && FftExact.HalfTurn(Complexes(), w, logN) && NearInverseTable(w)
    ensures (f, scale) == FixRun(Reordered(x, b), b, 0, true, 0) && |f| == |x| == |d| && scale <= b
    ensures forall q :: 0 <= q < |d| ==> d[q] == FftExact.Dft(Complexes(), Exactly(x), b, logN, w, q)
    ensures e == ErrorLimit(Slack(size), scale, PlainAt(Reordered(x, b), b, b)) && Close(f, d, Shrink(scale), e)
    ensures scale == ScaleAt(Reordered(x, b), b, b)
  {
    var s := Reordered(x, b);
    var stage, bx := ExactSchedule(Exactly(x), b, logN, w);
    CloseAtStart(x, b);
    StagesClose(s, b, b, w, size, stage, bx);
    InverseResult(s, b);
    f, scale := InverseStage(s, b, b), ScaleAt(s, b, b);
    d, e := stage(b), ErrorLimit(Slack(size), scale, PlainAt(s, b, b));
  }
}
