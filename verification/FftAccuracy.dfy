/**
 How close the 16-bit forward transform of ExtLibs/FFT/fft.c comes to the DFT: within 4.25 units of the
 last place per pass, of the DFT divided by n.
 */
module FftAccuracy {
  import opened BitReversal
  import opened FftSchedule
  import opened Sinewave
  import opened FftFixed
  import opened Complex
  import opened Rings
  import opened FftBounds
  import FftExact

  const DRIFT := 4.25

  // ----- one butterfly against its exact counterpart

  /** What one rounded butterfly on data of absolute value `size` can add to the distance: DRIFT for 32768. */
  function Slack(size: real): real {
    2.25 + size / 16384.0
  }

  /** How far the halved table entry w is from half of the exact root. */
  function TableError(w: Cx<Short>, root: C): C {
    Sub(Scale(1.0 / 32768.0, ToC(w)), Scale(0.5, root))
  }

  lemma Bilinear(k: real, w: C, z: C, root: C, x: C)
    ensures Sub(Scale(k, Mul(w, z)), Scale(0.5, Mul(root, x))) ==
            Add(Mul(Sub(Scale(k, w), Scale(0.5, root)), z), Scale(0.5, Mul(root, Sub(z, x))))
  {
    var (wz, rz, rx) := (Mul(w, z), Mul(root, z), Mul(root, x));
    assert Mul(Sub(Scale(k, w), Scale(0.5, root)), z) == Sub(Scale(k, wz), Scale(0.5, rz)) by {
      MulSubLeft(Scale(k, w), Scale(0.5, root), z);
      MulScale(k, w, z);
      MulScale(0.5, root, z);
    }
    assert Mul(root, Sub(z, x)) == Sub(rz, rx) by {
      MulSubRight(root, z, x);
    }
    HalvesCancel(Scale(k, wz), rz, rx);
  }

  lemma HalvesCancel(a: C, y: C, x: C)
    ensures Add(Sub(a, Scale(0.5, y)), Scale(0.5, Sub(y, x))) == Sub(a, Scale(0.5, x))
  {
    var (l, r) := (Add(Sub(a, Scale(0.5, y)), Scale(0.5, Sub(y, x))), Sub(a, Scale(0.5, x)));
    assert l.re == r.re && l.im == r.im;
  }

  lemma DistributeMinus(x: real, y: real, z: real)
    ensures (x - y) * z == x * z - y * z
    ensures z * (x - y) == z * x - z * y
  {
  }

  lemma MulSubLeft(a: C, b: C, z: C)
    ensures Mul(Sub(a, b), z) == Sub(Mul(a, z), Mul(b, z))
  {
    DistributeMinus(a.re, b.re, z.re);
    DistributeMinus(a.im, b.im, z.im);
    DistributeMinus(a.re, b.re, z.im);
    DistributeMinus(a.im, b.im, z.re);
    var (l, r) := (Mul(Sub(a, b), z), Sub(Mul(a, z), Mul(b, z)));
    assert l.re == r.re && l.im == r.im;
  }

  lemma MulSubRight(a: C, y: C, z: C)
    ensures Mul(a, Sub(y, z)) == Sub(Mul(a, y), Mul(a, z))
  {
    MulComm(a, Sub(y, z));
    MulComm(a, y);
    MulComm(a, z);
    MulSubLeft(y, z, a);
  }

  lemma MulScale(k: real, w: C, z: C)
    ensures Mul(Scale(k, w), z) == Scale(k, Mul(w, z))
  {
    assert (k * w.re) * z.re == k * (w.re * z.re) && (k * w.im) * z.im == k * (w.im * z.im);
    assert (k * w.re) * z.im == k * (w.re * z.im) && (k * w.im) * z.re == k * (w.im * z.re);
    DistributeMinus(w.re * z.re, w.im * z.im, k);
    assert k * (w.re * z.im + w.im * z.re) == k * (w.re * z.im) + k * (w.im * z.re);
    var (l, r) := (Mul(Scale(k, w), z), Scale(k, Mul(w, z)));
    assert l.re == r.re && l.im == r.im;
  }

  /** The exact part of the twiddled operand is close to half of root times x. */
  lemma ExactTClose(w: Cx<Short>, z: Cx<Short>, root: C, x: C, e: real, size: real)
    requires Within(TableError(w, root), 2.0 / 32768.0) && Within(root, 1.0)
    requires Within(ToC(z), size) && Within(Sub(ToC(z), x), e)
    ensures Within(Sub(ExactT(w, z), Scale(0.5, Mul(root, x))), size / 16384.0 + 0.5 * e)
  {
    var (d, g) := (Mul(TableError(w, root), ToC(z)), Mul(root, Sub(ToC(z), x)));
    MulWithin(TableError(w, root), ToC(z), 2.0 / 32768.0, size);
    assert 2.0 / 32768.0 * size == size / 16384.0;
    MulWithin(root, Sub(ToC(z), x), 1.0, e);
    assert 1.0 * e == e;
    ScaleWithin(0.5, g, e);
    AddWithin(d, Scale(0.5, g), size / 16384.0, 0.5 * e);
    Bilinear(1.0 / 32768.0, ToC(w), ToC(z), root, x);
  }

  /** What separates a rounded butterfly output from the exact one, apart from the twiddled operand. */
  lemma UpperErrors(q: Cx<Short>, a: C, e: real)
    requires Within(Sub(ToC(q), a), e)
    ensures Within(Sub(ToC(HalfOf(q)), Scale(0.5, a)), 0.5 * e + 0.75)
  {
    ErrQSmall(q);
    ScaleWithin(0.5, Sub(ToC(q), a), e);
    AddWithin(Scale(0.5, Sub(ToC(q), a)), ErrQ(q), 0.5 * e, 0.75);
    var (l, r) := (Sub(ToC(HalfOf(q)), Scale(0.5, a)), Add(Scale(0.5, Sub(ToC(q), a)), ErrQ(q)));
    assert l.re == r.re && l.im == r.im;
  }

  lemma LowerErrors(w: Cx<Short>, z: Cx<Short>, root: C, x: C, e: real, size: real)
    requires Within(TableError(w, root), 2.0 / 32768.0) && Within(root, 1.0)
    requires Within(ToC(z), size) && Within(Sub(ToC(z), x), e)
    requires w.re > -0x8000 && w.im > -0x8000
    ensures Within(Sub(ToC(RawT(w, z)), Scale(0.5, Mul(root, x))), 0.5 * e + (size / 16384.0 + 1.5))
  {
    ErrTSmall(w, z);
    ExactTClose(w, z, root, x, e, size);
    var d := Sub(ExactT(w, z), Scale(0.5, Mul(root, x)));
    AddWithin(d, ErrT(w, z), size / 16384.0 + 0.5 * e, 1.5);
    var (l, r) := (Sub(ToC(RawT(w, z)), Scale(0.5, Mul(root, x))), Add(d, ErrT(w, z)));
    assert l.re == r.re && l.im == r.im;
  }

  /** One wrap-free butterfly adds at most Slack(size) to the distance from half the exact butterfly. */
  lemma StepClose(w: Cx<Short>, q: Cx<Short>, z: Cx<Short>, root: C, a: C, x: C, e: real, size: real)
    requires NoWrap(w, q, z)
    requires Within(TableError(w, root), 2.0 / 32768.0) && Within(root, 1.0) && Within(ToC(z), size)
    requires Within(Sub(ToC(q), a), e) && Within(Sub(ToC(z), x), e)
    ensures Within(Sub(ToC(FixStep(w, true, q, z).0), Add(Scale(0.5, a), Scale(0.5, Mul(root, x)))), e + Slack(size))
    ensures Within(Sub(ToC(FixStep(w, true, q, z).1), Sub(Scale(0.5, a), Scale(0.5, Mul(root, x)))), e + Slack(size))
  {
    NoWrapExact(w, q, z);
    UpperErrors(q, a, e);
    LowerErrors(w, z, root, x, e, size);
    var low := 0.5 * e + (size / 16384.0 + 1.5);
    var (h, t) := (Scale(0.5, a), Scale(0.5, Mul(root, x)));
    var (u, v) := (Sub(ToC(HalfOf(q)), h), Sub(ToC(RawT(w, z)), t));
    AddWithin(u, v, 0.5 * e + 0.75, low);
    NegWithin(v, low);
    AddWithin(u, Neg(v), 0.5 * e + 0.75, low);
    assert Sub(ToC(RawSum(w, q, z)), Add(h, t)) == Add(u, v);
    assert Sub(ToC(RawDifference(w, q, z)), Sub(h, t)) == Add(u, Neg(v));
  }

  // ----- one pass

  lemma ScaledProduct(c: real, root: C, x: C)
    ensures Scale(0.5 * c, Mul(root, x)) == Scale(0.5, Mul(root, Scale(c, x)))
  {
    calc {
      Scale(0.5 * c, Mul(root, x));
      { ScaleTwice(c, Mul(root, x)); }
      Scale(0.5, Scale(c, Mul(root, x)));
      { MulComm(root, x); MulScale(c, x, root); MulComm(root, Scale(c, x)); }
      Scale(0.5, Mul(root, Scale(c, x)));
    }
  }

  lemma ScaleTwice(c: real, y: C)
    ensures Scale(0.5 * c, y) == Scale(0.5, Scale(c, y))
  {
    assert (0.5 * c) * y.re == 0.5 * (c * y.re) && (0.5 * c) * y.im == 0.5 * (c * y.im);
    assert Scale(0.5 * c, y).re == Scale(0.5, Scale(c, y)).re && Scale(0.5 * c, y).im == Scale(0.5, Scale(c, y)).im;
  }

  lemma ScaledUpper(c: real, a: C, t: C)
    ensures Scale(0.5 * c, Add(a, t)) == Add(Scale(0.5, Scale(c, a)), Scale(0.5 * c, t))
  {
    assert (0.5 * c) * (a.re + t.re) == 0.5 * (c * a.re) + (0.5 * c) * t.re;
    assert (0.5 * c) * (a.im + t.im) == 0.5 * (c * a.im) + (0.5 * c) * t.im;
    var (l, r) := (Scale(0.5 * c, Add(a, t)), Add(Scale(0.5, Scale(c, a)), Scale(0.5 * c, t)));
    assert l.re == r.re && l.im == r.im;
  }

  lemma ScaledLower(c: real, a: C, t: C)
    ensures Scale(0.5 * c, Add(a, Neg(t))) == Sub(Scale(0.5, Scale(c, a)), Scale(0.5 * c, t))
  {
    assert (0.5 * c) * (a.re - t.re) == 0.5 * (c * a.re) - (0.5 * c) * t.re;
    assert (0.5 * c) * (a.im - t.im) == 0.5 * (c * a.im) - (0.5 * c) * t.im;
    var (l, r) := (Scale(0.5 * c, Add(a, Neg(t))), Sub(Scale(0.5, Scale(c, a)), Scale(0.5 * c, t)));
    assert l.re == r.re && l.im == r.im;
  }

  /** One fixed-point butterfly against the exact butterfly of the same twiddle, scaled by c and then c/2. */
  lemma ButterflyClose(w: Cx<Short>, q: Cx<Short>, z: Cx<Short>, root: C, a: C, x: C,
                       c: real, c': real, e: real, e': real, size: real)
    requires NoWrap(w, q, z) && c' == 0.5 * c && e' == e + Slack(size)
    requires Within(TableError(w, root), 2.0 / 32768.0) && Within(root, 1.0) && Within(ToC(z), size)
    requires Within(Sub(ToC(q), Scale(c, a)), e) && Within(Sub(ToC(z), Scale(c, x)), e)
    ensures Within(Sub(ToC(FixStep(w, true, q, z).0), Scale(c', Add(a, Mul(root, x)))), e')
    ensures Within(Sub(ToC(FixStep(w, true, q, z).1), Scale(c', Add(a, Neg(Mul(root, x))))), e')
  {
    StepClose(w, q, z, root, Scale(c, a), Scale(c, x), e, size);
    ScaledProduct(c, root, x);
    ScaledUpper(c, a, Mul(root, x));
    ScaledLower(c, a, Mul(root, x));
  }

  /** Every entry of f is within e of c times the entry of x. */
  predicate Close(f: seq<Cx<Short>>, x: seq<C>, c: real, e: real) {
    |f| == |x| && forall i :: 0 <= i < |f| ==> Within(Sub(ToC(f[i]), Scale(c, x[i])), e)
  }

  /** The halved table entry at j is within 2 units of the last place of half of w^j. */
  ghost predicate NearAt(w: C, j: nat) {
    Within(TableError(Twiddle(j, false, true), Pow(Complexes(), w, j)), 2.0 / 32768.0) &&
    Within(Pow(Complexes(), w, j), 1.0)
  }

  /** The sine table approximates the powers of w, which lie on the unit circle. */
  ghost predicate NearTable(w: C) {
    forall j: nat :: j < 512 ==> NearAt(w, j)
  }

  lemma PassAtClose(f: seq<Cx<Short>>, x: seq<C>, p: nat, l: nat, k: nat, w: C,
                    c: real, c': real, e: real, e': real, r: real, y: nat)
    requires p < LOG2_N_WAVE && l == Pow2(p) && k == LOG2_N_WAVE - 1 - p && y < |f|
    requires Close(f, x, c, e) && Bounded(f, r) && r + GROWTH <= 32767.0 && |f| % (2 * l) == 0 && NearTable(w)
    requires c' == 0.5 * c && e' == e + DRIFT
    ensures Within(Sub(ToC(PassAt(f, l, FixButterfly(k, false, true), y)),
                       Scale(c', PassAt(x, l, FftExact.ExactButterfly(Complexes(), w, k), y))), e')
  {
    var u, block, m := Position(y, l);
    var j := Shl(m, k);
    PassAtIs(f, l, FixButterfly(k, false, true), y, u, m);
    PassAtIs(x, l, FftExact.ExactButterfly(Complexes(), w, k), y, u, m);
    TwiddleInRange(p, m);
    TwiddleBound(j, false);
    StepBound(Twiddle(j, false, true), f[u], f[u + l], r);
    Weaken(ToC(f[u + l]), r, 32768.0);
    assert NearAt(w, j);
    ButterflyClose(Twiddle(j, false, true), f[u], f[u + l], Pow(Complexes(), w, j), x[u], x[u + l], c, c', e, e', 32768.0);
  }

  lemma PassClose(f: seq<Cx<Short>>, x: seq<C>, p: nat, l: nat, k: nat, w: C,
                  c: real, c': real, e: real, e': real, r: real)
    requires p < LOG2_N_WAVE && l == Pow2(p) && k == LOG2_N_WAVE - 1 - p
    requires Close(f, x, c, e) && Bounded(f, r) && r + GROWTH <= 32767.0 && |f| % (2 * l) == 0 && NearTable(w)
    requires c' == 0.5 * c && e' == e + DRIFT
    ensures Close(Pass(f, l, FixButterfly(k, false, true)), Pass(x, l, FftExact.ExactButterfly(Complexes(), w, k)), c', e')
  {
    var (bf, bx) := (FixButterfly(k, false, true), FftExact.ExactButterfly(Complexes(), w, k));
    forall y | 0 <= y < |f|
      ensures Within(Sub(ToC(PassAt(f, l, bf, y)), Scale(c', PassAt(x, l, bx, y))), e')
    {
      PassAtClose(f, x, p, l, k, w, c, c', e, e', r, y);
    }
  }

  // ----- the whole transform

  /** 1/2^p. */
  ghost function Shrink(p: nat): real {
    if p == 0 then 1.0 else 0.5 * Shrink(p - 1)
  }

  /** The input as exact complex numbers. */
  ghost function Exactly(s: seq<Cx<Short>>): (x: seq<C>)
    ensures |x| == |s| && forall i :: 0 <= i < |s| ==> x[i] == ToC(s[i])
  {
    seq(|s|, i requires 0 <= i < |s| => ToC(s[i]))
  }

  lemma CloseAtStart(s: seq<Cx<Short>>, b: nat)
    requires |s| == Pow2(b)
    ensures Close(Reordered(s, b), Reordered(Exactly(s), b), 1.0, 0.0)
  {
    var (f, x) := (Reordered(s, b), Reordered(Exactly(s), b));
    forall i | 0 <= i < |f|
      ensures Within(Sub(ToC(f[i]), Scale(1.0, x[i])), 0.0)
    {
      assert Sub(ToC(f[i]), Scale(1.0, x[i])) == Cx(0.0, 0.0);
    }
  }

  /** Pass p of the fixed-point and of the exact transform, side by side. */
  lemma ForwardPassClose(f: seq<Cx<Short>>, x: seq<C>, x': seq<C>, b: nat, p: nat, w: C, c: real, c': real, e: real, e': real,
                         r: real, stage: nat -> seq<C>, bx: nat -> Butterfly<C>)
    requires |f| == Pow2(b) && p < b <= LOG2_N_WAVE && NearTable(w)
    requires Close(f, x, c, e) && Bounded(f, r) && r + GROWTH <= 32767.0
    requires Advances(stage, bx, p, Pow2(b)) && stage(p) == x && stage(p + 1) == x'
    requires bx(p) == FftExact.ExactButterfly(Complexes(), w, LOG2_N_WAVE - 1 - p)
    requires c' == 0.5 * c && e' == e + DRIFT
    ensures Close(ForwardPass(f, b, p), x', c', e')
  {
    Pow2Divides(p + 1, b);
    PassClose(f, x, p, Pow2(p), LOG2_N_WAVE - 1 - p, w, c, c', e, e', r);
  }

  /** Stage q to stage q+1 is the exact pass with root w. */
  ghost predicate ExactAt(stage: nat -> seq<C>, bx: nat -> Butterfly<C>, b: nat, w: C, q: nat) {
    q < LOG2_N_WAVE && Advances(stage, bx, q, Pow2(b)) &&
    bx(q) == FftExact.ExactButterfly(Complexes(), w, LOG2_N_WAVE - 1 - q)
  }

  lemma StageCloseStep(s: seq<Cx<Short>>, b: nat, q: nat, w: C, r: real, e: real, e': real,
                       stage: nat -> seq<C>, bx: nat -> Butterfly<C>)
    requires |s| == Pow2(b) && q < b <= LOG2_N_WAVE && NearTable(w) && ExactAt(stage, bx, b, w, q)
    requires Close(ForwardStage(s, b, q), stage(q), Shrink(q), e)
    requires Bounded(ForwardStage(s, b, q), r) && r + GROWTH <= 32767.0 && e' == e + DRIFT
    ensures Close(ForwardStage(s, b, q + 1), stage(q + 1), Shrink(q + 1), e')
  {
    ForwardPassClose(ForwardStage(s, b, q), stage(q), stage(q + 1), b, q, w, Shrink(q), Shrink(q + 1), e, e',
                     r, stage, bx);
    assert ForwardStage(s, b, q + 1) == ForwardPass(ForwardStage(s, b, q), b, q);
  }

  /** DRIFT * p, added up pass by pass. */
  ghost function Drift(p: nat): real {
    if p == 0 then 0.0 else Drift(p - 1) + DRIFT
  }

  lemma {:induction false} DriftIs(p: nat)
    ensures Drift(p) == 4.25 * p as real
  {
    if p > 0 {
      DriftIs(p - 1);
    }
  }

  /** After p passes the data are within DRIFT * p of the exact data divided by 2^p. */
  lemma {:induction false} StageClose(s: seq<Cx<Short>>, b: nat, p: nat, w: C,
                                      stage: nat -> seq<C>, bx: nat -> Butterfly<C>)
    requires |s| == Pow2(b) && p <= b <= LOG2_N_WAVE && NearTable(w) && Bounded(s, InputLimit(b))
    requires Close(s, stage(0), 1.0, 0.0)
    requires forall i: nat :: i < b ==> ExactAt(stage, bx, b, w, i)
    ensures Close(ForwardStage(s, b, p), stage(p), Shrink(p), Drift(p))
  {
    if p == 0 {
      StageCloseStart(s, b, 0.0, stage);
    } else {
      StageClose(s, b, p - 1, w, stage, bx);
      StageCloseNext(s, b, p - 1, p, w, Drift(p - 1), Drift(p), stage, bx);
    }
  }

  lemma StageCloseStart(s: seq<Cx<Short>>, b: nat, e: real, stage: nat -> seq<C>)
    requires |s| == Pow2(b) && b <= LOG2_N_WAVE && Close(s, stage(0), 1.0, 0.0) && e == 0.0
    ensures Close(ForwardStage(s, b, 0), stage(0), Shrink(0), e)
  {
  }

  lemma StageCloseNext(s: seq<Cx<Short>>, b: nat, q: nat, p: nat, w: C, e: real, e': real,
                       stage: nat -> seq<C>, bx: nat -> Butterfly<C>)
    requires |s| == Pow2(b) && p == q + 1 && q < b <= LOG2_N_WAVE && NearTable(w) && Bounded(s, InputLimit(b))
    requires Close(ForwardStage(s, b, q), stage(q), Shrink(q), e) && e' == e + DRIFT
    requires ExactAt(stage, bx, b, w, q)
    ensures Close(ForwardStage(s, b, p), stage(p), Shrink(p), e')
  {
    var r := InputLimit(b) + GROWTH * q as real;
    RadiusAfterIs(InputLimit(b), q);
    StageBounded(s, b, q, InputLimit(b), r);
    StageCloseStep(s, b, q, w, r, e, e', stage, bx);
  }

  lemma ReorderedBounded(x: seq<Cx<Short>>, b: nat, r: real)
    requires |x| == Pow2(b) && Bounded(x, r)
    ensures Bounded(Reordered(x, b), r)
  {
  }

  lemma ForwardResult(s: seq<Cx<Short>>, b: nat)
    requires |s| == Pow2(b) && b <= LOG2_N_WAVE
    ensures FixRun(s, b, 0, false, 0) == (ForwardStage(s, b, b), 0)
  {
    ForwardRun(s, b, b);
  }

  /** The exact passes with root w, from the reordered input to its DFT. */
  lemma ExactSchedule(x: seq<C>, b: nat, logN: nat, w: C) returns (stage: nat -> seq<C>, bx: nat -> Butterfly<C>)
    requires |x| == Pow2(b) && b <= logN == LOG2_N_WAVE && FftExact.HalfTurn(Complexes(), w, logN)
    ensures stage(0) == Reordered(x, b)
    ensures forall i: nat :: i < b ==> ExactAt(stage, bx, b, w, i)
    ensures |stage(b)| == |x|
    ensures forall q :: 0 <= q < |x| ==> stage(b)[q] == FftExact.Dft(Complexes(), x, b, logN, w, q)
  {
    ComplexesLawful();
    stage := FftExact.Stages(Complexes(), x, b, logN, w);
    bx := FftExact.ExactButterflies(Complexes(), w, logN);
    FftExact.StagesRun(Complexes(), x, b, logN, w, stage, bx);
    forall i: nat | i < b
      ensures ExactAt(stage, bx, b, w, i)
    {
      ExactButterflyAt(logN, w, i, bx);
      assert Advances(stage, bx, i, Pow2(b));
    }
  }

  lemma ExactButterflyAt(logN: nat, w: C, i: nat, bx: nat -> Butterfly<C>)
    requires i < logN && bx == FftExact.ExactButterflies(Complexes(), w, logN)
    ensures bx(i) == FftExact.ExactButterfly(Complexes(), w, logN - 1 - i)
  {
    assert logN - i - 1 == logN - 1 - i;
  }

  /**
   fix_fft, forward, on any input of absolute value at most 32767 - 3.25 log2(n): every output is within
   4.25 log2(n) units of the DFT divided by n.
   */
  lemma FixFftAccurate(x: seq<Cx<Short>>, b: nat, logN: nat, w: C, q: nat)
    requires |x| == Pow2(b) && b <= logN == LOG2_N_WAVE && q < |x| && Bounded(x, InputLimit(b))
    requires FftExact.HalfTurn(Complexes(), w, logN) && NearTable(w)
    ensures var f := FixRun(Reordered(x, b), b, 0, false, 0).0;
      |f| == |x| &&
      Within(Sub(ToC(f[q]), Scale(Shrink(b), FftExact.Dft(Complexes(), Exactly(x), b, logN, w, q))), 4.25 * b as real)
  {
    var f, d := TransformsClose(x, b, logN, w);
    DriftIs(b);
    CloseAt(f, d, Shrink(b), Drift(b), 4.25 * b as real, q);
  }

  lemma CloseAt(f: seq<Cx<Short>>, d: seq<C>, c: real, e: real, e': real, q: nat)
    requires Close(f, d, c, e) && e == e' && q < |f|
    ensures Within(Sub(ToC(f[q]), Scale(c, d[q])), e')
  {
  }

  lemma TransformsClose(x: seq<Cx<Short>>, b: nat, logN: nat, w: C) returns (f: seq<Cx<Short>>, d: seq<C>)
    requires |x| == Pow2(b) && b <= logN == LOG2_N_WAVE && Bounded(x, InputLimit(b))
    requires FftExact.HalfTurn(Complexes(), w, logN) && NearTable(w)
    ensures f == FixRun(Reordered(x, b), b, 0, false, 0).0 && |f| == |x| == |d|
    ensures forall q :: 0 <= q < |d| ==> d[q] == FftExact.Dft(Complexes(), Exactly(x), b, logN, w, q)
    ensures Close(f, d, Shrink(b), Drift(b))
  {
    var s := Reordered(x, b);
    var stage, bx := ExactSchedule(Exactly(x), b, logN, w);
    CloseAtStart(x, b);
    ReorderedBounded(x, b, InputLimit(b));
    StageClose(s, b, b, w, stage, bx);
    ForwardResult(s, b);
    f, d := ForwardStage(s, b, b), stage(b);
  }

  /** Shrink(b) really is 1/n. */
  lemma {:induction false} ShrinkIsInverse(b: nat)
    ensures Shrink(b) * Pow2(b) as real == 1.0
  {
    if b > 0 {
      ShrinkIsInverse(b - 1);
      var (h, n) := (Shrink(b - 1), Pow2(b - 1) as real);
      assert (0.5 * h) * (2.0 * n) == h * n;
    }
  }
}
