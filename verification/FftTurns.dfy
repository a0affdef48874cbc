/**
 Which way and how far the table of ExtLibs/FFT/fft.c:44-141 turns, in plain numbers: signs, the law of powers, and
 what the transforms make of a single sample (lines 234-258).
 */
module FftTurns {
  import opened BitReversal
  import opened FftSchedule
  import opened Sinewave
  import opened FftFixed
  import opened Complex
  import opened Rings
  import opened FftBounds
  import opened FftAccuracy
  import opened FftInverse
  import opened FftRootTable
  import opened FftRoot

  // ----- signs

  lemma QuarterPositive(j: nat)
    requires j > 0
    ensures Quarter(j) > 0
  {
  }

  lemma LowSigns(j: nat)
    requires 0 < j < 256
    ensures Twiddle(j, false, false).re > 0 > Twiddle(j, false, false).im
  {
    EntryIs(j);
    QuarterPositive(256 - j);
    QuarterPositive(j);
  }

  lemma HighSigns(j: nat, i: nat)
    requires 0 < i < 256 && j == 256 + i
    ensures Twiddle(j, false, false).re < 0 && Twiddle(j, false, false).im < 0
  {
    EntryIs(i);
    QuarterPositive(256 - i);
    QuarterPositive(i);
  }

  lemma AxisEntries()
    ensures Twiddle(0, false, false) == Cx(32767, 0) && Twiddle(256, false, false) == Cx(0, -32767)
  {
    FirstEntry();
    QuarterEntry();
  }

  lemma FirstEntry()
    ensures Twiddle(0, false, false) == Cx(32767, 0)
  {
  }

  lemma QuarterEntry()
    ensures Twiddle(256, false, false) == Cx(0, -32767)
  {
  }

  /** Forward twiddles start at 1 and turn clockwise through the two lower quadrants. */
  lemma ForwardSigns(j: nat)
    requires j < 512
    ensures Twiddle(0, false, false) == Cx(32767, 0) && Twiddle(256, false, false) == Cx(0, -32767)
    ensures 0 < j < 256 ==> Twiddle(j, false, false).re > 0 > Twiddle(j, false, false).im
    ensures 256 < j ==> Twiddle(j, false, false).re < 0 && Twiddle(j, false, false).im < 0
  {
    AxisEntries();
    if 0 < j < 256 {
      LowSigns(j);
    } else if 256 < j {
      HighSigns(j, j - 256);
    }
  }

  /** Inverse twiddles are their mirror images. */
  lemma InverseSigns(j: nat)
    requires j < 512
    ensures Twiddle(0, true, false) == Cx(32767, 0) && Twiddle(256, true, false) == Cx(0, 32767)
    ensures Twiddle(j, true, false).re == Twiddle(j, false, false).re
    ensures Twiddle(j, true, false).im == -(Twiddle(j, false, false).im as int)
  {
    MirrorImage(j);
    MirrorImage(0);
    MirrorImage(256);
    AxisEntries();
  }

  lemma MirrorImage(j: nat)
    requires j < 512
    ensures Twiddle(j, true, false).re == Twiddle(j, false, false).re
    ensures Twiddle(j, true, false).im == -(Twiddle(j, false, false).im as int)
  {
    SineRange(j);
  }

  // ----- the law of powers

  lemma EntryWithin(j: nat)
    requires j < 512
    ensures Within(ToC(Entry(j)), 32767.0)
  {
    MirrorImage(j);
    FullTwiddleBound(j, Twiddle(j, true, false));
    MirroredWithin(Twiddle(j, true, false), Entry(j));
  }

  lemma MirroredWithin(v: Cx<Short>, w: Cx<Short>)
    requires Within(ToC(v), 32767.0) && v.re == w.re && v.im == -(w.im as int)
    ensures Within(ToC(w), 32767.0)
  {
    assert (-(w.im as real)) * (-(w.im as real)) == w.im as real * w.im as real;
    assert ToC(v).im == -(w.im as real);
  }

  /** Three distances from multiples of p, r and p r that add up to that of a c from 32768 d. */
  lemma ProductError(a: C, c: C, d: C, p: C, r: C)
    ensures Sub(Mul(a, c), Scale(32767.0, d)) ==
            Add(Add(Mul(Sub(a, Scale(32768.0, p)), c), Scale(32768.0, Mul(p, Sub(c, Scale(32768.0, r))))),
                Add(Scale(32768.0, Neg(Sub(d, Scale(32768.0, Mul(p, r))))), d))
  {
    MulSubLeft(a, Scale(32768.0, p), c);
    MulScale(32768.0, p, c);
    MulSubRight(p, c, Scale(32768.0, r));
    MulComm(p, Scale(32768.0, r));
    MulScale(32768.0, r, p);
    MulComm(p, r);
    Cancels(Mul(a, c), Mul(p, c), Mul(p, r), d);
  }

  lemma Cancels(ac: C, pc: C, pr: C, d: C)
    ensures Sub(ac, Scale(32767.0, d)) ==
            Add(Add(Sub(ac, Scale(32768.0, pc)), Scale(32768.0, Sub(pc, Scale(32768.0, pr)))),
                Add(Scale(32768.0, Neg(Sub(d, Scale(32768.0, pr)))), d))
  {
    var (l, r) := (Sub(ac, Scale(32767.0, d)),
                   Add(Add(Sub(ac, Scale(32768.0, pc)), Scale(32768.0, Sub(pc, Scale(32768.0, pr)))),
                       Add(Scale(32768.0, Neg(Sub(d, Scale(32768.0, pr)))), d)));
    assert l.re == r.re && l.im == r.im;
  }

  lemma ProductErrorBound(a: C, c: C, d: C, p: C, r: C)
    requires Within(Sub(a, Scale(32768.0, p)), 2.49) && Within(Sub(c, Scale(32768.0, r)), 2.49)
    requires Within(Sub(d, Scale(32768.0, Mul(p, r))), 2.49) && Within(p, 1.0) && Within(c, 32767.0) && Within(d, 32767.0)
    ensures Within(Sub(Mul(a, c), Scale(32767.0, d)), 9.0 * 32767.0)
  {
    var (e, g, h) := (Sub(a, Scale(32768.0, p)), Sub(c, Scale(32768.0, r)), Sub(d, Scale(32768.0, Mul(p, r))));
    MulWithin(e, c, 2.49, 32767.0);
    MulWithin(p, g, 1.0, 2.49);
    ScaleWithin(32768.0, Mul(p, g), 1.0 * 2.49);
    NegWithin(h, 2.49);
    ScaleWithin(32768.0, Neg(h), 2.49);
    AddWithin(Mul(e, c), Scale(32768.0, Mul(p, g)), 2.49 * 32767.0, 32768.0 * (1.0 * 2.49));
    AddWithin(Scale(32768.0, Neg(h)), d, 32768.0 * 2.49, 32767.0);
    var (u, v) := (2.49 * 32767.0 + 32768.0 * (1.0 * 2.49), 32768.0 * 2.49 + 32767.0);
    AddWithin(Add(Mul(e, c), Scale(32768.0, Mul(p, g))), Add(Scale(32768.0, Neg(h)), d), u, v);
    ProductError(a, c, d, p, r);
    Weaken(Sub(Mul(a, c), Scale(32767.0, d)), u + v, 9.0 * 32767.0);
  }

  /** The product of entries j and k is 32767 times entry j + k, to within nine units of the entry. */
  lemma TableMultiplies(j: nat, k: nat)
    requires j + k < 512
    ensures Within(Sub(Mul(ToC(Twiddle(j, false, false)), ToC(Twiddle(k, false, false))),
                       Scale(32767.0, ToC(Twiddle(j + k, false, false)))), 9.0 * 32767.0)
  {
    SomeNumberNear();
    var (z, n) := (Fine(1), j + k);
    AllEntriesClose(z, j);
    AllEntriesClose(z, k);
    AllEntriesClose(z, n);
    PowWithin(z, j);
    PowSplit(z, j, k, n);
    EntryWithin(k);
    EntryWithin(n);
    ProductErrorBound(ToC(Entry(j)), ToC(Entry(k)), ToC(Entry(n)), Pow(Complexes(), z, j), Pow(Complexes(), z, k));
  }

  // ----- a single sample

  function Zero(): Cx<Short> {
    Cx(0, 0)
  }

  lemma Sizes()
    ensures Pow2(0) == 1 && Pow2(1) == 2 && Pow2(2) == 4 && Shl(0, 9) == 0 && Shl(1, 8) == 256
  {
  }

  /** Entry x of the pass after s, where the butterfly of x starts at u. */
  lemma StepAt(s: seq<Cx<Short>>, s': seq<Cx<Short>>, l: nat, k: nat, inverse: bool, shift: bool, x: nat, u: nat, m: nat,
               w: Cx<Short>)
    requires |s| == 4 && (l == 1 || l == 2) && x < 4 && u == Upper(x, l) && u % (2 * l) == m && |s| % (2 * l) == 0
    requires s' == Pass(s, l, FixButterfly(k, inverse, shift)) && w == Twiddle(Shl(m, k), inverse, shift)
    ensures u + l < 4 && |s'| == 4
    ensures s'[x] == if x == u then FixStep(w, shift, s[u], s[u + l]).0 else FixStep(w, shift, s[u], s[u + l]).1
  {
    PassAtIs(s, l, FixButterfly(k, inverse, shift), x, u, m);
  }

  /** A butterfly without a lower operand. */
  lemma AloneStep(w: Cx<Short>, shift: bool, a: Short, h: Short)
    requires h == if shift then Half(a) else a
    ensures FixStep(w, shift, Cx(a, 0), Zero()) == (Cx(h, 0), Cx(h, 0))
  {
    MpyZero(w.re);
    MpyZero(w.im);
  }

  /** After the first pass: the sample, halved if there is a shift, at positions 2 and 3. */
  lemma FirstTone(s: seq<Cx<Short>>, s': seq<Cx<Short>>, k: nat, inverse: bool, shift: bool, a: Short, h: Short)
    requires |s| == 4 && s[0] == s[1] == s[3] == Zero() && s[2] == Cx(a, 0) && k == 9
    requires s' == Pass(s, 1, FixButterfly(k, inverse, shift)) && h == if shift then Half(a) else a
    ensures s' == [Zero(), Zero(), Cx(h, 0), Cx(h, 0)]
  {
    var w := Twiddle(Shl(0, k), inverse, shift);
    var (u, zero) := (0, 0);
    HalfOfZero(shift, zero);
    LonePair(s, s', k, inverse, shift, u, zero, zero, w);
    LonePair(s, s', k, inverse, shift, u + 2, a, h, w);
    FourOf(s', h);
  }

  lemma HalfOfZero(shift: bool, z: Short)
    requires z == 0
    ensures z == if shift then Half(z) else z
  {
  }

  lemma FourOf(s: seq<Cx<Short>>, h: Short)
    requires |s| == 4 && s[0] == s[1] == Zero() && s[2] == s[3] == Cx(h, 0)
    ensures s == [Zero(), Zero(), Cx(h, 0), Cx(h, 0)]
  {
  }

  lemma LoneUpper(u: nat)
    requires u == 0 || u == 2
    ensures Upper(u, 1) == u && Upper(u + 1, 1) == u && u % 2 == 0
  {
  }

  lemma LonePair(s: seq<Cx<Short>>, s': seq<Cx<Short>>, k: nat, inverse: bool, shift: bool, u: nat, a: Short, h: Short,
                 w: Cx<Short>)
    requires |s| == 4 && (u == 0 || u == 2) && s[u] == Cx(a, 0) && s[u + 1] == Zero() && k == 9
    requires s' == Pass(s, 1, FixButterfly(k, inverse, shift)) && w == Twiddle(Shl(0, k), inverse, shift)
    requires h == if shift then Half(a) else a
    ensures |s'| == 4 && s'[u] == Cx(h, 0) && s'[u + 1] == Cx(h, 0)
  {
    AloneStep(w, shift, a, h);
    LoneUpper(u);
    StepAt(s, s', 1, k, inverse, shift, u, u, 0, w);
    StepAt(s, s', 1, k, inverse, shift, u + 1, u, 0, w);
  }

  /** The quarter-turn twiddle, halved or not. */
  lemma QuarterTwiddles()
    ensures Twiddle(256, false, true) == Cx(0, -16384)
    ensures Twiddle(256, true, true) == Cx(0, 16383) && Twiddle(256, true, false) == Cx(0, 32767)
  {
  }

  lemma ImaginaryStep(w: Cx<Short>, shift: bool, z: Cx<Short>, v: Short, h: Short, t: Short)
    requires w == Cx(0, v) && z == Cx(h, 0) && t == FixMpy(v, h)
    ensures FixStep(w, shift, Zero(), z).0 == Cx(0, t)
  {
    var a, b, c := ZeroProducts(v, h);
    StepIs(w, shift, Zero(), z, a, b, c, t, 0, t);
    FromZero(shift, t);
  }

  lemma ZeroProducts(v: Short, h: Short) returns (a: Short, b: Short, c: Short)
    ensures a == FixMpy(0, h) == 0 && b == FixMpy(v, 0) == 0 && c == FixMpy(0, 0) == 0
  {
    MpyZero(h);
    MpyZero(v);
    MpyZero(0);
    a, b, c := 0, 0, 0;
  }

  lemma StepIs(w: Cx<Short>, shift: bool, q: Cx<Short>, z: Cx<Short>, a: Short, b: Short, c: Short, d: Short, tr: Short,
               ti: Short)
    requires a == FixMpy(w.re, z.re) && b == FixMpy(w.im, z.im) && c == FixMpy(w.re, z.im) && d == FixMpy(w.im, z.re)
    requires a - b == tr && c + d == ti
    ensures FixStep(w, shift, q, z) == Results(shift, q, tr, ti)
  {
  }

  lemma FromZero(shift: bool, t: Short)
    ensures Results(shift, Zero(), 0, t).0 == Cx(0, t)
  {
  }

  /** After the second pass, at frequency 1. */
  lemma SecondTone(s: seq<Cx<Short>>, s': seq<Cx<Short>>, k: nat, inverse: bool, shift: bool, h: Short, w: Cx<Short>)
    requires s == [Zero(), Zero(), Cx(h, 0), Cx(h, 0)] && k == 8 && s' == Pass(s, 2, FixButterfly(k, inverse, shift))
    requires w == Twiddle(256, inverse, shift) && (inverse || shift)
    ensures |s'| == 4 && s'[1] == Cx(0, FixMpy(w.im, h))
  {
    Sizes();
    QuarterTwiddles();
    StepAt(s, s', 2, k, inverse, shift, 1, 1, 1, w);
    ImaginaryStep(w, shift, Cx(h, 0), w.im, h, FixMpy(w.im, h));
  }

  /** Both passes on a sample of amplitude a. */
  lemma Tone(x: seq<Cx<Short>>, b: nat, inverse: bool, a: Short) returns (r: (seq<Cx<Short>>, nat), h: Short, one: bool, two: bool)
    requires b == 2 && x == [Zero(), Cx(a, 0), Zero(), Zero()]
    ensures |x| == Pow2(b) && r == FixRun(Reordered(x, b), b, 0, inverse, 0)
    ensures one == (!inverse || AnyLarge([Zero(), Zero(), Cx(a, 0), Zero()])) && h == if one then Half(a) else a
    ensures two == (!inverse || AnyLarge([Zero(), Zero(), Cx(h, 0), Cx(h, 0)]))
    ensures r.1 == if inverse then (if one then 1 else 0) + (if two then 1 else 0) else 0
    ensures |r.0| == 4 && r.0[1] == Cx(0, FixMpy(Twiddle(256, inverse, two).im, h))
  {
    Sizes();
    var s := [Zero(), Zero(), Cx(a, 0), Zero()];
    ReorderedTone(x, b, a);
    one := !inverse || AnyLarge(s);
    h := if one then Half(a) else a;
    FixRunStep(s, b, 0, inverse, 0, one, 1, 9);
    var s1 := Pass(s, 1, FixButterfly(9, inverse, one));
    FirstTone(s, s1, 9, inverse, one, a, h);
    two := !inverse || AnyLarge(s1);
    var c := if inverse && one then 1 else 0;
    FixRunStep(s1, b, 1, inverse, c, two, 2, 8);
    var s2 := Pass(s1, 2, FixButterfly(8, inverse, two));
    SecondTone(s1, s2, 8, inverse, two, h, Twiddle(256, inverse, two));
    r := FixRun(s2, b, 2, inverse, if inverse && two then c + 1 else c);
  }

  lemma ReorderedTone(x: seq<Cx<Short>>, b: nat, a: Short)
    requires b == 2 && x == [Zero(), Cx(a, 0), Zero(), Zero()]
    ensures |x| == Pow2(b) && Reordered(x, b) == [Zero(), Zero(), Cx(a, 0), Zero()]
  {
    Sizes();
    assert Rev(2, 0) == 0 && Rev(2, 1) == 2 && Rev(2, 2) == 1 && Rev(2, 3) == 3;
  }

  /** The forward transform of [0, a, 0, 0] turns clockwise: -a/4 times i at frequency 1, to within two units. */
  lemma ForwardTone(x: seq<Cx<Short>>, b: nat, a: Short)
    requires b == 2 && x == [Zero(), Cx(a, 0), Zero(), Zero()]
    ensures |x| == Pow2(b)
    ensures var r := FixRun(Reordered(x, b), b, 0, false, 0).0; |r| == 4 && r[1].re == 0 && -8 <= 4 * r[1].im + a <= 8
  {
    var r, h, one, two := Tone(x, b, false, a);
    QuarterTwiddles();
    FixMpyRounds(-16384, h);
  }

  /** The inverse transform turns the other way: a times i at frequency 1, times 2^scale and to within eight units. */
  lemma InverseTone(x: seq<Cx<Short>>, b: nat, a: Short)
    requires b == 2 && x == [Zero(), Cx(a, 0), Zero(), Zero()]
    ensures |x| == Pow2(b)
    ensures var r := FixRun(Reordered(x, b), b, 0, true, 0);
      |r.0| == 4 && r.0[1].re == 0 && r.1 <= 2 && -8 <= Pow2(r.1) * r.0[1].im - a <= 8
  {
    var r, h, one, two := Tone(x, b, true, a);
    InverseValue(a, h, one, two, r.0[1].im, r.1);
  }

  lemma InverseValue(a: Short, h: Short, one: bool, two: bool, v: int, scale: nat)
    requires one == AnyLarge([Zero(), Zero(), Cx(a, 0), Zero()]) && h == (if one then Half(a) else a)
    requires two == AnyLarge([Zero(), Zero(), Cx(h, 0), Cx(h, 0)]) && v == FixMpy(Twiddle(256, true, two).im, h)
    requires scale == (if one then 1 else 0) + if two then 1 else 0
    ensures scale <= 2 && -8 <= Pow2(scale) * v - a <= 8
  {
    InverseQuarter(two);
    OneLarge(a, 2, [Zero(), Zero(), Cx(a, 0), Zero()]);
    OneLarge(h, 2, [Zero(), Zero(), Cx(h, 0), Cx(h, 0)]);
    InverseAmplitude(a, h, one, two, v, scale);
  }

  lemma InverseQuarter(shift: bool)
    ensures Twiddle(256, true, shift).im == if shift then 16383 else 32767
  {
    QuarterTwiddles();
  }

  lemma OneLarge(a: Short, i: nat, s: seq<Cx<Short>>)
    requires i < |s| && s[i] == Cx(a, 0) && forall k :: 0 <= k < |s| ==> s[k] == Cx(a, 0) || s[k] == Zero()
    ensures AnyLarge(s) <==> Abs(a) > 16383
  {
    LargeIff(s[i]);
  }

  lemma InverseAmplitude(a: Short, h: Short, one: bool, two: bool, v: int, scale: nat)
    requires (one <==> Abs(a) > 16383) && h == (if one then Half(a) else a) && (two <==> Abs(h) > 16383)
    requires v == FixMpy(if two then 16383 else 32767, h) && scale == (if one then 1 else 0) + if two then 1 else 0
    ensures scale <= 2 && -8 <= Pow2(scale) * v - a <= 8
  {
    Sizes();
    FixMpyRounds(16383, h);
    FixMpyRounds(32767, h);
    if two {
      assert -4 <= 2 * v - h <= 4;
    } else {
      assert -2 <= v - h <= 2;
    }
  }
}
