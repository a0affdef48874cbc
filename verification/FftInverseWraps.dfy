/**
 The sizes for which the scaling decision of ExtLibs/FFT/fft.c:202-218 keeps the inverse transform from wrapping:
 up to four samples. From eight samples on the limit of 16383 on each part does not keep a sample rotated by an eighth
 turn and its partner within 16 bits.
 */
module FftInverseWraps {
  import opened BitReversal
  import opened FftSchedule
  import opened Sinewave
  import opened FftFixed
  import opened FftBounds
  import opened FftInverse
  import opened Complex

  // ----- butterflies whose products are exact

  lemma MpyOne(z: Short)
    requires -0x4000 < z <= 0x4000
    ensures FixMpy(32767, z) == z
  {
    FixMpyRounds(32767, z);
  }

  predicate Small(z: Cx<Short>) {
    -0x2000 <= z.re <= 0x2000 && -0x2000 <= z.im <= 0x2000
  }

  function Sum(q: Cx<Short>, z: Cx<Short>): Cx<Short>
    requires Small(q) && Small(z)
  {
    Cx(q.re + z.re, q.im + z.im)
  }

  function Difference(q: Cx<Short>, z: Cx<Short>): Cx<Short>
    requires Small(q) && Small(z)
  {
    Cx(q.re - z.re, q.im - z.im)
  }

  /** z turned by a quarter. */
  function Turned(z: Cx<Short>): Cx<Short>
    requires Small(z)
  {
    Cx(0 - z.im as int, z.re)
  }

  /** Twiddle 1: sum and difference. */
  lemma UnitStep(q: Cx<Short>, z: Cx<Short>)
    requires Small(q) && Small(z)
    ensures FixStep(Cx(32767, 0), false, q, z) == (Sum(q, z), Difference(q, z))
  {
    UnitProduct(z);
    ResultsOf(Cx(32767, 0), q, z, z);
  }

  lemma UnitProduct(z: Cx<Short>)
    requires Small(z)
    ensures FixMpy(32767, z.re) - FixMpy(0, z.im) == z.re && FixMpy(32767, z.im) + FixMpy(0, z.re) == z.im
  {
    TurnProducts(z);
  }

  lemma TurnProducts(z: Cx<Short>)
    requires Small(z)
    ensures FixMpy(0, z.re) == 0 && FixMpy(32767, z.im) == z.im && FixMpy(0, z.im) == 0 && FixMpy(32767, z.re) == z.re
  {
    MpyOne(z.re);
    MpyOne(z.im);
    MpyZero(z.re);
    MpyZero(z.im);
  }

  /** An unscaled butterfly from the product, whose parts are t. */
  lemma StepIs(w: Cx<Short>, q: Cx<Short>, z: Cx<Short>, t: Cx<Short>)
    requires FixMpy(w.re, z.re) - FixMpy(w.im, z.im) == t.re && FixMpy(w.re, z.im) + FixMpy(w.im, z.re) == t.im
    ensures FixStep(w, false, q, z) == Results(false, q, t.re, t.im)
  {
  }

  lemma Unwrapped(q: Cx<Short>, t: Cx<Short>)
    requires Small(q) && Small(t)
    ensures Results(false, q, t.re, t.im) == (Sum(q, t), Difference(q, t))
  {
  }

  /** The same while nothing wraps. */
  lemma ResultsOf(w: Cx<Short>, q: Cx<Short>, z: Cx<Short>, t: Cx<Short>)
    requires FixMpy(w.re, z.re) - FixMpy(w.im, z.im) == t.re && FixMpy(w.re, z.im) + FixMpy(w.im, z.re) == t.im
    requires Small(q) && Small(t)
    ensures FixStep(w, false, q, z) == (Sum(q, t), Difference(q, t))
  {
    StepIs(w, q, z, t);
    Unwrapped(q, t);
  }

  lemma TurnProduct(z: Cx<Short>, t: Cx<Short>)
    requires Small(z) && t == Turned(z)
    ensures FixMpy(0, z.re) - FixMpy(32767, z.im) == t.re && FixMpy(0, z.im) + FixMpy(32767, z.re) == t.im && Small(t)
  {
    TurnProducts(z);
  }

  /** Twiddle i: the same with a quarter turn. */
  lemma TurnStep(q: Cx<Short>, z: Cx<Short>)
    requires Small(q) && Small(z)
    ensures FixStep(Cx(0, 32767), false, q, z) == (Sum(q, Turned(z)), Difference(q, Turned(z)))
  {
    TurnProduct(z, Turned(z));
    ResultsOf(Cx(0, 32767), q, z, Turned(z));
  }

  // ----- one pass over data whose first eight samples matter

  lemma UpperOfPair(l: nat, u: nat, m: nat)
    requires (l == 1 || l == 2 || l == 4) && u + l < 8 && u % (2 * l) == m < l
    ensures Upper(u, l) == u && Upper(u + l, l) == u
  {
    if l == 1 {
      assert (u + 1) % 2 == 1;
    } else if l == 2 {
      assert (u + 2) % 4 == m + 2;
    } else {
      assert (u + 4) % 8 == m + 4;
    }
  }

  /** One entry after an unscaled pass. */
  lemma EntryAfter(s: seq<Cx<Short>>, p: seq<Cx<Short>>, l: nat, k: nat, x: nat, u: nat, m: nat, w: Cx<Short>)
    requires l > 0 && |s| % (2 * l) == 0 && x < |s| && u == Upper(x, l) && u % (2 * l) == m
    requires p == Pass(s, l, FixButterfly(k, true, false)) && w == Twiddle(Shl(m, k), true, false)
    ensures u + l < |s| && |p| == |s|
    ensures p[x] == if x == u then FixStep(w, false, s[u], s[u + l]).0 else FixStep(w, false, s[u], s[u + l]).1
  {
    PassAtIs(s, l, FixButterfly(k, true, false), x, u, m);
  }

  /** The pair of a butterfly after an unscaled pass. */
  lemma PairAfter(s: seq<Cx<Short>>, p: seq<Cx<Short>>, l: nat, k: nat, u: nat, m: nat, w: Cx<Short>, r: (Cx<Short>, Cx<Short>))
    requires |s| >= 8 && (l == 1 || l == 2 || l == 4) && u + l < 8 && u % (2 * l) == m < l
    requires w == Twiddle(Shl(m, k), true, false) && r == FixStep(w, false, s[u], s[u + l])
    requires |s| % (2 * l) == 0 && p == Pass(s, l, FixButterfly(k, true, false))
    ensures |p| == |s| && p[u] == r.0 && p[u + l] == r.1
  {
    UpperOfPair(l, u, m);
    EntryAfter(s, p, l, k, u, u, m, w);
    EntryAfter(s, p, l, k, u + l, u, m, w);
  }

  /** A pair under twiddle 1. */
  lemma UnitPair(s: seq<Cx<Short>>, p: seq<Cx<Short>>, l: nat, k: nat, u: nat)
    requires |s| >= 8 && (l == 1 || l == 2) && u + l < 8 && u % (2 * l) == 0 && Small(s[u]) && Small(s[u + l])
    requires |s| % (2 * l) == 0 && p == Pass(s, l, FixButterfly(k, true, false))
    ensures |p| == |s| && p[u] == Sum(s[u], s[u + l]) && p[u + l] == Difference(s[u], s[u + l])
  {
    Twiddles();
    ShlZero(k);
    UnitStep(s[u], s[u + l]);
    PairAfter(s, p, l, k, u, 0, Cx(32767, 0), (Sum(s[u], s[u + l]), Difference(s[u], s[u + l])));
  }

  /** A pair under twiddle i. */
  lemma TurnPair(s: seq<Cx<Short>>, p: seq<Cx<Short>>, l: nat, k: nat, u: nat)
    requires |s| >= 8 && l == 2 && k == 8 && u + l < 8 && u % (2 * l) == 1 && Small(s[u]) && Small(s[u + l])
    requires |s| % (2 * l) == 0 && p == Pass(s, l, FixButterfly(k, true, false))
    ensures |p| == |s| && p[u] == Sum(s[u], Turned(s[u + l])) && p[u + l] == Difference(s[u], Turned(s[u + l]))
  {
    Twiddles();
    Shifts8();
    TurnStep(s[u], s[u + l]);
    PairAfter(s, p, l, k, u, 1, Cx(0, 32767), (Sum(s[u], Turned(s[u + l])), Difference(s[u], Turned(s[u + l]))));
  }

  lemma Eight()
    ensures Pow2(0) == 1 && Pow2(1) == 2 && Pow2(2) == 4 && Pow2(3) == 8
  {
  }

  /** The twiddles of eight samples: 1, i and half a quarter turn. */
  lemma Twiddles()
    ensures Twiddle(0, true, false) == Cx(32767, 0) && Twiddle(256, true, false) == Cx(0, 32767)
    ensures Twiddle(128, true, false) == Cx(23169, 23169)
  {
  }

  lemma Shifts8()
    ensures Shl(0, 9) == Shl(0, 8) == 0 && Shl(1, 8) == 256 && Shl(1, 7) == 128
  {
  }

  // ----- zeros stay zero

  function Zero(): Cx<Short> {
    Cx(0, 0)
  }

  predicate ZeroTail(s: seq<Cx<Short>>) {
    |s| >= 8 && forall i :: 8 <= i < |s| ==> s[i] == Zero()
  }

  lemma ZeroStep(w: Cx<Short>)
    ensures FixStep(w, false, Zero(), Zero()) == (Zero(), Zero())
  {
    MpyZero(w.re);
    MpyZero(w.im);
  }

  lemma UpperBeyond(x: nat, l: nat)
    requires x >= 8 && (l == 1 || l == 2)
    ensures Upper(x, l) >= 8
  {
    if x % (2 * l) >= l && x - l < 8 {
      assert false;
    }
  }

  lemma TailStays(s: seq<Cx<Short>>, p: seq<Cx<Short>>, l: nat, k: nat)
    requires ZeroTail(s) && (l == 1 || l == 2) && |s| % (2 * l) == 0 && p == Pass(s, l, FixButterfly(k, true, false))
    ensures ZeroTail(p)
  {
    forall x | 8 <= x < |s|
      ensures p[x] == Zero()
    {
      var u, block, m := Position(x, l);
      UpperBeyond(x, l);
      var w := Twiddle(Shl(m, k), true, false);
      EntryAfter(s, p, l, k, x, u, m, w);
      ZeroStep(w);
    }
  }

  predicate NoneLarge(s: seq<Cx<Short>>) {
    forall i :: 0 <= i < |s| ==> -16383 <= s[i].re <= 16383 && -16383 <= s[i].im <= 16383
  }

  lemma NoneLargeIs(s: seq<Cx<Short>>)
    requires NoneLarge(s)
    ensures !AnyLarge(s)
  {
    forall i | 0 <= i < |s|
      ensures !Large(s[i])
    {
      LargeIff(s[i]);
    }
  }

  // ----- two passes over eight samples and zeros

  predicate IsBefore(s: seq<Cx<Short>>) {
    && ZeroTail(s)
    && s[0] == Cx(4095, 0) && s[1] == Cx(-4095, 0) && s[2] == Cx(0, -4095) && s[3] == Cx(0, 4095)
    && s[4] == Cx(4095, -4095) && s[5] == Cx(-4095, 4095) && s[6] == Cx(-4095, -4095) && s[7] == Cx(4095, 4095)
  }

  predicate IsAfterOne(s: seq<Cx<Short>>) {
    && ZeroTail(s) && s[0] == Zero() && s[2] == Zero() && s[4] == Zero() && s[6] == Zero()
    && s[1] == Cx(8190, 0) && s[3] == Cx(0, -8190) && s[5] == Cx(8190, -8190) && s[7] == Cx(-8190, -8190)
  }

  predicate IsAfterTwo(s: seq<Cx<Short>>) {
    && ZeroTail(s) && s[0] == Zero() && s[2] == Zero() && s[3] == Zero() && s[4] == Zero() && s[6] == Zero() && s[7] == Zero()
    && s[1] == Cx(16380, 0) && s[5] == Cx(16380, -16380)
  }

  lemma BeforeNotLarge(s: seq<Cx<Short>>)
    requires IsBefore(s)
    ensures !AnyLarge(s)
  {
    NoneLargeIs(s);
  }

  lemma OneNotLarge(s: seq<Cx<Short>>)
    requires IsAfterOne(s)
    ensures !AnyLarge(s)
  {
    NoneLargeIs(s);
  }

  lemma TwoNotLarge(s: seq<Cx<Short>>)
    requires IsAfterTwo(s)
    ensures !AnyLarge(s)
  {
    NoneLargeIs(s);
  }

  /** Opposite samples: the sum vanishes and the difference doubles. */
  lemma Opposite(s: seq<Cx<Short>>, p: seq<Cx<Short>>, l: nat, k: nat, u: nat, v: nat, d: Cx<Short>)
    requires |s| >= 8 && l == 1 && v == u + l < 8 && u % 2 == 0 && |s| % (2 * l) == 0
    requires p == Pass(s, l, FixButterfly(k, true, false)) && Small(s[u]) && Small(s[v])
    requires s[u].re + s[v].re == 0 && s[u].im + s[v].im == 0 && d.re == s[u].re - s[v].re && d.im == s[u].im - s[v].im
    ensures |p| == |s| && p[u] == Zero() && p[v] == d
  {
    Cancelled(s[u], s[v], d);
    UnitPair(s, p, l, k, u);
  }

  lemma Cancelled(q: Cx<Short>, z: Cx<Short>, d: Cx<Short>)
    requires Small(q) && Small(z) && q.re + z.re == 0 && q.im + z.im == 0 && d.re == q.re - z.re && d.im == q.im - z.im
    ensures Sum(q, z) == Zero() && Difference(q, z) == d
  {
  }

  lemma OneFrom(p: seq<Cx<Short>>)
    requires ZeroTail(p) && p[0] == Zero() && p[1] == Cx(8190, 0) && p[2] == Zero() && p[3] == Cx(0, -8190)
    requires p[4] == Zero() && p[5] == Cx(8190, -8190) && p[6] == Zero() && p[7] == Cx(-8190, -8190)
    ensures IsAfterOne(p) == true
  {
  }

  lemma PassOne(s: seq<Cx<Short>>, p: seq<Cx<Short>>, l: nat, k: nat)
    requires IsBefore(s) && l == 1 && |s| % (2 * l) == 0 && p == Pass(s, l, FixButterfly(k, true, false))
    ensures |p| == |s| && IsAfterOne(p) == true
  {
    TailStays(s, p, l, k);
    Opposite(s, p, l, k, 0, 1, Cx(8190, 0));
    Opposite(s, p, l, k, 2, 3, Cx(0, -8190));
    Opposite(s, p, l, k, 4, 5, Cx(8190, -8190));
    Opposite(s, p, l, k, 6, 7, Cx(-8190, -8190));
    OneFrom(p);
  }

  lemma ZeroPair(s: seq<Cx<Short>>, p: seq<Cx<Short>>, l: nat, k: nat, u: nat, v: nat)
    requires |s| >= 8 && l == 2 && v == u + l < 8 && u % 4 == 0 && |s| % (2 * l) == 0
    requires p == Pass(s, l, FixButterfly(k, true, false)) && s[u] == Zero() && s[v] == Zero()
    ensures |p| == |s| && p[u] == Zero() && p[v] == Zero()
  {
    UnitPair(s, p, l, k, u);
  }

  /** A partner that the quarter turn makes equal: the sum doubles and the difference vanishes. */
  lemma TurnedOnto(s: seq<Cx<Short>>, p: seq<Cx<Short>>, l: nat, k: nat, u: nat, v: nat, d: Cx<Short>)
    requires |s| >= 8 && l == 2 && k == 8 && v == u + l < 8 && u % 4 == 1 && |s| % (2 * l) == 0
    requires p == Pass(s, l, FixButterfly(k, true, false)) && Small(s[u]) && Small(s[v])
    requires s[u].re + s[v].im == 0 && s[u].im == s[v].re && d.re == s[u].re - s[v].im && d.im == s[u].im + s[v].re
    ensures |p| == |s| && p[u] == d && p[v] == Zero()
  {
    CancelledTurned(s[u], s[v], d);
    TurnPair(s, p, l, k, u);
  }

  lemma CancelledTurned(q: Cx<Short>, z: Cx<Short>, d: Cx<Short>)
    requires Small(q) && Small(z) && q.re + z.im == 0 && q.im == z.re && d.re == q.re - z.im && d.im == q.im + z.re
    ensures Sum(q, Turned(z)) == d && Difference(q, Turned(z)) == Zero()
  {
  }

  lemma TwoFrom(p: seq<Cx<Short>>)
    requires ZeroTail(p) && p[0] == Zero() && p[1] == Cx(16380, 0) && p[2] == Zero() && p[3] == Zero()
    requires p[4] == Zero() && p[5] == Cx(16380, -16380) && p[6] == Zero() && p[7] == Zero()
    ensures IsAfterTwo(p) == true
  {
  }

  lemma PassTwo(s: seq<Cx<Short>>, p: seq<Cx<Short>>, l: nat, k: nat)
    requires IsAfterOne(s) && l == 2 && k == 8 && |s| % (2 * l) == 0 && p == Pass(s, l, FixButterfly(k, true, false))
    ensures |p| == |s| && IsAfterTwo(p) == true
  {
    TailStays(s, p, l, k);
    ZeroPair(s, p, l, k, 0, 2);
    ZeroPair(s, p, l, k, 4, 6);
    TurnedOnto(s, p, l, k, 1, 3, Cx(16380, 0));
    TurnedOnto(s, p, l, k, 5, 7, Cx(16380, -16380));
    TwoFrom(p);
  }

  lemma EighthMpy()
    ensures FixMpy(23169, 16380) == 11582 && FixMpy(23169, -16380) == -11582
  {
    FixMpyRounds(23169, 16380);
    FixMpyRounds(23169, -16380);
  }

  /** The rotated partner has real part 23164, and 16380 + 23164 = 39544 is stored as -25992. */
  lemma LastStep(w: Cx<Short>, q: Cx<Short>, z: Cx<Short>)
    requires w == Cx(23169, 23169) && q == Cx(16380, 0) && z == Cx(16380, -16380)
    ensures FixStep(w, false, q, z).0 == Cx(-25992, 0) && StepWrapFree(false, w, q, z) == false
  {
    EighthMpy();
    UpperResult(w, q, z, 11582, -11582, -11582, 11582);
    assert ToShort(39544) == -25992;
    assert PlainSum(w, q, z).re == 39544;
  }

  // ----- eight samples

  function Before(): (s: seq<Cx<Short>>)
    ensures |s| == 8 && IsBefore(s)
  {
    [Cx(4095, 0), Cx(-4095, 0), Cx(0, -4095), Cx(0, 4095), Cx(4095, -4095), Cx(-4095, 4095), Cx(-4095, -4095), Cx(4095, 4095)]
  }

  lemma PassThree(s: seq<Cx<Short>>, p: seq<Cx<Short>>, l: nat, k: nat)
    requires IsAfterTwo(s) && l == 4 && k == 7 && |s| % (2 * l) == 0 && p == Pass(s, l, FixButterfly(k, true, false))
    ensures |p| == |s| && p[1] == Cx(-25992, 0)
  {
    Twiddles();
    Shifts8();
    var w := Twiddle(Shl(1, k), true, false);
    LastStep(w, s[1], s[5]);
    PairAfter(s, p, l, k, 1, 1, w, FixStep(w, false, s[1], s[5]));
  }

  /** Eight samples with parts of at most 4095 whose inverse transform makes no shift and wraps in its third pass. */
  lemma InverseWraps(x: seq<Cx<Short>>, b: nat)
    requires b == 3 && |x| == Pow2(b) && Reordered(x, b) == Before()
    ensures var r := FixRun(Reordered(x, b), b, 0, true, 0); r.1 == 0 && |r.0| == 8 && r.0[1] == Cx(-25992, 0)
  {
    Eight();
    var s0 := Before();
    BeforeNotLarge(s0);
    FixRunStep(s0, b, 0, true, 0, false, 1, 9);
    var s1 := Pass(s0, 1, FixButterfly(9, true, false));
    PassOne(s0, s1, 1, 9);
    OneNotLarge(s1);
    FixRunStep(s1, b, 1, true, 0, false, 2, 8);
    var s2 := Pass(s1, 2, FixButterfly(8, true, false));
    PassTwo(s1, s2, 2, 8);
    TwoNotLarge(s2);
    FixRunStep(s2, b, 2, true, 0, false, 4, 7);
    PassThree(s2, Pass(s2, 4, FixButterfly(7, true, false)), 4, 7);
  }

  /** There are such samples. */
  lemma SamplesExist(b: nat)
    requires b == 3
    ensures |Before()| == Pow2(b) && Reordered(Reordered(Before(), b), b) == Before()
  {
    Eight();
    ReorderedTwice(Before(), b);
  }

  // ----- from eight samples on

  /** The eight samples and zeros. */
  function Padded(n: nat): (s: seq<Cx<Short>>)
    requires n >= 8
    ensures |s| == n && IsBefore(s)
  {
    Before() + seq(n - 8, i => Zero())
  }

  /** One pass of the stages while nothing is large. */
  lemma PlainStage(s: seq<Cx<Short>>, b: nat, q: nat, p: nat, f: seq<Cx<Short>>, l: nat, k: nat)
    requires |s| == Pow2(b) && p == q + 1 <= b <= LOG2_N_WAVE && f == InverseStage(s, b, q) && !AnyLarge(f)
    requires l == Pow2(q) && k == LOG2_N_WAVE - 1 - q
    ensures |f| % (2 * l) == 0 && InverseStage(s, b, p) == Pass(f, l, FixButterfly(k, true, false))
  {
    StageStep(s, b, q, p, f);
    Pow2Divides(q + 1, b);
  }

  lemma StageTwo(s: seq<Cx<Short>>, b: nat, one: nat, two: nat) returns (f: seq<Cx<Short>>)
    requires |s| == Pow2(b) && 3 <= b <= LOG2_N_WAVE && IsBefore(s) && one == 1 && two == 2
    ensures f == InverseStage(s, b, two) && IsAfterTwo(f)
  {
    Eight();
    BeforeNotLarge(s);
    PlainStage(s, b, 0, one, s, 1, 9);
    var f1 := InverseStage(s, b, one);
    PassOne(s, f1, 1, 9);
    OneNotLarge(f1);
    PlainStage(s, b, one, two, f1, 2, 8);
    f := InverseStage(s, b, two);
    PassTwo(f1, f, 2, 8);
  }

  lemma WrapsAt(f: seq<Cx<Short>>, l: nat, k: nat)
    requires IsAfterTwo(f) && l == 4 && k == 7 && |f| % (2 * l) == 0
    ensures !SparesAt(f, l, k, false, 1)
  {
    Twiddles();
    Shifts8();
    UpperOfPair(l, 1, 1);
    var w := Twiddle(Shl(1, k), true, false);
    SparesAtIs(f, l, k, false, 1, 1, 1, w);
    LastStep(w, f[1], f[5]);
  }

  lemma ThirdPassWraps(f: seq<Cx<Short>>, b: nat, p: nat)
    requires |f| == Pow2(b) && p == 2 < b <= LOG2_N_WAVE && IsAfterTwo(f)
    ensures !PassSpares(f, b, p)
  {
    Eight();
    Pow2Divides(p + 1, b);
    TwoNotLarge(f);
    WrapsAt(f, Pow2(p), LOG2_N_WAVE - 1 - p);
  }

  /** No imaginary part is the -32768 that the scan overlooks. */
  predicate NoneOverlooked(x: seq<Cx<Short>>) {
    forall i :: 0 <= i < |x| ==> x[i].im > -0x8000
  }

  lemma PaddedWraps(b: nat) returns (x: seq<Cx<Short>>)
    requires 3 <= b <= LOG2_N_WAVE
    ensures |x| == Pow2(b) && NoneOverlooked(x) && !NeverWraps(Reordered(x, b), b)
  {
    Eight();
    Pow2Monotone(3, b);
    var s := Padded(Pow2(b));
    BeforeNotOverlooked(s);
    x := Reordered(s, b);
    ReorderedTwice(s, b);
    BeforeWraps(s, b, 2);
  }

  lemma BeforeNotOverlooked(s: seq<Cx<Short>>)
    requires IsBefore(s)
    ensures NoneOverlooked(s)
  {
  }

  lemma BeforeWraps(s: seq<Cx<Short>>, b: nat, p: nat)
    requires |s| == Pow2(b) && 3 <= b <= LOG2_N_WAVE && IsBefore(s) && p == 2
    ensures !NeverWraps(s, b)
  {
    var f := StageTwo(s, b, p - 1, p);
    ThirdPassWraps(f, b, p);
    assert !PassSpares(InverseStage(s, b, p), b, p);
  }

  // ----- up to four samples

  /** FIX_MPY with half of the largest table entry. */
  lemma HalvedMpy(z: Short)
    ensures -16383 <= FixMpy(16383, z) <= 16383
  {
    FixMpyRounds(16383, z);
  }

  predicate Quarter(shift: bool, w: Cx<Short>) {
    var one: Short := if shift then 16383 else 32767;
    w == Cx(one, 0) || w == Cx(0, one)
  }

  /** The scaled operand: its parts are at most 16383. */
  lemma ScaledOperand(w: Cx<Short>, z: Cx<Short>)
    requires Quarter(true, w)
    ensures -16383 <= RawT(w, z).re <= 16383 && -16383 <= RawT(w, z).im <= 16383
  {
    HalvedMpy(z.re);
    HalvedMpy(z.im);
    MpyZero(z.re);
    MpyZero(z.im);
  }

  lemma PlainOperand(w: Cx<Short>, z: Cx<Short>)
    requires Quarter(false, w) && -16383 <= z.re <= 16383 && -16383 <= z.im <= 16383
    ensures -16383 <= RawT(w, z).re <= 16383 && -16383 <= RawT(w, z).im <= 16383
  {
    MpyOne(z.re);
    MpyOne(z.im);
    MpyZero(z.re);
    MpyZero(z.im);
  }

  lemma ScaledQuarter(w: Cx<Short>, q: Cx<Short>, z: Cx<Short>)
    requires Quarter(true, w) && q.im > -0x8000
    ensures NoWrap(w, q, z) && FixStep(w, true, q, z).0.im > -0x8000 && FixStep(w, true, q, z).1.im > -0x8000
  {
    ScaledOperand(w, z);
    NoWrapExact(w, q, z);
  }

  lemma PlainQuarter(w: Cx<Short>, q: Cx<Short>, z: Cx<Short>)
    requires Quarter(false, w) && -16383 <= z.re <= 16383 && -16383 <= z.im <= 16383
    requires -16383 <= q.re <= 16383 && -16383 <= q.im <= 16383
    ensures PlainNoWrap(w, q, z) && FixStep(w, false, q, z).0.im > -0x8000 && FixStep(w, false, q, z).1.im > -0x8000
  {
    PlainOperand(w, z);
    PlainExact(w, q, z);
  }

  /** A butterfly whose twiddle is 1 or i, on data that are shifted when they are large. */
  lemma QuarterStep(shift: bool, w: Cx<Short>, q: Cx<Short>, z: Cx<Short>)
    requires Quarter(shift, w) && q.im > -0x8000 && z.im > -0x8000 && (shift || (!Large(q) && !Large(z)))
    ensures StepWrapFree(shift, w, q, z) == true
    ensures FixStep(w, shift, q, z).0.im > -0x8000 && FixStep(w, shift, q, z).1.im > -0x8000
  {
    if shift {
      ScaledQuarter(w, q, z);
    } else {
      LargeIff(q);
      LargeIff(z);
      PlainQuarter(w, q, z);
    }
  }

  /** The twiddles of the first two passes. */
  lemma QuarterTwiddle(p: nat, m: nat, k: nat, shift: bool)
    requires p <= 1 && m < Pow2(p) && k == LOG2_N_WAVE - 1 - p
    ensures Quarter(shift, Twiddle(Shl(m, k), true, shift))
  {
    Eight();
    Twiddles();
    Shifts8();
  }

  lemma QuarterEntry(s: seq<Cx<Short>>, s': seq<Cx<Short>>, p: nat, l: nat, k: nat, shift: bool, x: nat)
    requires p <= 1 && l == Pow2(p) && k == LOG2_N_WAVE - 1 - p && |s| % (2 * l) == 0 && x < |s|
    requires NoneOverlooked(s) && shift == AnyLarge(s) && s' == Pass(s, l, FixButterfly(k, true, shift))
    ensures SparesAt(s, l, k, shift, x) == true && s'[x].im > -0x8000
  {
    var u, block, m := Position(x, l);
    var w := Twiddle(Shl(m, k), true, shift);
    QuarterTwiddle(p, m, k, shift);
    EntryOf(s, s', l, k, shift, x, u, m, w);
    SparesAtIs(s, l, k, shift, x, u, m, w);
    QuarterStep(shift, w, s[u], s[u + l]);
  }

  lemma QuarterPass(s: seq<Cx<Short>>, b: nat, p: nat)
    requires |s| == Pow2(b) && p <= 1 && p < b <= LOG2_N_WAVE && NoneOverlooked(s)
    ensures PassSpares(s, b, p) && NoneOverlooked(InversePass(s, b, p))
  {
    Pow2Divides(p + 1, b);
    var (l, k, shift) := (Pow2(p), LOG2_N_WAVE - 1 - p, AnyLarge(s));
    forall x | 0 <= x < |s|
      ensures SparesAt(s, l, k, shift, x) == true && InversePass(s, b, p)[x].im > -0x8000
    {
      QuarterEntry(s, InversePass(s, b, p), p, l, k, shift, x);
    }
  }

  lemma {:induction false} NoneOverlookedStage(s: seq<Cx<Short>>, b: nat, p: nat)
    requires |s| == Pow2(b) && p <= b <= 2 && NoneOverlooked(s)
    ensures NoneOverlooked(InverseStage(s, b, p))
  {
    if p > 0 {
      NoneOverlookedStage(s, b, p - 1);
      QuarterPass(InverseStage(s, b, p - 1), b, p - 1);
    }
  }

  lemma FewNeverWrap(x: seq<Cx<Short>>, b: nat)
    requires |x| == Pow2(b) && b <= 2 && NoneOverlooked(x)
    ensures NeverWraps(Reordered(x, b), b)
  {
    var s := Reordered(x, b);
    forall p: nat | p < b
      ensures PassSpares(InverseStage(s, b, p), b, p) == true
    {
      NoneOverlookedStage(s, b, p);
      QuarterPass(InverseStage(s, b, p), b, p);
    }
  }

  /**
   The scaling decision keeps all inputs of 2^b samples from wrapping, those with an overlooked -32768 aside, if and
   only if there are at most four samples.
   */
  lemma DecisionSufficesIff(b: nat)
    requires b <= LOG2_N_WAVE
    ensures (forall x: seq<Cx<Short>> :: |x| == Pow2(b) && NoneOverlooked(x) ==> NeverWraps(Reordered(x, b), b)) <==> b <= 2
  {
    if b <= 2 {
      forall x: seq<Cx<Short>> | |x| == Pow2(b) && NoneOverlooked(x)
        ensures NeverWraps(Reordered(x, b), b)
      {
        FewNeverWrap(x, b);
      }
    } else {
      var x := PaddedWraps(b);
    }
  }
}
