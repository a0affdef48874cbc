/** fix_fft of ExtLibs/FFT/fft.c as written: 16-bit data, rounding multiply, scaling and wrap-around. */
module FftFixed {
  import opened BitReversal
  import opened FftSchedule
  import opened Sinewave

  const LOG2_N_WAVE := 10

  /** Conversion of an int to a short: the low 16 bits, as two's complement. */
  function ToShort(x: int): (s: Short)
    ensures -0x8000 <= x < 0x8000 ==> s == x
  {
    (x + 0x8000) % 0x10000 - 0x8000
  }

  /** An int that a short can hold. */
  predicate Fits(x: int) {
    -0x8000 <= x < 0x8000
  }

  /** fft.c:149-158; the arithmetic shifts are divisions that round down. */
  function FixMpy(a: Short, b: Short): Short {
    var c := (a * b) / 0x4000;
    ToShort(c / 2 + c % 2)
  }

  function Abs(x: int): nat {
    if x < 0 then -x else x
  }

  lemma AbsProduct(a: int, b: int)
    ensures a * b == if (a < 0) == (b < 0) then Abs(a) * Abs(b) else -(Abs(a) * Abs(b))
  {
  }

  lemma MulAtMost(x: nat, hx: nat, y: nat, hy: nat)
    requires x <= hx && y <= hy
    ensures 0 <= x * y <= hx * hy
  {
    assert x * y <= hx * y;
    assert hx * y <= hx * hy;
  }

  lemma ProductBound(a: Short, b: Short)
    ensures -0x4000_0000 <= a * b <= 0x4000_0000
    ensures !(a == -0x8000 && b == -0x8000) ==> a * b <= 0x4000_0000 - 0x8000
  {
    AbsProduct(a, b);
    MulAtMost(Abs(a), 0x8000, Abs(b), 0x8000);
    if Abs(a) <= 0x7fff {
      MulAtMost(Abs(a), 0x7fff, Abs(b), 0x8000);
    } else if Abs(b) <= 0x7fff {
      MulAtMost(Abs(a), 0x8000, Abs(b), 0x7fff);
    }
  }

  /** FIX_MPY is a*b/2^15 rounded half up, except for (-1) * (-1), which wraps. */
  lemma FixMpyRounds(a: Short, b: Short)
    ensures FixMpy(a, b) == (a * b + 0x4000) / 0x8000 <==> !(a == -0x8000 && b == -0x8000)
  {
    ProductBound(a, b);
    var x := a * b;
    assert (x / 0x4000) / 2 + (x / 0x4000) % 2 == (x + 0x4000) / 0x8000;
  }

  /** x >> 1. */
  function Half(x: Short): Short {
    x / 2
  }

  /** wr and wi of fft.c:237-244, for table index j. */
  function Twiddle(j: nat, inverse: bool, shift: bool): Cx<Short> {
    var wr := Sine(j + 256);
    var wi := if inverse then Sine(j) else ToShort(0 - Sine(j) as int);
    if shift then Cx(Half(wr), Half(wi)) else Cx(wr, wi)
  }

  /** fft.c:249-258: the two results, from the stored product. */
  function Results(shift: bool, q: Cx<Short>, tr: Short, ti: Short): (Cx<Short>, Cx<Short>) {
    var qr: Short := if shift then Half(q.re) else q.re;
    var qi: Short := if shift then Half(q.im) else q.im;
    (Cx(ToShort(qr + tr), ToShort(qi + ti)), Cx(ToShort(qr - tr), ToShort(qi - ti)))
  }

  /** fft.c:247-258: one butterfly on q = f[i] and z = f[j], with every assignment to a short wrapping. */
  function FixStep(w: Cx<Short>, shift: bool, q: Cx<Short>, z: Cx<Short>): (Cx<Short>, Cx<Short>) {
    Results(shift, q, ToShort(FixMpy(w.re, z.re) - FixMpy(w.im, z.im)), ToShort(FixMpy(w.re, z.im) + FixMpy(w.im, z.re)))
  }

  /** The butterfly of a pass; m << k is the twiddle index j of fft.c:235. */
  function FixButterfly(k: nat, inverse: bool, shift: bool): Butterfly<Cx<Short>> {
    (m: nat, q: Cx<Short>, z: Cx<Short>) => FixStep(Twiddle(Shl(m, k), inverse, shift), shift, q, z)
  }

  /** The twiddle index of every lane of every pass is below N_WAVE/2, as the comment at fft.c:236 says. */
  lemma TwiddleInRange(p: nat, m: nat)
    requires p < LOG2_N_WAVE && m < Pow2(p)
    ensures Shl(m, LOG2_N_WAVE - 1 - p) < 512
  {
    ShlBound(m, p, LOG2_N_WAVE - 1 - p);
    assert Pow2(9) == 512;
  }

  // ----- the scaling decision of the inverse transform

  /** fft.c:206-212: fr[i] is negated as an int, fi[i] as a short, so -32768 in fi stays negative. */
  predicate Large(z: Cx<Short>) {
    var j := Abs(z.re);
    var m := if z.im < 0 then ToShort(Abs(z.im)) else z.im;
    j > 16383 || m > 16383
  }

  predicate AnyLarge(s: seq<Cx<Short>>) {
    exists i :: 0 <= i < |s| && Large(s[i])
  }

  /** A sample from which an unscaled pass could leave 16 bits, which is what the scan is to find. */
  predicate TooLargeUnscaled(z: Cx<Short>) {
    Abs(z.re) > 16383 || Abs(z.im) > 16383
  }

  /** The scan sees such a sample except when its only large part is an imaginary -32768. */
  lemma LargeIff(z: Cx<Short>)
    ensures Large(z) <==> TooLargeUnscaled(z) && !(z.im == -0x8000 && Abs(z.re) <= 16383)
  {
  }

  /** The decision is the intended one if and only if some sample is seen or none is too large. */
  lemma AnyLargeIff(s: seq<Cx<Short>>)
    ensures (AnyLarge(s) <==> exists i :: 0 <= i < |s| && TooLargeUnscaled(s[i])) <==>
            ((exists i :: 0 <= i < |s| && TooLargeUnscaled(s[i]) && !(s[i].im == -0x8000 && Abs(s[i].re) <= 16383)) ||
             (forall i :: 0 <= i < |s| ==> !TooLargeUnscaled(s[i])))
  {
    forall i | 0 <= i < |s|
      ensures Large(s[i]) <==> TooLargeUnscaled(s[i]) && !(s[i].im == -0x8000 && Abs(s[i].re) <= 16383)
    {
      LargeIff(s[i]);
    }
  }

  /** fft.c:204-216. */
  method ScanShift(fr: array<Short>, fi: array<Short>) returns (shift: bool)
    requires fr.Length == fi.Length
    ensures shift == AnyLarge(View(fr, fi))
  {
    shift := false;
    var i := 0;
    ghost var s := View(fr, fi);
    while i < fr.Length
      invariant 0 <= i <= fr.Length
      invariant forall x :: 0 <= x < i ==> !Large(s[x])
    {
      if Large(Cx(fr[i], fi[i])) {
        assert Large(s[i]);
        return true;
      }
      i := i + 1;
    }
  }

  // ----- the whole transform

  /** Data and scale after the passes from p on. */
  function FixRun(s: seq<Cx<Short>>, b: nat, p: nat, inverse: bool, scale: nat): (seq<Cx<Short>>, nat)
    requires |s| == Pow2(b) && p <= b <= LOG2_N_WAVE
    decreases b - p
  {
    if p == b then (s, scale)
    else
      var shift := !inverse || AnyLarge(s);
      Pow2Divides(p + 1, b);
      FixRun(Pass(s, Pow2(p), FixButterfly(LOG2_N_WAVE - 1 - p, inverse, shift)), b, p + 1, inverse,
             if inverse && shift then scale + 1 else scale)
  }

  /** Whether each pass from p on halves its data. */
  function Shifts(s: seq<Cx<Short>>, b: nat, p: nat, inverse: bool): (r: seq<bool>)
    requires |s| == Pow2(b) && p <= b <= LOG2_N_WAVE
    ensures |r| == b - p
    decreases b - p
  {
    if p == b then []
    else
      var shift := !inverse || AnyLarge(s);
      Pow2Divides(p + 1, b);
      [shift] + Shifts(Pass(s, Pow2(p), FixButterfly(LOG2_N_WAVE - 1 - p, inverse, shift)), b, p + 1, inverse)
  }

  function Count(shifts: seq<bool>): nat {
    if shifts == [] then 0 else (if shifts[0] then 1 else 0) + Count(shifts[1..])
  }

  /** The return value is the number of halving passes for the inverse transform, and 0 for the forward one. */
  lemma {:induction false} FixRunScale(s: seq<Cx<Short>>, b: nat, p: nat, inverse: bool, scale: nat)
    requires |s| == Pow2(b) && p <= b <= LOG2_N_WAVE
    ensures FixRun(s, b, p, inverse, scale).1 == scale + if inverse then Count(Shifts(s, b, p, inverse)) else 0
    decreases b - p
  {
    if p < b {
      var shift := !inverse || AnyLarge(s);
      Pow2Divides(p + 1, b);
      var s' := Pass(s, Pow2(p), FixButterfly(LOG2_N_WAVE - 1 - p, inverse, shift));
      FixRunScale(s', b, p + 1, inverse, if inverse && shift then scale + 1 else scale);
      assert ([shift] + Shifts(s', b, p + 1, inverse))[1..] == Shifts(s', b, p + 1, inverse);
    }
  }

  /** fft.c:166-265. */
  method FixFft(fr: array<Short>, fi: array<Short>, m: nat, inverse: bool) returns (result: int)
    requires fr != fi
    requires m <= LOG2_N_WAVE ==> fr.Length == fi.Length == Pow2(m)
    modifies fr, fi
    ensures m > LOG2_N_WAVE ==> result == -1 && fr[..] == old(fr[..]) && fi[..] == old(fi[..])
    ensures m <= LOG2_N_WAVE ==>
      (View(fr, fi), result) == FixRun(Reordered(old(View(fr, fi)), m), m, 0, inverse, 0)
  {
    var n := Pow2(m);
    if n > Pow2(LOG2_N_WAVE) {
      TooLarge(m);
      return -1;
    }
    NotTooLarge(m);
    Reorder(fr, fi, m);
    var scale := Passes(fr, fi, m, inverse);
    result := scale;
  }

  /** fft.c:202-260: one pass, with its scaling decision. */
  method OnePass(fr: array<Short>, fi: array<Short>, l: nat, k: nat, inverse: bool) returns (shift: bool)
    requires fr != fi && fr.Length == fi.Length && l > 0 && fr.Length % (2 * l) == 0
    modifies fr, fi
    ensures shift == (!inverse || AnyLarge(old(View(fr, fi))))
    ensures View(fr, fi) == Pass(old(View(fr, fi)), l, FixButterfly(k, inverse, shift))
  {
    shift := true;
    if inverse {
      shift := ScanShift(fr, fi);
    }
    ButterflyPass(fr, fi, l, FixButterfly(k, inverse, shift));
  }

  lemma FixRunStep(s: seq<Cx<Short>>, b: nat, p: nat, inverse: bool, scale: nat, shift: bool, l: nat, k: nat)
    requires |s| == Pow2(b) && p < b <= LOG2_N_WAVE && shift == (!inverse || AnyLarge(s))
    requires l == Pow2(p) && k == LOG2_N_WAVE - 1 - p
    ensures |s| % (2 * l) == 0
    ensures FixRun(s, b, p, inverse, scale) ==
            FixRun(Pass(s, l, FixButterfly(k, inverse, shift)), b, p + 1, inverse,
                   if inverse && shift then scale + 1 else scale)
  {
    Pow2Divides(p + 1, b);
  }

  /** fft.c:199-264. */
  method Passes(fr: array<Short>, fi: array<Short>, b: nat, inverse: bool) returns (scale: nat)
    requires fr != fi && b <= LOG2_N_WAVE && fr.Length == fi.Length == Pow2(b)
    modifies fr, fi
    ensures (View(fr, fi), scale) == FixRun(old(View(fr, fi)), b, 0, inverse, 0)
  {
    var n, l, k, p := fr.Length, 1, LOG2_N_WAVE - 1, 0;
    scale := 0;
    ghost var s := View(fr, fi);
    while l < n
      invariant p <= b && l == Pow2(p) && k == LOG2_N_WAVE - 1 - p
      invariant FixRun(View(fr, fi), b, p, inverse, scale) == FixRun(s, b, 0, inverse, 0)
    {
      BelowTop(p, b);
      FixRunStep(View(fr, fi), b, p, inverse, scale, !inverse || AnyLarge(View(fr, fi)), l, k);
      var shift := OnePass(fr, fi, l, k, inverse);
      if inverse && shift {
        scale := scale + 1;
      }
      k, l, p := k - 1, 2 * l, p + 1;
    }
    AtTop(p, b);
  }

  lemma TooLarge(m: nat)
    requires Pow2(m) > Pow2(LOG2_N_WAVE)
    ensures m > LOG2_N_WAVE
  {
    if m <= LOG2_N_WAVE {
      Pow2Monotone(m, LOG2_N_WAVE);
    }
  }

  lemma NotTooLarge(m: nat)
    requires Pow2(m) <= Pow2(LOG2_N_WAVE)
    ensures m <= LOG2_N_WAVE
  {
    if m > LOG2_N_WAVE {
      Pow2Monotone(LOG2_N_WAVE + 1, m);
    }
  }

  // ----- the overlooked sample

  /** The table entries a transform of two samples uses: cosine and sine of 0. */
  lemma FirstTwiddle()
    ensures Twiddle(0, true, false) == Cx(32767, 0)
  {
  }

  lemma MpyZero(a: Short)
    ensures FixMpy(a, 0) == 0 && FixMpy(0, a) == 0
  {
    FixMpyRounds(a, 0);
    FixMpyRounds(0, a);
  }

  lemma MpyLargest()
    ensures FixMpy(32767, -0x8000) == -32767
  {
    FixMpyRounds(32767, -0x8000);
  }

  /** The upper result of an unscaled butterfly, from its four products. */
  lemma UpperResult(w: Cx<Short>, q: Cx<Short>, z: Cx<Short>, a: int, b: int, c: int, d: int)
    requires a == FixMpy(w.re, z.re) && b == FixMpy(w.im, z.im) && c == FixMpy(w.re, z.im) && d == FixMpy(w.im, z.re)
    requires Fits(a - b) && Fits(c + d)
    ensures FixStep(w, false, q, z).0 == Cx(ToShort(q.re + (a - b)), ToShort(q.im + (c + d)))
  {
  }

  lemma Wrapped()
    ensures ToShort(0) == 0 && ToShort(-65535) == 1
  {
  }

  /** Two imaginary samples of -32768: the unscaled sum -65535 is stored as 1. */
  lemma OverlookedStep(w: Cx<Short>, z: Cx<Short>)
    requires w == Cx(32767, 0) && z == Cx(0, -0x8000)
    ensures FixStep(w, false, z, z).0 == Cx(0, 1)
  {
    MpyLargest();
    MpyZero(32767);
    MpyZero(-0x8000);
    MpyZero(0);
    UpperResult(w, z, z, 0, 0, -32767, 0);
    Wrapped();
  }

  /** The data of a transform of two samples after its only pass. */
  lemma TwoSamples(t: seq<Cx<Short>>, b: nat, inverse: bool, shift: bool)
    requires b == 1 && |t| == Pow2(b) && shift == (!inverse || AnyLarge(t))
    ensures |t| == 2
    ensures var r := FixRun(t, b, 0, inverse, 0);
      r.1 == (if inverse && shift then 1 else 0) && |r.0| == 2 &&
      r.0[0] == FixStep(Twiddle(0, inverse, shift), shift, t[0], t[1]).0
  {
    assert Pow2(1) == 2 && Pow2(0) == 1;
    FixRunStep(t, b, 0, inverse, 0, shift, 1, LOG2_N_WAVE - 1);
    PassAtIs(t, 1, FixButterfly(LOG2_N_WAVE - 1, inverse, shift), 0, 0, 0);
    ShlZero(LOG2_N_WAVE - 1);
  }

  /** An inverse transform that wraps because of the overlooked sample: no shift is made, and -65535 becomes 1. */
  lemma OverlookedWraps(s: seq<Cx<Short>>, b: nat, z: Cx<Short>)
    requires b == 1 && z == Cx(0, -0x8000) && s == [z, z]
    ensures |s| == Pow2(b) && !AnyLarge(s) && TooLargeUnscaled(z)
    ensures var r := FixRun(Reordered(s, b), b, 0, true, 0); r.1 == 0 && r.0[0] == Cx(0, 1)
  {
    assert Pow2(1) == 2;
    var t := Reordered(s, b);
    assert t[0] == z && t[1] == z;
    SameNotLarge(s, z);
    SameNotLarge(t, z);
    TwoSamples(t, b, true, false);
    FirstTwiddle();
    OverlookedStep(Twiddle(0, true, false), z);
  }

  lemma SameNotLarge(s: seq<Cx<Short>>, z: Cx<Short>)
    requires z == Cx(0, -0x8000) && |s| == 2 && s[0] == z && s[1] == z
    ensures !AnyLarge(s) && TooLargeUnscaled(z)
  {
    LargeIff(z);
  }
}
