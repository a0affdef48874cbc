/**
 fix_fft (ExtLibs/FFT/fft.c) in exact arithmetic: over any commutative ring, with a root w of
 w^(N_WAVE/2) = -1 in place of the sine table and neither rounding nor shift, the bit reversal
 followed by the butterfly passes leaves the DFT sum in place. N_WAVE is 2^logN; the source has logN = 10.
 */
module FftExact {
  import opened BitReversal
  import opened FftSchedule
  import opened Rings

  /** The sum over t < c of y[t] * z^t. */
  ghost function Sum<T>(r: Ring<T>, y: seq<T>, z: T, c: nat): T
    requires c <= |y|
  {
    if c == 0 then r.zero else r.add(Sum(r, y, z, c - 1), r.mul(y[c - 1], Pow(r, z, c - 1)))
  }

  /** w^(q << j). */
  function Root<T>(r: Ring<T>, w: T, j: nat, q: nat): T {
    Pow(r, w, Shl(q, j))
  }

  /**
   The discrete Fourier transform of x at frequency q, by its defining sum: over t, x[t] times the t-th
   power of w^(q*N_WAVE/n), n the length of x.
   */
  ghost function Dft<T>(r: Ring<T>, x: seq<T>, b: nat, logN: nat, w: T, q: nat): T
    requires |x| == Pow2(b) && b <= logN
  {
    Sum(r, x, Root(r, w, logN - b, q), |x|)
  }

  // ----- splitting a sum into its even and odd terms

  ghost function Evens<T>(y: seq<T>): (r: seq<T>)
    requires |y| % 2 == 0
    ensures |r| == |y| / 2 && forall t :: 0 <= t < |r| ==> r[t] == y[2 * t]
  {
    seq(|y| / 2, t requires 0 <= t < |y| / 2 => y[2 * t])
  }

  ghost function Odds<T>(y: seq<T>): (r: seq<T>)
    requires |y| % 2 == 0
    ensures |r| == |y| / 2 && forall t :: 0 <= t < |r| ==> r[t] == y[2 * t + 1]
  {
    seq(|y| / 2, t requires 0 <= t < |y| / 2 => y[2 * t + 1])
  }

  lemma Regroup<T(!new)>(r: Ring<T>, ev: T, od: T, p: T, a: T, b: T, y: T)
    requires Lawful(r)
    ensures r.add(r.add(r.add(ev, r.mul(p, od)), a), r.mul(b, r.mul(p, y))) ==
            r.add(r.add(ev, a), r.mul(p, r.add(od, r.mul(b, y))))
  {
    var (po, py) := (r.mul(p, od), r.mul(b, r.mul(p, y)));
    Laws(r, b, p, y);
    Laws(r, p, b, y);
    assert py == r.mul(p, r.mul(b, y));
    Laws(r, p, od, r.mul(b, y));
    Laws(r, ev, po, a);
    Laws(r, po, a, a);
    Laws(r, ev, a, po);
    Laws(r, r.add(ev, a), po, py);
  }

  lemma {:induction false} EvenOdd<T(!new)>(r: Ring<T>, y: seq<T>, z: T, c: nat)
    requires Lawful(r) && |y| % 2 == 0 && c <= |y| / 2
    ensures Sum(r, y, z, 2 * c) ==
            r.add(Sum(r, Evens(y), r.mul(z, z), c), r.mul(z, Sum(r, Odds(y), r.mul(z, z), c)))
  {
    if c == 0 {
      MulZero(r, z);
      Laws(r, r.zero, r.zero, r.zero);
    } else {
      EvenOdd(r, y, z, c - 1);
      EvenOddStep(r, y, z, c - 1, c);
    }
  }

  lemma EvenOddStep<T(!new)>(r: Ring<T>, y: seq<T>, z: T, d: nat, c: nat)
    requires Lawful(r) && |y| % 2 == 0 && c == d + 1 && c <= |y| / 2
    requires Sum(r, y, z, 2 * d) ==
             r.add(Sum(r, Evens(y), r.mul(z, z), d), r.mul(z, Sum(r, Odds(y), r.mul(z, z), d)))
    ensures Sum(r, y, z, 2 * c) ==
            r.add(Sum(r, Evens(y), r.mul(z, z), c), r.mul(z, Sum(r, Odds(y), r.mul(z, z), c)))
  {
    var zz := r.mul(z, z);
    var (ev, od, p) := (Sum(r, Evens(y), zz, d), Sum(r, Odds(y), zz, d), Pow(r, zz, d));
    calc {
      Sum(r, y, z, 2 * c);
      { LastTwo(r, y, z, d, c); }
      r.add(r.add(Sum(r, y, z, 2 * d), r.mul(y[2 * d], p)), r.mul(y[2 * d + 1], r.mul(z, p)));
      r.add(r.add(r.add(ev, r.mul(z, od)), r.mul(y[2 * d], p)), r.mul(y[2 * d + 1], r.mul(z, p)));
      { Regroup(r, ev, od, z, r.mul(y[2 * d], p), y[2 * d + 1], p); }
      r.add(r.add(ev, r.mul(y[2 * d], p)), r.mul(z, r.add(od, r.mul(y[2 * d + 1], p))));
      { SumNext(r, Evens(y), zz, d, c); }
      r.add(Sum(r, Evens(y), zz, c), r.mul(z, r.add(od, r.mul(y[2 * d + 1], p))));
      { SumNext(r, Odds(y), zz, d, c); }
      r.add(Sum(r, Evens(y), zz, c), r.mul(z, Sum(r, Odds(y), zz, c)));
    }
  }

  lemma SumNext<T>(r: Ring<T>, y: seq<T>, z: T, d: nat, c: nat)
    requires c == d + 1 <= |y|
    ensures Sum(r, y, z, c) == r.add(Sum(r, y, z, d), r.mul(y[d], Pow(r, z, d)))
  {
  }

  lemma LastTwo<T(!new)>(r: Ring<T>, y: seq<T>, z: T, d: nat, c: nat)
    requires Lawful(r) && c == d + 1 && 2 * c <= |y|
    ensures var p := Pow(r, r.mul(z, z), d);
      Sum(r, y, z, 2 * c) ==
      r.add(r.add(Sum(r, y, z, 2 * d), r.mul(y[2 * d], p)), r.mul(y[2 * d + 1], r.mul(z, p)))
  {
    PowSquare(r, z, d);
    assert 2 * c == 2 * d + 2;
    assert Sum(r, y, z, 2 * d + 1) == r.add(Sum(r, y, z, 2 * d), r.mul(y[2 * d], Pow(r, z, 2 * d)));
  }

  lemma {:induction false} PowSquare<T(!new)>(r: Ring<T>, z: T, c: nat)
    requires Lawful(r)
    ensures Pow(r, z, 2 * c) == Pow(r, r.mul(z, z), c)
    ensures Pow(r, z, 2 * c + 1) == r.mul(z, Pow(r, r.mul(z, z), c))
  {
    if c > 0 {
      PowSquare(r, z, c - 1);
      Laws(r, z, z, Pow(r, z, 2 * c - 2));
    }
  }

  /** At -z the odd terms change sign. */
  lemma EvenOddNeg<T(!new)>(r: Ring<T>, y: seq<T>, z: T, c: nat)
    requires Lawful(r) && |y| % 2 == 0 && c <= |y| / 2
    ensures Sum(r, y, r.neg(z), 2 * c) ==
            r.add(Sum(r, Evens(y), r.mul(z, z), c), r.neg(r.mul(z, Sum(r, Odds(y), r.mul(z, z), c))))
  {
    NegSquared(r, z);
    EvenOdd(r, y, r.neg(z), c);
    var od := Sum(r, Odds(y), r.mul(z, z), c);
    MulNeg(r, od, z);
    Laws(r, z, od, z);
  }

  lemma NegSquared<T(!new)>(r: Ring<T>, z: T)
    requires Lawful(r)
    ensures r.mul(r.neg(z), r.neg(z)) == r.mul(z, z)
  {
    MulNeg(r, r.neg(z), z);
    MulNeg(r, z, z);
    NegNeg(r, r.mul(z, z));
  }

  // ----- what each pass leaves behind

  /** The decimated subsequence that block k of size 2^p has transformed after p passes. */
  ghost function Decimated<T>(x: seq<T>, b: nat, p: nat, k: nat): (d: seq<T>)
    requires |x| == Pow2(b) && p <= b && k < Pow2(b - p)
    ensures |d| == Pow2(p)
  {
    seq(Pow2(p), t requires 0 <= t < Pow2(p) => ShlBound(t, p, b - p); x[Rev(b - p, k) + Shl(t, b - p)])
  }

  lemma DecimatedAt<T>(x: seq<T>, b: nat, p: nat, k: nat, t: nat, j: nat)
    requires |x| == Pow2(b) && p <= b && j == b - p && k < Pow2(j) && t < Pow2(p)
    ensures Rev(j, k) + Shl(t, j) < |x| && Decimated(x, b, p, k)[t] == x[Rev(j, k) + Shl(t, j)]
  {
    ShlBound(t, p, j);
  }

  lemma DecimatedOddAt<T>(x: seq<T>, b: nat, p: nat, k: nat, t: nat)
    requires |x| == Pow2(b) && p < b && k < Pow2(b - p - 1) && t < Pow2(p)
    ensures Decimated(x, b, p + 1, k)[2 * t + 1] == Decimated(x, b, p, 2 * k + 1)[t]
  {
    var (i, j, k1, t1) := (b - p - 1, b - p, 2 * k + 1, 2 * t + 1);
    DecimatedAt(x, b, p + 1, k, t1, i);
    DecimatedAt(x, b, p, k1, t, j);
    OddIndex(i, j, k, t);
  }

  lemma OddIndex(i: nat, j: nat, k: nat, t: nat)
    requires j == i + 1
    ensures Rev(i, k) + Shl(2 * t + 1, i) == Rev(j, 2 * k + 1) + Shl(t, j)
  {
    RevOdd(j, k);
    ShlOdd(t, i, j);
  }

  lemma EvenIndex(i: nat, j: nat, k: nat, t: nat)
    requires j == i + 1
    ensures Rev(i, k) + Shl(2 * t, i) == Rev(j, 2 * k) + Shl(t, j)
  {
    RevEven(j, k);
    ShlEven(t, i, j);
  }

  lemma DecimatedEvenAt<T>(x: seq<T>, b: nat, p: nat, k: nat, t: nat)
    requires |x| == Pow2(b) && p < b && k < Pow2(b - p - 1) && t < Pow2(p)
    ensures Decimated(x, b, p + 1, k)[2 * t] == Decimated(x, b, p, 2 * k)[t]
  {
    var (i, j) := (b - p - 1, b - p);
    DecimatedAt(x, b, p + 1, k, 2 * t, i);
    DecimatedAt(x, b, p, 2 * k, t, j);
    EvenIndex(i, j, k, t);
  }

  /** Two half-size decimations interleave to the next one. */
  lemma DecimatedEvens<T>(x: seq<T>, b: nat, p: nat, k: nat)
    requires |x| == Pow2(b) && p < b && k < Pow2(b - p - 1)
    ensures Evens(Decimated(x, b, p + 1, k)) == Decimated(x, b, p, 2 * k)
  {
    var (y, ev) := (Decimated(x, b, p + 1, k), Decimated(x, b, p, 2 * k));
    forall t | 0 <= t < Pow2(p)
      ensures Evens(y)[t] == ev[t]
    {
      DecimatedEvenAt(x, b, p, k, t);
    }
  }

  lemma DecimatedOdds<T>(x: seq<T>, b: nat, p: nat, k: nat)
    requires |x| == Pow2(b) && p < b && k < Pow2(b - p - 1)
    ensures Odds(Decimated(x, b, p + 1, k)) == Decimated(x, b, p, 2 * k + 1)
  {
    var (y, od) := (Decimated(x, b, p + 1, k), Decimated(x, b, p, 2 * k + 1));
    forall t | 0 <= t < Pow2(p)
      ensures Odds(y)[t] == od[t]
    {
      DecimatedOddAt(x, b, p, k, t);
    }
  }

  /** fft.c:234-259 without rounding and scaling; twiddle m is w^(m << k). */
  function ExactButterfly<T>(r: Ring<T>, w: T, k: nat): Butterfly<T> {
    (m: nat, a: T, c: T) =>
      var t := r.mul(Root(r, w, k, m), c);
      (r.add(a, t), r.add(a, r.neg(t)))
  }

  /** w^(N_WAVE/2) = -1. */
  ghost predicate HalfTurn<T>(r: Ring<T>, w: T, logN: nat) {
    logN > 0 ==> Pow(r, w, Pow2(logN - 1)) == r.neg(r.one)
  }

  lemma RootSquared<T(!new)>(r: Ring<T>, w: T, j: nat, q: nat)
    requires Lawful(r)
    ensures Root(r, w, j + 1, q) == r.mul(Root(r, w, j, q), Root(r, w, j, q))
  {
    PowAdd(r, w, Shl(q, j), Shl(q, j));
  }

  lemma RootHalfTurn<T(!new)>(r: Ring<T>, w: T, j: nat, p: nat, half: nat, q: nat)
    requires Lawful(r) && half == Pow2(p + j) && Pow(r, w, half) == r.neg(r.one)
    ensures Root(r, w, j, q + Pow2(p)) == r.neg(Root(r, w, j, q))
  {
    var e := Shl(q, j);
    ShlAdd(q, p, j);
    PowAdd(r, w, e, half);
    MulNeg(r, Pow(r, w, e), r.one);
    Laws(r, Pow(r, w, e), w, w);
  }

  /** Frequency q of the transform of block k after p passes. */
  ghost function BlockValues<T>(r: Ring<T>, x: seq<T>, b: nat, p: nat, logN: nat, w: T): (nat, nat) -> T
    requires |x| == Pow2(b) && p <= b <= logN
  {
    (k: nat, q: nat) =>
      if k < Pow2(b - p) then Sum(r, Decimated(x, b, p, k), Root(r, w, logN - p, q), Pow2(p)) else r.zero
  }

  /** Names the blocks and frequencies at which AreValues is wanted. */
  predicate Shown(k: nat, q: nat) {
    true
  }

  /** v has the values of BlockValues, usable only where Shown. */
  ghost predicate AreValues<T>(v: (nat, nat) -> T, r: Ring<T>, x: seq<T>, b: nat, p: nat, logN: nat, w: T)
    requires |x| == Pow2(b) && p <= b <= logN
  {
    forall k: nat, q: nat {:trigger Shown(k, q)} :: k < Pow2(b - p) ==>
      v(k, q) == Sum(r, Decimated(x, b, p, k), Root(r, w, logN - p, q), Pow2(p))
  }

  lemma WholeBlock<T>(r: Ring<T>, x: seq<T>, b: nat, p: nat, logN: nat, w: T, k: nat, q: nat, z: T, c: nat,
                      v: (nat, nat) -> T)
    requires |x| == Pow2(b) && p <= b <= logN && k < Pow2(b - p) && Root(r, w, logN - p, q) == z && c == Pow2(p)
    requires AreValues(v, r, x, b, p, logN, w)
    ensures v(k, q) == Sum(r, Decimated(x, b, p, k), z, c)
  {
    assert Shown(k, q);
  }

  /** The half-block transforms are the even and odd sums of the whole block's, at the squared root. */
  lemma EvenBlock<T(!new)>(r: Ring<T>, x: seq<T>, b: nat, p: nat, p1: nat, logN: nat, w: T, k: nat, q: nat, z: T, y: seq<T>,
                           c: nat, v: (nat, nat) -> T)
    requires |x| == Pow2(b) && p1 == p + 1 && p1 <= b <= logN && k < Pow2(b - p1) && Lawful(r) && c == Pow2(p)
    requires y == Decimated(x, b, p1, k) && z == Root(r, w, logN - p1, q)
    requires AreValues(v, r, x, b, p, logN, w)
    ensures v(2 * k, q) == Sum(r, Evens(y), r.mul(z, z), c)
  {
    DecimatedEvens(x, b, p, k);
    RootSquared(r, w, logN - p1, q);
    WholeBlock(r, x, b, p, logN, w, 2 * k, q, r.mul(z, z), c, v);
  }

  lemma OddBlock<T(!new)>(r: Ring<T>, x: seq<T>, b: nat, p: nat, p1: nat, logN: nat, w: T, k: nat, q: nat, z: T, y: seq<T>,
                          c: nat, v: (nat, nat) -> T)
    requires |x| == Pow2(b) && p1 == p + 1 && p1 <= b <= logN && k < Pow2(b - p1) && Lawful(r) && c == Pow2(p)
    requires y == Decimated(x, b, p1, k) && z == Root(r, w, logN - p1, q)
    requires AreValues(v, r, x, b, p, logN, w)
    ensures v(2 * k + 1, q) == Sum(r, Odds(y), r.mul(z, z), c)
  {
    DecimatedOdds(x, b, p, k);
    RootSquared(r, w, logN - p1, q);
    WholeBlock(r, x, b, p, logN, w, 2 * k + 1, q, r.mul(z, z), c, v);
  }

  lemma LowerWhole<T(!new)>(r: Ring<T>, x: seq<T>, b: nat, p: nat, p1: nat, logN: nat, w: T, k: nat, q: nat, z: T, y: seq<T>,
                            c: nat, v': (nat, nat) -> T)
    requires |x| == Pow2(b) && p1 == p + 1 && p1 <= b <= logN && k < Pow2(b - p1) && Lawful(r) && HalfTurn(r, w, logN)
    requires y == Decimated(x, b, p1, k) && z == Root(r, w, logN - p1, q) && c == Pow2(p)
    requires AreValues(v', r, x, b, p1, logN, w)
    ensures v'(k, q + c) == Sum(r, y, r.neg(z), 2 * c)
  {
    RootHalfTurn(r, w, logN - p1, p, Pow2(logN - 1), q);
    WholeBlock(r, x, b, p1, logN, w, k, q + c, r.neg(z), 2 * c, v');
  }

  lemma UpperWhole<T(!new)>(r: Ring<T>, x: seq<T>, b: nat, p: nat, p1: nat, logN: nat, w: T, k: nat, q: nat, z: T, y: seq<T>,
                            c: nat, v': (nat, nat) -> T)
    requires |x| == Pow2(b) && p1 == p + 1 && p1 <= b <= logN && k < Pow2(b - p1)
    requires y == Decimated(x, b, p1, k) && z == Root(r, w, logN - p1, q) && c == Pow2(p)
    requires AreValues(v', r, x, b, p1, logN, w)
    ensures |y| == 2 * c && v'(k, q) == Sum(r, y, z, 2 * c)
  {
    WholeBlock(r, x, b, p1, logN, w, k, q, z, 2 * c, v');
  }

  /** even and odd are the transforms of the halves of y at the square of z, upper and lower those of y at z and -z. */
  ghost predicate Halves<T(!new)>(r: Ring<T>, y: seq<T>, z: T, c: nat, even: T, odd: T, upper: T, lower: T) {
    && |y| == 2 * c && even == Sum(r, Evens(y), r.mul(z, z), c) && odd == Sum(r, Odds(y), r.mul(z, z), c)
    && upper == Sum(r, y, z, 2 * c) && lower == Sum(r, y, r.neg(z), 2 * c)
  }

  lemma PiecesOfHalves<T(!new)>(r: Ring<T>, x: seq<T>, b: nat, p: nat, p1: nat, logN: nat, w: T, k: nat, q: nat, z: T, y: seq<T>,
                                c: nat, v: (nat, nat) -> T)
    requires |x| == Pow2(b) && p1 == p + 1 && p1 <= b <= logN && k < Pow2(b - p1) && Lawful(r) && c == Pow2(p)
    requires y == Decimated(x, b, p1, k) && z == Root(r, w, logN - p1, q) && AreValues(v, r, x, b, p, logN, w)
    ensures v(2 * k, q) == Sum(r, Evens(y), r.mul(z, z), c) && v(2 * k + 1, q) == Sum(r, Odds(y), r.mul(z, z), c)
  {
    EvenBlock(r, x, b, p, p1, logN, w, k, q, z, y, c, v);
    OddBlock(r, x, b, p, p1, logN, w, k, q, z, y, c, v);
  }

  lemma PiecesOfWhole<T(!new)>(r: Ring<T>, x: seq<T>, b: nat, p: nat, p1: nat, logN: nat, w: T, k: nat, q: nat, z: T, y: seq<T>,
                               c: nat, v': (nat, nat) -> T)
    requires |x| == Pow2(b) && p1 == p + 1 && p1 <= b <= logN && k < Pow2(b - p1) && Lawful(r) && HalfTurn(r, w, logN)
    requires y == Decimated(x, b, p1, k) && z == Root(r, w, logN - p1, q) && c == Pow2(p) && AreValues(v', r, x, b, p1, logN, w)
    ensures |y| == 2 * c && v'(k, q) == Sum(r, y, z, 2 * c) && v'(k, q + c) == Sum(r, y, r.neg(z), 2 * c)
  {
    UpperWhole(r, x, b, p, p1, logN, w, k, q, z, y, c, v');
    LowerWhole(r, x, b, p, p1, logN, w, k, q, z, y, c, v');
  }

  lemma UpperFromHalves<T(!new)>(r: Ring<T>, y: seq<T>, z: T, zz: T, c: nat, whole: T, even: T, odd: T)
    requires Lawful(r) && |y| == 2 * c && zz == r.mul(z, z) && whole == Sum(r, y, z, 2 * c)
    requires even == Sum(r, Evens(y), zz, c) && odd == Sum(r, Odds(y), zz, c)
    ensures whole == r.add(even, r.mul(z, odd))
  {
    EvenOdd(r, y, z, c);
  }

  lemma LowerFromHalves<T(!new)>(r: Ring<T>, y: seq<T>, z: T, zz: T, c: nat, whole: T, even: T, odd: T)
    requires Lawful(r) && |y| == 2 * c && zz == r.mul(z, z) && whole == Sum(r, y, r.neg(z), 2 * c)
    requires even == Sum(r, Evens(y), zz, c) && odd == Sum(r, Odds(y), zz, c)
    ensures whole == r.add(even, r.neg(r.mul(z, odd)))
  {
    EvenOddNeg(r, y, z, c);
  }

  lemma JoinsFrom<T>(r: Ring<T>, w: T, j: nat, v: (nat, nat) -> T, v': (nat, nat) -> T, l: nat, k: nat, q: nat)
    requires var t := r.mul(Root(r, w, j, q), v(2 * k + 1, q));
      v'(k, q) == r.add(v(2 * k, q), t) && v'(k, q + l) == r.add(v(2 * k, q), r.neg(t))
    ensures Joins(v, v', l, ExactButterfly(r, w, j), k, q)
  {
  }

  lemma BlockJoins<T(!new)>(r: Ring<T>, x: seq<T>, b: nat, p: nat, p1: nat, logN: nat, w: T,
                            v: (nat, nat) -> T, v': (nat, nat) -> T, l: nat, k: nat, q: nat)
    requires |x| == Pow2(b) && p1 == p + 1 && p1 <= b <= logN && k < Pow2(b - p1) && Lawful(r) && HalfTurn(r, w, logN)
    requires l == Pow2(p) && AreValues(v, r, x, b, p, logN, w) && AreValues(v', r, x, b, p1, logN, w)
    ensures Joins(v, v', l, ExactButterfly(r, w, logN - p1), k, q)
  {
    var y, z := BlockHalves(r, x, b, p, p1, logN, w, v, v', l, k, q);
    HalvesJoin(r, y, z, l, v(2 * k, q), v(2 * k + 1, q), v'(k, q), v'(k, q + l));
    JoinsFrom(r, w, logN - p1, v, v', l, k, q);
  }

  lemma BlockHalves<T(!new)>(r: Ring<T>, x: seq<T>, b: nat, p: nat, p1: nat, logN: nat, w: T,
                             v: (nat, nat) -> T, v': (nat, nat) -> T, l: nat, k: nat, q: nat)
    returns (y: seq<T>, z: T)
    requires |x| == Pow2(b) && p1 == p + 1 && p1 <= b <= logN && k < Pow2(b - p1) && Lawful(r) && HalfTurn(r, w, logN)
    requires l == Pow2(p) && AreValues(v, r, x, b, p, logN, w) && AreValues(v', r, x, b, p1, logN, w)
    ensures z == Root(r, w, logN - p1, q)
    ensures Halves(r, y, z, l, v(2 * k, q), v(2 * k + 1, q), v'(k, q), v'(k, q + l))
  {
    y, z := Decimated(x, b, p1, k), Root(r, w, logN - p1, q);
    PiecesOfHalves(r, x, b, p, p1, logN, w, k, q, z, y, l, v);
    PiecesOfWhole(r, x, b, p, p1, logN, w, k, q, z, y, l, v');
  }

  /** One exact butterfly joins the transforms of two half blocks into that of the whole. */
  lemma HalvesJoin<T(!new)>(r: Ring<T>, y: seq<T>, z: T, c: nat, even: T, odd: T, upper: T, lower: T)
    requires Lawful(r) && Halves(r, y, z, c, even, odd, upper, lower)
    ensures upper == r.add(even, r.mul(z, odd)) && lower == r.add(even, r.neg(r.mul(z, odd)))
  {
    UpperFromHalves(r, y, z, r.mul(z, z), c, upper, even, odd);
    LowerFromHalves(r, y, z, r.mul(z, z), c, lower, even, odd);
  }

  /** The data after p passes. */
  ghost function Stage<T>(r: Ring<T>, x: seq<T>, b: nat, p: nat, logN: nat, w: T): seq<T>
    requires |x| == Pow2(b) && p <= b <= logN
  {
    Blocks(BlockValues(r, x, b, p, logN, w), |x|, Pow2(p))
  }

  /** Pass p takes the transforms of the blocks of 2^p to those of the blocks of 2^(p+1). */
  lemma StageStep<T(!new)>(r: Ring<T>, x: seq<T>, b: nat, p: nat, p1: nat, logN: nat, w: T,
                           v: (nat, nat) -> T, v': (nat, nat) -> T, l: nat)
    requires |x| == Pow2(b) && p1 == p + 1 && p1 <= b <= logN && Lawful(r) && HalfTurn(r, w, logN) && l == Pow2(p)
    requires AreValues(v, r, x, b, p, logN, w) && AreValues(v', r, x, b, p1, logN, w)
    ensures |x| % (2 * l) == 0
    ensures Pass(Blocks(v, |x|, l), l, ExactButterfly(r, w, logN - p1)) == Blocks(v', |x|, 2 * l)
  {
    var (m, bf) := (Pow2(b - p1), ExactButterfly(r, w, logN - p1));
    Pow2Add(p1, b - p1);
    forall k: nat, q: nat | k < m && q < l
      ensures Joins(v, v', l, bf, k, q)
    {
      BlockJoins(r, x, b, p, p1, logN, w, v, v', l, k, q);
    }
    PassJoinsBlocks(v, v', m, l, bf);
  }

  /** The butterfly of each pass: k counts down from LOG2_N_WAVE-1 (fft.c:200, 235, 261). */
  function ExactButterflies<T>(r: Ring<T>, w: T, logN: nat): nat -> Butterfly<T> {
    (p: nat) => ExactButterfly(r, w, if p < logN then logN - p - 1 else 0)
  }

  ghost function Stages<T>(r: Ring<T>, x: seq<T>, b: nat, logN: nat, w: T): nat -> seq<T>
    requires |x| == Pow2(b) && b <= logN
  {
    (p: nat) => if p <= b then Stage(r, x, b, p, logN, w) else x
  }

  lemma AdvanceFrom<T>(stage: nat -> seq<T>, bf: nat -> Butterfly<T>, p: nat, p1: nat, n: nat, l: nat, s: seq<T>, s': seq<T>,
                       f: Butterfly<T>)
    requires p1 == p + 1 && stage(p) == s && stage(p1) == s' && bf(p) == f && l == Pow2(p) && |s| == n
    requires n % (2 * l) == 0 && s' == Pass(s, l, f)
    ensures Advances(stage, bf, p, n)
  {
  }

  lemma BlockValuesAre<T>(r: Ring<T>, x: seq<T>, b: nat, p: nat, logN: nat, w: T) returns (v: (nat, nat) -> T)
    requires |x| == Pow2(b) && p <= b <= logN
    ensures AreValues(v, r, x, b, p, logN, w) && Stage(r, x, b, p, logN, w) == Blocks(v, |x|, Pow2(p))
  {
    v := BlockValues(r, x, b, p, logN, w);
  }

  /** Pass p between the two stages. */
  lemma StagePass<T(!new)>(r: Ring<T>, x: seq<T>, b: nat, logN: nat, w: T, p: nat, p1: nat, l: nat)
    returns (s: seq<T>, s': seq<T>)
    requires |x| == Pow2(b) && p1 == p + 1 && p1 <= b <= logN && Lawful(r) && HalfTurn(r, w, logN) && l == Pow2(p)
    ensures s == Stage(r, x, b, p, logN, w) && s' == Stage(r, x, b, p1, logN, w)
    ensures |s| == |x| && |x| % (2 * l) == 0 && s' == Pass(s, l, ExactButterfly(r, w, logN - p1))
  {
    var v := BlockValuesAre(r, x, b, p, logN, w);
    var v' := BlockValuesAre(r, x, b, p1, logN, w);
    StageStep(r, x, b, p, p1, logN, w, v, v', l);
    s, s' := Blocks(v, |x|, l), Blocks(v', |x|, 2 * l);
  }

  lemma StageValue<T>(r: Ring<T>, x: seq<T>, b: nat, logN: nat, w: T, p: nat, stage: nat -> seq<T>)
    requires |x| == Pow2(b) && p <= b <= logN && stage == Stages(r, x, b, logN, w)
    ensures stage(p) == Stage(r, x, b, p, logN, w)
  {
  }

  lemma ButterflyValue<T>(r: Ring<T>, w: T, logN: nat, p: nat, p1: nat, bf: nat -> Butterfly<T>)
    requires p1 == p + 1 <= logN && bf == ExactButterflies(r, w, logN)
    ensures bf(p) == ExactButterfly(r, w, logN - p1)
  {
  }

  lemma StagesAdvance<T(!new)>(r: Ring<T>, x: seq<T>, b: nat, logN: nat, w: T, p: nat, p1: nat,
                               stage: nat -> seq<T>, bf: nat -> Butterfly<T>)
    requires |x| == Pow2(b) && p1 == p + 1 && p1 <= b <= logN && Lawful(r) && HalfTurn(r, w, logN)
    requires stage == Stages(r, x, b, logN, w) && bf == ExactButterflies(r, w, logN)
    ensures Advances(stage, bf, p, Pow2(b))
  {
    var l := Pow2(p);
    var s, s' := StagePass(r, x, b, logN, w, p, p1, l);
    StageValue(r, x, b, logN, w, p, stage);
    StageValue(r, x, b, logN, w, p1, stage);
    ButterflyValue(r, w, logN, p, p1, bf);
    AdvanceFrom(stage, bf, p, p1, |x|, l, s, s', ExactButterfly(r, w, logN - p1));
  }

  /** From the reordered data through every pass to the DFT. */
  lemma StagesRun<T(!new)>(r: Ring<T>, x: seq<T>, b: nat, logN: nat, w: T,
                           stage: nat -> seq<T>, bf: nat -> Butterfly<T>)
    requires |x| == Pow2(b) && b <= logN && Lawful(r) && HalfTurn(r, w, logN)
    requires stage == Stages(r, x, b, logN, w) && bf == ExactButterflies(r, w, logN)
    ensures stage(0) == Reordered(x, b)
    ensures forall p: nat :: p < b ==> Advances(stage, bf, p, Pow2(b))
    ensures |stage(b)| == |x| && forall q :: 0 <= q < |x| ==> stage(b)[q] == Dft(r, x, b, logN, w, q)
  {
    forall p: nat | p < b
      ensures Advances(stage, bf, p, Pow2(b))
    {
      StagesAdvance(r, x, b, logN, w, p, p + 1, stage, bf);
    }
    StageEnds(r, x, b, logN, w);
  }

  lemma StageEnds<T(!new)>(r: Ring<T>, x: seq<T>, b: nat, logN: nat, w: T)
    requires |x| == Pow2(b) && b <= logN && Lawful(r)
    ensures Stage(r, x, b, 0, logN, w) == Reordered(x, b)
    ensures forall q :: 0 <= q < |x| ==> Stage(r, x, b, b, logN, w)[q] == Dft(r, x, b, logN, w, q)
  {
    var s := Stage(r, x, b, 0, logN, w);
    forall y | 0 <= y < |x|
      ensures s[y] == x[Rev(b, y)]
    {
      SingleSum(r, x[Rev(b, y)], Root(r, w, logN, 0));
      ShlZero(b);
      assert Decimated(x, b, 0, y) == [x[Rev(b, y)]];
    }
    forall q | 0 <= q < |x|
      ensures Stage(r, x, b, b, logN, w)[q] == Dft(r, x, b, logN, w, q)
    {
      DivModUnique(q, |x|, 0, q);
      assert Decimated(x, b, b, 0) == x;
      var v := BlockValues(r, x, b, b, logN, w);
      assert Blocks(v, |x|, |x|)[q] == v(0, q) == Sum(r, x, Root(r, w, logN - b, q), |x|);
    }
  }

  lemma SingleSum<T(!new)>(r: Ring<T>, a: T, z: T)
    requires Lawful(r)
    ensures Sum(r, [a], z, 1) == a
  {
    Laws(r, a, r.zero, z);
    Laws(r, r.zero, a, z);
  }

  /**
   The transform of fft.c:177-263 in exact complex arithmetic (any pair arithmetic that is a commutative
   ring): for every size 2^b up to N_WAVE, every data and every half-turn root w, the two arrays end
   holding the DFT of what they held.
   */
  method ExactFft<R(!new)>(r: Ring<Cx<R>>, fr: array<R>, fi: array<R>, b: nat, logN: nat, w: Cx<R>)
    requires fr != fi && b <= logN && fr.Length == fi.Length == Pow2(b)
    requires Lawful(r) && HalfTurn(r, w, logN)
    modifies fr, fi
    ensures forall q :: 0 <= q < Pow2(b) ==> View(fr, fi)[q] == Dft(r, old(View(fr, fi)), b, logN, w, q)
  {
    ghost var x := View(fr, fi);
    var bf := ExactButterflies(r, w, logN);
    ghost var stage := Stages(r, x, b, logN, w);
    StagesRun(r, x, b, logN, w, stage, bf);
    Reorder(fr, fi, b);
    AllPasses(fr, fi, b, bf, stage);
  }
}
