/**
 The root of unity behind the sine table of ExtLibs/FFT/fft.c: the table and its signs fit the powers of every root
 of -1 next to 1, clockwise for the forward transform and counter-clockwise for the inverse one (lines 234-244), so
 the results on accuracy hold for the transforms with those roots.
 */
module FftRoot {
  import opened BitReversal
  import opened FftSchedule
  import opened Sinewave
  import opened FftFixed
  import opened Complex
  import opened Rings
  import opened FftBounds
  import opened FftAccuracy
  import opened FftInverse
  import opened FftRootTable
  import FftExact

  // ----- numbers close to the first power

  /** z is within 10^-9 of the first power, and not outside the unit circle. */
  predicate NearFirst(z: C) {
    Within(z, 1.0) && Within(Sub(z, Fine(1)), 0.000000001)
  }

  lemma {:induction false} PowWithin(z: C, k: nat)
    requires Within(z, 1.0)
    ensures Within(Pow(Complexes(), z, k), 1.0)
  {
    if k > 0 {
      PowWithin(z, k - 1);
      MulWithin(z, Pow(Complexes(), z, k - 1), 1.0, 1.0);
    }
  }

  lemma TinyWithin(e: C)
    requires Tiny(e)
    ensures Within(e, 0.00000000001)
  {
    SmallParts(e, 0.000000000005, 0.00000000001);
  }

  lemma SquareWithin(z: C)
    requires InSquare(z)
    ensures Within(z, 1.5)
  {
    SmallParts(z, 1.0, 1.5);
  }

  /** The distance of a product from the product of approximations. */
  lemma ProductNear(a: C, b: C, a': C, b': C, ea: real, eb: real, e: real)
    requires Within(a, 1.0) && Within(b', 1.5) && Within(Sub(a, a'), ea) && Within(Sub(b, b'), eb) && e == eb + 1.5 * ea
    ensures Within(Sub(Mul(a, b), Mul(a', b')), e)
  {
    MulWithin(a, Sub(b, b'), 1.0, eb);
    MulWithin(Sub(a, a'), b', ea, 1.5);
    AddWithin(Mul(a, Sub(b, b')), Mul(Sub(a, a'), b'), 1.0 * eb, ea * 1.5);
    MulSubRight(a, b, b');
    MulSubLeft(a, a', b');
    Telescope(Mul(a, b), Mul(a, b'), Mul(a', b'));
  }

  lemma Telescope(x: C, y: C, z: C)
    ensures Add(Sub(x, y), Sub(y, z)) == Sub(x, z)
  {
  }

  /** The same when the product of the approximations is itself approximated. */
  lemma ProductNearTo(a: C, b: C, a': C, b': C, c: C, ea: real, eb: real, e: real)
    requires Within(a, 1.0) && InSquare(b') && Within(Sub(a, a'), ea) && Within(Sub(b, b'), eb) && Tiny(Sub(Mul(a', b'), c))
    requires e >= eb + 1.5 * ea + 0.00000000001
    ensures Within(Sub(Mul(a, b), c), e)
  {
    var d := eb + 1.5 * ea;
    SquareWithin(b');
    ProductNear(a, b, a', b', ea, eb, d);
    TinyWithin(Sub(Mul(a', b'), c));
    AddWithin(Sub(Mul(a, b), Mul(a', b')), Sub(Mul(a', b'), c), d, 0.00000000001);
    Telescope(Mul(a, b), Mul(a', b'), c);
    Weaken(Sub(Mul(a, b), c), d + 0.00000000001, e);
  }

  lemma FirstPowers()
    ensures Fine(0) == Cx(1.0, 0.0) && Coarse(0) == Cx(1.0, 0.0) && Coarse(8) == Cx(0.0, -1.0)
  {
    var (f, c, d) := (Fine(0), Coarse(0), Coarse(8));
    assert f.re == 1.0 && f.im == 0.0 && c.re == 1.0 && c.im == 0.0 && d.re == 0.0 && d.im == -1.0;
  }

  function FineError(b: nat): real {
    b as real * 0.000000002
  }

  lemma {:induction false} FineNear(z: C, b: nat)
    requires NearFirst(z) && b <= 32
    ensures Within(Sub(Pow(Complexes(), z, b), Fine(b)), FineError(b))
  {
    if b == 0 {
      FirstPowers();
    } else {
      FineNear(z, b - 1);
      FineStep(b - 1);
      FineInSquare(b - 1);
      ProductNearTo(z, Pow(Complexes(), z, b - 1), Fine(1), Fine(b - 1), Fine(b), 0.000000001, FineError(b - 1), FineError(b));
    }
  }

  function CoarseError(a: nat): real {
    a as real * 0.0000001
  }

  lemma PowSplit(z: C, j: nat, k: nat, n: nat)
    requires n == j + k
    ensures Pow(Complexes(), z, n) == Mul(Pow(Complexes(), z, j), Pow(Complexes(), z, k))
  {
    ComplexesLawful();
    PowAdd(Complexes(), z, j, k);
  }

  lemma {:induction false} CoarseNear(z: C, a: nat)
    requires NearFirst(z) && a <= 8
    ensures Within(Sub(Pow(Complexes(), z, 32 * a), Coarse(a)), CoarseError(a))
  {
    if a == 0 {
      FirstPowers();
    } else {
      CoarseNear(z, a - 1);
      NextCoarse(z, a - 1, a);
    }
  }

  lemma NextCoarse(z: C, c: nat, a: nat)
    requires NearFirst(z) && a == c + 1 <= 8 && Within(Sub(Pow(Complexes(), z, 32 * c), Coarse(c)), CoarseError(c))
    ensures Within(Sub(Pow(Complexes(), z, 32 * a), Coarse(a)), CoarseError(a))
  {
    FineNear(z, 32);
    CoarseStep(c);
    CoarseInSquare(c);
    PowWithin(z, 32);
    PowSplit(z, 32, 32 * c, 32 * a);
    ProductNearTo(Pow(Complexes(), z, 32), Pow(Complexes(), z, 32 * c), Fine(32), Coarse(c), Coarse(a),
                  FineError(32), CoarseError(c), CoarseError(a));
  }

  // ----- the first quarter wave

  lemma ApproxNear(z: C, a: nat, b: nat, j: nat)
    requires NearFirst(z) && a <= 8 && b <= 32 && j == 32 * a + b
    ensures Within(Sub(Pow(Complexes(), z, j), Approx(a, b)), 0.0000013)
  {
    CoarseNear(z, a);
    FineNear(z, b);
    FineInSquare(b);
    SquareWithin(Fine(b));
    PowWithin(z, 32 * a);
    PowSplit(z, 32 * a, b, j);
    var e := FineError(b) + 1.5 * CoarseError(a);
    ProductNear(Pow(Complexes(), z, 32 * a), Pow(Complexes(), z, b), Coarse(a), Fine(b), CoarseError(a), FineError(b), e);
    Weaken(Sub(Pow(Complexes(), z, j), Approx(a, b)), e, 0.0000013);
  }

  /** Entry j as a twiddle of the forward transform, before it is halved. */
  function Entry(j: nat): Cx<Short> {
    Twiddle(j, false, false)
  }

  predicate Cut(e: C) {
    -0.99 <= e.re <= 0.99 && -0.99 <= e.im <= 0.99
  }

  /** What truncation takes from entry j. */
  lemma EntryCut(j: nat, a: nat, b: nat)
    requires a < 8 && b < 32 && j == 32 * a + b
    ensures Cut(Sub(ToC(Entry(j)), Scale(32767.0, Approx(a, b))))
  {
    SineTruncates(a, b);
    CosineTruncates(a, b);
    EntryIs(j);
    CutFrom(Quarter(256 - j), Quarter(j), Entry(j), Approx(a, b));
  }

  lemma CutFrom(c: int, s: int, t: Cx<Short>, u: C)
    requires Truncates(c, u.re) && TruncatesMinus(s, u.im) && t.re == c && t.im == -s
    ensures Cut(Sub(ToC(t), Scale(32767.0, u)))
  {
  }

  lemma EntryParts(j: nat, c: int, d: int)
    requires c == Sine(j + 256) && d == Sine(j) && d > -0x8000
    ensures Entry(j).re == c && Entry(j).im == -d
  {
  }

  lemma EntryIs(j: nat)
    requires j < 256
    ensures Entry(j).re == Quarter(256 - j) && Entry(j).im == -(Quarter(j) as int)
    ensures Entry(256 + j).re == -(Quarter(j) as int) && Entry(256 + j).im == -(Quarter(256 - j) as int)
  {
    QuarterAngles(j);
    SineRange(j);
    SineRange(256 + j);
    EntryParts(j, Sine(j + 256), Sine(j));
    EntryParts(256 + j, Sine(256 + j + 256), Sine(256 + j));
  }

  lemma QuarterAngles(j: nat)
    requires j < 256
    ensures Sine(j) == Quarter(j) && Sine(256 + j) == Quarter(256 - j) && Sine(256 + j + 256) == -(Quarter(j) as int)
  {
    Angles(j, j, Sine(j + 256), Sine(j));
    if j > 0 {
      Angles(256 + j, j, Sine(256 + j + 256), Sine(256 + j));
    }
  }

  /** A quarter turn clockwise. */
  function Turned(z: C): C {
    Cx(z.im, -z.re)
  }

  lemma TurnedWithin(z: C, r: real)
    requires Within(z, r)
    ensures Within(Turned(z), r)
  {
  }

  /** How far a table entry is from 32768 times the power, in terms of the truncation and the approximation. */
  lemma EntryClose(t: C, u: C, z: C)
    requires Cut(Sub(t, Scale(32767.0, u))) && Within(Sub(z, u), 0.0000026) && Within(z, 1.0)
    ensures Within(Sub(t, Scale(32768.0, z)), 2.49)
  {
    var (f, d) := (Sub(t, Scale(32767.0, u)), Sub(z, u));
    SmallParts(f, 0.99, 1.401);
    ScaleWithin(32767.0, d, 0.0000026);
    NegWithin(Scale(32767.0, d), 32767.0 * 0.0000026);
    AddWithin(f, Neg(Scale(32767.0, d)), 1.401, 32767.0 * 0.0000026);
    NegWithin(z, 1.0);
    AddWithin(Add(f, Neg(Scale(32767.0, d))), Neg(z), 1.401 + 32767.0 * 0.0000026, 1.0);
    var (l, r) := (Sub(t, Scale(32768.0, z)), Add(Add(f, Neg(Scale(32767.0, d))), Neg(z)));
    assert l.re == r.re && l.im == r.im;
    Weaken(l, 1.401 + 32767.0 * 0.0000026 + 1.0, 2.49);
  }

  lemma LowEntryClose(z: C, j: nat)
    requires NearFirst(z) && j < 256
    ensures Within(Sub(ToC(Entry(j)), Scale(32768.0, Pow(Complexes(), z, j))), 2.49)
  {
    var (a, b) := (j / 32, j % 32);
    EntryCut(j, a, b);
    ApproxNear(z, a, b, j);
    PowWithin(z, j);
    Weaken(Sub(Pow(Complexes(), z, j), Approx(a, b)), 0.0000013, 0.0000026);
    EntryClose(ToC(Entry(j)), Approx(a, b), Pow(Complexes(), z, j));
  }

  lemma ApproxWithin(a: nat, b: nat)
    requires a < 8 && b < 32
    ensures Within(Approx(a, b), 1.5)
  {
    SineTruncates(a, b);
    CosineTruncates(a, b);
    QuarterRange(32 * a + b);
    QuarterRange(256 - (32 * a + b));
    WithinFrom(Quarter(256 - (32 * a + b)), Quarter(32 * a + b), Approx(a, b));
  }

  lemma WithinFrom(c: nat, s: nat, u: C)
    requires Truncates(c, u.re) && TruncatesMinus(s, u.im) && c <= 32767 && s <= 32767
    ensures Within(u, 1.5)
  {
    SmallParts(u, 1.01, 1.5);
  }

  lemma EighthIsTurn(u: C)
    ensures Mul(Coarse(8), u) == Turned(u)
  {
    FirstPowers();
    var (l, r) := (Mul(Cx(0.0, -1.0), u), Turned(u));
    assert l.re == r.re && l.im == r.im;
  }

  lemma TurnedCut(j: nat, i: nat, u: C)
    requires i < 256 && j == 256 + i && Cut(Sub(ToC(Entry(i)), Scale(32767.0, u)))
    ensures Cut(Sub(ToC(Entry(j)), Scale(32767.0, Turned(u))))
  {
    EntryIs(i);
  }

  lemma HighEntryClose(z: C, j: nat, i: nat)
    requires NearFirst(z) && i < 256 && j == 256 + i
    ensures Within(Sub(ToC(Entry(j)), Scale(32768.0, Pow(Complexes(), z, j))), 2.49)
  {
    var (a, b) := (i / 32, i % 32);
    EntryCut(i, a, b);
    ApproxNear(z, a, b, i);
    CoarseNear(z, 8);
    TurnedCut(j, i, Approx(a, b));
    ApproxWithin(a, b);
    PowWithin(z, 256);
    PowWithin(z, j);
    PowSplit(z, 256, i, j);
    ProductNear(Pow(Complexes(), z, 256), Pow(Complexes(), z, i), Coarse(8), Approx(a, b), CoarseError(8), 0.0000013,
                0.0000013 + 1.5 * CoarseError(8));
    EighthIsTurn(Approx(a, b));
    Weaken(Sub(Pow(Complexes(), z, j), Turned(Approx(a, b))), 0.0000013 + 1.5 * CoarseError(8), 0.0000026);
    EntryClose(ToC(Entry(j)), Turned(Approx(a, b)), Pow(Complexes(), z, j));
  }

  /** Every entry is within 2.49 units of the last place of its power. */
  lemma AllEntriesClose(z: C, j: nat)
    requires NearFirst(z) && j < 512
    ensures Within(Sub(ToC(Entry(j)), Scale(32768.0, Pow(Complexes(), z, j))), 2.49)
  {
    if j < 256 {
      LowEntryClose(z, j);
    } else {
      HighEntryClose(z, j, j - 256);
    }
  }

  // ----- both tables

  /** From the full entry to the halved one. */
  lemma Halved(t: Cx<Short>, p: C)
    requires Within(Sub(ToC(t), Scale(32768.0, p)), 2.49)
    ensures Within(TableError(Cx(Half(t.re), Half(t.im)), p), 2.0 / 32768.0) && Within(FullError(t, p), 2.5 / 32768.0)
  {
    var e := Sub(ToC(t), Scale(32768.0, p));
    ScaleWithin(1.0 / 32768.0, e, 2.49);
    Rescaled(t, p);
    Weaken(FullError(t, p), 1.0 / 32768.0 * 2.49, 2.5 / 32768.0);
    ErrQSmall(t);
    ScaleWithin(0.5, e, 2.49);
    AddWithin(Scale(0.5, e), ErrQ(t), 1.245, 0.75);
    var g := Add(Scale(0.5, e), ErrQ(t));
    ScaleWithin(1.0 / 32768.0, g, 1.995);
    Weaken(Scale(1.0 / 32768.0, g), 1.0 / 32768.0 * 1.995, 2.0 / 32768.0);
  }

  lemma Rescaled(t: Cx<Short>, p: C)
    ensures FullError(t, p) == Scale(1.0 / 32768.0, Sub(ToC(t), Scale(32768.0, p)))
    ensures TableError(Cx(Half(t.re), Half(t.im)), p) ==
            Scale(1.0 / 32768.0, Add(Scale(0.5, Sub(ToC(t), Scale(32768.0, p))), ErrQ(t)))
  {
    var (l, r) := (FullError(t, p), Scale(1.0 / 32768.0, Sub(ToC(t), Scale(32768.0, p))));
    assert l.re == r.re && l.im == r.im;
    var (l', r') := (TableError(Cx(Half(t.re), Half(t.im)), p),
                     Scale(1.0 / 32768.0, Add(Scale(0.5, Sub(ToC(t), Scale(32768.0, p))), ErrQ(t))));
    assert l'.re == r'.re && l'.im == r'.im;
  }

  /** The forward twiddles are those of every number that close to the first power. */
  lemma TableNear(z: C)
    requires NearFirst(z)
    ensures NearTable(z)
  {
    forall j: nat | j < 512
      ensures NearAt(z, j)
    {
      AllEntriesClose(z, j);
      Halved(Entry(j), Pow(Complexes(), z, j));
      PowWithin(z, j);
    }
  }

  function Conj(z: C): C {
    Cx(z.re, -z.im)
  }

  lemma ConjMul(a: C, b: C)
    ensures Conj(Mul(a, b)) == Mul(Conj(a), Conj(b))
  {
    assert (-a.im) * (-b.im) == a.im * b.im && a.re * (-b.im) == -(a.re * b.im) && (-a.im) * b.re == -(a.im * b.re);
    var (l, r) := (Conj(Mul(a, b)), Mul(Conj(a), Conj(b)));
    assert l.re == r.re && l.im == r.im;
  }

  lemma {:induction false} PowConj(z: C, k: nat)
    ensures Pow(Complexes(), Conj(z), k) == Conj(Pow(Complexes(), z, k))
  {
    if k > 0 {
      PowConj(z, k - 1);
      ConjMul(z, Pow(Complexes(), z, k - 1));
    }
  }

  lemma ConjWithin(z: C, r: real)
    requires Within(z, r)
    ensures Within(Conj(z), r)
  {
    assert (-z.im) * (-z.im) == z.im * z.im;
  }

  lemma InverseEntry(j: nat)
    requires j < 512
    ensures ToC(Twiddle(j, true, false)) == Conj(ToC(Entry(j)))
  {
    SineRange(j);
  }

  lemma ConjDistance(t: C, p: C)
    ensures Conj(Sub(t, Scale(32768.0, p))) == Sub(Conj(t), Scale(32768.0, Conj(p)))
  {
  }

  /** The inverse twiddles turn the other way. */
  lemma InverseTableNear(z: C)
    requires NearFirst(z)
    ensures NearInverseTable(Conj(z))
  {
    forall j: nat | j < 512
      ensures NearInverseAt(Conj(z), j)
    {
      var p := Pow(Complexes(), z, j);
      AllEntriesClose(z, j);
      ConjWithin(Sub(ToC(Entry(j)), Scale(32768.0, p)), 2.49);
      ConjDistance(ToC(Entry(j)), p);
      InverseEntry(j);
      PowConj(z, j);
      Halved(Twiddle(j, true, false), Conj(p));
      PowWithin(z, j);
      ConjWithin(p, 1.0);
    }
  }

  // ----- the exact roots

  /** A root of w^(N_WAVE/2) = -1 next to 1, on the clockwise side. */
  ghost predicate Clockwise(w: C) {
    FftExact.HalfTurn(Complexes(), w, LOG2_N_WAVE) && w.re > 0.99997 && w.im < 0.0
  }

  /** The one on the other side. */
  ghost predicate CounterClockwise(w: C) {
    FftExact.HalfTurn(Complexes(), w, LOG2_N_WAVE) && w.re > 0.99997 && w.im > 0.0
  }

  function Norm(z: C): real {
    z.re * z.re + z.im * z.im
  }

  lemma NormSquared(y: C, x: C)
    requires x == Mul(y, y)
    ensures Norm(x) == Norm(y) * Norm(y)
  {
    MulNorm(y, y);
  }

  lemma UnitRoot(n: real)
    requires n >= 0.0 && n * n == 1.0
    ensures n == 1.0
  {
    assert (n - 1.0) * (n + 1.0) == 0.0;
    ZeroFactor(n - 1.0, n + 1.0);
  }

  lemma ZeroFactor(a: real, b: real)
    requires a * b == 0.0 && b != 0.0
    ensures a == 0.0
  {
    PositiveProduct(a, b);
    PositiveProduct(-a, b);
    PositiveProduct(a, -b);
    PositiveProduct(-a, -b);
  }

  lemma SquareOnCircle(y: C, x: C)
    requires x == Mul(y, y) && Norm(x) == 1.0
    ensures Norm(y) == 1.0
  {
    NormSquared(y, x);
    SquareNonNegative(y.re);
    SquareNonNegative(y.im);
    UnitRoot(Norm(y));
  }

  lemma SquareNonNegative(x: real)
    ensures x * x >= 0.0
  {
  }

  /** Doubling an angle that is less than a quarter turn, clockwise. */
  lemma Doubled(y: C, x: C, c: real, c': real)
    requires x == Mul(y, y) && Norm(y) == 1.0 && y.re > c > 0.0 && y.im < 0.0 && c' <= 2.0 * (c * c) - 1.0
    ensures x.re > c' && x.im < 0.0
  {
    assert y.re * y.re > c * c by {
      assert (y.re - c) * (y.re + c) > 0.0;
    }
    assert y.re * y.im < 0.0;
  }

  /** x is the cosine of twice the angle whose cosine is y. */
  predicate DoubleCosine(y: real, x: real) {
    x == 2.0 * (y * y) - 1.0
  }

  /** Halving it: the cosine lies between two numbers if twice their squares do. */
  lemma HalvedAngle(y: real, x: real, lo: real, hi: real, lo': real, hi': real)
    requires DoubleCosine(y, x) && y > 0.0 && lo <= x <= hi && lo' > 0.0 && hi' > 0.0
    requires 2.0 * (lo' * lo') - 1.0 <= lo && hi <= 2.0 * (hi' * hi') - 1.0
    ensures lo' <= y <= hi'
  {
    SquareOrder(lo', y);
    SquareOrder(y, hi');
  }

  /** Powers 1, 2, 4, ... of w. */
  function Power(w: C, k: nat): C {
    Pow(Complexes(), w, Pow2(k))
  }

  lemma PowerSquared(w: C, k: nat)
    ensures Power(w, k + 1) == Mul(Power(w, k), Power(w, k))
  {
    PowSplit(w, Pow2(k), Pow2(k), Pow2(k + 1));
  }

  lemma PowerZero(w: C)
    ensures Power(w, 0) == w
  {
    MulOne(w);
    assert Pow(Complexes(), w, 1) == Mul(w, Pow(Complexes(), w, 0));
  }

  lemma {:induction false} PowersOnCircle(w: C, k: nat)
    requires Clockwise(w) && k <= 9
    ensures Norm(Power(w, k)) == 1.0
    decreases 9 - k
  {
    if k == 9 {
      assert Power(w, 9) == Cx(-1.0, 0.0);
    } else {
      PowersOnCircle(w, k + 1);
      PowerSquared(w, k);
      SquareOnCircle(Power(w, k), Power(w, k + 1));
    }
  }

  /** Lower bounds for the cosines of powers 1, 2, 4, ..., 128. */
  function CosineAbove(k: nat): real {
    if k == 0 then 0.99997 else if k == 1 then 0.99987 else if k == 2 then 0.9994 else if k == 3 then 0.9975
    else if k == 4 then 0.99 else if k == 5 then 0.96 else if k == 6 then 0.84 else 0.41
  }

  lemma CosineAboveStep(k: nat)
    requires k < 7
    ensures 0.0 < CosineAbove(k) && CosineAbove(k + 1) <= 2.0 * (CosineAbove(k) * CosineAbove(k)) - 1.0
  {
  }

  lemma {:induction false} PowersTurn(w: C, k: nat)
    requires Clockwise(w) && k <= 7
    ensures Power(w, k).re > CosineAbove(k) && Power(w, k).im < 0.0
  {
    if k == 0 {
      PowerZero(w);
    } else {
      var j := k - 1;
      PowersTurn(w, j);
      PowersOnCircle(w, j);
      PowerSquared(w, j);
      TurnStep(Power(w, j), Power(w, k), j);
    }
  }

  lemma TurnStep(y: C, x: C, j: nat)
    requires j < 7 && x == Mul(y, y) && Norm(y) == 1.0 && y.re > CosineAbove(j) && y.im < 0.0
    ensures x.re > CosineAbove(j + 1) && x.im < 0.0
  {
    CosineAboveStep(j);
    Doubled(y, x, CosineAbove(j), CosineAbove(j + 1));
  }

  lemma CosineDoubles(w: C, k: nat, y: real, x: real)
    requires Clockwise(w) && k <= 7 && y == Power(w, k).re && x == Power(w, k + 1).re
    ensures DoubleCosine(y, x) == true
  {
    PowersOnCircle(w, k);
    PowerSquared(w, k);
    RealOfSquare(Power(w, k), Power(w, k + 1));
  }

  lemma RealOfSquare(y: C, x: C)
    requires x == Mul(y, y) && Norm(y) == 1.0
    ensures DoubleCosine(y.re, x.re)
  {
  }

  /** Power 256 is a quarter turn. */
  lemma QuarterPower(w: C)
    requires Clockwise(w)
    ensures Power(w, 8) == Cx(0.0, -1.0)
  {
    PowersTurn(w, 7);
    PowersOnCircle(w, 8);
    PowerSquared(w, 7);
    PowerSquared(w, 8);
    assert Power(w, 9) == Cx(-1.0, 0.0);
    ImaginaryNegative(Power(w, 7), Power(w, 8));
    MinusOne(Power(w, 8));
  }

  lemma ImaginaryNegative(y: C, x: C)
    requires x == Mul(y, y) && y.re > 0.0 && y.im < 0.0
    ensures x.im < 0.0
  {
    assert y.re * y.im < 0.0;
  }

  lemma MinusOne(y: C)
    requires Mul(y, y) == Cx(-1.0, 0.0) && y.im < 0.0
    ensures y == Cx(0.0, -1.0)
  {
    assert y.re * y.im == 0.0;
    ZeroFactor(y.re, y.im);
    assert (y.im + 1.0) * (y.im - 1.0) == 0.0;
    ZeroFactor(y.im + 1.0, y.im - 1.0);
  }

  /** Bounds of the cosines, computed from the quarter turn down. */
  function CosineLow(k: nat): real {
    if k == 0 then 0.99998117528260 else if k == 1 then 0.99992470183914 else if k == 2 then 0.99969881869620
    else if k == 3 then 0.99879545620517 else if k == 4 then 0.99518472667219 else if k == 5 then 0.98078528040322
    else if k == 6 then 0.92387953251128 else if k == 7 then 0.70710678118654 else 0.0
  }

  function CosineHigh(k: nat): real {
    if k == 0 then 0.99998117528261 else if k == 1 then 0.99992470183915 else if k == 2 then 0.99969881869621
    else if k == 3 then 0.99879545620518 else if k == 4 then 0.99518472667220 else if k == 5 then 0.98078528040324
    else if k == 6 then 0.92387953251129 else if k == 7 then 0.70710678118655 else 0.0
  }

  lemma CosineBounds(k: nat)
    requires k < 8
    ensures CosineLow(k) > 0.0 && CosineHigh(k) > 0.0
    ensures 2.0 * (CosineLow(k) * CosineLow(k)) - 1.0 <= CosineLow(k + 1)
    ensures CosineHigh(k + 1) <= 2.0 * (CosineHigh(k) * CosineHigh(k)) - 1.0
  {
  }

  lemma CosineAbovePositive(k: nat)
    ensures CosineAbove(k) > 0.0
  {
  }

  lemma {:induction false} CosineBetween(w: C, k: nat)
    requires Clockwise(w) && k <= 8
    ensures CosineLow(k) <= Power(w, k).re <= CosineHigh(k)
    decreases 8 - k
  {
    if k == 8 {
      QuarterPower(w);
    } else {
      CosineBetween(w, k + 1);
      PowersTurn(w, k);
      CosineAbovePositive(k);
      var (y, x) := (Power(w, k).re, Power(w, k + 1).re);
      CosineDoubles(w, k, y, x);
      BetweenStep(y, x, k);
    }
  }

  lemma BetweenStep(y: real, x: real, k: nat)
    requires k < 8 && DoubleCosine(y, x) && y > 0.0 && CosineLow(k + 1) <= x <= CosineHigh(k + 1)
    ensures CosineLow(k) <= y <= CosineHigh(k)
  {
    CosineBounds(k);
    HalvedAngle(y, x, CosineLow(k + 1), CosineHigh(k + 1), CosineLow(k), CosineHigh(k));
  }

  /** The sine from the cosine. */
  lemma SineBetween(w: C)
    requires Norm(w) == 1.0 && w.im < 0.0 && 0.99998117528260 <= w.re <= 0.99998117528261
    ensures 0.0061358846 <= -w.im <= 0.0061358847
  {
    SquareMonotone(0.99998117528260, w.re);
    SquareMonotone(w.re, 0.99998117528261);
    var s := -w.im;
    assert s * s == w.im * w.im;
    SquareOrder(0.0061358846, s);
    SquareOrder(s, 0.0061358847);
  }

  /** Such a root is within 10^-9 of the first power in the table. */
  lemma RootNearFirst(w: C)
    requires Clockwise(w)
    ensures NearFirst(w)
  {
    PowersOnCircle(w, 0);
    PowerZero(w);
    CosineBetween(w, 0);
    SineBetween(w);
    FirstFine();
    SmallParts(Sub(w, Fine(1)), 0.0000000005, 0.000000001);
  }

  lemma FirstFine()
    ensures Fine(1) == Cx(0.999981175282, -0.006135884649)
  {
    var f := Fine(1);
    assert f.re == 0.999981175282 && f.im == -0.006135884649;
  }

  /** The first power of the table itself is such a number: there is one that the table is near to. */
  lemma SomeNumberNear()
    ensures NearFirst(Fine(1)) && NearTable(Fine(1)) && NearInverseTable(Conj(Fine(1)))
  {
    FirstFine();
    var f := Fine(1);
    assert f.re * f.re + f.im * f.im <= 1.0;
    TableNear(f);
    InverseTableNear(f);
  }

  lemma ConjRoot(w: C)
    requires CounterClockwise(w)
    ensures Clockwise(Conj(w)) && Conj(Conj(w)) == w
  {
    PowConj(w, Pow2(LOG2_N_WAVE - 1));
  }

  // ----- the transforms

  /**
   fix_fft, forward, against the DFT with the clockwise root: within 4.25 log2(n) units of DFT/n for inputs of absolute
   value at most 32767 - 3.25 log2(n).
   */
  lemma ForwardAccurate(x: seq<Cx<Short>>, b: nat, logN: nat, w: C, q: nat)
    requires |x| == Pow2(b) && b <= logN == LOG2_N_WAVE && q < |x| && Bounded(x, InputLimit(b)) && Clockwise(w)
    ensures var f := FixRun(Reordered(x, b), b, 0, false, 0).0;
      |f| == |x| &&
      Within(Sub(ToC(f[q]), Scale(Shrink(b), FftExact.Dft(Complexes(), Exactly(x), b, logN, w, q))), 4.25 * b as real)
  {
    RootNearFirst(w);
    TableNear(w);
    FixFftAccurate(x, b, logN, w, q);
  }

  /** fix_fft, inverse, on every run that wraps nothing, against the DFT with the counter-clockwise root. */
  lemma InverseAccurateForRoot(x: seq<Cx<Short>>, b: nat, logN: nat, w: C, q: nat)
    requires |x| == Pow2(b) && b <= logN == LOG2_N_WAVE && q < |x| && NeverWraps(Reordered(x, b), b) && CounterClockwise(w)
    ensures var r := FixRun(Reordered(x, b), b, 0, true, 0); Accurate(r.0, r.1, x, b, logN, w, q, 5.1)
  {
    ConjRoot(w);
    RootNearFirst(Conj(w));
    InverseTableNear(Conj(w));
    InverseAccurate(x, b, logN, w, q);
  }
}
