/** Complex numbers over the reals: a commutative ring, with bounds on absolute values. */
module Complex {
  import opened FftSchedule
  import opened Rings

  type C = Cx<real>

  function Add(a: C, b: C): C {
    Cx(a.re + b.re, a.im + b.im)
  }

  function Sub(a: C, b: C): C {
    Cx(a.re - b.re, a.im - b.im)
  }

  function Mul(a: C, b: C): C {
    Cx(a.re * b.re - a.im * b.im, a.re * b.im + a.im * b.re)
  }

  function Neg(a: C): C {
    Cx(-a.re, -a.im)
  }

  function Scale(k: real, a: C): C {
    Cx(k * a.re, k * a.im)
  }

  function Complexes(): Ring<C> {
    Ring(Cx(0.0, 0.0), Cx(1.0, 0.0), Add, Neg, Mul)
  }

  // ----- ring laws

  lemma MulAssoc(a: C, b: C, c: C)
    ensures Mul(a, Mul(b, c)) == Mul(Mul(a, b), c)
  {
    var (ar, ai, br, bi, cr, ci) := (a.re, a.im, b.re, b.im, c.re, c.im);
    assert ar * (br * cr - bi * ci) == ar * br * cr - ar * bi * ci;
    assert ai * (br * ci + bi * cr) == ai * br * ci + ai * bi * cr;
    assert (ar * br - ai * bi) * cr == ar * br * cr - ai * bi * cr;
    assert (ar * bi + ai * br) * ci == ar * bi * ci + ai * br * ci;
    assert ar * (br * ci + bi * cr) == ar * br * ci + ar * bi * cr;
    assert ai * (br * cr - bi * ci) == ai * br * cr - ai * bi * ci;
    assert (ar * br - ai * bi) * ci == ar * br * ci - ai * bi * ci;
    assert (ar * bi + ai * br) * cr == ar * bi * cr + ai * br * cr;
    assert Mul(a, Mul(b, c)).re == Mul(Mul(a, b), c).re;
    assert Mul(a, Mul(b, c)).im == Mul(Mul(a, b), c).im;
  }

  lemma MulDistributes(a: C, b: C, c: C)
    ensures Mul(a, Add(b, c)) == Add(Mul(a, b), Mul(a, c))
  {
    assert a.re * (b.re + c.re) == a.re * b.re + a.re * c.re;
    assert a.im * (b.im + c.im) == a.im * b.im + a.im * c.im;
    assert a.re * (b.im + c.im) == a.re * b.im + a.re * c.im;
    assert a.im * (b.re + c.re) == a.im * b.re + a.im * c.re;
    assert Mul(a, Add(b, c)).re == Add(Mul(a, b), Mul(a, c)).re;
    assert Mul(a, Add(b, c)).im == Add(Mul(a, b), Mul(a, c)).im;
  }

  lemma MulComm(a: C, b: C)
    ensures Mul(a, b) == Mul(b, a)
  {
    assert Mul(a, b).re == Mul(b, a).re && Mul(a, b).im == Mul(b, a).im;
  }

  lemma MulOne(a: C)
    ensures Mul(a, Cx(1.0, 0.0)) == a
  {
    assert a.re * 1.0 == a.re && a.im * 1.0 == a.im && a.re * 0.0 == 0.0 && a.im * 0.0 == 0.0;
  }

  /** The complex numbers are one of the rings in which the transform is exact. */
  lemma ComplexesLawful()
    ensures Lawful(Complexes())
  {
    forall a: C, b: C, c: C
      ensures LawsAt(Complexes(), a, b, c)
    {
      MulAssoc(a, b, c);
      MulDistributes(a, b, c);
      MulComm(a, b);
      MulOne(a);
    }
  }

  // ----- absolute values

  /** |a| <= r. */
  predicate Within(a: C, r: real) {
    r >= 0.0 && a.re * a.re + a.im * a.im <= r * r
  }

  lemma SquareOrder(x: real, y: real)
    requires y >= 0.0 && x * x <= y * y
    ensures x <= y
  {
    assert (x - y) * (x + y) == x * x - y * y;
    PositiveProduct(x - y, x + y);
  }

  lemma PositiveProduct(a: real, b: real)
    ensures a > 0.0 && b > 0.0 ==> a * b > 0.0
  {
  }

  lemma SquareMonotone(x: real, y: real)
    requires 0.0 <= x <= y
    ensures x * x <= y * y
  {
  }

  lemma MulMonotone(a: real, b: real, c: real, d: real)
    requires 0.0 <= a <= b && 0.0 <= c <= d
    ensures a * c <= b * d
  {
  }

  lemma Weaken(a: C, r: real, s: real)
    requires Within(a, r) && r <= s
    ensures Within(a, s)
  {
    SquareMonotone(r, s);
  }

  lemma NegWithin(a: C, r: real)
    requires Within(a, r)
    ensures Within(Neg(a), r)
  {
    assert (-a.re) * (-a.re) == a.re * a.re && (-a.im) * (-a.im) == a.im * a.im;
  }

  lemma ScaleWithin(k: real, a: C, r: real)
    requires Within(a, r) && k >= 0.0
    ensures Within(Scale(k, a), k * r)
  {
    var n := a.re * a.re + a.im * a.im;
    assert (k * a.re) * (k * a.re) == (k * k) * (a.re * a.re);
    assert (k * a.im) * (k * a.im) == (k * k) * (a.im * a.im);
    assert (k * k) * (a.re * a.re) + (k * k) * (a.im * a.im) == (k * k) * n;
    assert (k * r) * (k * r) == (k * k) * (r * r);
    MulMonotone(k * k, k * k, n, r * r);
  }

  /** |ab|^2 = |a|^2 |b|^2. */
  lemma MulNorm(a: C, b: C)
    ensures Mul(a, b).re * Mul(a, b).re + Mul(a, b).im * Mul(a, b).im ==
            (a.re * a.re + a.im * a.im) * (b.re * b.re + b.im * b.im)
  {
    var (p, q, u, v) := (a.re * b.re, a.im * b.im, a.re * b.im, a.im * b.re);
    assert (p - q) * (p - q) == p * p - 2.0 * (p * q) + q * q;
    assert (u + v) * (u + v) == u * u + 2.0 * (u * v) + v * v;
    assert p * q == u * v;
    assert p * p == (a.re * a.re) * (b.re * b.re) && q * q == (a.im * a.im) * (b.im * b.im);
    assert u * u == (a.re * a.re) * (b.im * b.im) && v * v == (a.im * a.im) * (b.re * b.re);
  }

  lemma MulWithin(a: C, b: C, r: real, s: real)
    requires Within(a, r) && Within(b, s)
    ensures Within(Mul(a, b), r * s)
  {
    MulNorm(a, b);
    MulMonotone(a.re * a.re + a.im * a.im, r * r, b.re * b.re + b.im * b.im, s * s);
    assert (r * s) * (r * s) == (r * r) * (s * s);
  }

  /** a.b <= |a||b|. */
  lemma DotBound(a: C, b: C, r: real, s: real)
    requires Within(a, r) && Within(b, s)
    ensures a.re * b.re + a.im * b.im <= r * s
  {
    var (d, x) := (a.re * b.re + a.im * b.im, a.re * b.im - a.im * b.re);
    var b' := Cx(b.re, -b.im);
    MulNorm(a, b');
    assert Mul(a, b').re == d && Mul(a, b').im * Mul(a, b').im == x * x;
    assert b'.im * b'.im == b.im * b.im;
    MulMonotone(a.re * a.re + a.im * a.im, r * r, b.re * b.re + b.im * b.im, s * s);
    assert (r * s) * (r * s) == (r * r) * (s * s);
    SquareOrder(d, r * s);
  }

  lemma AddWithin(a: C, b: C, r: real, s: real)
    requires Within(a, r) && Within(b, s)
    ensures Within(Add(a, b), r + s)
  {
    DotBound(a, b, r, s);
    assert (a.re + b.re) * (a.re + b.re) == a.re * a.re + 2.0 * (a.re * b.re) + b.re * b.re;
    assert (a.im + b.im) * (a.im + b.im) == a.im * a.im + 2.0 * (a.im * b.im) + b.im * b.im;
    assert (r + s) * (r + s) == r * r + 2.0 * (r * s) + s * s;
  }

  lemma PartsWithin(a: C, r: real)
    requires Within(a, r)
    ensures -r <= a.re <= r && -r <= a.im <= r
  {
    SquareOrder(a.re, r);
    SquareOrder(-a.re, r);
    SquareOrder(a.im, r);
    SquareOrder(-a.im, r);
  }
}
