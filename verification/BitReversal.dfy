/**
 Bit reversal as used by the decimation-in-time reorder of ExtLibs/FFT/fft.c: a reference
 definition, and the "reversed increment" by which the C loop steps through it.
 */
module BitReversal {

  function Pow2(b: nat): (p: nat)
    ensures p >= 1
  {
    if b == 0 then 1 else 2 * Pow2(b - 1)
  }

  lemma {:induction false} Pow2Monotone(a: nat, b: nat)
    requires a <= b
    ensures Pow2(a) <= Pow2(b)
  {
    if a < b {
      Pow2Monotone(a, b - 1);
    }
  }

  lemma {:induction false} Pow2Add(a: nat, b: nat)
    ensures Pow2(a + b) == Pow2(a) * Pow2(b)
  {
    if a > 0 {
      Pow2Add(a - 1, b);
    }
  }

  /** q << j. */
  function Shl(q: nat, j: nat): nat {
    if j == 0 then q else 2 * Shl(q, j - 1)
  }

  lemma {:induction false} ShlZero(j: nat)
    ensures Shl(0, j) == 0
  {
    if j > 0 {
      ShlZero(j - 1);
    }
  }

  lemma {:induction false} ShlAdd(q: nat, p: nat, j: nat)
    ensures Shl(q + Pow2(p), j) == Shl(q, j) + Pow2(p + j)
  {
    if j > 0 {
      ShlAdd(q, p, j - 1);
    }
  }

  lemma {:induction false} ShlEven(t: nat, i: nat, j: nat)
    requires j == i + 1
    ensures Shl(2 * t, i) == Shl(t, j)
  {
    if i > 0 {
      ShlEven(t, i - 1, i);
    }
  }

  lemma {:induction false} ShlOdd(t: nat, i: nat, j: nat)
    requires j == i + 1
    ensures Shl(2 * t + 1, i) == Shl(t, j) + Pow2(i)
  {
    if i > 0 {
      ShlOdd(t, i - 1, i);
    }
  }

  lemma {:induction false} ShlBound(t: nat, p: nat, j: nat)
    requires t < Pow2(p)
    ensures Shl(t, j) + Pow2(j) <= Pow2(p + j)
  {
    if j > 0 {
      ShlBound(t, p, j - 1);
    }
  }

  /** The `b` low bits of `x`, read backwards. */
  function Rev(b: nat, x: nat): (r: nat)
    ensures r < Pow2(b)
  {
    if b == 0 then 0 else (if x % 2 == 1 then Pow2(b - 1) else 0) + Rev(b - 1, x / 2)
  }

  /** Rev peeled at its other end: a clear top bit of the argument comes out lowest. */
  lemma {:induction false} RevTopClear(b: nat, y: nat)
    requires b > 0 && y < Pow2(b - 1)
    ensures Rev(b, y) == 2 * Rev(b - 1, y)
  {
    if b > 1 {
      RevTopClear(b - 1, y / 2);
    }
  }

  lemma {:induction false} RevTopSet(b: nat, y: nat)
    requires b > 0 && y < Pow2(b - 1)
    ensures Rev(b, Pow2(b - 1) + y) == 2 * Rev(b - 1, y) + 1
  {
    if b > 1 {
      var x := Pow2(b - 1) + y;
      assert x % 2 == y % 2 && x / 2 == Pow2(b - 2) + y / 2;
      RevTopSet(b - 1, y / 2);
    }
  }

  /** Quotient and remainder are determined by x == d*q + y with 0 <= y < d. */
  lemma DivModUnique(x: int, d: int, q: int, y: int)
    requires d > 0 && 0 <= y < d && x == d * q + y
    ensures x / d == q && x % d == y
  {
    var k := x / d - q;
    assert d * k == y - x % d by {
      assert x == d * (x / d) + x % d;
    }
    MulBound(d, k);
  }

  lemma MulBound(d: int, k: int)
    requires d > 0
    ensures k >= 1 ==> d * k >= d
    ensures k <= -1 ==> d * k <= -d
  {
  }

  lemma {:induction false} RevInvolution(b: nat, x: nat)
    requires x < Pow2(b)
    ensures Rev(b, Rev(b, x)) == x
  {
    if b > 0 {
      RevInvolution(b - 1, x / 2);
      RevTopClear(b, Rev(b - 1, x / 2));
      RevTopSet(b, Rev(b - 1, x / 2));
    }
  }

  /** Where the do/while of fft.c:183-186 stops: the first of l, l/2, l/4, ... that fits into gap. */
  function FirstFit(gap: nat, l: nat): (f: nat)
    requires l >= 1
    ensures f >= 1
  {
    if l > gap && l > 1 then FirstFit(gap, l / 2) else l
  }

  /** fft.c:183-187: the next value of mr; mr + l > n - 1 says that l exceeds the gap n - 1 - mr. */
  function ReversedIncrement(n: nat, mr: nat): nat
    requires mr + 1 < n
  {
    var l := FirstFit(n - 1 - mr, n / 2);
    mr % l + l
  }

  lemma IncrementClearTop(h: nat, r: nat)
    requires r < h
    ensures ReversedIncrement(2 * h, r) == h + r
  {
    DivModUnique(r, h, 0, r);
  }

  /** A set top bit h carries: the increment happens below it. */
  lemma IncrementSetTop(h: nat, r: nat, k: nat)
    requires h == 2 * Pow2(k) && r + 1 < h
    ensures ReversedIncrement(2 * h, h + r) == ReversedIncrement(h, r)
  {
    var l := FirstFit(h - 1 - r, Pow2(k));
    assert FirstFit(h - 1 - r, h) == l;
    FirstFitDivides(h - 1 - r, k);
    ModOfMultiple(Pow2(k), Pow2(k) + r, l);
    ModOfMultiple(Pow2(k), r, l);
  }

  lemma RevEven(b: nat, y: nat)
    requires b > 0
    ensures Rev(b, 2 * y) == Rev(b - 1, y)
  {
    assert (2 * y) / 2 == y && (2 * y) % 2 == 0;
  }

  lemma RevOdd(b: nat, y: nat)
    requires b > 0
    ensures Rev(b, 2 * y + 1) == Pow2(b - 1) + Rev(b - 1, y)
  {
    assert (2 * y + 1) / 2 == y && (2 * y + 1) % 2 == 1;
  }

  /** The reversed increment really counts in bit-reversed order. */
  lemma {:induction false} ReversedIncrementIsRev(b: nat, x: nat)
    requires x + 1 < Pow2(b)
    ensures Rev(b, x) + 1 < Pow2(b) && ReversedIncrement(Pow2(b), Rev(b, x)) == Rev(b, x + 1)
  {
    var y := x / 2;
    RevOdd(b, y);
    if x == 2 * y {
      IncrementOfEven(b, y);
    } else {
      ReversedIncrementIsRev(b - 1, y);
      IncrementOfOdd(b, y);
    }
  }

  lemma IncrementOfEven(b: nat, y: nat)
    requires 2 * y + 1 < Pow2(b)
    ensures Rev(b, 2 * y) + 1 < Pow2(b) && ReversedIncrement(Pow2(b), Rev(b, 2 * y)) == Rev(b, 2 * y + 1)
  {
    RevOdd(b, y);
    RevEven(b, y);
    IncrementClearTop(Pow2(b - 1), Rev(b - 1, y));
  }

  lemma IncrementOfOdd(b: nat, y: nat)
    requires 2 * y + 2 < Pow2(b) && Rev(b - 1, y) + 1 < Pow2(b - 1)
    requires ReversedIncrement(Pow2(b - 1), Rev(b - 1, y)) == Rev(b - 1, y + 1)
    ensures Rev(b, 2 * y + 1) + 1 < Pow2(b) && ReversedIncrement(Pow2(b), Rev(b, 2 * y + 1)) == Rev(b, 2 * y + 2)
  {
    RevOdd(b, y);
    RevEven(b, y + 1);
    IncrementSetTop(Pow2(b - 1), Rev(b - 1, y), b - 2);
  }

  lemma {:induction false} FirstFitDivides(gap: nat, k: nat)
    ensures Pow2(k) % FirstFit(gap, Pow2(k)) == 0
  {
    var l := Pow2(k);
    if l > gap && l > 1 {
      FirstFitDivides(gap, k - 1);
      ModOfMultiple(l / 2, l / 2, FirstFit(gap, l / 2));
    } else {
      DivModUnique(l, l, 1, 0);
    }
  }

  lemma ModOfMultiple(h: nat, x: nat, l: nat)
    requires l > 0 && h % l == 0
    ensures (h + x) % l == x % l
  {
    DivModUnique(h + x, l, h / l + x / l, x % l);
  }

  lemma {:induction false} Pow2Divides(a: nat, b: nat)
    requires a <= b
    ensures Pow2(b) % Pow2(a) == 0
  {
    Pow2Add(a, b - a);
    DivModUnique(Pow2(b), Pow2(a), Pow2(b - a), 0);
  }

  lemma DivNat(y: nat, d: nat)
    requires d > 0
    ensures y / d >= 0
  {
    MulBound(d, y / d);
  }

  lemma NatMul(a: nat, b: nat)
    ensures a * b >= 0
  {
  }

  lemma DivLess(y: nat, l: nat, k: nat)
    requires l > 0 && y < l * k
    ensures y / l < k
  {
    var d := y / l - k;
    assert l * d == l * (y / l) - l * k;
    MulBound(l, d);
  }
}
