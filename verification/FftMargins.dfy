/**
 Inputs for which the inverse transform of ExtLibs/FFT/fft.c wraps nothing: their absolute values add up to little
 enough. A few large coefficients, which the variable scaling of lines 12-19 is there for, are among them.
 */
module FftMargins {
  import opened BitReversal
  import opened FftSchedule
  import opened FftFixed
  import opened Complex
  import opened FftBounds
  import opened FftAccuracy
  import opened FftInverse
  import opened Sinewave
  import FftExact

  // ----- sums

  ghost function Total(v: seq<real>): real {
    if v == [] then 0.0 else v[0] + Total(v[1..])
  }

  /** Neighbours added up. */
  ghost function Paired(v: seq<real>): (r: seq<real>)
    requires |v| % 2 == 0
    ensures |r| == |v| / 2 && forall i :: 0 <= i < |r| ==> r[i] == v[2 * i] + v[2 * i + 1]
  {
    seq(|v| / 2, i requires 0 <= i < |v| / 2 => v[2 * i] + v[2 * i + 1])
  }

  lemma {:induction false} TotalPaired(v: seq<real>)
    requires |v| % 2 == 0
    ensures Total(Paired(v)) == Total(v)
  {
    if v != [] {
      var w := v[2..];
      TotalPaired(w);
      assert Paired(v)[1..] == Paired(w);
      assert v[1..][1..] == w;
    }
  }

  lemma {:induction false} TotalAppend(u: seq<real>, v: seq<real>)
    ensures Total(u + v) == Total(u) + Total(v)
  {
    if u == [] {
      assert u + v == v;
    } else {
      TotalAppend(u[1..], v);
      assert (u + v)[1..] == u[1..] + v;
    }
  }

  ghost function Added(u: seq<real>, v: seq<real>): (r: seq<real>)
    requires |u| == |v|
    ensures |r| == |u| && forall i :: 0 <= i < |r| ==> r[i] == u[i] + v[i]
  {
    seq(|u|, i requires 0 <= i < |u| => u[i] + v[i])
  }

  lemma {:induction false} TotalAdded(u: seq<real>, v: seq<real>)
    requires |u| == |v|
    ensures Total(Added(u, v)) == Total(u) + Total(v)
  {
    if u != [] {
      TotalAdded(u[1..], v[1..]);
      assert Added(u, v)[1..] == Added(u[1..], v[1..]);
    }
  }

  predicate NonNegative(v: seq<real>) {
    forall i :: 0 <= i < |v| ==> v[i] >= 0.0
  }

  lemma {:induction false} PartOfTotal(v: seq<real>, i: nat)
    requires NonNegative(v) && i < |v|
    ensures 0.0 <= v[i] <= Total(v)
  {
    TotalNonNegative(v[1..]);
    if i > 0 {
      PartOfTotal(v[1..], i - 1);
    }
  }

  lemma {:induction false} TotalNonNegative(v: seq<real>)
    requires NonNegative(v)
    ensures Total(v) >= 0.0
  {
    if v != [] {
      TotalNonNegative(v[1..]);
    }
  }

  /** Entries 2k and 2k + 1 of the reordered sequence are entry Rev(k) of its lower and of its upper half. */
  lemma ReorderedPairs(v: seq<real>, b: nat, h: nat)
    requires b > 0 && h == Pow2(b - 1) && |v| == Pow2(b)
    ensures |v| == 2 * h && Paired(Reordered(v, b)) == Reordered(Added(v[..h], v[h..]), b - 1)
  {
    var (y, sum) := (Reordered(v, b), Added(v[..h], v[h..]));
    var (p, r) := (Paired(y), Reordered(sum, b - 1));
    forall k | 0 <= k < h
      ensures p[k] == r[k]
    {
      PairsAt(v, b, b - 1, h, y, sum, p, r, k);
    }
  }

  lemma PairsAt(v: seq<real>, b: nat, c: nat, h: nat, y: seq<real>, sum: seq<real>, p: seq<real>, r: seq<real>, k: nat)
    requires b == c + 1 && h == Pow2(c) && |v| == Pow2(b) == 2 * h && k < h && y == Reordered(v, b) && p == Paired(y)
    requires sum == Added(v[..h], v[h..]) && r == Reordered(sum, c)
    ensures p[k] == r[k]
  {
    PairSource(v, b, c, h, k, 2 * k);
    PairEntry(v, h, y, p, sum, k, Rev(c, k));
  }

  lemma PairEntry(v: seq<real>, h: nat, y: seq<real>, p: seq<real>, sum: seq<real>, k: nat, i: nat)
    requires |v| == |y| == 2 * h && k < h && i < h && p == Paired(y) && sum == Added(v[..h], v[h..])
    requires y[2 * k] == v[i] && y[2 * k + 1] == v[h + i]
    ensures p[k] == sum[i]
  {
  }

  lemma PairSource(v: seq<real>, b: nat, c: nat, h: nat, k: nat, k2: nat)
    requires b == c + 1 && h == Pow2(c) && |v| == Pow2(b) == 2 * h && k < h && k2 == 2 * k
    ensures Rev(c, k) < h
    ensures Reordered(v, b)[k2] == v[Rev(c, k)] && Reordered(v, b)[k2 + 1] == v[h + Rev(c, k)]
  {
    RevEven(b, k);
    RevOdd(b, k);
  }

  lemma {:induction false} TotalReordered(v: seq<real>, b: nat)
    requires |v| == Pow2(b)
    ensures Total(Reordered(v, b)) == Total(v)
    decreases b
  {
    if b == 0 {
      assert Rev(0, 0) == 0;
      assert Reordered(v, b) == v;
    } else {
      var sum := HalvesAdded(v, b);
      TotalReordered(sum, b - 1);
    }
  }

  lemma TotalHalves(v: seq<real>, h: nat)
    requires |v| == 2 * h
    ensures Total(Added(v[..h], v[h..])) == Total(v)
  {
    TotalAdded(v[..h], v[h..]);
    TotalAppend(v[..h], v[h..]);
    assert v[..h] + v[h..] == v;
  }

  lemma HalvesAdded(v: seq<real>, b: nat) returns (sum: seq<real>)
    requires |v| == Pow2(b) && b > 0
    ensures |sum| == Pow2(b - 1) && Total(sum) == Total(v) && Total(Reordered(v, b)) == Total(Reordered(sum, b - 1))
  {
    var h := Pow2(b - 1);
    sum := Added(v[..h], v[h..]);
    ReorderedPairs(v, b, h);
    TotalPaired(Reordered(v, b));
    TotalHalves(v, h);
  }

  // ----- one butterfly and one pass

  lemma Larger(z: Cx<Short>, a: real, c: real)
    requires Within(ToC(z), a)
    ensures Within(ToC(z), if a < c then c else a)
  {
    if a < c {
      Weaken(ToC(z), a, c);
    }
  }

  /** Whether it shifts or not, a butterfly adds up the absolute values and at most GROWTH. */
  lemma StepAdds(j: nat, shift: bool, q: Cx<Short>, z: Cx<Short>, rq: real, rz: real, r': real)
    requires j < 512 && Within(ToC(q), rq) && Within(ToC(z), rz) && r' == rq + rz + GROWTH <= 32767.0
    ensures var w := Twiddle(j, true, shift);
      StepWrapFree(shift, w, q, z) &&
      Within(ToC(FixStep(w, shift, q, z).0), r') && Within(ToC(FixStep(w, shift, q, z).1), r')
  {
    var w := Twiddle(j, true, shift);
    if shift {
      var r := if rq < rz then rz else rq;
      Larger(q, rq, rz);
      Larger(z, rz, rq);
      TwiddleBound(j, true);
      StepBound(w, q, z, r);
      Weaken(ToC(FixStep(w, true, q, z).0), r + GROWTH, r');
      Weaken(ToC(FixStep(w, true, q, z).1), r + GROWTH, r');
    } else {
      FullTwiddleBound(j, w);
      PlainStepBound(w, q, z, rq, rz, rq + (rz + 1.5));
      Weaken(ToC(FixStep(w, false, q, z).0), rq + (rz + 1.5), r');
      Weaken(ToC(FixStep(w, false, q, z).1), rq + (rz + 1.5), r');
    }
  }

  /** Every entry of block k of l entries is within v[k] - GROWTH. */
  ghost predicate RoomAt(s: seq<Cx<Short>>, l: nat, v: seq<real>, i: nat)
    requires l > 0 && i < |s|
  {
    i / l < |v| && Within(ToC(s[i]), v[i / l] - GROWTH)
  }

  ghost predicate Roomy(s: seq<Cx<Short>>, l: nat, v: seq<real>)
    requires l > 0
  {
    forall i {:trigger RoomAt(s, l, v, i)} :: 0 <= i < |s| ==> RoomAt(s, l, v, i)
  }

  lemma RoomIn(s: seq<Cx<Short>>, l: nat, v: seq<real>, i: nat, k: nat)
    requires l > 0 && Roomy(s, l, v) && i < |s| && i / l == k
    ensures k < |v| && Within(ToC(s[i]), v[k] - GROWTH)
  {
    assert RoomAt(s, l, v, i);
  }

  lemma RoomFrom(s: seq<Cx<Short>>, l: nat, v: seq<real>, i: nat, k: nat)
    requires l > 0 && i < |s| && i / l == k < |v| && Within(ToC(s[i]), v[k] - GROWTH)
    ensures RoomAt(s, l, v, i)
  {
  }

  lemma PairedNonNegative(v: seq<real>)
    requires |v| % 2 == 0 && NonNegative(v)
    ensures NonNegative(Paired(v))
  {
    forall i | 0 <= i < |v| / 2
      ensures Paired(v)[i] >= 0.0
    {
      assert v[2 * i] >= 0.0 && v[2 * i + 1] >= 0.0;
    }
  }

  lemma SumFits(v: seq<real>, k: nat, limit: real)
    requires |v| % 2 == 0 && 2 * k + 1 < |v| && NonNegative(v) && Total(v) <= limit
    ensures v[2 * k] + v[2 * k + 1] <= limit
  {
    TotalPaired(v);
    PairedNonNegative(v);
    PartOfTotal(Paired(v), k);
  }

  lemma BlockStep(j: nat, shift: bool, q: Cx<Short>, z: Cx<Short>, v: seq<real>, k: nat, r': real)
    requires j < 512 && |v| % 2 == 0 && 2 * k + 1 < |v| && NonNegative(v) && Total(v) <= 32767.0 + GROWTH
    requires Within(ToC(q), v[2 * k] - GROWTH) && Within(ToC(z), v[2 * k + 1] - GROWTH) && r' == Paired(v)[k] - GROWTH
    ensures var w := Twiddle(j, true, shift);
      StepWrapFree(shift, w, q, z) &&
      Within(ToC(FixStep(w, shift, q, z).0), r') && Within(ToC(FixStep(w, shift, q, z).1), r')
  {
    SumFits(v, k, 32767.0 + GROWTH);
    StepAdds(j, shift, q, z, v[2 * k] - GROWTH, v[2 * k + 1] - GROWTH, r');
  }

  /** The butterfly of index x on data with room. */
  lemma PassAtStep(s: seq<Cx<Short>>, p: nat, l: nat, k: nat, shift: bool, x: nat, v: seq<real>, w: Cx<Short>, u: nat, m: nat,
                   block: nat, r': real)
    requires p < LOG2_N_WAVE && l == Pow2(p) && k == LOG2_N_WAVE - 1 - p && m < l && w == Twiddle(Shl(m, k), true, shift)
    requires |v| % 2 == 0 && NonNegative(v) && Roomy(s, l, v) && Total(v) <= 32767.0 + GROWTH
    requires u + l < |s| && u / l == 2 * block && (u + l) / l == 2 * block + 1 && 2 * block + 1 < |v|
    requires r' == Paired(v)[block] - GROWTH
    ensures StepWrapFree(shift, w, s[u], s[u + l]) == true
    ensures Within(ToC(FixStep(w, shift, s[u], s[u + l]).0), r') && Within(ToC(FixStep(w, shift, s[u], s[u + l]).1), r')
  {
    TwiddleInRange(p, m);
    RoomIn(s, l, v, u, 2 * block);
    RoomIn(s, l, v, u + l, 2 * block + 1);
    BlockStep(Shl(m, k), shift, s[u], s[u + l], v, block, r');
  }

  lemma PassAtRoomy(s: seq<Cx<Short>>, s': seq<Cx<Short>>, p: nat, l: nat, k: nat, shift: bool, x: nat, v: seq<real>)
    requires p < LOG2_N_WAVE && l == Pow2(p) && k == LOG2_N_WAVE - 1 - p && |s| % (2 * l) == 0 && x < |s|
    requires |v| % 2 == 0 && NonNegative(v) && Roomy(s, l, v) && Total(v) <= 32767.0 + GROWTH
    requires s' == Pass(s, l, FixButterfly(k, true, shift))
    ensures SparesAt(s, l, k, shift, x) == true && RoomAt(s', 2 * l, Paired(v), x) == true
  {
    var u, block, m := Position(x, l);
    var w := Twiddle(Shl(m, k), true, shift);
    EntryOf(s, s', l, k, shift, x, u, m, w);
    SparesAtIs(s, l, k, shift, x, u, m, w);
    RoomIn(s, l, v, u + l, 2 * block + 1);
    PassAtStep(s, p, l, k, shift, x, v, w, u, m, block, Paired(v)[block] - GROWTH);
    RoomFrom(s', 2 * l, Paired(v), x, block);
  }

  lemma PassRoomy(s: seq<Cx<Short>>, b: nat, p: nat, l: nat, v: seq<real>)
    requires |s| == Pow2(b) && p < b <= LOG2_N_WAVE && l == Pow2(p)
    requires |v| % 2 == 0 && NonNegative(v) && Roomy(s, l, v) && Total(v) <= 32767.0 + GROWTH
    ensures PassSpares(s, b, p) && Roomy(InversePass(s, b, p), 2 * l, Paired(v)) && NonNegative(Paired(v)) == true
  {
    Pow2Divides(p + 1, b);
    var (k, shift) := (LOG2_N_WAVE - 1 - p, AnyLarge(s));
    forall x | 0 <= x < |s|
      ensures SparesAt(s, l, k, shift, x) == true && RoomAt(InversePass(s, b, p), 2 * l, Paired(v), x) == true
    {
      PassAtRoomy(s, InversePass(s, b, p), p, l, k, shift, x, v);
    }
    PairedNonNegative(v);
  }

  lemma RoomyBounded(s: seq<Cx<Short>>, l: nat, v: seq<real>)
    requires l > 0 && NonNegative(v) && Roomy(s, l, v) && Total(v) <= 32767.0 + GROWTH
    ensures Bounded(s, 32768.0)
  {
    forall i | 0 <= i < |s|
      ensures Within(ToC(s[i]), 32768.0)
    {
      assert RoomAt(s, l, v, i);
      PartOfTotal(v, i / l);
      Weaken(ToC(s[i]), v[i / l] - GROWTH, 32768.0);
    }
  }

  // ----- the whole transform

  /** After p passes the block sums have been added up pairwise p times. */
  lemma {:induction false} StageRoomy(s: seq<Cx<Short>>, b: nat, p: nat, v0: seq<real>) returns (v: seq<real>)
    requires |s| == Pow2(b) && p <= b <= LOG2_N_WAVE && |v0| == Pow2(b)
    requires NonNegative(v0) && Roomy(s, 1, v0) && Total(v0) <= 32767.0 + GROWTH
    ensures |v| == Pow2(b - p) && Total(v) <= 32767.0 + GROWTH
    ensures NonNegative(v) == true && Roomy(InverseStage(s, b, p), Pow2(p), v) == true
  {
    if p == 0 {
      v := v0;
    } else {
      var q := p - 1;
      var u := StageRoomy(s, b, q, v0);
      var f := InverseStage(s, b, q);
      v := NextRoomy(f, b, q, p, u);
      StageStep(s, b, q, p, f);
    }
  }

  lemma NextRoomy(f: seq<Cx<Short>>, b: nat, q: nat, p: nat, u: seq<real>) returns (v: seq<real>)
    requires |f| == Pow2(b) && p == q + 1 <= b <= LOG2_N_WAVE && |u| == Pow2(b - q)
    requires NonNegative(u) && Roomy(f, Pow2(q), u) && Total(u) <= 32767.0 + GROWTH
    ensures |v| == Pow2(b - p) && Total(v) <= 32767.0 + GROWTH
    ensures NonNegative(v) == true && Roomy(InversePass(f, b, q), Pow2(p), v) == true
  {
    assert Pow2(b - q) == 2 * Pow2(b - p);
    PassRoomy(f, b, q, Pow2(q), u);
    TotalPaired(u);
    v := Paired(u);
  }

  lemma RoomySpares(s: seq<Cx<Short>>, b: nat, p: nat, v0: seq<real>)
    requires |s| == Pow2(b) && p < b <= LOG2_N_WAVE && |v0| == Pow2(b)
    requires NonNegative(v0) && Roomy(s, 1, v0) && Total(v0) <= 32767.0 + GROWTH
    ensures PassSpares(InverseStage(s, b, p), b, p) == true && Bounded(InverseStage(s, b, p), 32768.0) == true
  {
    var v := StageRoomy(s, b, p, v0);
    RoomOfStage(InverseStage(s, b, p), b, p, v);
  }

  lemma RoomOfStage(f: seq<Cx<Short>>, b: nat, p: nat, v: seq<real>)
    requires |f| == Pow2(b) && p < b <= LOG2_N_WAVE && |v| == Pow2(b - p)
    requires NonNegative(v) && Roomy(f, Pow2(p), v) && Total(v) <= 32767.0 + GROWTH
    ensures PassSpares(f, b, p) == true && Bounded(f, 32768.0) == true
  {
    assert Pow2(b - p) == 2 * Pow2(b - p - 1);
    PassRoomy(f, b, p, Pow2(p), v);
    RoomyBounded(f, Pow2(p), v);
  }

  /** r bounds the absolute values of the samples, and these with GROWTH for each add up to at most 32767 + GROWTH. */
  ghost predicate SumSmall(x: seq<Cx<Short>>, r: seq<real>) {
    && |r| == |x| && (forall i :: 0 <= i < |x| ==> Within(ToC(x[i]), r[i]))
    && Total(r) + GROWTH * |x| as real <= 32767.0 + GROWTH
  }

  lemma {:induction false} TotalRaised(r: seq<real>, v: seq<real>)
    requires |v| == |r| && forall i :: 0 <= i < |r| ==> v[i] == r[i] + GROWTH
    ensures Total(v) == Total(r) + GROWTH * |r| as real
  {
    if r != [] {
      TotalRaised(r[1..], v[1..]);
    }
  }

  lemma StartRoomy(x: seq<Cx<Short>>, b: nat, r: seq<real>) returns (v: seq<real>)
    requires |x| == Pow2(b) && SumSmall(x, r)
    ensures |v| == |x| && NonNegative(v) && Roomy(Reordered(x, b), 1, v) && Total(v) <= 32767.0 + GROWTH
  {
    var raised := seq(|r|, i requires 0 <= i < |r| => r[i] + GROWTH);
    TotalRaised(r, raised);
    TotalReordered(raised, b);
    v := Reordered(raised, b);
    forall i | 0 <= i < |x|
      ensures v[i] >= 0.0 && RoomAt(Reordered(x, b), 1, v, i)
    {
      assert Within(ToC(x[Rev(b, i)]), r[Rev(b, i)]);
    }
  }

  /** No pass of the inverse transform wraps anything when the absolute values add up to at most 32767 - 3.25 (n - 1). */
  lemma InverseNeverWraps(x: seq<Cx<Short>>, b: nat, r: seq<real>)
    requires |x| == Pow2(b) && b <= LOG2_N_WAVE && SumSmall(x, r)
    ensures NeverWraps(Reordered(x, b), b) && StaysWithin(Reordered(x, b), b, 32768.0)
  {
    var s := Reordered(x, b);
    var v := StartRoomy(x, b, r);
    forall p: nat | p < b
      ensures PassSpares(InverseStage(s, b, p), b, p) == true && Bounded(InverseStage(s, b, p), 32768.0) == true
    {
      RoomySpares(s, b, p, v);
    }
  }

  lemma {:induction false} TotalEqual(v: seq<real>, r: real)
    requires forall i :: 0 <= i < |v| ==> v[i] == r
    ensures Total(v) == r * |v| as real
  {
    if v != [] {
      TotalEqual(v[1..], r);
    }
  }

  lemma SameRadius(x: seq<Cx<Short>>, b: nat, r: real, v: seq<real>)
    requires |x| == Pow2(b) == |v| && Bounded(x, r) && (forall i :: 0 <= i < |v| ==> v[i] == r) && Total(v) == r * |v| as real
    requires (r + GROWTH) * Pow2(b) as real <= 32767.0 + GROWTH
    ensures SumSmall(x, v)
  {
    var n := |x| as real;
    assert (r + GROWTH) * n == r * n + GROWTH * n;
  }

  /** In particular with samples of absolute value at most r, where (r + 3.25) n <= 32770.25. */
  lemma UniformNeverWraps(x: seq<Cx<Short>>, b: nat, r: real)
    requires |x| == Pow2(b) && b <= LOG2_N_WAVE && Bounded(x, r)
    requires (r + GROWTH) * Pow2(b) as real <= 32767.0 + GROWTH
    ensures NeverWraps(Reordered(x, b), b)
  {
    var v := seq(|x|, i => r);
    TotalEqual(v, r);
    SameRadius(x, b, r, v);
    InverseNeverWraps(x, b, v);
  }

  /** Such a transform is accurate, with 4.25 in place of 5.1. */
  lemma SmallAccurate(x: seq<Cx<Short>>, b: nat, logN: nat, w: C, q: nat, r: seq<real>)
    requires |x| == Pow2(b) && b <= logN == LOG2_N_WAVE && q < |x| && SumSmall(x, r)
    requires FftExact.HalfTurn(Complexes(), w, logN) && NearInverseTable(w)
    ensures var f := FixRun(Reordered(x, b), b, 0, true, 0); Accurate(f.0, f.1, x, b, logN, w, q, 4.25)
  {
    InverseNeverWraps(x, b, r);
    var f, scale := RunAccurate(x, b, logN, w, q, 32768.0, 4.25);
  }
}
