/**
 The in-place data movement shared by every use of fix_fft (ExtLibs/FFT/fft.c): the bit-reversal
 reorder and one butterfly pass, over any number type R and any butterfly.
 */
module FftSchedule {
  import opened BitReversal

  datatype Cx<+R> = Cx(re: R, im: R)

  /** A butterfly: twiddle number m, upper and lower operand, to the new pair. */
  type Butterfly<!T> = (nat, T, T) -> (T, T)

  /** The two parallel arrays, as complex values. */
  ghost function View<R>(fr: array<R>, fi: array<R>): (s: seq<Cx<R>>)
    requires fr.Length == fi.Length
    reads fr, fi
    ensures |s| == fr.Length
    ensures forall i :: 0 <= i < |s| ==> s[i] == Cx(fr[i], fi[i])
  {
    seq(fr.Length, i requires 0 <= i < fr.Length reads fr, fi => Cx(fr[i], fi[i]))
  }

  function Reordered<T>(s: seq<T>, b: nat): (r: seq<T>)
    requires |s| == Pow2(b)
    ensures |r| == |s|
    ensures forall i :: 0 <= i < |s| ==> r[i] == s[Rev(b, i)]
  {
    seq(|s|, i requires 0 <= i < |s| => s[Rev(b, i)])
  }

  /** Reordering twice is the identity. */
  lemma ReorderedTwice<T>(s: seq<T>, b: nat)
    requires |s| == Pow2(b)
    ensures Reordered(Reordered(s, b), b) == s
  {
    forall i | 0 <= i < |s|
      ensures Reordered(Reordered(s, b), b)[i] == s[i]
    {
      RevInvolution(b, i);
    }
  }

  // ----- which butterfly an index belongs to

  lemma ModAtMost(x: nat, d: nat)
    requires d > 0
    ensures x % d <= x
  {
    if x < d {
      DivModUnique(x, d, 0, x);
    }
  }

  /** The upper index of the butterfly of span l that holds index x. */
  function Upper(x: nat, l: nat): nat
    requires l > 0
  {
    ModAtMost(x, 2 * l);
    if x % (2 * l) < l then x else x - l
  }

  /** Every index below n lies in exactly one butterfly (i, i+l) of a pass. */
  lemma ButterfliesPartition(x: nat, i: nat, l: nat, n: nat)
    requires l > 0 && n % (2 * l) == 0 && x < n
    ensures Upper(x, l) % (2 * l) < l && Upper(x, l) + l < n
    ensures x == Upper(x, l) || x == Upper(x, l) + l
    ensures i % (2 * l) < l && (x == i || x == i + l) ==> i == Upper(x, l)
  {
    var d := 2 * l;
    var u := Upper(x, l);
    DivModUnique(u, d, x / d, if x % d < l then x % d else x % d - l);
    Room(u, d, n);
    if i % d < l && x == i + l {
      DivModUnique(x, d, i / d, i % d + l);
    }
  }

  /** A multiple of d above u is at least d minus the remainder away. */
  lemma Room(u: nat, d: nat, n: nat)
    requires d > 0 && n % d == 0 && u < n
    ensures u - u % d + d <= n
  {
    var k := n / d - u / d;
    assert d * k == n - (u - u % d);
    MulBound(d, k);
  }

  /** Two indices in the same lane less than one stride apart are equal. */
  lemma SameLane(u: nat, i: nat, d: nat)
    requires d > 0 && u % d == i % d && i <= u < i + d
    ensures u == i
  {
    var k := u / d - i / d;
    assert d * k == u - i;
    MulBound(d, k);
  }

  lemma NextInLane(i: nat, d: nat)
    requires d > 0
    ensures (i + d) % d == i % d
  {
    DivModUnique(i + d, d, i / d + 1, i % d);
  }

  lemma UpperStep(i: nat, l: nat)
    requires l > 0 && Upper(i, l) == i
    ensures Upper(i + l, l) == i
    ensures Upper(i + 2 * l, l) == i + 2 * l && (i + 2 * l) % (2 * l) == i % (2 * l)
  {
    NextInLane(i, 2 * l);
    DivModUnique(i + l, 2 * l, i / (2 * l), i % (2 * l) + l);
  }

  /** One whole pass of span l, as a function of the data before it. */
  function Pass<T>(s: seq<T>, l: nat, bf: Butterfly<T>): (r: seq<T>)
    requires l > 0 && |s| % (2 * l) == 0
    ensures |r| == |s|
  {
    seq(|s|, x requires 0 <= x < |s| => PassAt(s, l, bf, x))
  }

  function PassAt<T>(s: seq<T>, l: nat, bf: Butterfly<T>, x: nat): T
    requires l > 0 && |s| % (2 * l) == 0 && x < |s|
  {
    ButterfliesPartition(x, 0, l, |s|);
    var u := Upper(x, l);
    var r := bf(u % (2 * l), s[u], s[u + l]);
    if x == u then r.0 else r.1
  }

  lemma PassAtIs<T>(s: seq<T>, l: nat, bf: Butterfly<T>, x: nat, u: nat, m: nat)
    requires l > 0 && |s| % (2 * l) == 0 && x < |s|
    requires u == Upper(x, l) && u % (2 * l) == m
    ensures u + l < |s|
    ensures PassAt(s, l, bf, x) == if x == u then bf(m, s[u], s[u + l]).0 else bf(m, s[u], s[u + l]).1
  {
    ButterfliesPartition(x, 0, l, |s|);
  }

  /** Data made of blocks of l values, the q-th of block k being v(k, q). */
  function Blocks<T>(v: (nat, nat) -> T, n: nat, l: nat): (s: seq<T>)
    requires l > 0
    ensures |s| == n
  {
    seq(n, y requires 0 <= y < n => DivNat(y, l); v(y / l, y % l))
  }

  /** A pass whose butterflies join blocks pairwise turns 2m blocks of l into m blocks of 2l. */
  lemma PassJoinsBlocks<T>(v: (nat, nat) -> T, v': (nat, nat) -> T, m: nat, l: nat, bf: Butterfly<T>)
    requires l > 0
    requires forall k: nat, q: nat :: k < m && q < l ==> Joins(v, v', l, bf, k, q)
    ensures (2 * l) * m >= 0 && ((2 * l) * m) % (2 * l) == 0
    ensures Pass(Blocks(v, (2 * l) * m, l), l, bf) == Blocks(v', (2 * l) * m, 2 * l)
  {
    NatMul(2 * l, m);
    var n: nat := (2 * l) * m;
    DivModUnique(n, 2 * l, m, 0);
    var s := Blocks(v, n, l);
    forall y | 0 <= y < n
      ensures PassAt(s, l, bf, y) == Blocks(v', n, 2 * l)[y]
    {
      var u, k, q := Position(y, l);
      DivLess(y, 2 * l, m);
      PassAtIs(s, l, bf, y, u, q);
      assert s[u] == v(2 * k, q) && s[u + l] == v(2 * k + 1, q);
      assert Joins(v, v', l, bf, k, q);
    }
  }

  predicate Joins<T(==)>(v: (nat, nat) -> T, v': (nat, nat) -> T, l: nat, bf: Butterfly<T>, k: nat, q: nat) {
    bf(q, v(2 * k, q), v(2 * k + 1, q)) == (v'(k, q), v'(k, q + l))
  }

  /** Where the butterfly of index y sits: block k of size 2l and offset q in its upper half. */
  lemma LowerPlace(u: nat, l: nat, d: nat, k: nat, q: nat)
    requires l > 0 && d == 2 * l && q < l && u == d * k + q
    ensures u % d == q && u / l == 2 * k && u % l == q
    ensures (u + l) / l == 2 * k + 1 && (u + l) % l == q
  {
    DivModUnique(u, d, k, q);
    assert u == l * (2 * k) + q;
    DivModUnique(u, l, 2 * k, q);
    assert u + l == l * (2 * k + 1) + q;
    DivModUnique(u + l, l, 2 * k + 1, q);
  }

  lemma Position(y: nat, l: nat) returns (u: nat, k: nat, q: nat)
    requires l > 0
    ensures u == Upper(y, l) && u % (2 * l) == q < l && (y == u || y == u + l)
    ensures u / l == 2 * k && u % l == q
    ensures (u + l) / l == 2 * k + 1 && (u + l) % l == q
    ensures y / (2 * l) == k && y % (2 * l) == if y == u then q else q + l
  {
    var d := 2 * l;
    u := Upper(y, l);
    DivNat(y, d);
    k, q := y / d, if y == u then y % d else y % d - l;
    LowerPlace(u, l, d, k, q);
  }

  // ----- the reorder loop

  /** fft.c:183-187: the do/while and the masked add. */
  method NextReversed(n: nat, mr: nat) returns (r: nat)
    requires mr + 1 < n
    ensures r == ReversedIncrement(n, mr)
  {
    var l := n / 2;
    while mr + l > n - 1
      invariant 1 <= l
      invariant FirstFit(n - 1 - mr, l) == FirstFit(n - 1 - mr, n / 2)
    {
      l := l / 2;
    }
    r := mr % l + l;
  }

  lemma RevTable(b: nat) returns (rev: seq<nat>)
    ensures |rev| == Pow2(b)
    ensures forall i {:trigger Rev(b, i)} :: 0 <= i < |rev| ==> rev[i] == Rev(b, i)
    ensures forall i :: 0 <= i < |rev| ==> rev[i] < |rev|
    ensures forall i :: 0 <= i < |rev| ==> rev[rev[i]] == i
    ensures rev[0] == 0
  {
    rev := seq(Pow2(b), i requires 0 <= i < Pow2(b) => Rev(b, i));
    forall i | 0 <= i < |rev|
      ensures Rev(b, Rev(b, i)) == i
    {
      RevInvolution(b, i);
    }
    RevZero(b);
  }

  lemma {:induction false} RevZero(b: nat)
    ensures Rev(b, 0) == 0
  {
    if b > 0 {
      RevZero(b - 1);
    }
  }

  /** Overwrites two entries of the parallel arrays. */
  method Store<R>(fr: array<R>, fi: array<R>, i: nat, x: Cx<R>, j: nat, y: Cx<R>)
    requires fr != fi && fr.Length == fi.Length && i < fr.Length && j < fr.Length
    modifies fr, fi
    ensures View(fr, fi) == old(View(fr, fi))[i := x][j := y]
  {
    fr[i], fi[i] := x.re, x.im;
    fr[j], fi[j] := y.re, y.im;
  }

  /** d is s with every index below m, and its reversal, already swapped. */
  ghost predicate SwappedBelow<T>(d: seq<T>, s: seq<T>, rev: seq<nat>, m: nat) {
    && |d| == |s| == |rev|
    && (forall i :: 0 <= i < |rev| ==> rev[i] < |rev|)
    && (forall i :: 0 <= i < |rev| ==> rev[rev[i]] == i)
    && (forall i {:trigger d[i]} :: 0 <= i < |s| ==> d[i] == s[if i < m || rev[i] < m then rev[i] else i])
  }

  lemma SwapStep<T>(d: seq<T>, s: seq<T>, rev: seq<nat>, m: nat)
    requires SwappedBelow(d, s, rev, m) && m < |s|
    ensures SwappedBelow(if rev[m] > m then d[m := d[rev[m]]][rev[m] := d[m]] else d, s, rev, m + 1)
  {
  }

  /** fft.c:177-197. */
  method Reorder<R>(fr: array<R>, fi: array<R>, b: nat)
    requires fr != fi && fr.Length == fi.Length == Pow2(b)
    modifies fr, fi
    ensures View(fr, fi) == Reordered(old(View(fr, fi)), b)
  {
    var n := fr.Length;
    ghost var s := View(fr, fi);
    ghost var rev := RevTable(b);
    var mr, m := 0, 1;
    while m <= n - 1
      invariant 1 <= m <= n
      invariant mr == rev[m - 1]
      invariant SwappedBelow(View(fr, fi), s, rev, m)
    {
      ReversedIncrementIsRev(b, m - 1);
      mr := NextReversed(n, mr);
      SwapUp(fr, fi, m, mr, s, rev);
      m := m + 1;
    }
  }

  /** fft.c:189-196, with the partner mr = rev[m] already known. */
  method SwapUp<R>(fr: array<R>, fi: array<R>, m: nat, mr: nat, ghost s: seq<Cx<R>>, ghost rev: seq<nat>)
    requires fr != fi && fr.Length == fi.Length && m < |s|
    requires SwappedBelow(View(fr, fi), s, rev, m) && mr == rev[m]
    modifies fr, fi
    ensures SwappedBelow(View(fr, fi), s, rev, m + 1)
  {
    SwapStep(View(fr, fi), s, rev, m);
    if mr > m {
      Store(fr, fi, m, Cx(fr[mr], fi[mr]), mr, Cx(fr[m], fi[m]));
    }
  }

  // ----- the butterfly loops

  /** Names the indices at which the stepping facts of LaneTable are wanted. */
  predicate Step(i: nat) {
    true
  }

  ghost predicate LaneBounds(up: seq<nat>, lane: seq<nat>, l: nat) {
    && |up| == |lane|
    && (forall x :: 0 <= x < |up| ==> lane[x] < l && lane[x] <= up[x] && up[x] + l < |up|)
    && (forall x :: 0 <= x < |up| ==> x == up[x] || x == up[x] + l)
  }

  ghost predicate LaneSteps(up: seq<nat>, lane: seq<nat>, l: nat) {
    && |up| == |lane|
    && (forall m {:trigger Step(m)} :: 0 <= m < l && m < |up| ==> up[m] == lane[m] == m)
    && (forall i {:trigger Step(i)} :: 0 <= i < |up| - l && up[i] == i ==> up[i + l] == i && lane[i + l] == lane[i])
    && (forall i {:trigger Step(i)} :: 0 <= i < |up| - 2 * l && up[i] == i ==>
          up[i + 2 * l] == i + 2 * l && lane[i + 2 * l] == lane[i])
  }

  ghost predicate LanesApart(up: seq<nat>, lane: seq<nat>, l: nat) {
    && |up| == |lane|
    && (forall i, x {:trigger Step(i), up[x]} :: 0 <= i < |up| && 0 <= x < |up| && up[i] == i ==>
          lane[x] == lane[i] && i <= up[x] < i + 2 * l ==> up[x] == i)
  }

  /** up[x] is the upper index of the butterfly of x, and lane[x] its twiddle number. */
  ghost predicate LaneTable(up: seq<nat>, lane: seq<nat>, l: nat, n: nat) {
    |up| == n && LaneBounds(up, lane, l) && LaneSteps(up, lane, l) && LanesApart(up, lane, l)
  }

  ghost predicate Genuine(up: seq<nat>, lane: seq<nat>, l: nat)
    requires l > 0
  {
    |up| == |lane| && forall x :: 0 <= x < |up| ==> up[x] == Upper(x, l) && lane[x] == Upper(x, l) % (2 * l)
  }

  lemma BoundsHold(up: seq<nat>, lane: seq<nat>, l: nat)
    requires l > 0 && |up| % (2 * l) == 0 && Genuine(up, lane, l)
    ensures LaneBounds(up, lane, l)
  {
    forall x | 0 <= x < |up|
      ensures lane[x] < l && lane[x] <= up[x] && up[x] + l < |up| && (x == up[x] || x == up[x] + l)
    {
      ButterfliesPartition(x, 0, l, |up|);
      ModAtMost(Upper(x, l), 2 * l);
    }
  }

  lemma StepsHold(up: seq<nat>, lane: seq<nat>, l: nat)
    requires l > 0 && Genuine(up, lane, l)
    ensures LaneSteps(up, lane, l)
  {
    forall m | 0 <= m < l && m < |up|
      ensures up[m] == lane[m] == m
    {
      DivModUnique(m, 2 * l, 0, m);
    }
    forall i | 0 <= i < |up| - l && up[i] == i
      ensures up[i + l] == i && lane[i + l] == lane[i]
    {
      UpperStep(i, l);
    }
    forall i | 0 <= i < |up| - 2 * l && up[i] == i
      ensures up[i + 2 * l] == i + 2 * l && lane[i + 2 * l] == lane[i]
    {
      UpperStep(i, l);
    }
  }

  lemma ApartHold(up: seq<nat>, lane: seq<nat>, l: nat)
    requires l > 0 && Genuine(up, lane, l)
    ensures LanesApart(up, lane, l)
  {
    forall i, x | 0 <= i < |up| && 0 <= x < |up| && up[i] == i && lane[x] == lane[i] && i <= up[x] < i + 2 * l
      ensures up[x] == i
    {
      SameLane(Upper(x, l), i, 2 * l);
    }
  }

  lemma Lanes(l: nat, n: nat) returns (up: seq<nat>, lane: seq<nat>)
    requires l > 0 && n % (2 * l) == 0
    ensures LaneTable(up, lane, l, n) && Genuine(up, lane, l)
  {
    up := seq(n, x requires 0 <= x < n => Upper(x, l));
    lane := seq(n, x requires 0 <= x < n => Upper(x, l) % (2 * l));
    BoundsHold(up, lane, l);
    StepsHold(up, lane, l);
    ApartHold(up, lane, l);
  }

  /** What one butterfly pass puts at x, given its upper index u and lane m. */
  function Out<T>(s: seq<T>, l: nat, bf: Butterfly<T>, x: nat, u: nat, m: nat): T
    requires u + l < |s|
  {
    if x == u then bf(m, s[u], s[u + l]).0 else bf(m, s[u], s[u + l]).1
  }

  /** A pass, spread out over the lanes. */
  lemma PassTable<T>(s: seq<T>, l: nat, bf: Butterfly<T>) returns (p: seq<T>, up: seq<nat>, lane: seq<nat>)
    requires l > 0 && |s| % (2 * l) == 0
    ensures p == Pass(s, l, bf) && |p| == |s| && LaneTable(up, lane, l, |s|)
    ensures forall x {:trigger p[x]} :: 0 <= x < |p| ==> p[x] == Out(s, l, bf, x, up[x], lane[x])
  {
    p := Pass(s, l, bf);
    up, lane := Lanes(l, |s|);
    forall x | 0 <= x < |p|
      ensures p[x] == Out(s, l, bf, x, up[x], lane[x])
    {
      PassAtIs(s, l, bf, x, up[x], lane[x]);
    }
  }

  /** d is s with the pass p done in every lane below m, and in lane m below index i. */
  ghost predicate PassedBelow<T>(d: seq<T>, s: seq<T>, p: seq<T>, up: seq<nat>, lane: seq<nat>, m: nat, i: nat) {
    && |d| == |s| == |p| == |up| == |lane|
    && (forall x {:trigger d[x]} :: 0 <= x < |s| ==> d[x] == if lane[x] < m || (lane[x] == m && up[x] < i) then p[x] else s[x])
  }

  /** The data after one butterfly on (i, i+l). */
  function AfterOne<T>(d: seq<T>, l: nat, bf: Butterfly<T>, m: nat, i: nat): seq<T>
    requires i + l < |d|
  {
    var r := bf(m, d[i], d[i + l]);
    d[i := r.0][i + l := r.1]
  }

  lemma PassStep<T>(d: seq<T>, s: seq<T>, l: nat, bf: Butterfly<T>, p: seq<T>, up: seq<nat>, lane: seq<nat>,
                    m: nat, i: nat, i': nat)
    requires LaneTable(up, lane, l, |p|) && l > 0 && i < |p| && up[i] == i && lane[i] == m && i' == i + 2 * l
    requires PassedBelow(d, s, p, up, lane, m, i)
    requires forall x {:trigger p[x]} :: 0 <= x < |p| ==> p[x] == Out(s, l, bf, x, up[x], lane[x])
    ensures i + l < |p|
    ensures i' < |p| ==> up[i'] == i' && lane[i'] == m
    ensures PassedBelow(AfterOne(d, l, bf, m, i), s, p, up, lane, m, i')
  {
    assert Step(i);
  }

  /** fft.c:246-258: one butterfly, in place. */
  method OneButterfly<R>(fr: array<R>, fi: array<R>, l: nat, bf: Butterfly<Cx<R>>, m: nat, i: nat)
    requires fr != fi && fr.Length == fi.Length && l > 0 && i + l < fr.Length
    modifies fr, fi
    ensures View(fr, fi) == AfterOne(old(View(fr, fi)), l, bf, m, i)
  {
    var j := i + l;
    var r := bf(m, Cx(fr[i], fi[i]), Cx(fr[j], fi[j]));
    Store(fr, fi, i, r.0, j, r.1);
  }

  /** fft.c:245-259: one lane. */
  method OneLane<R>(fr: array<R>, fi: array<R>, l: nat, bf: Butterfly<Cx<R>>, m: nat, ghost s: seq<Cx<R>>,
                    ghost p: seq<Cx<R>>, ghost up: seq<nat>, ghost lane: seq<nat>)
    requires fr != fi && fr.Length == fi.Length == |p|
    requires l > 0 && m < l && LaneTable(up, lane, l, |p|)
    requires PassedBelow(View(fr, fi), s, p, up, lane, m, 0)
    requires forall x {:trigger p[x]} :: 0 <= x < |p| ==> p[x] == Out(s, l, bf, x, up[x], lane[x])
    modifies fr, fi
    ensures PassedBelow(View(fr, fi), s, p, up, lane, m + 1, 0)
  {
    var n, istep, i := fr.Length, 2 * l, m;
    assert Step(m);
    while i < n
      invariant i < n ==> up[i] == i && lane[i] == m
      invariant PassedBelow(View(fr, fi), s, p, up, lane, m, i)
    {
      PassStep(View(fr, fi), s, l, bf, p, up, lane, m, i, i + istep);
      OneButterfly(fr, fi, l, bf, m, i);
      i := i + istep;
    }
  }

  /** fft.c:233-260: one pass of span l, with the butterfly left abstract. */
  method ButterflyPass<R>(fr: array<R>, fi: array<R>, l: nat, bf: Butterfly<Cx<R>>)
    requires fr != fi && fr.Length == fi.Length
    requires l > 0 && fr.Length % (2 * l) == 0
    modifies fr, fi
    ensures View(fr, fi) == Pass(old(View(fr, fi)), l, bf)
  {
    ghost var s := View(fr, fi);
    ghost var p, up, lane := PassTable(s, l, bf);
    for m := 0 to l
      invariant PassedBelow(View(fr, fi), s, p, up, lane, m, 0)
    {
      OneLane(fr, fi, l, bf, m, s, p, up, lane);
    }
  }

  /** Pass p, with butterfly bf(p), takes stage p of the data to stage p+1. */
  ghost predicate Advances<T>(stage: nat -> seq<T>, bf: nat -> Butterfly<T>, p: nat, n: nat) {
    |stage(p)| == n && n % (2 * Pow2(p)) == 0 && stage(p + 1) == Pass(stage(p), Pow2(p), bf(p))
  }

  /** fft.c:199-263: log2(n) passes of doubling span, the butterfly of each given beforehand. */
  method AllPasses<R>(fr: array<R>, fi: array<R>, b: nat, bf: nat -> Butterfly<Cx<R>>,
                      ghost stage: nat -> seq<Cx<R>>)
    requires fr != fi && fr.Length == fi.Length == Pow2(b)
    requires View(fr, fi) == stage(0)
    requires forall p: nat :: p < b ==> Advances(stage, bf, p, Pow2(b))
    modifies fr, fi
    ensures View(fr, fi) == stage(b)
  {
    var n, l, p := fr.Length, 1, 0;
    while l < n
      invariant p <= b && l == Pow2(p) && View(fr, fi) == stage(p)
    {
      BelowTop(p, b);
      assert Advances(stage, bf, p, n);
      ButterflyPass(fr, fi, l, bf(p));
      l, p := 2 * l, p + 1;
    }
    AtTop(p, b);
  }

  lemma BelowTop(p: nat, b: nat)
    requires p <= b && Pow2(p) < Pow2(b)
    ensures p < b
  {
  }

  lemma AtTop(p: nat, b: nat)
    requires p <= b && Pow2(p) >= Pow2(b)
    ensures p == b
  {
    if p < b {
      Pow2Monotone(p + 1, b);
    }
  }
}
