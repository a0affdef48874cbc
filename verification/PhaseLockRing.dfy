/** The sample ring of contemplate_data (ExtLibs/Ntp/phaselock.c:185-210, 332) and its first pass (211-228). */
module PhaseLockRing {
  import opened Envelope
  import opened PhaseLock

  // ----- pass 1

  /** What the frequency changes after sample k have added to its skew, seen from the present frequency. */
  function Wander(d: seq<Datum>, k: nat, freq: int): real
    requires k < |d|
    decreases |d| - k
  {
    if k == |d| - 1 then 0.0
    else Wander(d, k + 1, freq) + Added(d[k + 1], d[k], freq)
  }

  /** phaselock.c:226-227. */
  function Added(later: Datum, earlier: Datum, freq: int): real {
    Elapsed(later.absolute, earlier.absolute) * (later.freq - freq) as real / 65536.0
  }

  /** phaselock.c:216-217. */
  function Bound(d: Datum, cum: real): Datum {
    d.(min := d.skew - cum - d.errorbar, max := d.skew - cum + d.errorbar)
  }

  ghost function Corrected(d: seq<Datum>, freq: int): (r: seq<Datum>)
    ensures |r| == |d| && forall k :: 0 <= k < |d| ==> r[k] == Bound(d[k], Wander(d, k, freq))
  {
    seq(|d|, k requires 0 <= k < |d| => Bound(d[k], Wander(d, k, freq)))
  }

  lemma PositionIndex(rp: nat, i: nat)
    requires rp < RING_SIZE && i < RING_SIZE
    ensures Position(rp, i) < RING_SIZE && Index(rp, Position(rp, i)) == i
  {
  }

  lemma IndexDown(rp: nat, k: nat)
    requires rp < RING_SIZE && k < RING_SIZE
    ensures Index(rp, k) < RING_SIZE
    ensures NextDn(Index(rp, k)) == if k > 0 then Index(rp, k - 1) else rp
    ensures Index(rp, k) == rp <==> k == RING_SIZE - 1
  {
  }

  /** The slots of the samples from position k on are corrected, the others are as they were. */
  ghost predicate CorrectedFrom(ring: seq<Datum>, old': seq<Datum>, rp: nat, freq: int, k: nat) {
    && |ring| == |old'| == RING_SIZE && rp < RING_SIZE
    && var d := Chronological(old', rp);
       forall i {:trigger ring[i]} :: 0 <= i < RING_SIZE ==>
         ring[i] == if Position(rp, i) >= k then Bound(old'[i], Wander(d, Position(rp, i), freq)) else old'[i]
  }

  lemma CorrectedStep(ring: seq<Datum>, old': seq<Datum>, rp: nat, freq: int, k: nat, j: nat, cum: real)
    requires CorrectedFrom(ring, old', rp, freq, k + 1) && k < RING_SIZE && j == Index(rp, k)
    requires cum == Wander(Chronological(old', rp), k, freq)
    ensures CorrectedFrom(ring[j := Bound(ring[j], cum)], old', rp, freq, k)
  {
    IndexPosition(rp, k);
    forall i | 0 <= i < RING_SIZE && i != j
      ensures Position(rp, i) != k
    {
      PositionIndex(rp, i);
    }
  }

  /** One step back in time of the sum that phaselock.c:226-227 keeps. */
  lemma WanderStep(ring: seq<Datum>, old': seq<Datum>, rp: nat, freq: int, k: nat, j: nat, n: nat)
    requires CorrectedFrom(ring, old', rp, freq, k) && 0 < k < RING_SIZE && j == Index(rp, k) && n == Index(rp, k - 1)
    ensures var d := Chronological(old', rp);
      Wander(d, k - 1, freq) == Wander(d, k, freq) + Added(ring[j], ring[n], freq)
  {
    var d := Chronological(old', rp);
    assert d[k] == old'[j] && d[k - 1] == old'[n];
  }

  lemma CorrectedEnd(ring: seq<Datum>, old': seq<Datum>, rp: nat, freq: int)
    requires CorrectedFrom(ring, old', rp, freq, 0)
    ensures Chronological(ring, rp) == Corrected(Chronological(old', rp), freq)
  {
    var (d, d') := (Chronological(ring, rp), Chronological(old', rp));
    forall k | 0 <= k < RING_SIZE
      ensures d[k] == Bound(d'[k], Wander(d', k, freq))
    {
      IndexPosition(rp, k);
    }
  }

  /** The loop is about to correct slot j, which holds position k; cum is the wander since. */
  ghost predicate Correcting(ring: seq<Datum>, old': seq<Datum>, rp: nat, freq: int, k: nat, j: nat, cum: real) {
    && CorrectedFrom(ring, old', rp, freq, k + 1) && k < RING_SIZE && j == Index(rp, k)
    && cum == Wander(Chronological(old', rp), k, freq)
  }

  lemma CorrectingStep(ring: seq<Datum>, old': seq<Datum>, rp: nat, freq: int, k: nat, j: nat, cum: real,
                       ring': seq<Datum>, n: nat)
    requires Correcting(ring, old', rp, freq, k, j, cum)
    requires j < RING_SIZE && ring' == ring[j := Bound(ring[j], cum)] && n == NextDn(j)
    ensures n < RING_SIZE && (n == rp <==> k == 0)
    ensures if k == 0 then CorrectedFrom(ring', old', rp, freq, 0)
            else Correcting(ring', old', rp, freq, k - 1, n, cum + Added(ring'[j], ring'[n], freq))
  {
    CorrectedStep(ring, old', rp, freq, k, j, cum);
    IndexDown(rp, k);
    if k > 0 {
      IndexDown(rp, k - 1);
      WanderStep(ring', old', rp, freq, k, j, n);
    }
  }

  /** phaselock.c:213-228: every bound is shifted by the frequency changes made since. */
  method CorrectPass(ring: array<Datum>, rp: nat, freq: int)
    requires ring.Length == RING_SIZE && rp < RING_SIZE
    modifies ring
    ensures CorrectedFrom(ring[..], old(ring[..]), rp, freq, 0)
  {
    ghost var was, k: nat := ring[..], RING_SIZE - 1;
    var cum, j: nat := 0.0, rp;
    IndexDown(rp, k);
    while true
      invariant j < RING_SIZE && Correcting(ring[..], was, rp, freq, k, j, cum)
      decreases k
    {
      ghost var before := ring[..];
      ring[j] := Bound(ring[j], cum);
      var n := NextDn(j);
      CorrectingStep(before, was, rp, freq, k, j, cum, ring[..], n);
      if n == rp { break; }
      cum := cum + Added(ring[j], ring[n], freq);
      j := n;
      k := k - 1;
    }
  }

  // ----- what pass 1 is for

  /**
   The local clock drifts by rho and is steered by the frequency in force: sigma is its true skew at each
   sample, and a frequency recorded with a sample was in force since the sample before.
   */
  ghost predicate Steered(d: seq<Datum>, sigma: seq<real>, rho: real) {
    |sigma| == |d| > 0 && forall k {:trigger SteeredAt(d, sigma, rho, k)} :: 0 <= k < |d| - 1 ==> SteeredAt(d, sigma, rho, k)
  }

  ghost predicate SteeredAt(d: seq<Datum>, sigma: seq<real>, rho: real, k: nat)
    requires |sigma| == |d| && k < |d| - 1
  {
    sigma[k + 1] ==
    sigma[k] + (d[k + 1].absolute - d[k].absolute) as real * (rho - d[k + 1].freq as real / 65536.0)
  }

  /** Each measurement is off by at most its error bar. */
  ghost predicate Measured(d: seq<Datum>, sigma: seq<real>) {
    |sigma| == |d| && forall k :: 0 <= k < |d| ==> d[k].skew - d[k].errorbar <= sigma[k] <= d[k].skew + d[k].errorbar
  }

  /** The line lies within the bounds of every sample. */
  ghost predicate Consistent(line: Seg, t: seq<real>, low: seq<real>, high: seq<real>) {
    && |t| == |low| == |high| > 0
    && forall k :: 0 <= k < |t| ==> low[k] <= LineAt(line, t[|t| - 1], t[k]) <= high[k]
  }

  lemma DistributeDrift(dt: real, rho: real, f: real, g: real)
    ensures dt * (rho - f / 65536.0) == dt * (rho - g / 65536.0) - dt * (f - g) / 65536.0
  {
    var (u, v) := (rho - g / 65536.0, (f - g) / 65536.0);
    assert rho - f / 65536.0 == u - v;
    assert dt * (u - v) == dt * u - dt * v;
    assert dt * (f - g) / 65536.0 == dt * v;
  }

  /** One interval: what the skew gains over it and what the correction adds make a straight piece. */
  lemma StraightPiece(sk: real, sk': real, w: real, w': real, t: real, t': real, now: real, rho: real, f: real, g: real, end: real)
    requires sk' == sk + (t' - t) * (rho - f / 65536.0) && w == w' + (t' - t) * (f - g) / 65536.0
    requires sk' - w' == Along(end, rho - g / 65536.0, now, t')
    ensures sk - w == Along(end, rho - g / 65536.0, now, t)
  {
    var (slope, dt) := (rho - g / 65536.0, t' - t);
    DistributeDrift(dt, rho, f, g);
    assert sk' - w' == sk - w + dt * slope;
    assert slope * (t' - now) == slope * (t - now) + dt * slope;
  }

  /** Over the interval after sample k the skew and the wander change at rates that differ by a constant. */
  ghost predicate Piece(sigma: seq<real>, w: seq<real>, t: seq<real>, f: seq<real>, rho: real, g: real, k: nat)
    requires |sigma| == |w| == |t| == |f| && k + 1 < |t|
  {
    && sigma[k + 1] == sigma[k] + (t[k + 1] - t[k]) * (rho - f[k + 1] / 65536.0)
    && w[k] == w[k + 1] + (t[k + 1] - t[k]) * (f[k + 1] - g) / 65536.0
  }

  ghost predicate Pieces(sigma: seq<real>, w: seq<real>, t: seq<real>, f: seq<real>, rho: real, g: real) {
    && |sigma| == |w| == |t| == |f| > 0 && w[|w| - 1] == 0.0
    && forall k {:trigger Piece(sigma, w, t, f, rho, g, k)} :: 0 <= k < |t| - 1 ==> Piece(sigma, w, t, f, rho, g, k)
  }

  lemma {:induction false} PiecesJoin(sigma: seq<real>, w: seq<real>, t: seq<real>, f: seq<real>, rho: real, g: real, k: nat)
    requires Pieces(sigma, w, t, f, rho, g) && k < |t|
    ensures sigma[k] - w[k] == LineAt(Seg(rho - g / 65536.0, sigma[|t| - 1]), t[|t| - 1], t[k])
    decreases |t| - k
  {
    var (n, slope) := (|t| - 1, rho - g / 65536.0);
    if k == n {
      AtAnchor(sigma[n], slope, t[k]);
    } else {
      PiecesJoin(sigma, w, t, f, rho, g, k + 1);
      assert Piece(sigma, w, t, f, rho, g, k);
      StraightPiece(sigma[k], sigma[k + 1], w[k], w[k + 1], t[k], t[k + 1], t[n], rho, f[k + 1], g, sigma[n]);
    }
  }

  ghost function Wanders(d: seq<Datum>, freq: int): (w: seq<real>)
    ensures |w| == |d| && forall k :: 0 <= k < |d| ==> w[k] == Wander(d, k, freq)
  {
    seq(|d|, k requires 0 <= k < |d| => Wander(d, k, freq))
  }

  ghost function Freqs(d: seq<Datum>): (f: seq<real>)
    ensures |f| == |d| && forall k :: 0 <= k < |d| ==> f[k] == d[k].freq as real
  {
    seq(|d|, k requires 0 <= k < |d| => d[k].freq as real)
  }

  lemma SteeredPiece(d: seq<Datum>, sigma: seq<real>, rho: real, freq: int, w: seq<real>, t: seq<real>, k: nat)
    requires Steered(d, sigma, rho) && t == Times(d) && w == Wanders(d, freq) && Increasing(t) && k + 1 < |d|
    ensures Piece(sigma, w, t, Freqs(d), rho, freq as real, k)
  {
    assert t[k] < t[k + 1] && SteeredAt(d, sigma, rho, k);
    ElapsedIs(d[k + 1].absolute, d[k].absolute);
    assert (d[k + 1].freq - freq) as real == d[k + 1].freq as real - freq as real;
  }

  /** Corrected for the frequency changes, the true skews lie on one straight line. */
  lemma StraightensSkew(d: seq<Datum>, sigma: seq<real>, rho: real, freq: int, k: nat)
    requires Steered(d, sigma, rho) && Increasing(Times(d)) && k < |d|
    ensures var t := Times(d);
      sigma[k] - Wanders(d, freq)[k] == LineAt(Seg(rho - freq as real / 65536.0, sigma[|d| - 1]), t[|d| - 1], t[k])
  {
    var (w, t, f, g) := (Wanders(d, freq), Times(d), Freqs(d), freq as real);
    forall i | 0 <= i < |t| - 1
      ensures Piece(sigma, w, t, f, rho, g, i)
    {
      SteeredPiece(d, sigma, rho, freq, w, t, i);
    }
    PiecesJoin(sigma, w, t, f, rho, g, k);
  }

  /** After pass 1 the bounds of all samples contain one line: that of the true clock at the present frequency. */
  lemma CorrectedContainsTruth(d: seq<Datum>, sigma: seq<real>, rho: real, freq: int)
    requires Steered(d, sigma, rho) && Measured(d, sigma) && Increasing(Times(d))
    ensures var r := Corrected(d, freq);
      Consistent(Seg(rho - freq as real / 65536.0, sigma[|d| - 1]), Times(r), Values(r, 0), Values(r, 1))
  {
    var (r, t) := (Corrected(d, freq), Times(d));
    var line := Seg(rho - freq as real / 65536.0, sigma[|d| - 1]);
    assert Times(r) == t;
    forall k | 0 <= k < |d|
      ensures Values(r, 0)[k] <= LineAt(line, t[|t| - 1], t[k]) <= Values(r, 1)[k]
    {
      StraightensSkew(d, sigma, rho, freq, k);
    }
  }

  lemma BoundsHold(skew: real, w: real, e: real, s: real, line: real)
    requires s - w == line
    ensures skew - w - e <= line <= skew - w + e <==> skew - e <= s <= skew + e
  {
  }

  /** Sample k of the corrected ring contains the line just when its measurement was within its error bar. */
  lemma TruthAt(d: seq<Datum>, sigma: seq<real>, rho: real, freq: int, r: seq<Datum>, t: seq<real>, line: Seg, k: nat)
    requires Steered(d, sigma, rho) && Increasing(t) && t == Times(d) && |sigma| == |d| && k < |d| && r == Corrected(d, freq)
    requires line == Seg(rho - freq as real / 65536.0, sigma[|d| - 1])
    ensures Values(r, 0)[k] <= LineAt(line, t[|t| - 1], t[k]) <= Values(r, 1)[k] <==>
            d[k].skew - d[k].errorbar <= sigma[k] <= d[k].skew + d[k].errorbar
  {
    StraightensSkew(d, sigma, rho, freq, k);
    BoundsHold(d[k].skew, Wanders(d, freq)[k], d[k].errorbar, sigma[k], LineAt(line, t[|t| - 1], t[k]));
  }

  /** And they do so exactly when every measurement was within its error bar: pass 1 widens nothing. */
  lemma ContainsTruthIff(d: seq<Datum>, sigma: seq<real>, rho: real, freq: int)
    requires Steered(d, sigma, rho) && Increasing(Times(d)) && |sigma| == |d| > 0
    ensures var r := Corrected(d, freq);
      Consistent(Seg(rho - freq as real / 65536.0, sigma[|d| - 1]), Times(r), Values(r, 0), Values(r, 1)) <==> Measured(d, sigma)
  {
    var (r, t, line) := (Corrected(d, freq), Times(d), Seg(rho - freq as real / 65536.0, sigma[|d| - 1]));
    assert Times(r) == t;
    forall k | 0 <= k < |d|
      ensures Values(r, 0)[k] <= LineAt(line, t[|t| - 1], t[k]) <= Values(r, 1)[k] <==>
              d[k].skew - d[k].errorbar <= sigma[k] <= d[k].skew + d[k].errorbar
    {
      TruthAt(d, sigma, rho, freq, r, t, line, k);
    }
    SameConditions(d, sigma, r, t, line);
  }

  lemma SameConditions(d: seq<Datum>, sigma: seq<real>, r: seq<Datum>, t: seq<real>, line: Seg)
    requires |sigma| == |d| == |t| == |r| > 0
    requires forall k :: 0 <= k < |d| ==>
      (Values(r, 0)[k] <= LineAt(line, t[|t| - 1], t[k]) <= Values(r, 1)[k] <==>
       d[k].skew - d[k].errorbar <= sigma[k] <= d[k].skew + d[k].errorbar)
    ensures Consistent(line, t, Values(r, 0), Values(r, 1)) <==> Measured(d, sigma)
  {
  }
}
