/**
 Gift wrapping along one time axis: the geometry behind the second and third pass of
 contemplate_data (ExtLibs/Ntp/phaselock.c:229-268). Times are strictly increasing; `up` selects the
 chain of largest slopes (the upper envelope) instead of smallest.
 */
module Envelope {

  ghost predicate Increasing(t: seq<real>) {
    forall i, j :: 0 <= i < j < |t| ==> t[i] < t[j]
  }

  /** The slope of the line from (t[p], start) to sample n of curve y. */
  function Slope(t: seq<real>, y: seq<real>, p: nat, start: real, n: nat): real
    requires |t| == |y| && p < |t| && n < |t| && t[p] < t[n]
  {
    (y[n] - start) / (t[n] - t[p])
  }

  /** The value at time b of the line of slope s through (a, ya). */
  function Along(ya: real, s: real, a: real, b: real): real {
    ya + s * (b - a)
  }

  /** a is the worse slope: larger when looking for the smallest, smaller when looking for the largest. */
  predicate Worse(up: bool, a: real, b: real) {
    if up then a < b else a > b
  }

  /** y lies on the outer side of the bound: above a lower envelope, below an upper one. */
  predicate Outside(up: bool, y: real, bound: real) {
    if up then y <= bound else y >= bound
  }

  /** n is the sample after p of best slope; among ties the first for the smallest, the last for the largest. */
  ghost predicate Best(t: seq<real>, y: seq<real>, up: bool, p: nat, start: real, n: nat, s: real) {
    && |t| == |y| && p < n < |t| && Increasing(t)
    && s == Slope(t, y, p, start, n)
    && (forall m {:trigger y[m]} :: p < m < |t| && m != n ==>
          Worse(up, Slope(t, y, p, start, m), s) || (Slope(t, y, p, start, m) == s && (up <==> m < n)))
  }

  // ----- lines

  lemma SlopeTimes(t: seq<real>, y: seq<real>, p: nat, start: real, n: nat)
    requires |t| == |y| && p < |t| && n < |t| && t[p] < t[n]
    ensures y[n] == Along(start, Slope(t, y, p, start, n), t[p], t[n])
  {
    var (d, e) := (t[n] - t[p], y[n] - start);
    assert (e / d) * d == e;
  }

  lemma MulOrder(a: real, b: real, d: real)
    requires a <= b && d >= 0.0
    ensures a * d <= b * d
  {
  }

  /** A steeper line is higher to the right of its anchor and lower to the left. */
  lemma AlongOrder(ya: real, s: real, s': real, a: real, b: real)
    requires s <= s'
    ensures if b >= a then Along(ya, s, a, b) <= Along(ya, s', a, b) else Along(ya, s, a, b) >= Along(ya, s', a, b)
  {
    if b >= a {
      MulOrder(s, s', b - a);
    } else {
      MulOrder(s, s', a - b);
      NegTimes(s, b, a);
      NegTimes(s', b, a);
    }
  }

  /** A line of better slope through (t[p], start) stays inside every later sample. */
  lemma LaterSamples(t: seq<real>, y: seq<real>, up: bool, p: nat, start: real, n: nat, s: real, m: nat)
    requires Best(t, y, up, p, start, n, s) && p < m < |t|
    ensures Outside(up, y[m], Along(start, s, t[p], t[m]))
  {
    var sm := Slope(t, y, p, start, m);
    SlopeTimes(t, y, p, start, m);
    assert y[m] == y[m];
    if up {
      AlongOrder(start, sm, s, t[p], t[m]);
    } else {
      AlongOrder(start, s, sm, t[p], t[m]);
    }
  }

  /** Turning a line about its right end, away from the samples, keeps the earlier ones outside. */
  lemma EarlierSample(up: bool, tm: real, ym: real, tp: real, yp: real, s: real, s': real)
    requires tm <= tp && Outside(up, ym, Along(yp, s, tp, tm)) && !Worse(up, s, s')
    ensures Outside(up, ym, Along(yp, s', tp, tm))
  {
    if tm == tp {
      AtAnchor(yp, s, tp);
      AtAnchor(yp, s', tp);
    } else if up {
      AlongOrder(yp, s', s, tp, tm);
    } else {
      AlongOrder(yp, s, s', tp, tm);
    }
  }

  lemma AtAnchor(ya: real, s: real, a: real)
    ensures Along(ya, s, a, a) == ya
  {
    assert s * (a - a) == 0.0;
  }

  lemma NegTimes(s: real, a: real, b: real)
    ensures s * (a - b) == -(s * (b - a))
  {
  }

  /** Consecutive best slopes from a chain never get worse in the other direction. */
  lemma ChainSlopes(t: seq<real>, y: seq<real>, up: bool, p: nat, n: nat, s: real, n': nat, s': real)
    requires |t| == |y| && p < |t| && n < |t|
    requires Best(t, y, up, p, y[p], n, s) && Best(t, y, up, n, y[n], n', s')
    ensures !Worse(up, s, s')
    ensures up ==> s' < s
  {
    SlopeTimes(t, y, p, y[p], n);
    SlopeTimes(t, y, n, y[n], n');
    SlopeTimes(t, y, p, y[p], n');
    var (d, d') := (t[n] - t[p], t[n'] - t[n]);
    var q := Slope(t, y, p, y[p], n');
    assert y[n'] == y[n'];
    assert q * (d + d') == s * d + s' * d';
    Mediant(q, s, s', d, d');
  }

  /** A slope over two stretches lies between the slopes of the stretches. */
  lemma Mediant(q: real, s: real, s': real, d: real, d': real)
    requires d > 0.0 && d' > 0.0 && q * (d + d') == s * d + s' * d'
    ensures q <= s ==> s' <= s
    ensures q >= s ==> s' >= s
    ensures q < s ==> s' < s
  {
    assert (q - s) * (d + d') == (s' - s) * d' by {
      assert (q - s) * (d + d') == q * (d + d') - s * (d + d');
      assert s * (d + d') == s * d + s * d';
      assert (s' - s) * d' == s' * d' - s * d';
    }
    SignOfProduct(q - s, d + d');
    SignOfProduct(s' - s, d');
  }

  lemma SignOfProduct(a: real, d: real)
    requires d > 0.0
    ensures (a > 0.0 <==> a * d > 0.0) && (a < 0.0 <==> a * d < 0.0)
  {
  }

  // ----- the whole chain

  /** A chain of best samples from the first one on, with the slopes between them. */
  ghost predicate Chain(t: seq<real>, y: seq<real>, up: bool, hull: seq<nat>, slopes: seq<real>) {
    && |t| == |y| && |hull| == |slopes| + 1 && hull[0] == 0 && 0 < |t|
    && (forall i :: 0 <= i < |hull| ==> hull[i] < |t|)
    && (forall i :: 0 <= i < |slopes| ==> Best(t, y, up, hull[i], y[hull[i]], hull[i + 1], slopes[i]))
  }

  /** The slopes run monotonically: non-decreasing for a lower envelope, strictly decreasing for an upper one. */
  lemma ChainMonotone(t: seq<real>, y: seq<real>, up: bool, hull: seq<nat>, slopes: seq<real>, i: nat)
    requires Chain(t, y, up, hull, slopes) && i + 1 < |slopes|
    ensures if up then slopes[i + 1] < slopes[i] else slopes[i] <= slopes[i + 1]
  {
    var (p, n) := (hull[i], hull[i + 1]);
    assert Best(t, y, up, p, y[p], n, slopes[i]);
    assert Best(t, y, up, n, y[n], hull[i + 2], slopes[i + 1]);
    ChainSlopes(t, y, up, p, n, slopes[i], hull[i + 2], slopes[i + 1]);
  }

  /** Every chain moves strictly forward, so it has at most one vertex per sample. */
  lemma {:induction false} ChainLength(t: seq<real>, y: seq<real>, up: bool, hull: seq<nat>, slopes: seq<real>, i: nat)
    requires Chain(t, y, up, hull, slopes) && i < |hull|
    ensures i <= hull[i]
  {
    if i > 0 {
      ChainLength(t, y, up, hull, slopes, i - 1);
      assert Best(t, y, up, hull[i - 1], y[hull[i - 1]], hull[i], slopes[i - 1]);
    }
  }

  /** Shifting the point a line is anchored at. */
  lemma ReAnchor(ya: real, s: real, ta: real, yb: real, tb: real, tm: real)
    requires yb == Along(ya, s, ta, tb)
    ensures Along(ya, s, ta, tm) == Along(yb, s, tb, tm)
  {
    assert s * (tm - ta) == s * (tm - tb) + s * (tb - ta);
  }

  /** Every segment of the chain supports the curve: all samples lie outside its line. */
  lemma {:induction false} ChainSupports(t: seq<real>, y: seq<real>, up: bool, hull: seq<nat>, slopes: seq<real>,
                                         i: nat, m: nat)
    requires Chain(t, y, up, hull, slopes) && i < |slopes| && m < |t|
    ensures Outside(up, y[m], Along(y[hull[i]], slopes[i], t[hull[i]], t[m]))
    decreases i, 1
  {
    var (p, n) := (hull[i], hull[i + 1]);
    assert Best(t, y, up, p, y[p], n, slopes[i]);
    if m > p {
      LaterSamples(t, y, up, p, y[p], n, slopes[i], m);
    } else if m < p {
      SupportBefore(t, y, up, hull, slopes, i, m);
    } else {
      AtAnchor(y[p], slopes[i], t[p]);
    }
  }

  lemma {:induction false} SupportBefore(t: seq<real>, y: seq<real>, up: bool, hull: seq<nat>, slopes: seq<real>,
                                         i: nat, m: nat)
    requires Chain(t, y, up, hull, slopes) && i < |slopes| && m < hull[i]
    ensures Outside(up, y[m], Along(y[hull[i]], slopes[i], t[hull[i]], t[m]))
    decreases i, 0
  {
    var (o, p) := (hull[i - 1], hull[i]);
    assert Best(t, y, up, o, y[o], p, slopes[i - 1]);
    ChainSupports(t, y, up, hull, slopes, i - 1, m);
    SlopeTimes(t, y, o, y[o], p);
    ReAnchor(y[o], slopes[i - 1], t[o], y[p], t[p], t[m]);
    ChainMonotone(t, y, up, hull, slopes, i - 1);
    EarlierSample(up, t[m], y[m], t[p], y[p], slopes[i - 1], slopes[i]);
  }

  /** A line through a vertex of the chain whose slope lies between the adjacent ones supports the curve too. */
  lemma BetweenSupports(t: seq<real>, y: seq<real>, up: bool, hull: seq<nat>, slopes: seq<real>, i: nat, s: real, m: nat)
    requires Chain(t, y, up, hull, slopes) && i < |slopes| && m < |t|
    requires Worse(up, slopes[i], s) && (i > 0 ==> !Worse(up, slopes[i - 1], s))
    ensures Outside(up, y[m], Along(y[hull[i]], s, t[hull[i]], t[m]))
  {
    if m > hull[i] {
      BetweenAfter(t, y, up, hull, slopes, i, s, m);
    } else if m < hull[i] {
      BetweenBefore(t, y, up, hull, slopes, i, s, m);
    } else {
      AtAnchor(y[m], s, t[m]);
    }
  }

  lemma BetweenAfter(t: seq<real>, y: seq<real>, up: bool, hull: seq<nat>, slopes: seq<real>, i: nat, s: real, m: nat)
    requires Chain(t, y, up, hull, slopes) && i < |slopes| && hull[i] < m < |t| && Worse(up, slopes[i], s)
    ensures Outside(up, y[m], Along(y[hull[i]], s, t[hull[i]], t[m]))
  {
    var p := hull[i];
    assert Best(t, y, up, p, y[p], hull[i + 1], slopes[i]);
    LaterSamples(t, y, up, p, y[p], hull[i + 1], slopes[i], m);
    LaterSample(up, t[m], y[m], t[p], y[p], slopes[i], s);
  }

  /** Turning a line about its left end, away from a later sample, keeps it outside. */
  lemma LaterSample(up: bool, tm: real, ym: real, tp: real, yp: real, s: real, s': real)
    requires tm >= tp && Outside(up, ym, Along(yp, s, tp, tm)) && Worse(up, s, s')
    ensures Outside(up, ym, Along(yp, s', tp, tm))
  {
    if up {
      AlongOrder(yp, s, s', tp, tm);
    } else {
      AlongOrder(yp, s', s, tp, tm);
    }
  }

  lemma BetweenBefore(t: seq<real>, y: seq<real>, up: bool, hull: seq<nat>, slopes: seq<real>, i: nat, s: real, m: nat)
    requires Chain(t, y, up, hull, slopes) && i < |slopes| && m < hull[i]
    requires i > 0 ==> !Worse(up, slopes[i - 1], s)
    ensures Outside(up, y[m], Along(y[hull[i]], s, t[hull[i]], t[m]))
  {
    var (o, p) := (hull[i - 1], hull[i]);
    assert Best(t, y, up, o, y[o], p, slopes[i - 1]);
    ChainSupports(t, y, up, hull, slopes, i - 1, m);
    SlopeTimes(t, y, o, y[o], p);
    ReAnchor(y[o], slopes[i - 1], t[o], y[p], t[p], t[m]);
    EarlierSample(up, t[m], y[m], t[p], y[p], slopes[i - 1], s);
  }
}
