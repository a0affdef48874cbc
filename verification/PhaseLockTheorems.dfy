/** What passes 1 to 3 of contemplate_data (ExtLibs/Ntp/phaselock.c) achieve. */
module PhaseLockTheorems {
  import opened Options
  import opened Envelope
  import opened PhaseLock
  import opened PhaseLockRing

  /** Every sample of the curve y lies outside the line. */
  ghost predicate Supports(up: bool, seg: Seg, t: seq<real>, y: seq<real>) {
    |t| == |y| && |t| > 0 && forall m {:trigger SupportsAt(up, seg, t, y, m)} :: 0 <= m < |t| ==> SupportsAt(up, seg, t, y, m)
  }

  ghost predicate SupportsAt(up: bool, seg: Seg, t: seq<real>, y: seq<real>, m: nat)
    requires |t| == |y| && m < |t|
  {
    Outside(up, y[m], LineAt(seg, t[|t| - 1], t[m]))
  }

  /** hull and slopes are a chain that has reached ring index j, last being its latest slope. */
  ghost predicate Reaches(t: seq<real>, y: seq<real>, up: bool, hull: seq<nat>, slopes: seq<real>, p: nat, last: real) {
    && Chain(t, y, up, hull, slopes) && hull[|hull| - 1] == p
    && (|slopes| > 0 ==> last == slopes[|slopes| - 1])
  }

  lemma LineThrough(seg: Seg, t: seq<real>, y: seq<real>, n: nat, tm: real)
    requires IsSegment(seg, t, y, n)
    ensures LineAt(seg, t[|t| - 1], tm) == Along(y[n], seg.slope, t[n], tm)
  {
    ReAnchor(y[n], seg.slope, t[n], seg.offset, t[|t| - 1], tm);
  }

  /** A line found by a search goes through the point the search started from. */
  lemma LineFrom(seg: Seg, t: seq<real>, y: seq<real>, up: bool, p: nat, start: real, n: nat, tm: real)
    requires Best(t, y, up, p, start, n, seg.slope) && IsSegment(seg, t, y, n)
    ensures LineAt(seg, t[|t| - 1], tm) == Along(start, seg.slope, t[p], tm)
  {
    SlopeTimes(t, y, p, start, n);
    ReAnchor(start, seg.slope, t[p], y[n], t[n], tm);
    LineThrough(seg, t, y, n, tm);
  }

  lemma SearchIsBest(ring: seq<Datum>, rp: nat, j: nat, s0: nat, s1: nat, sign: bool)
    requires |ring| == RING_SIZE && rp < RING_SIZE && j < RING_SIZE && j != rp
    requires Increasing(Times(Chronological(ring, rp)))
    ensures var d := Chronological(ring, rp);
      var (r, p) := (SearchFrom(ring, rp, j, s0, s1, sign), Position(rp, j));
      var n := Position(rp, r.0);
      Best(Times(d), Values(d, s0), sign, p, Values(d, s1)[p], n, r.1.slope) &&
      IsSegment(r.1, Times(d), Values(d, s0), n)
  {
    var p := Position(rp, j);
    SearchFound(ring, rp, j, p, s0, s1, sign);
    var (d, r) := (Chronological(ring, rp), SearchFrom(ring, rp, j, s0, s1, sign));
    BestBelowAll(Times(d), Values(d, s0), sign, p, Values(d, s1)[p], Position(rp, r.0), r.1.slope);
  }

  lemma BestBelowAll(t: seq<real>, y: seq<real>, up: bool, p: nat, start: real, n: nat, s: real)
    requires BestBelow(t, y, up, p, start, n, s, |t|)
    ensures Best(t, y, up, p, start, n, s)
  {
  }

  lemma SearchFound(ring: seq<Datum>, rp: nat, j: nat, p: nat, s0: nat, s1: nat, sign: bool)
    requires |ring| == RING_SIZE && rp < RING_SIZE && j < RING_SIZE && j != rp && p == Position(rp, j)
    requires Increasing(Times(Chronological(ring, rp)))
    ensures Found(ring, rp, p, s0, s1, sign, SearchFrom(ring, rp, j, s0, s1, sign), RING_SIZE)
  {
    IndexPosition(rp, p);
    ScanFindsBest(ring, rp, p, s0, s1, sign, p + 1, None);
  }

  /** One more vertex extends the chain. */
  lemma Extend(t: seq<real>, y: seq<real>, up: bool, hull: seq<nat>, slopes: seq<real>, p: nat, last: real, n: nat, s: real)
    requires Reaches(t, y, up, hull, slopes, p, last) && Best(t, y, up, p, y[p], n, s)
    ensures Reaches(t, y, up, hull + [n], slopes + [s], n, s)
  {
    var (h, q) := (hull + [n], slopes + [s]);
    forall i | 0 <= i < |q|
      ensures Best(t, y, up, h[i], y[h[i]], h[i + 1], q[i])
    {
      assert i < |slopes| ==> Best(t, y, up, hull[i], y[hull[i]], hull[i + 1], slopes[i]);
    }
  }

  /** The last line of a chain supports the curve. */
  lemma LastSupports(t: seq<real>, y: seq<real>, up: bool, hull: seq<nat>, slopes: seq<real>, seg: Seg)
    requires Chain(t, y, up, hull, slopes) && |slopes| > 0
    requires seg.slope == slopes[|slopes| - 1] && IsSegment(seg, t, y, hull[|hull| - 1])
    ensures Supports(up, seg, t, y)
  {
    forall m | 0 <= m < |t|
      ensures SupportsAt(up, seg, t, y, m)
    {
      LastSupportsAt(t, y, up, hull, slopes, seg, |slopes| - 1, m);
    }
  }

  lemma LastSupportsAt(t: seq<real>, y: seq<real>, up: bool, hull: seq<nat>, slopes: seq<real>, seg: Seg, i: nat, m: nat)
    requires Chain(t, y, up, hull, slopes) && i < |slopes| && m < |t|
    requires seg.slope == slopes[i] && IsSegment(seg, t, y, hull[i + 1])
    ensures SupportsAt(up, seg, t, y, m)
  {
    var (p, n) := (hull[i], hull[i + 1]);
    ChainSupports(t, y, up, hull, slopes, i, m);
    assert Best(t, y, up, p, y[p], n, slopes[i]);
    LineFrom(seg, t, y, up, p, y[p], n, t[m]);
  }

  /** A crossing line kept by pass 2 or 3 supports the curve it starts from. */
  lemma KeptSupports(t: seq<real>, y: seq<real>, z: seq<real>, up: bool, hull: seq<nat>, slopes: seq<real>,
                     check: Seg, n: nat)
    requires Chain(t, y, up, hull, slopes) && |slopes| > 0 && |z| == |t|
    requires var (i, p) := (|slopes| - 1, hull[|slopes| - 1]);
      Best(t, z, !up, p, y[p], n, check.slope) && IsSegment(check, t, z, n) &&
      Worse(up, slopes[i], check.slope) && (i > 0 ==> Worse(up, check.slope, slopes[i - 1]))
    ensures Supports(up, check, t, y)
  {
    forall m | 0 <= m < |t|
      ensures SupportsAt(up, check, t, y, m)
    {
      KeptAt(t, y, z, up, hull, slopes, check, n, |slopes| - 1, hull[|slopes| - 1], m);
    }
  }

  lemma KeptAt(t: seq<real>, y: seq<real>, z: seq<real>, up: bool, hull: seq<nat>, slopes: seq<real>,
               check: Seg, n: nat, i: nat, p: nat, m: nat)
    requires Chain(t, y, up, hull, slopes) && i < |slopes| && p == hull[i] && |z| == |t| && m < |t|
    requires Best(t, z, !up, p, y[p], n, check.slope) && IsSegment(check, t, z, n)
    requires Worse(up, slopes[i], check.slope) && (i > 0 ==> Worse(up, check.slope, slopes[i - 1]))
    ensures Outside(up, y[m], LineAt(check, t[|t| - 1], t[m]))
  {
    BetweenSupports(t, y, up, hull, slopes, i, check.slope, m);
    LineFrom(check, t, z, !up, p, y[p], n, t[m]);
  }

  // ----- one vertex, then all of them

  /** The line of step s from position p is the best on its own curve y, its check the best from y[p] to curve z. */
  ghost predicate BestStep(s: Step, rp: nat, up: bool, p: nat, t: seq<real>, y: seq<real>, z: seq<real>)
    requires rp < RING_SIZE && s.next < RING_SIZE && s.far < RING_SIZE
  {
    && |t| == |y| == |z| && p < |t|
    && Best(t, y, up, p, y[p], Position(rp, s.next), s.seg.slope)
    && IsSegment(s.seg, t, y, Position(rp, s.next))
    && Best(t, z, !up, p, y[p], Position(rp, s.far), s.check.slope)
    && IsSegment(s.check, t, z, Position(rp, s.far))
  }

  ghost predicate BestSteps(steps: seq<Step>, rp: nat, up: bool, t: seq<real>, y: seq<real>, z: seq<real>)
    requires Advance(steps, rp)
  {
    forall j {:trigger steps[j]} :: 0 <= j < RING_SIZE && j != rp ==>
      BestStep(steps[j], rp, up, Position(rp, j), t, y, z)
  }

  lemma StepFromIsBest(ring: seq<Datum>, rp: nat, up: bool, j: nat, s: Step, t: seq<real>, y: seq<real>, z: seq<real>)
    requires |ring| == RING_SIZE && rp < RING_SIZE && j < RING_SIZE && j != rp && s == StepFrom(ring, rp, up, j)
    requires var d := Chronological(ring, rp); t == Times(d) && y == Values(d, OwnCurve(up)) && z == Values(d, 1 - OwnCurve(up))
    requires Increasing(t)
    ensures BestStep(s, rp, up, Position(rp, j), t, y, z)
  {
    SearchIsBest(ring, rp, j, OwnCurve(up), OwnCurve(up), up);
    SearchIsBest(ring, rp, j, 1 - OwnCurve(up), OwnCurve(up), !up);
  }

  lemma StepsAreBest(ring: seq<Datum>, rp: nat, up: bool, steps: seq<Step>, t: seq<real>, y: seq<real>, z: seq<real>)
    requires |ring| == RING_SIZE && rp < RING_SIZE && steps == Steps(ring, rp, up) && Advance(steps, rp)
    requires var d := Chronological(ring, rp); t == Times(d) && y == Values(d, OwnCurve(up)) && z == Values(d, 1 - OwnCurve(up))
    requires Increasing(t)
    ensures BestSteps(steps, rp, up, t, y, z)
  {
    forall j {:trigger steps[j]} | 0 <= j < RING_SIZE && j != rp
      ensures BestStep(steps[j], rp, up, Position(rp, j), t, y, z)
    {
      StepFromIsBest(ring, rp, up, j, steps[j], t, y, z);
    }
  }

  lemma StepChain(s: Step, rp: nat, up: bool, p: nat, last: real, hull: seq<nat>, slopes: seq<real>,
                  t: seq<real>, y: seq<real>, z: seq<real>)
    requires rp < RING_SIZE && s.next < RING_SIZE && s.far < RING_SIZE && BestStep(s, rp, up, p, t, y, z)
    requires Reaches(t, y, up, hull, slopes, p, last)
    ensures Reaches(t, y, up, hull + [Position(rp, s.next)], slopes + [s.seg.slope], Position(rp, s.next), s.seg.slope)
    ensures Supports(up, s.seg, t, y)
  {
    var n := Position(rp, s.next);
    Extend(t, y, up, hull, slopes, p, last, n, s.seg.slope);
    LastSupports(t, y, up, hull + [n], slopes + [s.seg.slope], s.seg);
  }

  lemma StepKept(s: Step, rp: nat, up: bool, p: nat, last: real, save: Option<Seg>, hull: seq<nat>, slopes: seq<real>,
                 t: seq<real>, y: seq<real>, z: seq<real>)
    requires rp < RING_SIZE && s.next < RING_SIZE && s.far < RING_SIZE && BestStep(s, rp, up, p, t, y, z)
    requires Reaches(t, y, up, hull, slopes, p, last) && Keeps(up, s.check, s.seg, last, save)
    ensures Supports(up, s.check, t, y)
  {
    StepChain(s, rp, up, p, last, hull, slopes, t, y, z);
    KeptSupports(t, y, z, up, hull + [Position(rp, s.next)], slopes + [s.seg.slope], s.check, Position(rp, s.far));
  }

  ghost predicate AllSupport(up: bool, segs: seq<Seg>, t: seq<real>, y: seq<real>) {
    forall i :: 0 <= i < |segs| ==> Supports(up, segs[i], t, y)
  }

  /** Slopes run the right way: strictly down for the upper envelope, never down for the lower one. */
  predicate Ordered(up: bool, a: real, b: real) {
    if up then a > b else a <= b
  }

  predicate AllOrdered(up: bool, segs: seq<Seg>) {
    forall i :: 0 <= i < |segs| - 1 ==> Ordered(up, segs[i].slope, segs[i + 1].slope)
  }

  lemma AllOrderedCons(up: bool, seg: Seg, segs: seq<Seg>)
    requires AllOrdered(up, segs) && (segs != [] ==> Ordered(up, seg.slope, segs[0].slope))
    ensures AllOrdered(up, [seg] + segs)
  {
    var all := [seg] + segs;
    forall i | 0 <= i < |all| - 1
      ensures Ordered(up, all[i].slope, all[i + 1].slope)
    {
      assert i > 0 ==> Ordered(up, segs[i - 1].slope, segs[i].slope);
    }
  }

  /** All lines found from vertex j on support the curve, and so does the crossing line that is kept. */
  lemma {:induction false} WrapSupports(steps: seq<Step>, rp: nat, up: bool, j: nat, last: real, save: Option<Seg>,
                                        hull: seq<nat>, slopes: seq<real>, t: seq<real>, y: seq<real>, z: seq<real>)
    requires Advance(steps, rp) && j < RING_SIZE && BestSteps(steps, rp, up, t, y, z)
    requires Reaches(t, y, up, hull, slopes, Position(rp, j), last)
    requires save.Some? ==> Supports(up, save.value, t, y)
    ensures var w := Wrap(steps, rp, up, j, last, save);
      AllSupport(up, w.segs, t, y) && (w.save.Some? ==> Supports(up, w.save.value, t, y))
    decreases RING_SIZE - Position(rp, j)
  {
    if j != rp {
      var (s, p) := (steps[j], Position(rp, j));
      StepChain(s, rp, up, p, last, hull, slopes, t, y, z);
      if Keeps(up, s.check, s.seg, last, save) {
        StepKept(s, rp, up, p, last, save, hull, slopes, t, y, z);
      }
      WrapSupports(steps, rp, up, s.next, s.seg.slope, Kept(up, s, last, save),
                   hull + [Position(rp, s.next)], slopes + [s.seg.slope], t, y, z);
    }
  }

  /** The slopes found from vertex j on continue those of the chain so far in order. */
  lemma {:induction false} WrapOrdered(steps: seq<Step>, rp: nat, up: bool, j: nat, last: real, save: Option<Seg>,
                                       hull: seq<nat>, slopes: seq<real>, t: seq<real>, y: seq<real>, z: seq<real>)
    requires Advance(steps, rp) && j < RING_SIZE && BestSteps(steps, rp, up, t, y, z)
    requires Reaches(t, y, up, hull, slopes, Position(rp, j), last)
    ensures var w := Wrap(steps, rp, up, j, last, save);
      (|slopes| > 0 && w.segs != [] ==> Ordered(up, last, w.segs[0].slope)) && AllOrdered(up, w.segs)
    decreases RING_SIZE - Position(rp, j)
  {
    if j != rp {
      var (s, p) := (steps[j], Position(rp, j));
      StepChain(s, rp, up, p, last, hull, slopes, t, y, z);
      var (hull', slopes', save') := (hull + [Position(rp, s.next)], slopes + [s.seg.slope], Kept(up, s, last, save));
      if |slopes| > 0 {
        ChainMonotone(t, y, up, hull', slopes', |slopes| - 1);
      }
      WrapOrdered(steps, rp, up, s.next, s.seg.slope, save', hull', slopes', t, y, z);
      AllOrderedCons(up, s.seg, Wrap(steps, rp, up, s.next, s.seg.slope, save').segs);
    }
  }

  /** v moves strictly forward in time from position p on. */
  predicate Forward(rp: nat, p: nat, v: seq<nat>)
    requires rp < RING_SIZE
    decreases |v|
  {
    v != [] ==> v[0] < RING_SIZE && p < Position(rp, v[0]) && Forward(rp, Position(rp, v[0]), v[1..])
  }

  /** The vertices move strictly forward in time and end at the newest sample. */
  lemma {:induction false} WrapForward(steps: seq<Step>, rp: nat, up: bool, j: nat, last: real, save: Option<Seg>)
    requires Advance(steps, rp) && j < RING_SIZE
    ensures var v := Wrap(steps, rp, up, j, last, save).verts;
      (j != rp ==> v != [] && v[|v| - 1] == rp) && Forward(rp, Position(rp, j), v)
    decreases RING_SIZE - Position(rp, j)
  {
    if j != rp {
      var s := steps[j];
      var v := Wrap(steps, rp, up, s.next, s.seg.slope, Kept(up, s, last, save)).verts;
      WrapForward(steps, rp, up, s.next, s.seg.slope, Kept(up, s, last, save));
      assert ([s.next] + v)[1..] == v;
    }
  }

  /** A chain of one vertex, the oldest sample. */
  lemma WrapStart(rp: nat, up: bool, t: seq<real>, y: seq<real>)
    requires rp < RING_SIZE && |t| == |y| == RING_SIZE
    ensures Position(rp, NextUp(rp)) == 0 && Reaches(t, y, up, [0], [], 0, StartSlope(up))
  {
  }

  /** The vertices run strictly forward in time from the oldest sample to the newest, in at most 15 lines. */
  lemma EnvelopeReachesNewest(ring: seq<Datum>, rp: nat, up: bool)
    requires |ring| == RING_SIZE && rp < RING_SIZE
    ensures var w := WrapAll(ring, rp, up);
      1 <= |w.segs| == |w.verts| <= 15 && w.verts[|w.verts| - 1] == rp && Forward(rp, 0, w.verts)
  {
    var steps := Steps(ring, rp, up);
    StepsAdvance(ring, rp, up);
    WrapLength(steps, rp, up, NextUp(rp), StartSlope(up), None);
    WrapForward(steps, rp, up, NextUp(rp), StartSlope(up), None);
  }

  /** Pass 2 finds its lines in order of non-decreasing slope, pass 3 in order of decreasing slope. */
  lemma EnvelopeOrdered(ring: seq<Datum>, rp: nat, up: bool)
    requires |ring| == RING_SIZE && rp < RING_SIZE && Increasing(Times(Chronological(ring, rp)))
    ensures AllOrdered(up, WrapAll(ring, rp, up).segs)
  {
    var d := Chronological(ring, rp);
    var (t, y, z) := (Times(d), Values(d, OwnCurve(up)), Values(d, 1 - OwnCurve(up)));
    WrapStart(rp, up, t, y);
    var steps := Steps(ring, rp, up);
    StepsAdvance(ring, rp, up);
    StepsAreBest(ring, rp, up, steps, t, y, z);
    WrapOrdered(steps, rp, up, NextUp(rp), StartSlope(up), None, [0], [], t, y, z);
  }

  /**
   Every line of pass 2 lies at or below every max and every line of pass 3 at or above every min; so
   does the crossing line each of them keeps for pass 4.
   */
  lemma EnvelopeSupports(ring: seq<Datum>, rp: nat, up: bool)
    requires |ring| == RING_SIZE && rp < RING_SIZE && Increasing(Times(Chronological(ring, rp)))
    ensures var d := Chronological(ring, rp);
      var (t, y, w) := (Times(d), Values(d, OwnCurve(up)), WrapAll(ring, rp, up));
      AllSupport(up, w.segs, t, y) && (w.save.Some? ==> Supports(up, w.save.value, t, y))
  {
    var d := Chronological(ring, rp);
    var (t, y, z) := (Times(d), Values(d, OwnCurve(up)), Values(d, 1 - OwnCurve(up)));
    WrapStart(rp, up, t, y);
    var steps := Steps(ring, rp, up);
    StepsAdvance(ring, rp, up);
    StepsAreBest(ring, rp, up, steps, t, y, z);
    WrapSupports(steps, rp, up, NextUp(rp), StartSlope(up), None, [0], [], t, y, z);
  }

  // ----- what the crossing lines mean

  /** The line lies between both curves at every sample, y being the own curve and z the other. */
  ghost predicate Fits(up: bool, line: Seg, t: seq<real>, y: seq<real>, z: seq<real>) {
    Supports(up, line, t, y) && Supports(!up, line, t, z)
  }

  lemma LineMoves(line: Seg, now: real, a: real, b: real)
    ensures LineAt(line, now, b) == LineAt(line, now, a) + line.slope * (b - a)
  {
    assert line.slope * (b - now) == line.slope * (a - now) + line.slope * (b - a);
  }

  lemma SlopeBound(up: bool, yp: real, zn: real, lp: real, ln: real, c: real, l: real, tp: real, tn: real)
    requires Outside(up, yp, lp) && Outside(!up, zn, ln) && tn > tp
    requires zn == Along(yp, c, tp, tn) && ln == Along(lp, l, tp, tn)
    ensures Outside(up, l, c)
  {
    if c > l {
      AlongParts(yp, c, l, tp, tn);
    } else if c < l {
      AlongParts(yp, l, c, tp, tn);
    }
    AlongShift(yp, lp, l, tp, tn);
  }

  /** Parallel lines keep their distance. */
  lemma AlongShift(ya: real, yb: real, s: real, a: real, b: real)
    ensures Along(ya, s, a, b) - Along(yb, s, a, b) == ya - yb
  {
  }

  /** Two different slopes part away from the anchor. */
  lemma SlopesPart(a: real, c: real, d: real)
    requires d != 0.0 && a > c
    ensures if d > 0.0 then a * d > c * d else a * d < c * d
  {
    assert (a - c) * d == a * d - c * d;
    if d > 0.0 {
      SignOfProduct(a - c, d);
    } else {
      SignOfProduct(a - c, -d);
      assert (a - c) * -d == -((a - c) * d);
    }
  }

  lemma AlongParts(yp: real, a: real, c: real, tp: real, tm: real)
    requires tm != tp && a > c
    ensures if tm > tp then Along(yp, a, tp, tm) > Along(yp, c, tp, tm) else Along(yp, a, tp, tm) < Along(yp, c, tp, tm)
  {
    SlopesPart(a, c, tm - tp);
  }

  /** The values of a line that fits, at two samples. */
  lemma FitsAt(up: bool, line: Seg, t: seq<real>, y: seq<real>, z: seq<real>, p: nat, m: nat) returns (lp: real, lm: real)
    requires Fits(up, line, t, y, z) && p < |t| && m < |t|
    ensures Outside(up, y[p], lp) && Outside(!up, z[m], lm) && lm == Along(lp, line.slope, t[p], t[m])
    ensures lm == LineAt(line, t[|t| - 1], t[m])
  {
    var now := t[|t| - 1];
    lp, lm := LineAt(line, now, t[p]), LineAt(line, now, t[m]);
    LineMoves(line, now, t[p], t[m]);
    assert SupportsAt(up, line, t, y, p) && SupportsAt(!up, line, t, z, m);
  }

  /** No line that fits leaves the crossing line behind in slope. */
  lemma CrossingBounds(up: bool, p: nat, t: seq<real>, y: seq<real>, z: seq<real>, n: nat, check: real, line: Seg)
    requires |t| == |y| && p < |t| && Best(t, z, !up, p, y[p], n, check) && Fits(up, line, t, y, z)
    ensures Outside(up, line.slope, check)
  {
    SlopeTimes(t, z, p, y[p], n);
    var lp, ln := FitsAt(up, line, t, y, z, p, n);
    SlopeBound(up, y[p], z[n], lp, ln, check, line.slope, t[p], t[n]);
  }

  /** When some line fits, the crossing line is on the right side of the other curve at every sample. */
  lemma CrossingFits(up: bool, p: nat, t: seq<real>, y: seq<real>, z: seq<real>, n: nat, check: real, line: Seg, m: nat)
    requires |t| == |y| && p < |t| && Best(t, z, !up, p, y[p], n, check) && Fits(up, line, t, y, z) && m < |t|
    ensures Outside(!up, z[m], Along(y[p], check, t[p], t[m]))
  {
    if m > p {
      LaterSamples(t, z, !up, p, y[p], n, check, m);
    } else {
      CrossingFitsBefore(up, p, t, y, z, n, check, line, m);
    }
  }

  lemma CrossingFitsBefore(up: bool, p: nat, t: seq<real>, y: seq<real>, z: seq<real>, n: nat, check: real, line: Seg, m: nat)
    requires |t| == |y| && p < |t| && Best(t, z, !up, p, y[p], n, check) && Fits(up, line, t, y, z) && m <= p
    ensures Outside(!up, z[m], Along(y[p], check, t[p], t[m]))
  {
    CrossingBounds(up, p, t, y, z, n, check, line);
    var lp, lm := FitsAt(up, line, t, y, z, p, m);
    TurnedBack(up, y[p], z[m], lp, lm, line.slope, check, t[p], t[m]);
  }

  lemma TurnedBack(up: bool, yp: real, zm: real, lp: real, lm: real, a: real, b: real, tp: real, tm: real)
    requires Outside(up, a, b) && tm <= tp && lm == Along(lp, a, tp, tm) && Outside(up, yp, lp) && Outside(!up, zm, lm)
    ensures Outside(!up, zm, Along(yp, b, tp, tm))
  {
    AlongShift(yp, lp, b, tp, tm);
    if tm == tp {
      AtAnchor(lp, a, tp);
      AtAnchor(lp, b, tp);
    } else if up {
      AlongOrder(lp, a, b, tp, tm);
    } else {
      AlongOrder(lp, b, a, tp, tm);
    }
  }

  /** Both in terms of the stored line. */
  lemma CheckFits(s: Step, rp: nat, up: bool, p: nat, t: seq<real>, y: seq<real>, z: seq<real>, line: Seg)
    requires rp < RING_SIZE && s.next < RING_SIZE && s.far < RING_SIZE && BestStep(s, rp, up, p, t, y, z)
    requires Fits(up, line, t, y, z)
    ensures Supports(!up, s.check, t, z) && Outside(up, line.slope, s.check.slope)
  {
    var n := Position(rp, s.far);
    CrossingBounds(up, p, t, y, z, n, s.check.slope, line);
    var other := !up;
    forall m | 0 <= m < |t|
      ensures SupportsAt(other, s.check, t, z, m)
    {
      CheckFitsAt(s.check, up, p, t, y, z, n, line, m);
    }
  }

  lemma CheckFitsAt(check: Seg, up: bool, p: nat, t: seq<real>, y: seq<real>, z: seq<real>, n: nat, line: Seg, m: nat)
    requires |t| == |y| == |z| && p < |t| && m < |t| && Best(t, z, !up, p, y[p], n, check.slope) && IsSegment(check, t, z, n)
    requires Fits(up, line, t, y, z)
    ensures SupportsAt(!up, check, t, z, m)
  {
    LineFrom(check, t, z, !up, p, y[p], n, t[m]);
    CrossingFits(up, p, t, y, z, n, check.slope, line, m);
  }

  /** save fits the other curve, and bounds the slope of the given line. */
  ghost predicate Extreme(up: bool, save: Option<Seg>, line: Seg, t: seq<real>, z: seq<real>) {
    save.Some? ==> Supports(!up, save.value, t, z) && Outside(up, line.slope, save.value.slope)
  }

  lemma {:induction false} WrapExtreme(steps: seq<Step>, rp: nat, up: bool, j: nat, last: real, save: Option<Seg>,
                                       t: seq<real>, y: seq<real>, z: seq<real>, line: Seg)
    requires Advance(steps, rp) && j < RING_SIZE && BestSteps(steps, rp, up, t, y, z) && Fits(up, line, t, y, z)
    requires Extreme(up, save, line, t, z)
    ensures Extreme(up, Wrap(steps, rp, up, j, last, save).save, line, t, z)
    decreases RING_SIZE - Position(rp, j)
  {
    if j != rp {
      var (s, p) := (steps[j], Position(rp, j));
      CheckFits(s, rp, up, p, t, y, z, line);
      WrapExtreme(steps, rp, up, s.next, s.seg.slope, Kept(up, s, last, save), t, y, z, line);
    }
  }

  lemma ConsistentFits(up: bool, line: Seg, t: seq<real>, y: seq<real>, z: seq<real>, low: seq<real>, high: seq<real>)
    requires |t| == |y| == |z| && if up then y == low && z == high else y == high && z == low
    ensures Fits(up, line, t, y, z) <==> Consistent(line, t, low, high)
  {
    var other := !up;
    if Fits(up, line, t, y, z) {
      forall m | 0 <= m < |t|
        ensures low[m] <= LineAt(line, t[|t| - 1], t[m]) <= high[m]
      {
        assert SupportsAt(up, line, t, y, m) && SupportsAt(other, line, t, z, m);
      }
    }
  }

  /**
   If some line is consistent with all samples, the crossing line kept by pass 2 is itself consistent and
   has the smallest slope of all consistent lines; the one kept by pass 3 has the largest.
   */
  lemma CrossingIsExtreme(ring: seq<Datum>, rp: nat, up: bool, line: Seg)
    requires |ring| == RING_SIZE && rp < RING_SIZE && Increasing(Times(Chronological(ring, rp)))
    requires var d := Chronological(ring, rp); Consistent(line, Times(d), Values(d, 0), Values(d, 1))
    ensures var (d, save) := (Chronological(ring, rp), WrapAll(ring, rp, up).save);
      save.Some? ==> Consistent(save.value, Times(d), Values(d, 0), Values(d, 1)) &&
                     Outside(up, line.slope, save.value.slope)
  {
    var d := Chronological(ring, rp);
    var (t, y, z) := (Times(d), Values(d, OwnCurve(up)), Values(d, 1 - OwnCurve(up)));
    var steps := Steps(ring, rp, up);
    StepsAdvance(ring, rp, up);
    StepsAreBest(ring, rp, up, steps, t, y, z);
    ConsistentFits(up, line, t, y, z, Values(d, 0), Values(d, 1));
    WrapExtreme(steps, rp, up, NextUp(rp), StartSlope(up), None, t, y, z, line);
    EnvelopeSupports(ring, rp, up);
    var save := WrapAll(ring, rp, up).save;
    if save.Some? {
      ConsistentFits(up, save.value, t, y, z, Values(d, 0), Values(d, 1));
    }
  }

  /** From a sample without error the best crossing line is at least as steep as the best line, so it is not kept. */
  lemma ExactStepNotKept(s: Step, rp: nat, up: bool, p: nat, t: seq<real>, y: seq<real>, last: real, save: Option<Seg>)
    requires rp < RING_SIZE && s.next < RING_SIZE && s.far < RING_SIZE && BestStep(s, rp, up, p, t, y, y)
    ensures Kept(up, s, last, save) == save
  {
    assert y[Position(rp, s.far)] == y[Position(rp, s.far)];
  }

  lemma {:induction false} ExactNotKept(steps: seq<Step>, rp: nat, up: bool, j: nat, last: real, t: seq<real>, y: seq<real>)
    requires Advance(steps, rp) && j < RING_SIZE && BestSteps(steps, rp, up, t, y, y)
    ensures Wrap(steps, rp, up, j, last, None).save == None
    decreases RING_SIZE - Position(rp, j)
  {
    if j != rp {
      var s := steps[j];
      ExactStepNotKept(s, rp, up, Position(rp, j), t, y, last, None);
      ExactNotKept(steps, rp, up, s.next, s.seg.slope, t, y);
    }
  }

  /**
   Samples without any error are called inconsistent even when they lie on one line: no crossing line is
   strictly less steep than the envelope, so pass 2 and pass 3 keep none.
   */
  lemma ExactSamplesRejected(ring: seq<Datum>, rp: nat, up: bool)
    requires |ring| == RING_SIZE && rp < RING_SIZE && Increasing(Times(Chronological(ring, rp)))
    requires var d := Chronological(ring, rp); Values(d, 0) == Values(d, 1)
    ensures WrapAll(ring, rp, up).save == None
  {
    var d := Chronological(ring, rp);
    var (t, y) := (Times(d), Values(d, 0));
    var steps := Steps(ring, rp, up);
    StepsAdvance(ring, rp, up);
    StepsAreBest(ring, rp, up, steps, t, y, y);
    ExactNotKept(steps, rp, up, NextUp(rp), StartSlope(up), t, y);
  }

  // ----- which crossing line is kept

  /** The crossing lines from vertex j on that are less steep than the envelope's line and steeper than its last one. */
  ghost function Crossings(steps: seq<Step>, rp: nat, up: bool, j: nat, last: real): seq<Seg>
    requires Advance(steps, rp) && j < RING_SIZE
    decreases RING_SIZE - Position(rp, j)
  {
    if j == rp then []
    else
      var s := steps[j];
      var between := if up then s.seg.slope < s.check.slope < last else last < s.check.slope < s.seg.slope;
      (if between then [s.check] else []) + Crossings(steps, rp, up, s.next, s.seg.slope)
  }

  /** r is the first line of smallest slope among the one saved before and then cs. */
  ghost predicate FirstSmallest(r: Option<Seg>, save: Option<Seg>, cs: seq<Seg>) {
    || (r == save && (save.None? ==> cs == []) && forall i :: 0 <= i < |cs| ==> save.value.slope <= cs[i].slope)
    || exists i :: 0 <= i < |cs| && r == Some(cs[i]) && SmallestAt(save, cs, i)
  }

  ghost predicate SmallestAt(save: Option<Seg>, cs: seq<Seg>, i: nat)
    requires i < |cs|
  {
    && (save.Some? ==> cs[i].slope < save.value.slope)
    && (forall k :: 0 <= k < i ==> cs[i].slope < cs[k].slope) && forall k :: i < k < |cs| ==> cs[i].slope <= cs[k].slope
  }

  lemma FirstSmallestCons(r: Option<Seg>, save: Option<Seg>, c: Seg, cs: seq<Seg>)
    requires FirstSmallest(r, if save.None? || c.slope < save.value.slope then Some(c) else save, cs)
    ensures FirstSmallest(r, save, [c] + cs)
  {
    var (better, all) := (save.None? || c.slope < save.value.slope, [c] + cs);
    var save' := if better then Some(c) else save;
    if r == save' && forall i :: 0 <= i < |cs| ==> save'.value.slope <= cs[i].slope {
      if better {
        assert all[0] == c && SmallestAt(save, all, 0);
      }
    } else {
      var i :| 0 <= i < |cs| && r == Some(cs[i]) && SmallestAt(save', cs, i);
      assert all[i + 1] == cs[i] && SmallestAt(save, all, i + 1);
    }
  }

  lemma {:induction false} WrapKeepsSmallest(steps: seq<Step>, rp: nat, up: bool, j: nat, last: real, save: Option<Seg>)
    requires Advance(steps, rp) && j < RING_SIZE
    ensures FirstSmallest(Wrap(steps, rp, up, j, last, save).save, save, Crossings(steps, rp, up, j, last))
    decreases RING_SIZE - Position(rp, j)
  {
    if j != rp {
      var s := steps[j];
      var (save', cs) := (Kept(up, s, last, save), Crossings(steps, rp, up, s.next, s.seg.slope));
      var r := Wrap(steps, rp, up, s.next, s.seg.slope, save').save;
      WrapKeepsSmallest(steps, rp, up, s.next, s.seg.slope, save');
      if Worse(up, s.seg.slope, s.check.slope) && Worse(up, s.check.slope, last) {
        FirstSmallestCons(r, save, s.check, cs);
      } else {
        assert [] + cs == cs;
      }
    }
  }

  /**
   Each pass keeps the first of the smallest slope among the crossing lines that are strictly between the slopes of
   two successive lines of its envelope, or between 500 in absolute value and that of the first line.
   */
  lemma SmallestCrossingKept(ring: seq<Datum>, rp: nat, up: bool)
    requires |ring| == RING_SIZE && rp < RING_SIZE
    ensures Advance(Steps(ring, rp, up), rp)
    ensures FirstSmallest(WrapAll(ring, rp, up).save, None,
                          Crossings(Steps(ring, rp, up), rp, up, NextUp(rp), if up then 500.0 else -500.0))
  {
    StepsAdvance(ring, rp, up);
    WrapKeepsSmallest(Steps(ring, rp, up), rp, up, NextUp(rp), StartSlope(up), None);
  }

  // ----- when a crossing line is kept

  /** The line goes through sample m of the curve. */
  ghost predicate Touches(line: Seg, t: seq<real>, y: seq<real>, m: nat)
    requires |t| == |y| && m < |t|
  {
    y[m] == LineAt(line, t[|t| - 1], t[m])
  }

  ghost predicate TouchesOnlyAt(line: Seg, t: seq<real>, y: seq<real>, p: nat) {
    && |t| == |y| && p < |t| && Touches(line, t, y, p)
    && forall m {:trigger Touches(line, t, y, m)} :: 0 <= m < |t| && m != p ==> !Touches(line, t, y, m)
  }

  /**
   A line between both curves that touches the own curve y at one sample only, and the other curve later; from the
   oldest sample its slope must be within the 500 that the passes start from.
   */
  ghost predicate Witness(up: bool, line: Seg, t: seq<real>, y: seq<real>, z: seq<real>, p: nat, n: nat) {
    && Fits(up, line, t, y, z) && p < n < |t| && TouchesOnlyAt(line, t, y, p) && Touches(line, t, z, n)
    && (p == 0 ==> if up then line.slope < 500.0 else line.slope > -500.0)
  }

  /** A line turned strictly about (tp, yp) leaves the samples it kept outside. */
  lemma StrictTurn(up: bool, ym: real, yp: real, a: real, c: real, tp: real, tm: real)
    requires Outside(up, ym, Along(yp, a, tp, tm)) && if tm > tp then Worse(up, a, c) else tm < tp && Worse(up, c, a)
    ensures ym != Along(yp, c, tp, tm)
  {
    if a > c {
      AlongParts(yp, a, c, tp, tm);
    } else {
      AlongParts(yp, c, a, tp, tm);
    }
  }

  /** Through a vertex of a chain, a line strictly between the adjacent slopes touches no other sample. */
  lemma TouchesNothingElse(t: seq<real>, y: seq<real>, up: bool, hull: seq<nat>, slopes: seq<real>, i: nat, c: real, m: nat)
    requires Chain(t, y, up, hull, slopes) && i < |slopes| && m < |t| && m != hull[i]
    requires Worse(up, slopes[i], c) && (i > 0 ==> Worse(up, c, slopes[i - 1]))
    ensures y[m] != Along(y[hull[i]], c, t[hull[i]], t[m])
  {
    if m > hull[i] {
      assert Best(t, y, up, hull[i], y[hull[i]], hull[i + 1], slopes[i]);
      TouchesNoneLater(t, y, up, hull[i], hull[i + 1], slopes[i], c, m);
    } else {
      TouchesNoneEarlier(t, y, up, hull, slopes, i, c, m);
    }
  }

  lemma TouchesNoneLater(t: seq<real>, y: seq<real>, up: bool, p: nat, v: nat, s: real, c: real, m: nat)
    requires |t| == |y| && p < |t| && Best(t, y, up, p, y[p], v, s) && p < m < |t| && Worse(up, s, c)
    ensures y[m] != Along(y[p], c, t[p], t[m])
  {
    LaterSamples(t, y, up, p, y[p], v, s, m);
    StrictTurn(up, y[m], y[p], s, c, t[p], t[m]);
  }

  lemma TouchesNoneEarlier(t: seq<real>, y: seq<real>, up: bool, hull: seq<nat>, slopes: seq<real>, i: nat, c: real, m: nat)
    requires Chain(t, y, up, hull, slopes) && i < |slopes| && m < hull[i] && (i > 0 ==> Worse(up, c, slopes[i - 1]))
    ensures y[m] != Along(y[hull[i]], c, t[hull[i]], t[m])
  {
    var p := hull[i];
    assert t[m] < t[p] by {
      assert Best(t, y, up, p, y[p], hull[i + 1], slopes[i]);
    }
    BetweenBefore(t, y, up, hull, slopes, i, slopes[i - 1], m);
    StrictTurn(up, y[m], y[p], slopes[i - 1], c, t[p], t[m]);
  }

  lemma KeptTouches(s: Step, rp: nat, up: bool, p: nat, last: real, save: Option<Seg>, hull: seq<nat>, slopes: seq<real>,
                    t: seq<real>, y: seq<real>, z: seq<real>)
    requires rp < RING_SIZE && s.next < RING_SIZE && s.far < RING_SIZE && BestStep(s, rp, up, p, t, y, z)
    requires Reaches(t, y, up, hull, slopes, p, last) && Keeps(up, s.check, s.seg, last, save)
    ensures TouchesOnlyAt(s.check, t, y, p) && Touches(s.check, t, z, Position(rp, s.far))
  {
    var (v, n) := (Position(rp, s.next), Position(rp, s.far));
    StepChain(s, rp, up, p, last, hull, slopes, t, y, z);
    EndsTouch(s.check, up, t, y, z, p, n);
    forall m | 0 <= m < |t| && m != p
      ensures !Touches(s.check, t, y, m)
    {
      MissesOthers(s.check, up, t, y, z, hull + [v], slopes + [s.seg.slope], |slopes|, n, m);
    }
  }

  lemma EndsTouch(check: Seg, up: bool, t: seq<real>, y: seq<real>, z: seq<real>, p: nat, n: nat)
    requires |t| == |y| == |z| && p < |t| && Best(t, z, !up, p, y[p], n, check.slope) && IsSegment(check, t, z, n)
    ensures Touches(check, t, y, p) && Touches(check, t, z, n)
  {
    LineFrom(check, t, z, !up, p, y[p], n, t[p]);
    AtAnchor(y[p], check.slope, t[p]);
    LineThrough(check, t, z, n, t[n]);
    AtAnchor(z[n], check.slope, t[n]);
  }

  lemma MissesOthers(check: Seg, up: bool, t: seq<real>, y: seq<real>, z: seq<real>, hull: seq<nat>, slopes: seq<real>, i: nat,
                     n: nat, m: nat)
    requires Chain(t, y, up, hull, slopes) && i < |slopes| && |z| == |t| && m < |t| && m != hull[i]
    requires Best(t, z, !up, hull[i], y[hull[i]], n, check.slope) && IsSegment(check, t, z, n)
    requires Worse(up, slopes[i], check.slope) && (i > 0 ==> Worse(up, check.slope, slopes[i - 1]))
    ensures !Touches(check, t, y, m)
  {
    LineFrom(check, t, z, !up, hull[i], y[hull[i]], n, t[m]);
    TouchesNothingElse(t, y, up, hull, slopes, i, check.slope, m);
  }

  /** What is kept is a witness. */
  lemma KeptWitness(s: Step, rp: nat, up: bool, p: nat, last: real, save: Option<Seg>, hull: seq<nat>, slopes: seq<real>,
                    t: seq<real>, y: seq<real>, z: seq<real>, line: Seg)
    requires rp < RING_SIZE && s.next < RING_SIZE && s.far < RING_SIZE && BestStep(s, rp, up, p, t, y, z)
    requires Reaches(t, y, up, hull, slopes, p, last) && Keeps(up, s.check, s.seg, last, save)
    requires Fits(up, line, t, y, z) && (slopes == [] ==> last == StartSlope(up))
    ensures Witness(up, s.check, t, y, z, p, Position(rp, s.far))
  {
    StepKept(s, rp, up, p, last, save, hull, slopes, t, y, z);
    CheckFits(s, rp, up, p, t, y, z, line);
    KeptTouches(s, rp, up, p, last, save, hull, slopes, t, y, z);
    ChainLength(t, y, up, hull, slopes, |slopes|);
  }

  ghost predicate HasWitness(up: bool, t: seq<real>, y: seq<real>, z: seq<real>) {
    exists line, p, n :: Witness(up, line, t, y, z, p, n)
  }

  lemma {:induction false} WrapWitness(steps: seq<Step>, rp: nat, up: bool, j: nat, last: real, save: Option<Seg>,
                                       hull: seq<nat>, slopes: seq<real>, t: seq<real>, y: seq<real>, z: seq<real>, line: Seg)
    requires Advance(steps, rp) && j < RING_SIZE && BestSteps(steps, rp, up, t, y, z) && Fits(up, line, t, y, z)
    requires Reaches(t, y, up, hull, slopes, Position(rp, j), last) && (slopes == [] ==> last == StartSlope(up))
    requires save.Some? ==> HasWitness(up, t, y, z)
    ensures Wrap(steps, rp, up, j, last, save).save.Some? ==> HasWitness(up, t, y, z)
    decreases RING_SIZE - Position(rp, j)
  {
    if j != rp {
      var (s, p) := (steps[j], Position(rp, j));
      StepChain(s, rp, up, p, last, hull, slopes, t, y, z);
      if Keeps(up, s.check, s.seg, last, save) {
        KeptWitness(s, rp, up, p, last, save, hull, slopes, t, y, z, line);
      }
      WrapWitness(steps, rp, up, s.next, s.seg.slope, Kept(up, s, last, save),
                  hull + [Position(rp, s.next)], slopes + [s.seg.slope], t, y, z, line);
    }
  }

  // ----- and the other way round

  lemma {:induction false} SaveStays(steps: seq<Step>, rp: nat, up: bool, j: nat, last: real, save: Option<Seg>)
    requires Advance(steps, rp) && j < RING_SIZE && save.Some?
    ensures Wrap(steps, rp, up, j, last, save).save.Some?
    decreases RING_SIZE - Position(rp, j)
  {
    if j != rp {
      var s := steps[j];
      SaveStays(steps, rp, up, s.next, s.seg.slope, Kept(up, s, last, save));
    }
  }

  /** Away from the sample it touches, the curve is strictly outside the line. */
  predicate StrictlyOutside(up: bool, y: real, bound: real) {
    Outside(up, y, bound) && y != bound
  }

  /** The witness seen from the sample p it touches. */
  lemma WitnessAt(up: bool, line: Seg, t: seq<real>, y: seq<real>, z: seq<real>, p: nat, n: nat, m: nat)
    requires Witness(up, line, t, y, z, p, n) && m < |t| && m != p
    ensures StrictlyOutside(up, y[m], Along(y[p], line.slope, t[p], t[m]))
  {
    LineMoves(line, t[|t| - 1], t[p], t[m]);
    assert SupportsAt(up, line, t, y, m) && !Touches(line, t, y, m);
  }

  /** A chord between two strictly outside points passes strictly outside the point between them. */
  lemma ChordOutside(up: bool, yp: real, l: real, to: real, tp: real, tv: real, yo: real, yv: real, s: real)
    requires to < tp < tv && yv == Along(yo, s, to, tv)
    requires StrictlyOutside(up, yo, Along(yp, l, tp, to)) && StrictlyOutside(up, yv, Along(yp, l, tp, tv))
    ensures !Outside(up, yp, Along(yo, s, to, tp))
  {
    var (a, b) := (tp - to, tv - tp);
    var (e, d) := (yo - yp + l * a, s - l);
    NegTimes(l, to, tp);
    assert yv == yo + (s * a + s * b) by {
      assert s * (tv - to) == s * a + s * b;
    }
    assert d * a == s * a - l * a && d * b == s * b - l * b;
    assert e + d * a + d * b == yv - (yp + l * b);
    if up {
      assert -d * a == -(d * a) && -d * b == -(d * b);
      SameSide(-e, -d, a, b);
    } else {
      SameSide(e, d, a, b);
    }
  }

  /** e and e + d(a + b) positive make e + d a positive. */
  lemma SameSide(e: real, d: real, a: real, b: real)
    requires a > 0.0 && b > 0.0 && e > 0.0 && e + d * a + d * b > 0.0
    ensures e + d * a > 0.0
  {
    SignOfProduct(d, a);
    SignOfProduct(d, b);
  }

  /** No edge of the wrapping passes over the sample that a witness touches. */
  lemma EdgeStops(up: bool, line: Seg, t: seq<real>, y: seq<real>, z: seq<real>, p: nat, n: nat, o: nat, v: nat, s: real)
    requires Witness(up, line, t, y, z, p, n) && o < p && Best(t, y, up, o, y[o], v, s)
    ensures v <= p
  {
    if v > p {
      WitnessAt(up, line, t, y, z, p, n, o);
      WitnessAt(up, line, t, y, z, p, n, v);
      EdgeOutside(up, t, y, o, p, v, s, line.slope);
      LaterSamples(t, y, up, o, y[o], v, s, p);
    }
  }

  lemma EdgeOutside(up: bool, t: seq<real>, y: seq<real>, o: nat, p: nat, v: nat, s: real, l: real)
    requires |t| == |y| && Increasing(t) && o < p < v < |t| && s == Slope(t, y, o, y[o], v)
    requires StrictlyOutside(up, y[o], Along(y[p], l, t[p], t[o])) && StrictlyOutside(up, y[v], Along(y[p], l, t[p], t[v]))
    ensures !Outside(up, y[p], Along(y[o], s, t[o], t[p]))
  {
    SlopeTimes(t, y, o, y[o], v);
    ChordOutside(up, y[p], l, t[o], t[p], t[v], y[o], y[v], s);
  }

  /** A slope to a strictly outside point is strictly on that side: after the touched sample and before it. */
  lemma StrictSlope(up: bool, ym: real, yp: real, s: real, l: real, tp: real, tm: real)
    requires ym == Along(yp, s, tp, tm) && StrictlyOutside(up, ym, Along(yp, l, tp, tm))
    ensures tm > tp ==> Worse(up, s, l)
    ensures tm < tp ==> Worse(up, l, s)
  {
    if s > l && tm != tp {
      AlongParts(yp, s, l, tp, tm);
    } else if l > s && tm != tp {
      AlongParts(yp, l, s, tp, tm);
    }
  }

  /** A line seen from its other end. */
  lemma AlongBack(ya: real, s: real, a: real, b: real, yb: real)
    requires yb == Along(ya, s, a, b)
    ensures ya == Along(yb, s, b, a)
  {
    NegTimes(s, a, b);
  }

  /** At the touched sample the crossing line found is the witness's own slope. */
  lemma CheckIsWitness(s: Step, rp: nat, up: bool, line: Seg, t: seq<real>, y: seq<real>, z: seq<real>, p: nat, n: nat)
    requires rp < RING_SIZE && s.next < RING_SIZE && s.far < RING_SIZE && BestStep(s, rp, up, p, t, y, z)
    requires Witness(up, line, t, y, z, p, n)
    ensures s.check.slope == line.slope
  {
    CrossingBounds(up, p, t, y, z, Position(rp, s.far), s.check.slope, line);
    WitnessSlope(up, line, t, y, z, p, n);
    assert z[n] == z[n];
  }

  lemma WitnessSlope(up: bool, line: Seg, t: seq<real>, y: seq<real>, z: seq<real>, p: nat, n: nat)
    requires Witness(up, line, t, y, z, p, n) && Increasing(t)
    ensures Slope(t, z, p, y[p], n) == line.slope
  {
    assert Touches(line, t, y, p) && Touches(line, t, z, n);
    LineMoves(line, t[|t| - 1], t[p], t[n]);
    SlopeTimes(t, z, p, y[p], n);
    SameSlope(z[n], y[p], Slope(t, z, p, y[p], n), line.slope, t[n] - t[p]);
  }

  lemma SameSlope(zn: real, yp: real, a: real, b: real, dt: real)
    requires zn == yp + a * dt && zn == yp + b * dt && dt > 0.0
    ensures a == b
  {
    SignOfProduct(a - b, dt);
    assert (a - b) * dt == a * dt - b * dt;
  }

  /** The slope the wrapping arrived with: that of the edge from o, or the start slope at the oldest sample. */
  ghost predicate ArrivedFrom(up: bool, t: seq<real>, y: seq<real>, o: nat, p: nat, last: real) {
    && |t| == |y| && p < |t| && Increasing(t)
    && if p == 0 then last == StartSlope(up) else o < p && y[p] == Along(y[o], last, t[o], t[p])
  }

  lemma NextEdge(up: bool, line: Seg, t: seq<real>, y: seq<real>, z: seq<real>, p: nat, n: nat, v: nat, s: real)
    requires Witness(up, line, t, y, z, p, n) && Best(t, y, up, p, y[p], v, s)
    ensures Worse(up, s, line.slope)
  {
    WitnessAt(up, line, t, y, z, p, n, v);
    SlopeTimes(t, y, p, y[p], v);
    StrictSlope(up, y[v], y[p], s, line.slope, t[p], t[v]);
  }

  lemma LastEdge(up: bool, line: Seg, t: seq<real>, y: seq<real>, z: seq<real>, p: nat, n: nat, o: nat, last: real)
    requires Witness(up, line, t, y, z, p, n) && ArrivedFrom(up, t, y, o, p, last)
    ensures Worse(up, line.slope, last)
  {
    if p > 0 {
      WitnessAt(up, line, t, y, z, p, n, o);
      AlongBack(y[o], last, t[o], t[p], y[p]);
      StrictSlope(up, y[o], y[p], last, line.slope, t[p], t[o]);
    }
  }

  /** At the touched sample the crossing line is less steep than the next edge and steeper than the last one. */
  lemma WitnessIsKept(s: Step, rp: nat, up: bool, last: real, save: Option<Seg>, line: Seg,
                      t: seq<real>, y: seq<real>, z: seq<real>, o: nat, p: nat, n: nat)
    requires rp < RING_SIZE && s.next < RING_SIZE && s.far < RING_SIZE && BestStep(s, rp, up, p, t, y, z)
    requires Witness(up, line, t, y, z, p, n) && ArrivedFrom(up, t, y, o, p, last)
    ensures Kept(up, s, last, save).Some?
  {
    CheckIsWitness(s, rp, up, line, t, y, z, p, n);
    NextEdge(up, line, t, y, z, p, n, Position(rp, s.next), s.seg.slope);
    LastEdge(up, line, t, y, z, p, n, o, last);
  }

  /** Before it, the next vertex is at most that far. */
  lemma TowardsWitness(s: Step, rp: nat, up: bool, line: Seg, t: seq<real>, y: seq<real>, z: seq<real>, q: nat, p: nat, n: nat)
    requires rp < RING_SIZE && s.next < RING_SIZE && s.far < RING_SIZE && BestStep(s, rp, up, q, t, y, z)
    requires Witness(up, line, t, y, z, p, n) && q < p
    ensures Position(rp, s.next) <= p && ArrivedFrom(up, t, y, q, Position(rp, s.next), s.seg.slope)
  {
    var v := Position(rp, s.next);
    EdgeStops(up, line, t, y, z, p, n, q, v, s.seg.slope);
    SlopeTimes(t, y, q, y[q], v);
  }

  lemma {:induction false} WrapFindsWitness(steps: seq<Step>, rp: nat, up: bool, j: nat, last: real, save: Option<Seg>,
                                            line: Seg, t: seq<real>, y: seq<real>, z: seq<real>, o: nat, p: nat, n: nat)
    requires Advance(steps, rp) && j < RING_SIZE && BestSteps(steps, rp, up, t, y, z) && |t| == RING_SIZE
    requires Witness(up, line, t, y, z, p, n) && Position(rp, j) <= p && ArrivedFrom(up, t, y, o, Position(rp, j), last)
    ensures Wrap(steps, rp, up, j, last, save).save.Some?
    decreases RING_SIZE - Position(rp, j)
  {
    var (s, q) := (steps[j], Position(rp, j));
    var save' := Kept(up, s, last, save);
    if q == p {
      WitnessIsKept(s, rp, up, last, save, line, t, y, z, o, p, n);
      SaveStays(steps, rp, up, s.next, s.seg.slope, save');
    } else {
      TowardsWitness(s, rp, up, line, t, y, z, q, p, n);
      WrapFindsWitness(steps, rp, up, s.next, s.seg.slope, save', line, t, y, z, q, p, n);
    }
  }

  /**
   Exactly when consistent samples are not called inconsistent: pass 2 or pass 3 keeps a crossing line if and only if
   some line between the bounds touches the pass's own bounds at one sample only and the other bounds at a later one.
   */
  lemma CrossingIsKept(ring: seq<Datum>, rp: nat, up: bool, line: Seg)
    requires |ring| == RING_SIZE && rp < RING_SIZE && Increasing(Times(Chronological(ring, rp)))
    requires var d := Chronological(ring, rp); Consistent(line, Times(d), Values(d, 0), Values(d, 1))
    ensures var d := Chronological(ring, rp);
      WrapAll(ring, rp, up).save.Some? <==> HasWitness(up, Times(d), Values(d, OwnCurve(up)), Values(d, 1 - OwnCurve(up)))
  {
    var d := Chronological(ring, rp);
    var (t, y, z) := (Times(d), Values(d, OwnCurve(up)), Values(d, 1 - OwnCurve(up)));
    var steps := Steps(ring, rp, up);
    StepsAdvance(ring, rp, up);
    StepsAreBest(ring, rp, up, steps, t, y, z);
    WrapStart(rp, up, t, y);
    ConsistentFits(up, line, t, y, z, Values(d, 0), Values(d, 1));
    WrapWitness(steps, rp, up, NextUp(rp), StartSlope(up), None, [0], [], t, y, z, line);
    if HasWitness(up, t, y, z) {
      var l, p, n :| Witness(up, l, t, y, z, p, n);
      WrapFindsWitness(steps, rp, up, NextUp(rp), StartSlope(up), None, l, t, y, z, 0, p, n);
    }
  }

  /** Sixteen samples without error, all zero: a line fits them, and neither pass keeps a crossing line. */
  lemma FlatSamplesRejected(ring: seq<Datum>, up: bool)
    requires |ring| == RING_SIZE && forall i :: 0 <= i < RING_SIZE ==> ring[i] == Datum(i, 0.0, 0.0, 0, 0.0, 0.0)
    ensures var d := Chronological(ring, RING_SIZE - 1); Consistent(Seg(0.0, 0.0), Times(d), Values(d, 0), Values(d, 1))
    ensures WrapAll(ring, RING_SIZE - 1, up).save == None
  {
    var d := Chronological(ring, RING_SIZE - 1);
    assert d == ring;
    assert Values(d, 0) == Values(d, 1);
    ExactSamplesRejected(ring, RING_SIZE - 1, up);
  }
}
