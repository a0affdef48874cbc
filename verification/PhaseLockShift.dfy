/**
 Pass 4 of contemplate_data (ExtLibs/Ntp/phaselock.c:276-312) and the decision of find_df (115-132): the frequency
 shift is the least that any line consistent with the samples asks for, and the crossing lines alone decide it.
 */
module PhaseLockShift {
  import opened Options
  import opened Envelope
  import opened PhaseLock
  import opened PhaseLockRing
  import opened PhaseLockTheorems
  import opened PhaseLockPolygon

  // ----- pass 4

  /**
   The lines of an envelope that are fed from line c on, and whether none was worse than `first`: from the first
   such line up to the first that is worse than `last`.
   */
  function Fed(segs: seq<Seg>, first: Seg, last: Seg, up: bool, c: nat, dinit: bool): (set<Seg>, bool)
    requires c <= |segs|
    decreases |segs| - c
  {
    if c == |segs| then ({}, dinit)
    else
      var dinit' := dinit && !Worse(up, segs[c].slope, first.slope);
      if Worse(up, segs[c].slope, last.slope) then ({}, dinit')
      else
        var (points, d) := Fed(segs, first, last, up, c + 1, dinit');
        (points + if dinit' then {} else {segs[c]}, d)
  }

  /** phaselock.c:278-289 (up false, max envelope) and 294-305 (up true, min envelope). */
  method Feed(poly: Polygon, segs: seq<Seg>, first: Seg, last: Seg, up: bool) returns (dinit: bool)
    requires poly.Valid()
    modifies poly
    ensures poly.Valid()
    ensures (poly.points, dinit) == (old(poly.points) + Fed(segs, first, last, up, 0, true).0, Fed(segs, first, last, up, 0, true).1)
  {
    dinit := true;
    var c := 0;
    ghost var was := poly.points;
    while c < |segs|
      invariant c <= |segs| && poly.Valid()
      invariant poly.points + Fed(segs, first, last, up, c, dinit).0 == was + Fed(segs, first, last, up, 0, true).0
      invariant Fed(segs, first, last, up, c, dinit).1 == Fed(segs, first, last, up, 0, true).1
    {
      if dinit && Worse(up, segs[c].slope, first.slope) {
        dinit := false;
      }
      if Worse(up, segs[c].slope, last.slope) {
        assert poly.points + {} == poly.points;
        return;
      }
      if !dinit {
        poly.PolygonPoint(segs[c]);
      }
      c := c + 1;
    }
    assert poly.points + {} == poly.points;
  }

  /** All points of pass 4. */
  function PassFour(maxsegs: seq<Seg>, minsegs: seq<Seg>, saveMin: Seg, saveMax: Seg): (points: set<Seg>) {
    {saveMin} + Fed(maxsegs, saveMin, saveMax, false, 0, true).0 + {saveMax} + Fed(minsegs, saveMax, saveMin, true, 0, true).0
  }

  /** The line s at another frequency. */
  function Moved(s: Seg, df: real): Seg {
    Seg(s.slope + df, s.offset)
  }

  /** Where a line asks for nothing, in the plane of slope and offset. */
  lemma AsksNothingIff(s: Seg)
    ensures Left(s) == 0.0 <==> 600.0 * s.slope + s.offset >= 0.0 || 6000.0 * s.slope + s.offset >= 1800.0
    ensures Right(s) == 0.0 <==> 600.0 * s.slope + s.offset <= 0.0 || 6000.0 * s.slope + s.offset <= -1800.0
  {
  }

  /** What a line asks for is the least change of frequency after which it asks for nothing on that side. */
  lemma AsksLeast(s: Seg, d: real)
    requires d >= 0.0
    ensures Left(Moved(s, d)) == 0.0 <==> d >= Left(s)
    ensures Right(Moved(s, -d)) == 0.0 <==> d >= Right(s)
  {
  }

  predicate AsksNothing(s: Seg) {
    Left(s) == 0.0 && Right(s) == 0.0
  }

  /** When one side alone asks for a shift, a line that asks for just that much asks for nothing after it. */
  predicate Moves(df: real, l: real, r: real, s: Seg) {
    && (l > 0.0 && r == 0.0 && Left(s) == l ==> AsksNothing(Moved(s, df)))
    && (r > 0.0 && l == 0.0 && Right(s) == r ==> AsksNothing(Moved(s, df)))
  }

  lemma MovedSatisfied(l: real, r: real, s: Seg)
    ensures Moves(FindDf(l, r), l, r, s)
  {
  }

  /** phaselock.c:276-318: the shift, unless the two envelopes contradict the crossing lines. */
  method Shift(maxsegs: seq<Seg>, minsegs: seq<Seg>, saveMin: Seg, saveMax: Seg) returns (df: Option<real>, l: real, r: real)
    ensures Least(l, Left, PassFour(maxsegs, minsegs, saveMin, saveMax))
    ensures Least(r, Right, PassFour(maxsegs, minsegs, saveMin, saveMax))
    ensures df.None? <==> Fed(maxsegs, saveMin, saveMax, false, 0, true).1 || Fed(minsegs, saveMax, saveMin, true, 0, true).1
    ensures df.Some? && l > 0.0 && r == 0.0 ==> df.value == l
    ensures df.Some? && r > 0.0 && l == 0.0 ==> df.value == -r
    ensures df.Some? && (l > 0.0 <==> r > 0.0) ==> df.value == 0.0
    ensures df.Some? ==> forall s :: Moves(df.value, l, r, s)
  {
    var poly := new Polygon();
    poly.PolygonPoint(saveMin);
    var noMax := Feed(poly, maxsegs, saveMin, saveMax, false);
    poly.PolygonPoint(saveMax);
    var noMin := Feed(poly, minsegs, saveMax, saveMin, true);
    assert poly.points == PassFour(maxsegs, minsegs, saveMin, saveMax);
    l, r := poly.lMin, poly.rMin;
    forall s
      ensures Moves(FindDf(l, r), l, r, s)
    {
      MovedSatisfied(l, r, s);
    }
    df := if noMax || noMin then None else Some(FindDf(l, r));
  }

  // ----- which lines are fed

  lemma {:induction false} LaterOrdered(up: bool, segs: seq<Seg>, i: nat, k: nat)
    requires AllOrdered(up, segs) && i <= k < |segs|
    ensures !Worse(up, segs[i].slope, segs[k].slope)
  {
    if i < k {
      LaterOrdered(up, segs, i, k - 1);
      assert Ordered(up, segs[k - 1].slope, segs[k].slope);
    }
  }

  /** Fed lines are lines of the envelope with slopes from that of `first` to that of `last`. */
  lemma {:induction false} FedBetween(segs: seq<Seg>, first: Seg, last: Seg, up: bool, c: nat, dinit: bool, s: Seg)
    requires c <= |segs| && AllOrdered(up, segs) && s in Fed(segs, first, last, up, c, dinit).0
    requires !dinit ==> c > 0 && !Worse(up, first.slope, segs[c - 1].slope)
    ensures s in segs && !Worse(up, first.slope, s.slope) && !Worse(up, s.slope, last.slope)
    decreases |segs| - c
  {
    var dinit' := dinit && !Worse(up, segs[c].slope, first.slope);
    if c > 0 {
      LaterOrdered(up, segs, c - 1, c);
    }
    var rest := Fed(segs, first, last, up, c + 1, dinit').0;
    if s in rest {
      FedBetween(segs, first, last, up, c + 1, dinit', s);
    }
  }

  /** Every line of the envelope beyond the first crossing line and not beyond the other is fed. */
  lemma {:induction false} FedEvery(segs: seq<Seg>, first: Seg, last: Seg, up: bool, c: nat, dinit: bool, i: nat)
    requires c <= i < |segs| && AllOrdered(up, segs)
    requires if up then last.slope <= segs[i].slope < first.slope else first.slope < segs[i].slope <= last.slope
    ensures segs[i] in Fed(segs, first, last, up, c, dinit).0
    decreases |segs| - c
  {
    LaterOrdered(up, segs, c, i);
    if c < i {
      FedEvery(segs, first, last, up, c + 1, dinit && !Worse(up, segs[c].slope, first.slope), i);
    }
  }

  /** A line worse than `first` is found, unless one worse than `last` comes before it. */
  lemma {:induction false} FedFinds(segs: seq<Seg>, first: Seg, last: Seg, up: bool, c: nat, dinit: bool, i: nat)
    requires c <= i < |segs| && Worse(up, segs[i].slope, first.slope) && !Worse(up, first.slope, last.slope)
    ensures !Fed(segs, first, last, up, c, dinit).1
    decreases |segs| - c
  {
    var dinit' := dinit && !Worse(up, segs[c].slope, first.slope);
    if !dinit' {
      FedStays(segs, first, last, up, c + 1);
    } else {
      FedFinds(segs, first, last, up, c + 1, dinit', i);
    }
  }

  lemma {:induction false} FedStays(segs: seq<Seg>, first: Seg, last: Seg, up: bool, c: nat)
    requires c <= |segs|
    ensures !Fed(segs, first, last, up, c, false).1
    decreases |segs| - c
  {
    if c < |segs| {
      FedStays(segs, first, last, up, c + 1);
    }
  }

  // ----- where the lines touch

  ghost predicate TouchesAny(seg: Seg, t: seq<real>, y: seq<real>) {
    |t| == |y| && exists m :: 0 <= m < |t| && Touches(seg, t, y, m)
  }

  lemma SegmentTouches(seg: Seg, t: seq<real>, y: seq<real>, n: nat)
    requires IsSegment(seg, t, y, n)
    ensures TouchesAny(seg, t, y)
  {
    LineThrough(seg, t, y, n, t[n]);
    assert Touches(seg, t, y, n);
  }

  ghost predicate AllTouch(segs: seq<Seg>, t: seq<real>, y: seq<real>) {
    forall i :: 0 <= i < |segs| ==> TouchesAny(segs[i], t, y)
  }

  /** Some line of the envelope is worse than the crossing line. */
  predicate Beaten(up: bool, segs: seq<Seg>, save: Seg) {
    exists i :: 0 <= i < |segs| && Worse(up, segs[i].slope, save.slope)
  }

  lemma BeatenLater(up: bool, seg: Seg, segs: seq<Seg>, save: Seg)
    requires Beaten(up, segs, save)
    ensures Beaten(up, [seg] + segs, save)
  {
    var i :| 0 <= i < |segs| && Worse(up, segs[i].slope, save.slope);
    assert ([seg] + segs)[i + 1] == segs[i];
  }

  lemma BeatenFirst(up: bool, seg: Seg, segs: seq<Seg>, save: Seg)
    requires Worse(up, seg.slope, save.slope)
    ensures Beaten(up, [seg] + segs, save)
  {
    assert ([seg] + segs)[0] == seg;
  }

  lemma AllTouchCons(seg: Seg, segs: seq<Seg>, t: seq<real>, y: seq<real>)
    requires TouchesAny(seg, t, y) && AllTouch(segs, t, y)
    ensures AllTouch([seg] + segs, t, y)
  {
  }

  /** Every line touches the own curve y, the crossing line kept touches z and is beaten by the line of its step. */
  lemma {:induction false} WrapTouches(steps: seq<Step>, rp: nat, up: bool, j: nat, last: real, save: Option<Seg>,
                                       t: seq<real>, y: seq<real>, z: seq<real>)
    requires Advance(steps, rp) && j < RING_SIZE && BestSteps(steps, rp, up, t, y, z)
    ensures var w := Wrap(steps, rp, up, j, last, save);
      AllTouch(w.segs, t, y) &&
      (w.save != save ==> w.save.Some? && TouchesAny(w.save.value, t, z) && Beaten(up, w.segs, w.save.value))
    decreases RING_SIZE - Position(rp, j)
  {
    if j != rp {
      var (s, p) := (steps[j], Position(rp, j));
      var save' := Kept(up, s, last, save);
      var rest := Wrap(steps, rp, up, s.next, s.seg.slope, save');
      WrapTouches(steps, rp, up, s.next, s.seg.slope, save', t, y, z);
      SegmentTouches(s.seg, t, y, Position(rp, s.next));
      AllTouchCons(s.seg, rest.segs, t, y);
      SegmentTouches(s.check, t, z, Position(rp, s.far));
      if rest.save != save' {
        BeatenLater(up, s.seg, rest.segs, rest.save.value);
      } else if save' != save {
        BeatenFirst(up, s.seg, rest.segs, s.check);
      }
    }
  }

  lemma EnvelopeTouches(ring: seq<Datum>, rp: nat, up: bool, t: seq<real>, y: seq<real>, z: seq<real>)
    requires |ring| == RING_SIZE && rp < RING_SIZE
    requires var d := Chronological(ring, rp); t == Times(d) && y == Values(d, OwnCurve(up)) && z == Values(d, 1 - OwnCurve(up))
    requires Increasing(t)
    ensures var w := WrapAll(ring, rp, up);
      AllTouch(w.segs, t, y) && (w.save.Some? ==> TouchesAny(w.save.value, t, z) && Beaten(up, w.segs, w.save.value))
  {
    var steps := Steps(ring, rp, up);
    StepsAdvance(ring, rp, up);
    StepsAreBest(ring, rp, up, steps, t, y, z);
    WrapTouches(steps, rp, up, NextUp(rp), StartSlope(up), None, t, y, z);
  }

  // ----- the box between the crossing lines

  predicate AtMost(a: Seg, b: Seg) {
    a.slope <= b.slope && a.offset <= b.offset
  }

  /** A line that is no steeper than another and not above it at some earlier time is not above it now. */
  lemma NotAboveNow(a: Seg, b: Seg, now: real, tm: real)
    requires a.slope <= b.slope && tm <= now && LineAt(a, now, tm) <= LineAt(b, now, tm)
    ensures AtMost(a, b)
  {
    var dt := now - tm;
    MulOrder(a.slope, b.slope, dt);
    Back(a, now, tm, dt);
    Back(b, now, tm, dt);
  }

  lemma Back(a: Seg, now: real, tm: real, dt: real)
    requires dt == now - tm
    ensures LineAt(a, now, tm) == a.offset - a.slope * dt
  {
    assert a.slope * (tm - now) == -(a.slope * dt);
  }

  lemma Latest(t: seq<real>, m: nat)
    requires Increasing(t) && m < |t|
    ensures t[m] <= t[|t| - 1]
  {
    if m < |t| - 1 {
      assert t[m] < t[|t| - 1];
    }
  }

  /** From a line that touches the curve from one side and a line on the other side of it. */
  lemma AcrossBelow(a: Seg, b: Seg, t: seq<real>, y: seq<real>)
    requires Increasing(t) && a.slope <= b.slope && Supports(false, a, t, y) && TouchesAny(b, t, y)
    ensures AtMost(a, b)
  {
    var m :| 0 <= m < |t| && Touches(b, t, y, m);
    assert SupportsAt(false, a, t, y, m);
    Latest(t, m);
    NotAboveNow(a, b, t[|t| - 1], t[m]);
  }

  lemma AcrossAbove(a: Seg, b: Seg, t: seq<real>, y: seq<real>)
    requires Increasing(t) && a.slope <= b.slope && TouchesAny(a, t, y) && Supports(true, b, t, y)
    ensures AtMost(a, b)
  {
    var m :| 0 <= m < |t| && Touches(a, t, y, m);
    assert SupportsAt(true, b, t, y, m);
    Latest(t, m);
    NotAboveNow(a, b, t[|t| - 1], t[m]);
  }

  /** Within the box that the two crossing lines span in slope and offset. */
  predicate InBox(s: Seg, saveMin: Seg, saveMax: Seg) {
    AtMost(saveMin, s) && AtMost(s, saveMax)
  }

  /** Both crossing lines of a ring, and what passes 2 and 3 say about them. */
  ghost predicate Crossed(ring: seq<Datum>, rp: nat, saveMin: Seg, saveMax: Seg, t: seq<real>, low: seq<real>, high: seq<real>) {
    && |ring| == RING_SIZE && rp < RING_SIZE
    && (var d := Chronological(ring, rp); t == Times(d) && low == Values(d, 0) && high == Values(d, 1))
    && Increasing(t) && WrapAll(ring, rp, false).save == Some(saveMin) && WrapAll(ring, rp, true).save == Some(saveMax)
  }

  lemma ConsistentInBox(ring: seq<Datum>, rp: nat, saveMin: Seg, saveMax: Seg, t: seq<real>, low: seq<real>, high: seq<real>,
                        line: Seg)
    requires Crossed(ring, rp, saveMin, saveMax, t, low, high) && Consistent(line, t, low, high)
    ensures InBox(line, saveMin, saveMax) && Consistent(saveMin, t, low, high) && Consistent(saveMax, t, low, high)
  {
    CrossingIsExtreme(ring, rp, false, line);
    CrossingIsExtreme(ring, rp, true, line);
    EnvelopeTouches(ring, rp, false, t, high, low);
    EnvelopeTouches(ring, rp, true, t, low, high);
    ConsistentFits(false, line, t, high, low, low, high);
    AcrossAbove(saveMin, line, t, low);
    AcrossBelow(line, saveMax, t, high);
  }

  lemma MaxLineInBox(ring: seq<Datum>, rp: nat, saveMin: Seg, saveMax: Seg, t: seq<real>, low: seq<real>, high: seq<real>, s: Seg)
    requires Crossed(ring, rp, saveMin, saveMax, t, low, high) && s in WrapAll(ring, rp, false).segs
    requires saveMin.slope <= s.slope <= saveMax.slope
    ensures InBox(s, saveMin, saveMax)
  {
    EnvelopeTouches(ring, rp, false, t, high, low);
    EnvelopeTouches(ring, rp, true, t, low, high);
    EnvelopeSupports(ring, rp, false);
    AcrossBelow(saveMin, s, t, high);
    AcrossBelow(s, saveMax, t, high);
  }

  lemma MinLineInBox(ring: seq<Datum>, rp: nat, saveMin: Seg, saveMax: Seg, t: seq<real>, low: seq<real>, high: seq<real>, s: Seg)
    requires Crossed(ring, rp, saveMin, saveMax, t, low, high) && s in WrapAll(ring, rp, true).segs
    requires saveMin.slope <= s.slope <= saveMax.slope
    ensures InBox(s, saveMin, saveMax)
  {
    EnvelopeTouches(ring, rp, false, t, high, low);
    EnvelopeTouches(ring, rp, true, t, low, high);
    EnvelopeSupports(ring, rp, true);
    AcrossAbove(s, saveMax, t, low);
    AcrossAbove(saveMin, s, t, low);
  }

  // ----- the shift

  lemma ShiftsOrdered(a: Seg, b: Seg)
    requires AtMost(a, b)
    ensures Left(b) <= Left(a) && Right(a) <= Right(b)
  {
  }

  lemma LeastOfBox(l: real, r: real, points: set<Seg>, saveMin: Seg, saveMax: Seg)
    requires Least(l, Left, points) && Least(r, Right, points) && saveMin in points && saveMax in points
    requires forall s :: s in points ==> InBox(s, saveMin, saveMax)
    ensures l == Min(MIN_INIT, Left(saveMax)) && r == Min(MIN_INIT, Right(saveMin))
  {
    if l != MIN_INIT {
      var s :| s in points && Left(s) == l;
      ShiftsOrdered(s, saveMax);
    }
    if r != MIN_INIT {
      var s :| s in points && Right(s) == r;
      ShiftsOrdered(saveMin, s);
    }
  }

  lemma PointInBox(ring: seq<Datum>, rp: nat, saveMin: Seg, saveMax: Seg, t: seq<real>, low: seq<real>, high: seq<real>, s: Seg)
    requires Crossed(ring, rp, saveMin, saveMax, t, low, high) && AtMost(saveMin, saveMax)
    requires s in PassFour(WrapAll(ring, rp, false).segs, WrapAll(ring, rp, true).segs, saveMin, saveMax)
    ensures InBox(s, saveMin, saveMax)
  {
    var (maxsegs, minsegs) := (WrapAll(ring, rp, false).segs, WrapAll(ring, rp, true).segs);
    EnvelopeOrdered(ring, rp, false);
    EnvelopeOrdered(ring, rp, true);
    if s in Fed(maxsegs, saveMin, saveMax, false, 0, true).0 {
      FedBetween(maxsegs, saveMin, saveMax, false, 0, true, s);
      MaxLineInBox(ring, rp, saveMin, saveMax, t, low, high, s);
    } else if s in Fed(minsegs, saveMax, saveMin, true, 0, true).0 {
      FedBetween(minsegs, saveMax, saveMin, true, 0, true, s);
      MinLineInBox(ring, rp, saveMin, saveMax, t, low, high, s);
    }
  }

  /** A line consistent with all samples that asks for exactly this shift, and none that asks for less. */
  ghost predicate LeastAsked(m: real, shift: Seg -> real, t: seq<real>, low: seq<real>, high: seq<real>) {
    && (forall line :: Consistent(line, t, low, high) ==> m <= shift(line))
    && exists line :: Consistent(line, t, low, high) && shift(line) == m
  }

  /** Neither of the two loops of pass 4 finds a contradiction. */
  lemma NoContradiction(ring: seq<Datum>, rp: nat, saveMin: Seg, saveMax: Seg, t: seq<real>, low: seq<real>, high: seq<real>)
    requires Crossed(ring, rp, saveMin, saveMax, t, low, high) && saveMin.slope <= saveMax.slope
    ensures !Fed(WrapAll(ring, rp, false).segs, saveMin, saveMax, false, 0, true).1
    ensures !Fed(WrapAll(ring, rp, true).segs, saveMax, saveMin, true, 0, true).1
  {
    EnvelopeTouches(ring, rp, false, t, high, low);
    EnvelopeTouches(ring, rp, true, t, low, high);
    var (maxsegs, minsegs) := (WrapAll(ring, rp, false).segs, WrapAll(ring, rp, true).segs);
    var i :| 0 <= i < |maxsegs| && Worse(false, maxsegs[i].slope, saveMin.slope);
    FedFinds(maxsegs, saveMin, saveMax, false, 0, true, i);
    var k :| 0 <= k < |minsegs| && Worse(true, minsegs[k].slope, saveMax.slope);
    FedFinds(minsegs, saveMax, saveMin, true, 0, true, k);
  }

  /**
   When some line is consistent with the samples and both crossing lines are kept, pass 4 finds no contradiction, and
   its two shifts are the least that the lines consistent with all samples ask for on either side, capped at 20. The
   crossing lines alone decide them; the envelope lines in between never do.
   */
  lemma ShiftIsLeast(ring: seq<Datum>, rp: nat, saveMin: Seg, saveMax: Seg, t: seq<real>, low: seq<real>, high: seq<real>,
                     line: Seg, l: real, r: real)
    requires Crossed(ring, rp, saveMin, saveMax, t, low, high) && Consistent(line, t, low, high)
    requires var points := PassFour(WrapAll(ring, rp, false).segs, WrapAll(ring, rp, true).segs, saveMin, saveMax);
      Least(l, Left, points) && Least(r, Right, points)
    ensures !Fed(WrapAll(ring, rp, false).segs, saveMin, saveMax, false, 0, true).1
    ensures !Fed(WrapAll(ring, rp, true).segs, saveMax, saveMin, true, 0, true).1
    ensures l == Min(20.0, Left(saveMax)) && LeastAsked(Left(saveMax), Left, t, low, high)
    ensures r == Min(20.0, Right(saveMin)) && LeastAsked(Right(saveMin), Right, t, low, high)
  {
    var points := PassFour(WrapAll(ring, rp, false).segs, WrapAll(ring, rp, true).segs, saveMin, saveMax);
    ConsistentInBox(ring, rp, saveMin, saveMax, t, low, high, line);
    forall s | s in points
      ensures InBox(s, saveMin, saveMax)
    {
      PointInBox(ring, rp, saveMin, saveMax, t, low, high, s);
    }
    LeastOfBox(l, r, points, saveMin, saveMax);
    NoContradiction(ring, rp, saveMin, saveMax, t, low, high);
    forall other | Consistent(other, t, low, high)
      ensures Left(saveMax) <= Left(other) && Right(saveMin) <= Right(other)
    {
      ConsistentInBox(ring, rp, saveMin, saveMax, t, low, high, other);
      ShiftsOrdered(other, saveMax);
      ShiftsOrdered(saveMin, other);
    }
  }
}
