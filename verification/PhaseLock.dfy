/** The NTP phase lock of ExtLibs/Ntp/phaselock.c: sample ring and passes 1 to 3, with doubles as reals. */
module PhaseLock {
  import opened Machine
  import opened Options
  import opened Envelope

  const RING_SIZE := 16
  const MAX_CORRECT := 250.0

  /** phaselock.c:34-51; `min` and `max` are s.ss[0] and s.ss[1]. */
  datatype Datum = Datum(absolute: U32, skew: real, errorbar: real, freq: int, min: real, max: real)

  /** phaselock.c:53-56: a line, as its slope and its value at the newest sample. */
  datatype Seg = Seg(slope: real, offset: real)

  /** Unsigned subtraction, as a double. */
  function Elapsed(later: U32, earlier: U32): real {
    ((later - earlier) % 0x1_0000_0000) as real
  }

  function Curve(d: Datum, s: nat): real {
    if s == 0 then d.min else d.max
  }

  /** phaselock.c:71-72. */
  function NextUp(i: nat): nat {
    if i + 1 >= RING_SIZE then 0 else i + 1
  }

  function NextDn(i: nat): nat
    requires i < RING_SIZE
  {
    if i == 0 then RING_SIZE - 1 else i - 1
  }

  // ----- the ring in chronological order

  /** Ring index of the k-th oldest sample, when rp holds the newest. */
  function Index(rp: nat, k: nat): nat
    requires rp < RING_SIZE && k < RING_SIZE
  {
    if rp + 1 + k < RING_SIZE then rp + 1 + k else rp + 1 + k - RING_SIZE
  }

  /** Age order of ring index i. */
  function Position(rp: nat, i: nat): nat
    requires rp < RING_SIZE && i < RING_SIZE
  {
    if i > rp then i - rp - 1 else i + RING_SIZE - 1 - rp
  }

  ghost function Chronological(ring: seq<Datum>, rp: nat): (d: seq<Datum>)
    requires |ring| == RING_SIZE && rp < RING_SIZE
    ensures |d| == RING_SIZE
    ensures forall k :: 0 <= k < RING_SIZE ==> d[k] == ring[Index(rp, k)]
  {
    seq(RING_SIZE, k requires 0 <= k < RING_SIZE => ring[Index(rp, k)])
  }

  ghost function Times(d: seq<Datum>): (t: seq<real>)
    ensures |t| == |d| && forall k :: 0 <= k < |d| ==> t[k] == d[k].absolute as real
  {
    seq(|d|, k requires 0 <= k < |d| => d[k].absolute as real)
  }

  ghost function Values(d: seq<Datum>, s: nat): (y: seq<real>)
    ensures |y| == |d| && forall k :: 0 <= k < |d| ==> y[k] == Curve(d[k], s)
  {
    seq(|d|, k requires 0 <= k < |d| => Curve(d[k], s))
  }

  /** The value at time t of a segment whose offset is taken at time now. */
  function LineAt(seg: Seg, now: real, t: real): real {
    Along(seg.offset, seg.slope, now, t)
  }

  /** seg is the line through (t[p], start) and sample n of curve y, in slope/offset form. */
  ghost predicate IsSegment(seg: Seg, t: seq<real>, y: seq<real>, n: nat) {
    |t| == |y| && n < |t| && seg.offset == Along(y[n], seg.slope, t[n], t[|t| - 1])
  }

  // ----- the search

  /** n is the best sample after p among those below k. */
  ghost predicate BestBelow(t: seq<real>, y: seq<real>, up: bool, p: nat, start: real, n: nat, s: real, k: nat) {
    && |t| == |y| && p < n < k <= |t| && Increasing(t)
    && s == Slope(t, y, p, start, n)
    && (forall m {:trigger y[m]} :: p < m < k && m != n ==>
          Worse(up, Slope(t, y, p, start, m), s) || (Slope(t, y, p, start, m) == s && (up <==> m < n)))
  }

  lemma FirstBest(t: seq<real>, y: seq<real>, up: bool, p: nat, start: real, k: nat)
    requires |t| == |y| && k == p + 1 < |t| && Increasing(t)
    ensures BestBelow(t, y, up, p, start, k, Slope(t, y, p, start, k), k + 1)
  {
  }

  /** The comparison of phaselock.c:91 keeps the best sample so far. */
  lemma NextBest(t: seq<real>, y: seq<real>, up: bool, p: nat, start: real, n: nat, s: real, k: nat, slope: real)
    requires BestBelow(t, y, up, p, start, n, s, k) && k < |t| && slope == Slope(t, y, p, start, k)
    ensures if (slope < s) != up then BestBelow(t, y, up, p, start, k, slope, k + 1)
            else BestBelow(t, y, up, p, start, n, s, k + 1)
  {
  }

  lemma IndexPosition(rp: nat, k: nat)
    requires rp < RING_SIZE && k < RING_SIZE
    ensures Position(rp, Index(rp, k)) == k && Index(rp, k) < RING_SIZE
    ensures NextUp(Index(rp, k)) == if k + 1 < RING_SIZE then Index(rp, k + 1) else NextUp(rp)
    ensures Index(rp, k) == NextUp(rp) <==> k == 0
  {
  }

  /** What a reading of ring index Index(rp, k) says about position k. */
  lemma Reading(ring: seq<Datum>, rp: nat, p: nat, k: nat, s0: nat, s1: nat)
    requires |ring| == RING_SIZE && rp < RING_SIZE && p < k < RING_SIZE
    requires Increasing(Times(Chronological(ring, rp)))
    ensures var d := Chronological(ring, rp);
      var (t, y) := (Times(d), Values(d, s0));
      t[p] < t[k] &&
      Slope(t, y, p, Values(d, s1)[p], k) == SlopeBetween(ring[Index(rp, p)], ring[Index(rp, k)], s0, s1)
  {
    var t := Times(Chronological(ring, rp));
    assert t[p] < t[k];
    ElapsedIs(ring[Index(rp, k)].absolute, ring[Index(rp, p)].absolute);
  }

  lemma ElapsedIs(later: U32, earlier: U32)
    requires later >= earlier
    ensures Elapsed(later, earlier) == later as real - earlier as real
  {
  }

  lemma OffsetReading(ring: seq<Datum>, rp: nat, k: nat, s0: nat, slope: real)
    requires |ring| == RING_SIZE && rp < RING_SIZE && k < RING_SIZE
    requires Increasing(Times(Chronological(ring, rp)))
    ensures var d := Chronological(ring, rp);
      IsSegment(SegThrough(ring[rp], ring[Index(rp, k)], s0, slope), Times(d), Values(d, s0), k)
  {
    var t := Times(Chronological(ring, rp));
    assert Index(rp, RING_SIZE - 1) == rp;
    assert k < RING_SIZE - 1 ==> t[k] < t[RING_SIZE - 1];
    ElapsedIs(ring[rp].absolute, ring[Index(rp, k)].absolute);
  }

  /** phaselock.c:87-88; equal times, where C divides by zero, do not arise from increasing ones. */
  function SlopeBetween(from: Datum, to: Datum, s0: nat, s1: nat): real {
    var dt := Elapsed(to.absolute, from.absolute);
    if dt == 0.0 then 0.0 else (Curve(to, s0) - Curve(from, s1)) / dt
  }

  /** phaselock.c:92-94. */
  function SegThrough(newest: Datum, to: Datum, s0: nat, slope: real): Seg {
    Seg(slope, Curve(to, s0) + slope * Elapsed(newest.absolute, to.absolute))
  }

  /** The search over the samples from position k on, given what it found before (None while cinit holds). */
  function Scan(ring: seq<Datum>, rp: nat, j: nat, s0: nat, s1: nat, sign: bool, k: nat, found: Option<(nat, Seg)>)
    : Option<(nat, Seg)>
    requires |ring| == RING_SIZE && rp < RING_SIZE && j < RING_SIZE && k <= RING_SIZE
    decreases RING_SIZE - k
  {
    if k == RING_SIZE then found
    else Scan(ring, rp, j, s0, s1, sign, k + 1, Improve(ring, rp, j, s0, s1, sign, Index(rp, k), found))
  }

  /** phaselock.c:87-97: the better of what was found so far and sample n. */
  function Improve(ring: seq<Datum>, rp: nat, j: nat, s0: nat, s1: nat, sign: bool, n: nat, found: Option<(nat, Seg)>)
    : Option<(nat, Seg)>
    requires |ring| == RING_SIZE && rp < RING_SIZE && j < RING_SIZE && n < RING_SIZE
  {
    var slope := SlopeBetween(ring[j], ring[n], s0, s1);
    if found.None? || ((slope < found.value.1.slope) != sign) then Some((n, SegThrough(ring[rp], ring[n], s0, slope)))
    else found
  }

  /** found is the best of the samples after position p and below k. */
  ghost predicate Found(ring: seq<Datum>, rp: nat, p: nat, s0: nat, s1: nat, sign: bool, found: (nat, Seg), k: nat)
    requires |ring| == RING_SIZE && rp < RING_SIZE && p < RING_SIZE
  {
    && found.0 < RING_SIZE
    && var d := Chronological(ring, rp);
       var n := Position(rp, found.0);
       BestBelow(Times(d), Values(d, s0), sign, p, Values(d, s1)[p], n, found.1.slope, k) &&
       IsSegment(found.1, Times(d), Values(d, s0), n)
  }

  lemma FoundFirst(ring: seq<Datum>, rp: nat, p: nat, s0: nat, s1: nat, sign: bool, k: nat, slope: real)
    requires |ring| == RING_SIZE && rp < RING_SIZE && k == p + 1 < RING_SIZE
    requires Increasing(Times(Chronological(ring, rp)))
    requires slope == SlopeBetween(ring[Index(rp, p)], ring[Index(rp, k)], s0, s1)
    ensures var n := Index(rp, k);
      Found(ring, rp, p, s0, s1, sign, (n, SegThrough(ring[rp], ring[n], s0, slope)), k + 1)
  {
    var d := Chronological(ring, rp);
    Reading(ring, rp, p, k, s0, s1);
    FirstBest(Times(d), Values(d, s0), sign, p, Values(d, s1)[p], k);
    OffsetReading(ring, rp, k, s0, slope);
    IndexPosition(rp, k);
  }

  lemma FoundNext(ring: seq<Datum>, rp: nat, p: nat, s0: nat, s1: nat, sign: bool, found: (nat, Seg), k: nat,
                  slope: real)
    requires |ring| == RING_SIZE && rp < RING_SIZE && p < k < RING_SIZE
    requires Found(ring, rp, p, s0, s1, sign, found, k)
    requires Increasing(Times(Chronological(ring, rp)))
    requires slope == SlopeBetween(ring[Index(rp, p)], ring[Index(rp, k)], s0, s1)
    ensures var n := Index(rp, k);
      Found(ring, rp, p, s0, s1, sign,
            if (slope < found.1.slope) != sign then (n, SegThrough(ring[rp], ring[n], s0, slope)) else found, k + 1)
  {
    var d := Chronological(ring, rp);
    Reading(ring, rp, p, k, s0, s1);
    NextBest(Times(d), Values(d, s0), sign, p, Values(d, s1)[p], Position(rp, found.0), found.1.slope, k, slope);
    OffsetReading(ring, rp, k, s0, slope);
    IndexPosition(rp, k);
  }

  /** found is the best of the samples after p and below k, and None when there are none yet. */
  ghost predicate FoundSoFar(ring: seq<Datum>, rp: nat, p: nat, s0: nat, s1: nat, sign: bool,
                             found: Option<(nat, Seg)>, k: nat)
    requires |ring| == RING_SIZE && rp < RING_SIZE && p < RING_SIZE
  {
    && (found.None? <==> k == p + 1)
    && (found.Some? ==> Found(ring, rp, p, s0, s1, sign, found.value, k))
  }

  lemma ImproveFinds(ring: seq<Datum>, rp: nat, p: nat, s0: nat, s1: nat, sign: bool, k: nat,
                     found: Option<(nat, Seg)>)
    returns (better: Option<(nat, Seg)>)
    requires |ring| == RING_SIZE && rp < RING_SIZE && p < k < RING_SIZE
    requires Increasing(Times(Chronological(ring, rp))) && FoundSoFar(ring, rp, p, s0, s1, sign, found, k)
    ensures better == Improve(ring, rp, Index(rp, p), s0, s1, sign, Index(rp, k), found)
    ensures FoundSoFar(ring, rp, p, s0, s1, sign, better, k + 1)
  {
    better := Improve(ring, rp, Index(rp, p), s0, s1, sign, Index(rp, k), found);
    var slope := SlopeBetween(ring[Index(rp, p)], ring[Index(rp, k)], s0, s1);
    if found.None? {
      FoundFirst(ring, rp, p, s0, s1, sign, k, slope);
    } else {
      FoundNext(ring, rp, p, s0, s1, sign, found.value, k, slope);
    }
  }

  /** What the search returns: the best later sample, and the line through it. */
  lemma {:induction false} ScanFindsBest(ring: seq<Datum>, rp: nat, p: nat, s0: nat, s1: nat, sign: bool, k: nat,
                                         found: Option<(nat, Seg)>)
    requires |ring| == RING_SIZE && rp < RING_SIZE && p < k <= RING_SIZE && p < RING_SIZE - 1
    requires Increasing(Times(Chronological(ring, rp))) && FoundSoFar(ring, rp, p, s0, s1, sign, found, k)
    ensures FoundSoFar(ring, rp, p, s0, s1, sign, Scan(ring, rp, Index(rp, p), s0, s1, sign, k, found), RING_SIZE)
    decreases RING_SIZE - k
  {
    if k < RING_SIZE {
      var better := ImproveFinds(ring, rp, p, s0, s1, sign, k, found);
      ScanFindsBest(ring, rp, p, s0, s1, sign, k + 1, better);
    }
  }

  /** phaselock.c:80-100. */
  method Search(ring: array<Datum>, rp: nat, j: nat, s0: nat, s1: nat, sign: bool)
    returns (nextj: nat, answer: Seg)
    requires ring.Length == RING_SIZE && rp < RING_SIZE && j < RING_SIZE && j != rp && s0 < 2 && s1 < 2
    ensures var r := Scan(ring[..], rp, j, s0, s1, sign, Position(rp, j) + 1, None);
      r.Some? && r.value == (nextj, answer)
  {
    ghost var p := Position(rp, j);
    ghost var k := p + 1;
    IndexPosition(rp, p);
    var n, cinit := NextUp(j), true;
    nextj, answer := 0, Seg(0.0, 0.0);
    while n != NextUp(rp)
      invariant p < k <= RING_SIZE && n == if k < RING_SIZE then Index(rp, k) else NextUp(rp)
      invariant cinit == (k == p + 1)
      invariant Scan(ring[..], rp, j, s0, s1, sign, k, if cinit then None else Some((nextj, answer))) ==
                Scan(ring[..], rp, j, s0, s1, sign, p + 1, None)
      decreases RING_SIZE - k
    {
      IndexPosition(rp, k);
      var slope := SlopeBetween(ring[j], ring[n], s0, s1);
      if cinit || ((slope < answer.slope) != sign) {
        answer := SegThrough(ring[rp], ring[n], s0, slope);
        cinit := false;
        nextj := n;
      }
      k := k + 1;
      n := NextUp(n);
    }
    IndexPosition(rp, 0);
  }

  // ----- passes 2 and 3

  /** Vertices after the first, lines between vertices, and the crossing line kept for pass 4. */
  datatype Wrapped = Wrapped(verts: seq<nat>, segs: seq<Seg>, save: Option<Seg>)

  /** Pass 2 wraps s.max from below and pass 3 s.min from above. */
  function OwnCurve(up: bool): nat {
    if up then 0 else 1
  }

  function StartSlope(up: bool): real {
    if up then 2.0 * MAX_CORRECT else -2.0 * MAX_CORRECT
  }

  lemma {:induction false} ScanForward(ring: seq<Datum>, rp: nat, j: nat, s0: nat, s1: nat, sign: bool, k: nat,
                                       found: Option<(nat, Seg)>)
    requires |ring| == RING_SIZE && rp < RING_SIZE && j < RING_SIZE && Position(rp, j) < k <= RING_SIZE
    requires found.None? ==> k < RING_SIZE
    requires found.Some? ==> found.value.0 < RING_SIZE && Position(rp, found.value.0) > Position(rp, j)
    ensures var r := Scan(ring, rp, j, s0, s1, sign, k, found);
      r.Some? && r.value.0 < RING_SIZE && Position(rp, r.value.0) > Position(rp, j)
    decreases RING_SIZE - k
  {
    if k < RING_SIZE {
      IndexPosition(rp, k);
      ScanForward(ring, rp, j, s0, s1, sign, k + 1, Improve(ring, rp, j, s0, s1, sign, Index(rp, k), found));
    }
  }

  /** The result of a search from ring index j. */
  function SearchFrom(ring: seq<Datum>, rp: nat, j: nat, s0: nat, s1: nat, sign: bool): (r: (nat, Seg))
    requires |ring| == RING_SIZE && rp < RING_SIZE && j < RING_SIZE && j != rp
    ensures r.0 < RING_SIZE && Position(rp, r.0) > Position(rp, j)
  {
    ScanForward(ring, rp, j, s0, s1, sign, Position(rp, j) + 1, None);
    Scan(ring, rp, j, s0, s1, sign, Position(rp, j) + 1, None).value
  }

  /** What the two searches from one ring index give: a sample and the line to it, on the own curve and on the other. */
  datatype Step = Step(next: nat, seg: Seg, far: nat, check: Seg)

  /** The searches of pass 2 or 3 (phaselock.c:236-237 and 256-257) from ring index j. */
  function StepFrom(ring: seq<Datum>, rp: nat, up: bool, j: nat): Step
    requires |ring| == RING_SIZE && rp < RING_SIZE && j < RING_SIZE && j != rp
  {
    var s := OwnCurve(up);
    var (next, seg) := SearchFrom(ring, rp, j, s, s, up);
    var (far, check) := SearchFrom(ring, rp, j, 1 - s, s, !up);
    Step(next, seg, far, check)
  }

  /** The searches from every ring index; from the newest sample there are none. */
  ghost function Steps(ring: seq<Datum>, rp: nat, up: bool): (r: seq<Step>)
    requires |ring| == RING_SIZE && rp < RING_SIZE
    ensures |r| == RING_SIZE && forall j :: 0 <= j < RING_SIZE && j != rp ==> r[j] == StepFrom(ring, rp, up, j)
  {
    seq(RING_SIZE, j requires 0 <= j < RING_SIZE =>
      if j == rp then Step(0, Seg(0.0, 0.0), 0, Seg(0.0, 0.0)) else StepFrom(ring, rp, up, j))
  }

  /** Every step goes forward in time. */
  ghost predicate Advance(steps: seq<Step>, rp: nat) {
    && |steps| == RING_SIZE && rp < RING_SIZE
    && forall j {:trigger steps[j]} :: 0 <= j < RING_SIZE && j != rp ==>
         steps[j].next < RING_SIZE && steps[j].far < RING_SIZE && Position(rp, steps[j].next) > Position(rp, j)
  }

  lemma StepsAdvance(ring: seq<Datum>, rp: nat, up: bool)
    requires |ring| == RING_SIZE && rp < RING_SIZE
    ensures Advance(Steps(ring, rp, up), rp)
  {
  }

  /** phaselock.c:238-239 and 258-259: whether the crossing line `check` is kept. */
  predicate Keeps(up: bool, check: Seg, seg: Seg, last: real, save: Option<Seg>) {
    && Worse(up, seg.slope, check.slope)
    && Worse(up, check.slope, last)
    && (save.None? || check.slope < save.value.slope)
  }

  /** What is kept after the step s. */
  function Kept(up: bool, s: Step, last: real, save: Option<Seg>): Option<Seg> {
    if Keeps(up, s.check, s.seg, last, save) then Some(s.check) else save
  }

  /** phaselock.c:234-245 and 254-265, from vertex j on; nothing is left to do at the newest sample. */
  ghost function Wrap(steps: seq<Step>, rp: nat, up: bool, j: nat, last: real, save: Option<Seg>): Wrapped
    requires Advance(steps, rp) && j < RING_SIZE
    decreases RING_SIZE - Position(rp, j)
  {
    if j == rp then Wrapped([], [], save)
    else
      var s := steps[j];
      var rest := Wrap(steps, rp, up, s.next, s.seg.slope, Kept(up, s, last, save));
      Wrapped([s.next] + rest.verts, [s.seg] + rest.segs, rest.save)
  }

  /** The whole of pass 2 or pass 3. */
  ghost function WrapAll(ring: seq<Datum>, rp: nat, up: bool): Wrapped
    requires |ring| == RING_SIZE && rp < RING_SIZE
  {
    StepsAdvance(ring, rp, up);
    Wrap(Steps(ring, rp, up), rp, up, NextUp(rp), StartSlope(up), None)
  }

  /** There is room for all lines in the seventeen slots of maxseg and minseg. */
  lemma {:induction false} WrapLength(steps: seq<Step>, rp: nat, up: bool, j: nat, last: real, save: Option<Seg>)
    requires Advance(steps, rp) && j < RING_SIZE
    ensures var w := Wrap(steps, rp, up, j, last, save);
      |w.verts| == |w.segs| <= RING_SIZE - 1 - Position(rp, j) && (j != rp ==> 1 <= |w.segs|)
    decreases RING_SIZE - Position(rp, j)
  {
    if j != rp {
      var s := steps[j];
      WrapLength(steps, rp, up, s.next, s.seg.slope, Kept(up, s, last, save));
    }
  }

  method WrapStep(ring: array<Datum>, rp: nat, up: bool, j: nat) returns (s: Step)
    requires ring.Length == RING_SIZE && rp < RING_SIZE && j < RING_SIZE && j != rp
    ensures s == StepFrom(ring[..], rp, up, j)
  {
    var own := OwnCurve(up);
    var nextj, seg := Search(ring, rp, j, own, own, up);
    var far, check := Search(ring, rp, j, 1 - own, own, !up);
    s := Step(nextj, seg, far, check);
  }

  /** The first c-1 lines are stored, and those still to come from vertex j are the rest of w. */
  ghost predicate Filled(segs: seq<Seg>, w: Wrapped, c: nat, steps: seq<Step>, rp: nat, up: bool, j: nat, last: real,
                         save: Option<Seg>) {
    && |segs| == RING_SIZE + 1 && Advance(steps, rp) && j < RING_SIZE
    && |w.segs| < RING_SIZE && 1 <= c <= |w.segs| + 1
    && segs[1..c] == w.segs[..c - 1]
    && Wrap(steps, rp, up, j, last, save).segs == w.segs[c - 1..]
    && Wrap(steps, rp, up, j, last, save).save == w.save
  }

  lemma FilledStep(segs: seq<Seg>, w: Wrapped, c: nat, steps: seq<Step>, rp: nat, up: bool, j: nat, last: real,
                   save: Option<Seg>)
    requires Filled(segs, w, c, steps, rp, up, j, last, save) && j != rp
    ensures c < |segs| && steps[j].next < RING_SIZE && Position(rp, steps[j].next) > Position(rp, j)
    ensures var s := steps[j];
      Filled(segs[c := s.seg], w, c + 1, steps, rp, up, s.next, s.seg.slope, Kept(up, s, last, save))
  {
    var s := steps[j];
    var rest := Wrap(steps, rp, up, s.next, s.seg.slope, Kept(up, s, last, save));
    assert w.segs[c - 1..] == [s.seg] + rest.segs;
    assert w.segs[c - 1] == s.seg && rest.segs == w.segs[c..] by {
      assert rest.segs == ([s.seg] + rest.segs)[1..];
    }
    assert segs[c := s.seg][1..c + 1] == segs[1..c] + [s.seg];
    assert w.segs[..c] == w.segs[..c - 1] + [s.seg];
  }

  lemma FilledStart(segs: seq<Seg>, w: Wrapped, ring: seq<Datum>, rp: nat, up: bool)
    requires |segs| == RING_SIZE + 1 && |ring| == RING_SIZE && rp < RING_SIZE && w == WrapAll(ring, rp, up)
    ensures Filled(segs, w, 1, Steps(ring, rp, up), rp, up, NextUp(rp), StartSlope(up), None) && 1 <= |w.segs|
  {
    StepsAdvance(ring, rp, up);
    WrapLength(Steps(ring, rp, up), rp, up, NextUp(rp), StartSlope(up), None);
  }

  /** phaselock.c:234-248 (up false, into maxseg) and 254-268 (up true, into minseg); None is dinit still set. */
  method EnvelopePass(ring: array<Datum>, rp: nat, up: bool, segs: array<Seg>) returns (avail: nat, save: Option<Seg>)
    requires ring.Length == RING_SIZE && rp < RING_SIZE && segs.Length == RING_SIZE + 1
    modifies segs
    ensures var w := WrapAll(ring[..], rp, up);
      2 <= avail == |w.segs| + 1 <= RING_SIZE && segs[1..avail] == w.segs && save == w.save
  {
    ghost var r, w, steps := ring[..], WrapAll(ring[..], rp, up), Steps(ring[..], rp, up);
    FilledStart(segs[..], w, r, rp, up);
    var j: nat, last := NextUp(rp), StartSlope(up);
    avail, save := 1, None;
    while j != rp
      invariant ring[..] == r && Filled(segs[..], w, avail, steps, rp, up, j, last, save)
      decreases RING_SIZE - Position(rp, j)
    {
      var s := WrapStep(ring, rp, up, j);
      FilledStep(segs[..], w, avail, steps, rp, up, j, last, save);
      segs[avail] := s.seg;
      avail, j, last, save := avail + 1, s.next, s.seg.slope, Kept(up, s, last, save);
    }
  }
}
