/** contemplate_data (ExtLibs/Ntp/phaselock.c:185-268, 332) over its whole life: a window on the newest samples. */
module PhaseLocker {
  import opened Machine
  import opened Options
  import opened Envelope
  import opened PhaseLock
  import opened PhaseLockRing
  import opened PhaseLockTheorems

  /** A sample as it was reported, without bounds. */
  function Raw(d: Datum): Datum {
    d.(min := 0.0, max := 0.0)
  }

  ghost function RawAll(d: seq<Datum>): (r: seq<Datum>)
    ensures |r| == |d| && forall k :: 0 <= k < |d| ==> r[k] == Raw(d[k])
  {
    seq(|d|, k requires 0 <= k < |d| => Raw(d[k]))
  }

  /** The last 16 samples, or all of them while there are fewer. */
  ghost function Newest(d: seq<Datum>): seq<Datum> {
    if |d| <= RING_SIZE then d else d[|d| - RING_SIZE..]
  }

  /** The samples in the ring from oldest to newest, where rp is the slot to be written next. */
  ghost function Window(ring: seq<Datum>, rp: nat, valid: nat): (w: seq<Datum>)
    requires |ring| == RING_SIZE && rp < RING_SIZE && valid <= RING_SIZE
    ensures |w| == valid
  {
    RawAll(if valid < RING_SIZE then ring[..valid] else ring[rp..] + ring[..rp])
  }

  predicate WellPlaced(rp: nat, valid: nat) {
    rp < RING_SIZE && valid <= RING_SIZE && (valid < RING_SIZE ==> rp == valid)
  }

  function Count(valid: nat): nat {
    if valid < RING_SIZE then valid + 1 else valid
  }

  /** Writing slot rp and moving on to the next one appends to the window and drops what no longer fits. */
  lemma WindowSlides(ring: seq<Datum>, rp: nat, valid: nat, x: Datum)
    requires |ring| == RING_SIZE && WellPlaced(rp, valid)
    ensures WellPlaced(NextUp(rp), Count(valid))
    ensures Window(ring[rp := x], NextUp(rp), Count(valid)) == Newest(Window(ring, rp, valid) + [Raw(x)])
  {
    var (ring', rp') := (ring[rp := x], NextUp(rp));
    if valid < RING_SIZE - 1 {
      assert ring'[..valid + 1] == ring[..valid] + [x];
    } else if valid == RING_SIZE - 1 {
      assert ring'[rp'..] + ring'[..rp'] == ring[..valid] + [x];
    } else {
      SlideFull(ring, rp, x);
    }
  }

  lemma SlideFull(ring: seq<Datum>, rp: nat, x: Datum)
    requires |ring| == RING_SIZE && rp < RING_SIZE
    ensures var (ring', rp') := (ring[rp := x], NextUp(rp));
      RawAll(ring'[rp'..] + ring'[..rp']) == Newest(RawAll(ring[rp..] + ring[..rp]) + [Raw(x)])
  {
    var (ring', rp') := (ring[rp := x], NextUp(rp));
    assert ring'[rp'..] + ring'[..rp'] == (ring[rp..] + ring[..rp])[1..] + [x];
  }

  /** Just before rp moves on, the full window is the ring in chronological order. */
  lemma WindowIsChronological(ring: seq<Datum>, rp: nat)
    requires |ring| == RING_SIZE && rp < RING_SIZE
    ensures Window(ring, NextUp(rp), RING_SIZE) == RawAll(Chronological(ring, rp))
  {
    var rp' := NextUp(rp);
    assert ring[rp'..] + ring[..rp'] == Chronological(ring, rp);
  }

  lemma CorrectedRaw(d: seq<Datum>, freq: int)
    ensures Corrected(d, freq) == Corrected(RawAll(d), freq)
    ensures RawAll(Corrected(d, freq)) == RawAll(d)
  {
    var r := RawAll(d);
    forall k | 0 <= k < |d|
      ensures Wander(d, k, freq) == Wander(r, k, freq)
    {
      WanderRaw(d, r, freq, k);
    }
    forall k | 0 <= k < |d|
      ensures Bound(d[k], Wander(d, k, freq)) == Bound(r[k], Wander(r, k, freq))
    {
    }
  }

  lemma {:induction false} WanderRaw(d: seq<Datum>, r: seq<Datum>, freq: int, k: nat)
    requires r == RawAll(d) && k < |d|
    ensures Wander(d, k, freq) == Wander(r, k, freq)
    decreases |d| - k
  {
    if k < |d| - 1 {
      WanderRaw(d, r, freq, k + 1);
    }
  }

  /** Pass 1 leaves the window as it was, and the bounds are those of the window. */
  lemma CorrectedWindow(ring: seq<Datum>, ring': seq<Datum>, rp: nat, freq: int)
    requires CorrectedFrom(ring', ring, rp, freq, 0)
    ensures Window(ring', NextUp(rp), RING_SIZE) == Window(ring, NextUp(rp), RING_SIZE)
    ensures Chronological(ring', rp) == Corrected(Window(ring, NextUp(rp), RING_SIZE), freq)
  {
    CorrectedEnd(ring', ring, rp, freq);
    WindowIsChronological(ring, rp);
    WindowIsChronological(ring', rp);
    CorrectedRaw(Chronological(ring, rp), freq);
  }

  /** What pass 2 or 3 leaves behind. */
  ghost predicate Holds(segs: seq<Seg>, avail: nat, save: Option<Seg>, w: Wrapped) {
    2 <= avail <= RING_SIZE && avail <= |segs| && avail == |w.segs| + 1 && segs[1..avail] == w.segs && save == w.save
  }

  datatype Outcome = Outcome(maxAvail: nat, saveMin: Option<Seg>, minAvail: nat, saveMax: Option<Seg>)

  /** Passes 1 to 3 have run on the window, whose newest sample is in slot rp. */
  ghost predicate Passed(ring: seq<Datum>, rp: nat, window: seq<Datum>, freq: int, maxseg: seq<Seg>, minseg: seq<Seg>,
                         o: Outcome) {
    && |ring| == RING_SIZE && rp < RING_SIZE
    && Chronological(ring, rp) == Corrected(window, freq)
    && Holds(maxseg, o.maxAvail, o.saveMin, WrapAll(ring, rp, false))
    && Holds(minseg, o.minAvail, o.saveMax, WrapAll(ring, rp, true))
  }

  class Locker {
    const ring: array<Datum>
    const maxseg: array<Seg>
    const minseg: array<Seg>
    var rp: nat
    var valid: nat

    ghost predicate Valid()
      reads this
    {
      && ring.Length == RING_SIZE && maxseg.Length == minseg.Length == RING_SIZE + 1 && maxseg != minseg
      && WellPlaced(rp, valid)
    }

    ghost function Recent(): seq<Datum>
      requires Valid()
      reads this, ring
    {
      Window(ring[..], rp, valid)
    }

    constructor ()
      ensures Valid() && Recent() == []
    {
      ring := new Datum[RING_SIZE](i => Datum(0, 0.0, 0.0, 0, 0.0, 0.0));
      maxseg := new Seg[RING_SIZE + 1](i => Seg(0.0, 0.0));
      minseg := new Seg[RING_SIZE + 1](i => Seg(0.0, 0.0));
      rp := 0;
      valid := 0;
    }

    /** phaselock.c:204-268 and 332, without the frequency decision that follows pass 3. */
    method Contemplate(absolute: U32, skew: real, errorbar: real, freq: int, minDelay: real) returns (o: Option<Outcome>)
      requires Valid()
      modifies this, ring, maxseg, minseg
      ensures Valid()
      ensures Recent() == Newest(old(Recent()) + [Datum(absolute, skew, errorbar - minDelay, freq, 0.0, 0.0)])
      ensures o.Some? <==> |Recent()| == RING_SIZE
      ensures o.Some? ==> Passed(ring[..], old(rp), Recent(), freq, maxseg[..], minseg[..], o.value)
    {
      var x := Datum(absolute, skew, errorbar - minDelay, freq, ring[rp].min, ring[rp].max);
      ghost var sample := Datum(absolute, skew, errorbar - minDelay, freq, 0.0, 0.0);
      Record(x, sample);
      ghost var w := Window(ring[..], NextUp(rp), valid);
      o := None;
      if valid == RING_SIZE {
        var r := Passes(freq, w);
        o := Some(r);
      }
      rp := NextUp(rp);
      assert Recent() == w;
    }

    /** phaselock.c:211-268. */
    method Passes(freq: int, ghost w: seq<Datum>) returns (o: Outcome)
      requires ring.Length == RING_SIZE && rp < RING_SIZE && maxseg.Length == minseg.Length == RING_SIZE + 1 && maxseg != minseg
      requires w == Window(ring[..], NextUp(rp), RING_SIZE)
      modifies ring, maxseg, minseg
      ensures Window(ring[..], NextUp(rp), RING_SIZE) == w
      ensures Passed(ring[..], rp, w, freq, maxseg[..], minseg[..], o)
    {
      Correct(freq);
      var maxAvail, saveMin := FindEnvelope(false, maxseg);
      var minAvail, saveMax := FindEnvelope(true, minseg);
      o := Outcome(maxAvail, saveMin, minAvail, saveMax);
    }

    method Correct(freq: int)
      requires ring.Length == RING_SIZE && rp < RING_SIZE
      modifies ring
      ensures Window(ring[..], NextUp(rp), RING_SIZE) == old(Window(ring[..], NextUp(rp), RING_SIZE))
      ensures Chronological(ring[..], rp) == Corrected(Window(ring[..], NextUp(rp), RING_SIZE), freq)
    {
      ghost var before := ring[..];
      CorrectPass(ring, rp, freq);
      CorrectedWindow(before, ring[..], rp, freq);
    }

    method FindEnvelope(up: bool, segs: array<Seg>) returns (avail: nat, save: Option<Seg>)
      requires ring.Length == RING_SIZE && rp < RING_SIZE && segs.Length == RING_SIZE + 1
      modifies segs
      ensures Holds(segs[..], avail, save, WrapAll(ring[..], rp, up))
    {
      avail, save := EnvelopePass(ring, rp, up, segs);
      assert segs[..][1..avail] == segs[1..avail];
    }

    /** phaselock.c:204-209: rp still points at the new sample. */
    method Record(x: Datum, ghost sample: Datum)
      requires Valid() && sample == Raw(x)
      modifies this`valid, ring
      ensures rp == old(rp) && valid == Count(old(valid)) && WellPlaced(NextUp(rp), valid)
      ensures Window(ring[..], NextUp(rp), valid) == Newest(old(Recent()) + [sample])
    {
      WindowSlides(ring[..], rp, valid, x);
      ring[rp] := x;
      valid := Count(valid);
    }
  }

  /**
   A steered clock measured within its error bars: once the window is full, the drift rate of the true clock
   at the present frequency lies between the slopes of the two crossing lines that are kept.
   */
  lemma TruthBracketed(ring: seq<Datum>, rp: nat, window: seq<Datum>, sigma: seq<real>, rho: real, freq: int,
                       maxseg: seq<Seg>, minseg: seq<Seg>, o: Outcome)
    requires Passed(ring, rp, window, freq, maxseg, minseg, o)
    requires Steered(window, sigma, rho) && Measured(window, sigma) && Increasing(Times(window))
    ensures var slope := rho - freq as real / 65536.0;
      (o.saveMin.Some? ==> o.saveMin.value.slope <= slope) && (o.saveMax.Some? ==> slope <= o.saveMax.value.slope)
  {
    var (d, line) := (Chronological(ring, rp), Seg(rho - freq as real / 65536.0, sigma[|sigma| - 1]));
    CorrectedContainsTruth(window, sigma, rho, freq);
    assert Times(d) == Times(window);
    CrossingIsExtreme(ring, rp, false, line);
    CrossingIsExtreme(ring, rp, true, line);
  }
}
