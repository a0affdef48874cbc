/** The frequency-shift accumulator of ExtLibs/Ntp/phaselock.c:102-160, which pass 4 feeds (lines 276-310). */
module PhaseLockPolygon {
  import opened PhaseLock

  const MIN_INIT := 20.0

  function Min(a: real, b: real): real {
    if b < a then b else a
  }

  /** phaselock.c:138-146. */
  function FindShift(slope: real, offset: real): (r: real)
    ensures r >= 0.0
  {
    var shift := Min(slope - offset / 600.0, slope + 0.3 - offset / 6000.0);
    if shift < 0.0 then 0.0 else shift
  }

  /** phaselock.c:152-153: what a point asks for on each side. */
  function Left(s: Seg): real {
    FindShift(0.0 - s.slope, s.offset)
  }

  function Right(s: Seg): real {
    FindShift(s.slope, 0.0 - s.offset)
  }

  /** phaselock.c:115-132. */
  function FindDf(l: real, r: real): real {
    if l == 0.0 then (if r == 0.0 then 0.0 else 0.0 - r)
    else if r == 0.0 then l
    else 0.0
  }

  /** m is the smallest shift asked for, or the initial value when no point asks for less. */
  ghost predicate Least(m: real, shift: Seg -> real, points: set<Seg>) {
    && m <= MIN_INIT && (forall s :: s in points ==> m <= shift(s))
    && (m == MIN_INIT || exists s :: s in points && shift(s) == m)
  }

  lemma LeastUnique(m: real, m': real, shift: Seg -> real, points: set<Seg>)
    requires Least(m, shift, points) && Least(m', shift, points)
    ensures m == m'
  {
  }

  lemma LeastAdd(m: real, shift: Seg -> real, points: set<Seg>, s: Seg)
    requires Least(m, shift, points)
    ensures Least(Min(m, shift(s)), shift, points + {s})
  {
    var m' := Min(m, shift(s));
    if m' == m && m != MIN_INIT {
      var p :| p in points && shift(p) == m;
      assert p in points + {s};
    } else if m' == shift(s) {
      assert s in points + {s};
    }
  }

  class Polygon {
    var lMin: real
    var rMin: real
    ghost var points: set<Seg>

    ghost predicate Valid()
      reads this
    {
      Least(lMin, Left, points) && Least(rMin, Right, points)
    }

    /** phaselock.c:109-113. */
    constructor ()
      ensures Valid() && points == {}
    {
      lMin, rMin := MIN_INIT, MIN_INIT;
      points := {};
    }

    /** phaselock.c:148-160. */
    method PolygonPoint(s: Seg)
      requires Valid()
      modifies this
      ensures Valid() && points == old(points) + {s}
    {
      var l, r := Left(s), Right(s);
      LeastAdd(lMin, Left, points, s);
      LeastAdd(rMin, Right, points, s);
      if l < lMin { lMin := l; }
      if r < rMin { rMin := r; }
      points := points + {s};
    }
  }

  /** Neither the order of the points nor repeating one of them changes the frequency shift. */
  lemma SameShift(p: Polygon, q: Polygon)
    requires p.Valid() && q.Valid() && p.points == q.points
    ensures FindDf(p.lMin, p.rMin) == FindDf(q.lMin, q.rMin)
  {
    LeastUnique(p.lMin, q.lMin, Left, p.points);
    LeastUnique(p.rMin, q.rMin, Right, p.points);
  }
}
