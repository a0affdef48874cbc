/** Timestamp arithmetic of ExtLibs/Ntp/ntpclient.c:302-316, 370-383 (section 5 of RFC 4330), with doubles as reals. */
module NtpExchange {
  import opened Machine

  const W := 0x1_0000_0000

  /** ntpclient.c:114-117: seconds, and a fraction in units of 2^-32 s. */
  datatype NtpTime = NtpTime(coarse: U32, fine: U32)

  /** Microseconds per unit of 2^-32 s. */
  const UNIT: real := 1000000.0 / 4294967296.0

  /** ntpclient.c:302-316, in microseconds. */
  function NtpDiff(start: NtpTime, stop: NtpTime): real {
    var a := ToInt((stop.coarse - start.coarse) % W);
    if stop.fine >= start.fine then
      a as real * 1000000.0 + (stop.fine - start.fine) as real * UNIT
    else
      (a - 1) as real * 1000000.0 + (W - 1 - (start.fine - stop.fine)) as real * UNIT
  }

  /** The timestamp of instant v, counted in units of 2^-32 s; the count of seconds wraps every 2^32 s. */
  function Stamp(v: int): NtpTime {
    NtpTime(v / W % W, v % W)
  }

  /** The whole seconds of two instants differ by less than 2^31. */
  predicate Near(v: int, w: int) {
    -0x8000_0000 < w / W - v / W < 0x8000_0000
  }

  /** 1 when the fraction has to borrow a second: `~b` is then one unit short of the difference. */
  function Borrow(v: int, w: int): int {
    if w % W >= v % W then 0 else 1
  }

  lemma CoarseDiff(a: int, b: int)
    requires -0x8000_0000 < b - a < 0x8000_0000
    ensures ToInt((b % W - a % W) % W) == b - a
  {
    assert (b % W - a % W) % W == (b - a) % W by {
      DiffMod(a, b);
    }
  }

  lemma DiffMod(a: int, b: int)
    ensures (b % W - a % W) % W == (b - a) % W
  {
  }

  lemma Scale(a: int, b: int)
    ensures a as real * 1000000.0 + b as real * UNIT == (a * W + b) as real * UNIT
  {
    assert (a * W + b) as real == a as real * 4294967296.0 + b as real;
  }

  /** ntpdiff is exact, or one unit short when it borrows, also across a wrap of the seconds. */
  lemma DiffIs(v: int, w: int)
    requires Near(v, w)
    ensures NtpDiff(Stamp(v), Stamp(w)) == (w - v - Borrow(v, w)) as real * UNIT
  {
    var (a, b) := (v / W, w / W);
    CoarseDiff(a, b);
    assert v == a * W + v % W && w == b * W + w % W;
    if w % W >= v % W {
      Scale(b - a, w % W - v % W);
    } else {
      Scale(b - a - 1, W - 1 - (v % W - w % W));
    }
  }

  /** ntpclient.c:370-371 and 379: elapsed minus stalled. */
  function Slop(org: NtpTime, rec: NtpTime, xmt: NtpTime, arrival: NtpTime): real {
    NtpDiff(org, arrival) - NtpDiff(rec, xmt)
  }

  /** ntpclient.c:372-373 and 383. */
  function Skew(org: NtpTime, rec: NtpTime, xmt: NtpTime, arrival: NtpTime): real {
    (NtpDiff(org, rec) - NtpDiff(xmt, arrival)) / 2.0
  }

  /**
   An exchange: sent at client time v, received at server time v + there + offset, answered after `stall`
   and received at client time v + there + stall + back. Its skew is the true offset to within half the slop
   and one unit.
   */
  lemma SkewWithinSlop(v: int, offset: int, there: nat, stall: int, back: nat, v2: int, v3: int, v4: int)
    requires v2 == v + there + offset && v3 == v2 + stall && v4 == v3 + back - offset
    requires Near(v, v2) && Near(v, v4) && Near(v2, v3) && Near(v3, v4)
    ensures var (org, rec, xmt, arr) := (Stamp(v), Stamp(v2), Stamp(v3), Stamp(v4));
      var (skew, slop, truth) := (Skew(org, rec, xmt, arr), Slop(org, rec, xmt, arr), offset as real * UNIT);
      truth - slop / 2.0 - UNIT <= skew <= truth + slop / 2.0 + UNIT
  {
    DiffIs(v, v2);
    DiffIs(v3, v4);
    DiffIs(v, v4);
    DiffIs(v2, v3);
    var (e1, e2, e3, e4) := (Borrow(v, v2), Borrow(v3, v4), Borrow(v, v4), Borrow(v2, v3));
    Combine(offset, there, back, stall, e1, e2, e3, e4);
  }

  lemma Combine(offset: int, there: nat, back: nat, stall: int, e1: int, e2: int, e3: int, e4: int)
    requires 0 <= e1 <= 1 && 0 <= e2 <= 1 && 0 <= e3 <= 1 && 0 <= e4 <= 1
    ensures
      var skew := ((there + offset - e1) as real * UNIT - (back - offset - e2) as real * UNIT) / 2.0;
      var slop := (there + stall + back - e3) as real * UNIT - (stall - e4) as real * UNIT;
      var truth := offset as real * UNIT;
      truth - slop / 2.0 - UNIT <= skew <= truth + slop / 2.0 + UNIT
  {
  }

  // ----- the client's own timestamps

  /** ntpclient.c:99, for a number of microseconds below a second; no product there exceeds 32 bits. */
  function NtpFrac(x: nat): (r: nat)
    requires x < 1000000
    ensures r < W
  {
    4294 * x + 1981 * x / 2048
  }

  /** NTPFRAC falls short of the exact fraction by less than twelve units. */
  lemma NtpFracShort(x: nat)
    requires x < 1000000
    ensures 0 <= W * x - 1000000 * NtpFrac(x) < 12000000
  {
  }

  /** The instant that ntpclient.c:217-218 makes of a clock reading, in microseconds since 1900. */
  function Reading(us: nat): int {
    us / 1000000 * W + NtpFrac(us % 1000000)
  }

  function ClientStamp(us: nat): NtpTime {
    NtpTime(us / 1000000 % W, NtpFrac(us % 1000000))
  }

  lemma ReadingStamp(us: nat)
    ensures Stamp(Reading(us)) == ClientStamp(us)
  {
    WholeAndFraction(us / 1000000, NtpFrac(us % 1000000));
  }

  lemma WholeAndFraction(s: int, f: nat)
    requires f < W
    ensures (s * W + f) / W == s && (s * W + f) % W == f
  {
  }

  /** By how much the stamp lags behind the clock, in units of 2^-32 s. */
  function Lag(us: nat): real {
    us as real / UNIT - Reading(us) as real
  }

  lemma LagSmall(us: nat)
    ensures 0.0 <= Lag(us) < 12.0
  {
    var (s, x) := (us / 1000000, us % 1000000);
    NtpFracShort(x);
    assert us == s * 1000000 + x;
    assert us as real / UNIT == us as real * 4294967296.0 / 1000000.0;
    assert (W * us - 1000000 * Reading(us)) == W * x - 1000000 * NtpFrac(x);
    assert Lag(us) == (W * us - 1000000 * Reading(us)) as real / 1000000.0;
  }

  /**
   The same with the client's stamps made by NTPFRAC from its clock: the bound grows by the twelve units of the lag.
   The offset is in units of 2^-32 s; both trips take no negative time.
   */
  lemma SkewWithClientStamps(us: nat, us4: nat, v2: int, v3: int, offset: real)
    requires us as real / UNIT + offset <= v2 as real && v3 as real <= us4 as real / UNIT + offset
    requires Near(Reading(us), v2) && Near(Reading(us), Reading(us4)) && Near(v2, v3) && Near(v3, Reading(us4))
    ensures var (org, rec, xmt, arr) := (ClientStamp(us), Stamp(v2), Stamp(v3), ClientStamp(us4));
      var (skew, slop, truth) := (Skew(org, rec, xmt, arr), Slop(org, rec, xmt, arr), offset * UNIT);
      truth - slop / 2.0 - 13.0 * UNIT <= skew <= truth + slop / 2.0 + 13.0 * UNIT
  {
    var (v, v4) := (Reading(us), Reading(us4));
    ReadingStamp(us);
    ReadingStamp(us4);
    LagSmall(us);
    LagSmall(us4);
    DiffIs(v, v2);
    DiffIs(v3, v4);
    DiffIs(v, v4);
    DiffIs(v2, v3);
    CombineLags(v, v2, v3, v4, offset, Lag(us), Lag(us4), Borrow(v, v2), Borrow(v3, v4), Borrow(v, v4), Borrow(v2, v3));
  }

  lemma CombineLags(v: int, v2: int, v3: int, v4: int, offset: real, lag: real, lag4: real, e1: int, e2: int, e3: int, e4: int)
    requires 0 <= e1 <= 1 && 0 <= e2 <= 1 && 0 <= e3 <= 1 && 0 <= e4 <= 1
    requires 0.0 <= lag < 12.0 && 0.0 <= lag4 < 12.0
    requires v as real + lag + offset <= v2 as real && v3 as real <= v4 as real + lag4 + offset
    ensures
      var skew := ((v2 - v - e1) as real * UNIT - (v4 - v3 - e2) as real * UNIT) / 2.0;
      var slop := (v4 - v - e3) as real * UNIT - (v3 - v2 - e4) as real * UNIT;
      offset * UNIT - slop / 2.0 - 13.0 * UNIT <= skew <= offset * UNIT + slop / 2.0 + 13.0 * UNIT
  {
  }
}
