/**
 Splitting an H.264 access unit at its start codes (App/Rtmp/rtmpstart.c:103-189). The byte stream format is
 that of Annex B.1.1 and section 7.3.1 of ITU-T H.264, with four-byte start codes.
 */
module H264Slices {
  import opened Machine
  import opened Options
  import opened Sequences

  /** One entry of the slice table; nut is the NAL unit type, of which the program keeps the bit 1 << nut. */
  datatype Slice = Slice(start: nat, len: nat, nut: nat)

  const START: seq<Byte> := [0, 0, 0, 1]
  const TABLE_SIZE := 10
  const SPS := 7

  /** rtmpstart.c:82. */
  predicate StartAt(d: seq<Byte>, i: nat) {
    i + 4 <= |d| && d[i] == 0 && d[i + 1] == 0 && d[i + 2] == 0 && d[i + 3] == 1
  }

  function TypeOf(b: Byte): nat {
    b % 32
  }

  /** A coded slice ends the access unit: everything after its start code belongs to it. */
  predicate Final(t: nat) {
    t == 1 || t == 5
  }

  /** SEI, sequence and picture parameter sets and delimiters: they end at the next start code. */
  predicate Leading(t: nat) {
    6 <= t <= 9
  }

  /** The first start code at or after i. */
  function NextStart(d: seq<Byte>, i: nat): (r: Option<nat>)
    ensures r.Some? ==> i <= r.value && StartAt(d, r.value)
    ensures forall k :: i <= k < (if r.Some? then r.value else |d|) ==> !StartAt(d, k)
    decreases |d| - i
  {
    if i >= |d| then None else if StartAt(d, i) then Some(i) else NextStart(d, i + 1)
  }

  /** The scan from `place` on; None when it would look for a start code past the end of the data. */
  function Split(d: seq<Byte>, place: nat): Option<seq<Slice>>
    decreases |d| - place
  {
    if place + 4 >= |d| then Some([])
    else if !StartAt(d, place) then Split(d, place + 1)
    else
      var q := place + 4;
      var t := TypeOf(d[q]);
      if Final(t) then Some([Slice(q, |d| - q, t)])
      else if Leading(t) then
        var e := NextStart(d, q);
        if e.None? then None else Cons(Slice(q, e.value - q, t), Split(d, e.value))
      else Split(d, q + 1)
  }

  function Cons(s: Slice, rest: Option<seq<Slice>>): Option<seq<Slice>> {
    if rest.None? then None else Some([s] + rest.value)
  }

  // ----- access units

  predicate Clean(nal: seq<Byte>) {
    |nal| > 0 && forall i :: 0 <= i < |nal| ==> !StartAt(nal, i)
  }

  /** Leading NAL units, then one coded slice. */
  predicate AccessUnit(nals: seq<seq<Byte>>) {
    && |nals| > 0
    && (forall i :: 0 <= i < |nals| ==> Clean(nals[i]))
    && (forall i :: 0 <= i < |nals| - 1 ==> Leading(TypeOf(nals[i][0])))
    && Final(TypeOf(nals[|nals| - 1][0]))
  }

  function Stream(nals: seq<seq<Byte>>): seq<Byte> {
    if nals == [] then [] else START + nals[0] + Stream(nals[1..])
  }

  /** Where the units stand in a stream that begins at offset `at`. */
  function Slices(nals: seq<seq<Byte>>, at: nat): seq<Slice>
    requires forall i :: 0 <= i < |nals| ==> |nals[i]| > 0
  {
    if nals == [] then []
    else [Slice(at + 4, |nals[0]|, TypeOf(nals[0][0]))] + Slices(nals[1..], at + 4 + |nals[0]|)
  }

  /** No start code begins inside a unit, not even one that runs into the next start code. */
  lemma NoStartInside(pre: seq<Byte>, nal: seq<Byte>, rest: seq<Byte>, d: seq<Byte>, k: nat)
    requires Clean(nal) && d == pre + nal + START + rest && |pre| <= k < |pre| + |nal|
    ensures !StartAt(d, k)
  {
    var q := |pre|;
    assert forall i :: 0 <= i < |nal| ==> d[q + i] == nal[i];
    assert forall i :: 0 <= i < 4 ==> d[q + |nal| + i] == START[i];
    assert !StartAt(nal, k - q);
    if k + 4 <= q + |nal| {
      assert d[k] == nal[k - q] && d[k + 1] == nal[k - q + 1] && d[k + 2] == nal[k - q + 2] && d[k + 3] == nal[k - q + 3];
    } else {
      var m := k + 3 - (q + |nal|);
      assert d[k + 3] == START[m];
    }
  }

  lemma NextStartIs(pre: seq<Byte>, nal: seq<Byte>, rest: seq<Byte>, d: seq<Byte>)
    requires Clean(nal) && d == pre + nal + START + rest
    ensures NextStart(d, |pre|) == Some(|pre| + |nal|)
  {
    var e := |pre| + |nal|;
    assert d[e..e + 4] == START;
    assert StartAt(d, e) by {
      assert d[e] == d[e..e + 4][0] && d[e + 1] == d[e..e + 4][1] && d[e + 2] == d[e..e + 4][2] && d[e + 3] == d[e..e + 4][3];
    }
    forall k | |pre| <= k < e
      ensures !StartAt(d, k)
    {
      NoStartInside(pre, nal, rest, d, k);
    }
  }

  lemma StartHere(pre: seq<Byte>, rest: seq<Byte>, d: seq<Byte>)
    requires d == pre + START + rest
    ensures StartAt(d, |pre|)
  {
  }

  lemma TailUnit(nals: seq<seq<Byte>>)
    requires AccessUnit(nals) && |nals| > 1
    ensures AccessUnit(nals[1..])
  {
  }

  lemma LeadingStep(d: seq<Byte>, place: nat, q: nat, e: nat)
    requires q == place + 4 < |d| && StartAt(d, place) && Leading(TypeOf(d[q])) && NextStart(d, q) == Some(e)
    ensures Split(d, place) == Cons(Slice(q, e - q, TypeOf(d[q])), Split(d, e))
  {
  }

  lemma StreamStarts(nals: seq<seq<Byte>>)
    requires nals != []
    ensures |Stream(nals)| >= 4 && Stream(nals) == START + Stream(nals)[4..]
  {
  }

  // ----- any units

  predicate AllClean(nals: seq<seq<Byte>>) {
    forall i :: 0 <= i < |nals| ==> Clean(nals[i])
  }

  /**
   What the scan finds in any units: a coded slice takes all that follows, other types are passed over, and a leading
   unit at the very end makes it look for a start code past the end of the data.
   */
  function Found(nals: seq<seq<Byte>>, at: nat): Option<seq<Slice>>
    requires AllClean(nals)
  {
    if nals == [] then Some([])
    else
      var (nal, rest) := (nals[0], nals[1..]);
      var t := TypeOf(nal[0]);
      if Final(t) then Some([Slice(at + 4, |nal| + |Stream(rest)|, t)])
      else if Leading(t) then if rest == [] then None else Cons(Slice(at + 4, |nal|, t), Found(rest, at + 4 + |nal|))
      else Found(rest, at + 4 + |nal|)
  }

  /** The scan passes over a part in which no start code begins. */
  lemma {:induction false} SplitSkips(d: seq<Byte>, a: nat, e: nat)
    requires a <= e <= |d| && (forall k :: a <= k < e ==> !StartAt(d, k)) && (e == |d| || e + 4 < |d|)
    ensures Split(d, a) == Split(d, e)
    decreases e - a
  {
    if a < e && a + 4 < |d| {
      SplitSkips(d, a + 1, e);
    }
  }

  lemma NoStartAtEnd(pre: seq<Byte>, nal: seq<Byte>, d: seq<Byte>, k: nat)
    requires Clean(nal) && d == pre + nal && |pre| <= k
    ensures !StartAt(d, k)
  {
    var i := k - |pre|;
    if k < |d| {
      assert !StartAt(nal, i);
      assert forall j :: 0 <= j < |nal| ==> d[|pre| + j] == nal[j];
    }
  }

  /** No start code begins between the unit's first byte and the next unit, or the end. */
  lemma NoStartUntil(pre: seq<Byte>, nal: seq<Byte>, tail: seq<Byte>, d: seq<Byte>, q: nat, e: nat, k: nat)
    requires Clean(nal) && d == pre + nal + tail && q == |pre| && e == q + |nal| && q <= k < e
    requires tail == [] || (|tail| >= 4 && tail == START + tail[4..])
    ensures !StartAt(d, k)
  {
    if tail == [] {
      assert d == pre + nal;
      NoStartAtEnd(pre, nal, d, k);
    } else {
      assert d == pre + nal + START + tail[4..];
      NoStartInside(pre, nal, tail[4..], d, k);
    }
  }

  /** The first unit and the rest. */
  lemma FirstUnit(pre: seq<Byte>, nals: seq<seq<Byte>>, d: seq<Byte>, p: nat, nal: seq<Byte>, tail: seq<Byte>, q: nat, e: nat)
    requires nals != [] && d == pre + Stream(nals) && p == |pre| && nal == nals[0] && Clean(nal) && tail == Stream(nals[1..])
    requires q == p + 4 && e == q + |nal|
    ensures d == (pre + START) + nal + tail && d == (pre + START + nal) + tail && e + |tail| == |d|
    ensures StartAt(d, p) && q < |d| && d[q] == nal[0]
  {
    Grouped(pre, nals, d, nal, tail, START);
    StartHere(pre, nal + tail, d);
    FirstByteAt(pre + START, nal, tail, d, q);
  }

  lemma Grouped(pre: seq<Byte>, nals: seq<seq<Byte>>, d: seq<Byte>, nal: seq<Byte>, tail: seq<Byte>, start: seq<Byte>)
    requires nals != [] && d == pre + Stream(nals) && nal == nals[0] && tail == Stream(nals[1..]) && start == START
    ensures d == (pre + start) + nal + tail && d == (pre + start + nal) + tail && d == pre + start + (nal + tail)
  {
    Associative(pre, start + nal, tail);
    Associative(pre, start, nal);
    Associative(pre + start, nal, tail);
  }

  lemma FirstByteAt(front: seq<Byte>, nal: seq<Byte>, tail: seq<Byte>, d: seq<Byte>, q: nat)
    requires d == front + nal + tail && q == |front| && |nal| > 0
    ensures q < |d| && d[q] == nal[0] && |d| == q + |nal| + |tail|
  {
  }

  lemma TailIs(nals: seq<seq<Byte>>, tail: seq<Byte>)
    requires AllClean(nals) && tail == Stream(nals)
    ensures tail == [] <==> nals == []
    ensures tail == [] || (|tail| > 4 && tail == START + tail[4..])
  {
    if nals != [] {
      StreamStarts(nals);
      assert |nals[0]| > 0;
    }
  }

  lemma {:induction false} NextStartNone(d: seq<Byte>, q: nat)
    requires forall k :: q <= k < |d| ==> !StartAt(d, k)
    ensures NextStart(d, q) == None
    decreases |d| - q
  {
    if q < |d| {
      NextStartNone(d, q + 1);
    }
  }

  /** The scan of one unit at p, where the next one or the end is at e. */
  lemma OneUnit(pre: seq<Byte>, nal: seq<Byte>, tail: seq<Byte>, d: seq<Byte>, p: nat, q: nat, e: nat, t: nat)
    requires Clean(nal) && t == TypeOf(nal[0]) && p + 4 == q == |pre| && e == q + |nal| && d == pre + nal + tail
    requires StartAt(d, p) && q < |d| && d[q] == nal[0]
    requires tail == [] || (|tail| > 4 && tail == START + tail[4..])
    ensures Split(d, p) == if Final(t) then Some([Slice(q, |nal| + |tail|, t)])
                           else if !Leading(t) then Split(d, e)
                           else if tail == [] then None
                           else Cons(Slice(q, |nal|, t), Split(d, e))
  {
    forall k | q <= k < e
      ensures !StartAt(d, k)
    {
      NoStartUntil(pre, nal, tail, d, q, e, k);
    }
    if Leading(t) {
      if tail == [] {
        NextStartNone(d, q);
      } else {
        NextStartIs(pre, nal, tail[4..], d) by { assert d == pre + nal + START + tail[4..]; }
        LeadingStep(d, p, q, e);
      }
    } else if !Final(t) {
      SplitSkips(d, q + 1, e);
    }
  }

  /** On any units free of start codes the splitter finds what is specified. */
  lemma {:induction false} SplitFinds(pre: seq<Byte>, nals: seq<seq<Byte>>, d: seq<Byte>, p: nat)
    requires AllClean(nals) && d == pre + Stream(nals) && p == |pre|
    ensures Split(d, p) == Found(nals, p)
    decreases |nals|
  {
    if nals != [] {
      var (nal, tail, q) := (nals[0], Stream(nals[1..]), p + 4);
      var e := q + |nal|;
      assert Clean(nal);
      FirstUnit(pre, nals, d, p, nal, tail, q, e);
      TailIs(nals[1..], tail);
      OneUnit(pre + START, nal, tail, d, p, q, e, TypeOf(nal[0]));
      SplitFinds(pre + START + nal, nals[1..], d, e);
    }
  }

  lemma {:induction false} FoundAccess(nals: seq<seq<Byte>>, at: nat)
    requires AccessUnit(nals)
    ensures Found(nals, at) == Some(Slices(nals, at))
    decreases |nals|
  {
    if |nals| == 1 {
      var s := Slice(at + 4, |nals[0]|, TypeOf(nals[0][0]));
      assert nals[1..] == [] && Stream(nals[1..]) == [];
      assert Slices(nals, at) == [s] + Slices(nals[1..], at + 4 + |nals[0]|) == [s];
    } else {
      assert Leading(TypeOf(nals[0][0]));
      TailUnit(nals);
      FoundAccess(nals[1..], at + 4 + |nals[0]|);
    }
  }

  /** The splitter finds exactly the units of an access unit, in order. */
  lemma SplitStream(nals: seq<seq<Byte>>)
    requires AccessUnit(nals)
    ensures Split(Stream(nals), 0) == Some(Slices(nals, 0))
  {
    assert Stream(nals) == [] + Stream(nals);
    SplitFinds([], nals, Stream(nals), 0);
    FoundAccess(nals, 0);
  }

  ghost predicate HasFinal(nals: seq<seq<Byte>>)
    requires AllClean(nals)
  {
    exists i :: 0 <= i < |nals| && Final(TypeOf(nals[i][0]))
  }

  lemma {:induction false} FoundIff(nals: seq<seq<Byte>>, at: nat)
    requires AllClean(nals) && nals != []
    ensures Found(nals, at).Some? <==> HasFinal(nals) || !Leading(TypeOf(nals[|nals| - 1][0]))
    ensures Found(nals, at).Some? ==> |Found(nals, at).value| <= |nals|
    decreases |nals|
  {
    var rest := nals[1..];
    if rest != [] {
      FoundIff(rest, at + 4 + |nals[0]|);
      HasFinalCons(nals);
    }
  }

  lemma HasFinalCons(nals: seq<seq<Byte>>)
    requires AllClean(nals) && nals != []
    ensures HasFinal(nals) <==> Final(TypeOf(nals[0][0])) || HasFinal(nals[1..])
  {
    if HasFinal(nals[1..]) {
      var i :| 0 <= i < |nals[1..]| && Final(TypeOf(nals[1..][i][0]));
      assert nals[i + 1] == nals[1..][i];
    }
    if HasFinal(nals) && !Final(TypeOf(nals[0][0])) {
      var i :| 0 <= i < |nals| && Final(TypeOf(nals[i][0]));
      assert nals[1..][i - 1] == nals[i];
    }
  }

  /**
   On units free of start codes the scan stays inside the data if and only if one of them is a coded slice or the
   last one is not a leading unit.
   */
  lemma ScanInsideIff(nals: seq<seq<Byte>>)
    requires AllClean(nals) && nals != []
    ensures Split(Stream(nals), 0) == Found(nals, 0)
    ensures Split(Stream(nals), 0).Some? <==> HasFinal(nals) || !Leading(TypeOf(nals[|nals| - 1][0]))
  {
    assert Stream(nals) == [] + Stream(nals);
    SplitFinds([], nals, Stream(nals), 0);
    FoundIff(nals, 0);
  }

  /** The low five bits of the header byte are the unit type; above them are nal_ref_idc and the forbidden zero bit. */
  lemma HeaderByte(refIdc: nat, t: nat)
    requires refIdc < 4 && t < 32
    ensures TypeOf(32 * refIdc + t) == t
  {
  }

  /** Units of all types but 1 and 5 to 9 are passed over. */
  lemma OthersPassedOver(nal: seq<Byte>, nals: seq<seq<Byte>>, at: nat)
    requires Clean(nal) && AllClean(nals) && nal[0] % 32 !in {1, 5, 6, 7, 8, 9}
    ensures AllClean([nal] + nals) && Found([nal] + nals, at) == Found(nals, at + 4 + |nal|)
  {
    assert ([nal] + nals)[1..] == nals;
  }

  /** A stream as encoders send it: delimiter, parameter sets, SEI and an IDR slice, by their header bytes. */
  lemma KeyFrameFound(aud: seq<Byte>, sps: seq<Byte>, pps: seq<Byte>, sei: seq<Byte>, idr: seq<Byte>, d: seq<Byte>)
    requires Clean(aud) && Clean(sps) && Clean(pps) && Clean(sei) && Clean(idr)
    requires aud[0] == 0x09 && sps[0] == 0x67 && pps[0] == 0x68 && sei[0] == 0x06 && idr[0] == 0x65
    requires d == START + aud + START + sps + START + pps + START + sei + START + idr
    ensures Split(d, 0) == Some([Slice(4, |aud|, 9), Slice(|aud| + 8, |sps|, 7), Slice(|aud| + |sps| + 12, |pps|, 8),
                                 Slice(|aud| + |sps| + |pps| + 16, |sei|, 6), Slice(|aud| + |sps| + |pps| + |sei| + 20, |idr|, 5)])
  {
    var n1 := [aud, sps, pps, sei, idr];
    StreamOfFive(aud, sps, pps, sei, idr, d, n1);
    SplitStream(n1);
    SlicesFive(aud, sps, pps, sei, idr, n1);
  }

  lemma OneMore(nal: seq<Byte>, rest: seq<seq<Byte>>)
    ensures Stream([nal] + rest) == START + nal + Stream(rest)
  {
    assert ([nal] + rest)[1..] == rest;
  }

  /** A predicted slice, of which the rest of the data is part. */
  lemma PredictedFrameFound(slice: seq<Byte>, d: seq<Byte>)
    requires Clean(slice) && (slice[0] == 0x61 || slice[0] == 0x41) && d == START + slice
    ensures Split(d, 0) == Some([Slice(4, |slice|, 1)])
  {
    OneMore(slice, []);
    assert [slice] + [] == [slice] && START + slice + [] == d;
    SplitStream([slice]);
    assert [slice][1..] == [];
    assert Slices([slice], 0) == [Slice(4, |slice|, 1)] + Slices([], 4 + |slice|);
  }

  lemma StreamOfFive(aud: seq<Byte>, sps: seq<Byte>, pps: seq<Byte>, sei: seq<Byte>, idr: seq<Byte>, d: seq<Byte>,
                     nals: seq<seq<Byte>>)
    requires d == START + aud + START + sps + START + pps + START + sei + START + idr
    requires nals == [aud, sps, pps, sei, idr]
    ensures d == Stream(nals)
  {
    var (n2, n3, n4, n5) := (nals[1..], nals[2..], nals[3..], nals[4..]);
    assert Stream(n5) == START + idr + [] by { assert n5[1..] == []; }
    assert Stream(n4) == START + sei + Stream(n5) by { assert n4[1..] == n5; }
    assert Stream(n3) == START + pps + Stream(n4) by { assert n3[1..] == n4; }
    assert Stream(n2) == START + sps + Stream(n3) by { assert n2[1..] == n3; }
    assert Stream(nals) == START + aud + Stream(n2);
  }

  lemma SlicesFive(aud: seq<Byte>, sps: seq<Byte>, pps: seq<Byte>, sei: seq<Byte>, idr: seq<Byte>, nals: seq<seq<Byte>>)
    requires |aud| > 0 && |sps| > 0 && |pps| > 0 && |sei| > 0 && |idr| > 0 && nals == [aud, sps, pps, sei, idr]
    requires aud[0] == 0x09 && sps[0] == 0x67 && pps[0] == 0x68 && sei[0] == 0x06 && idr[0] == 0x65
    ensures Slices(nals, 0) == [Slice(4, |aud|, 9), Slice(|aud| + 8, |sps|, 7), Slice(|aud| + |sps| + 12, |pps|, 8),
                                Slice(|aud| + |sps| + |pps| + 16, |sei|, 6), Slice(|aud| + |sps| + |pps| + |sei| + 20, |idr|, 5)]
  {
    var (n2, n3, n4, n5) := (nals[1..], nals[2..], nals[3..], nals[4..]);
    var (a2, a3) := (4 + |aud|, 8 + |aud| + |sps|);
    var (a4, a5) := (a3 + 4 + |pps|, a3 + 8 + |pps| + |sei|);
    assert Slices(n5, a5) == [Slice(a5 + 4, |idr|, 5)] by { assert n5[1..] == []; }
    assert Slices(n4, a4) == [Slice(a4 + 4, |sei|, 6)] + Slices(n5, a5) by { assert n4[1..] == n5; }
    assert Slices(n3, a3) == [Slice(a3 + 4, |pps|, 8)] + Slices(n4, a4) by { assert n3[1..] == n4; }
    assert Slices(n2, a2) == [Slice(a2 + 4, |sps|, 7)] + Slices(n3, a3) by { assert n2[1..] == n3; }
  }

  /** Table entry s delimits the unit in the data and has its type. */
  predicate Delimits(s: Slice, nal: seq<Byte>, d: seq<Byte>) {
    |nal| > 0 && s.start + s.len <= |d| && d[s.start..s.start + s.len] == nal && s.nut == TypeOf(nal[0])
  }

  lemma FirstDelimits(pre: seq<Byte>, nal: seq<Byte>, tail: seq<Byte>, d: seq<Byte>)
    requires d == pre + START + nal + tail && |nal| > 0
    ensures Delimits(Slice(|pre| + 4, |nal|, TypeOf(nal[0])), nal, d)
  {
  }

  lemma Rejoin(pre: seq<Byte>, nals: seq<seq<Byte>>, d: seq<Byte>)
    requires nals != [] && d == pre + Stream(nals)
    ensures d == pre + START + nals[0] + Stream(nals[1..])
  {
  }

  lemma {:induction false} SlicesCount(nals: seq<seq<Byte>>, at: nat)
    requires forall k :: 0 <= k < |nals| ==> |nals[k]| > 0
    ensures |Slices(nals, at)| == |nals|
  {
    if nals != [] {
      SlicesCount(nals[1..], at + 4 + |nals[0]|);
    }
  }

  /** The i-th table entry delimits the i-th unit and has its type. */
  lemma {:induction false} SlicesDelimit(pre: seq<Byte>, nals: seq<seq<Byte>>, d: seq<Byte>, at: nat, i: nat)
    requires (forall k :: 0 <= k < |nals| ==> |nals[k]| > 0) && d == pre + Stream(nals) && i < |nals| && at == |pre|
    ensures |Slices(nals, at)| == |nals| && Delimits(Slices(nals, at)[i], nals[i], d)
    decreases |nals|
  {
    SlicesCount(nals, at);
    Rejoin(pre, nals, d);
    if i == 0 {
      FirstDelimits(pre, nals[0], Stream(nals[1..]), d);
    } else {
      SlicesDelimit(pre + START + nals[0], nals[1..], d, at + 4 + |nals[0]|, i - 1);
    }
  }

  // ----- the scan

  function Types(s: seq<Slice>): set<nat> {
    set i | 0 <= i < |s| :: s[i].nut
  }

  lemma TypesSnoc(s: seq<Slice>, x: Slice)
    ensures Types(s + [x]) == Types(s) + {x.nut}
  {
    var all := s + [x];
    forall t | t in Types(s) + {x.nut}
      ensures t in Types(all)
    {
      if t == x.nut {
        assert all[|s|].nut == t;
      } else {
        var i :| 0 <= i < |s| && s[i].nut == t;
        assert all[i].nut == t;
      }
    }
  }

  /** What is in the table, followed by what the scan from `place` finds, is the whole result. */
  ghost predicate Progress(d: seq<Byte>, place: nat, done: seq<Slice>, all: seq<Slice>) {
    Split(d, place).Some? && done + Split(d, place).value == all
  }

  lemma ProgressFinal(d: seq<Byte>, place: nat, done: seq<Slice>, all: seq<Slice>, q: nat)
    requires Progress(d, place, done, all) && q == place + 4 < |d| && StartAt(d, place) && Final(TypeOf(d[q]))
    ensures done + [Slice(q, |d| - q, TypeOf(d[q]))] == all
  {
  }

  lemma ProgressLeading(d: seq<Byte>, place: nat, done: seq<Slice>, all: seq<Slice>, q: nat) returns (e: nat)
    requires Progress(d, place, done, all) && q == place + 4 < |d| && StartAt(d, place) && Leading(TypeOf(d[q]))
    ensures NextStart(d, q) == Some(e) && q <= e
    ensures Progress(d, e, done + [Slice(q, e - q, TypeOf(d[q]))], all) && |done| < |all|
  {
    e := NextStart(d, q).value;
    var (s, rest) := (Slice(q, e - q, TypeOf(d[q])), Split(d, e));
    assert done + ([s] + rest.value) == (done + [s]) + rest.value;
  }

  lemma ProgressSkip(d: seq<Byte>, place: nat, done: seq<Slice>, all: seq<Slice>)
    requires Progress(d, place, done, all) && place + 4 < |d|
    ensures !StartAt(d, place) ==> Progress(d, place + 1, done, all)
    ensures StartAt(d, place) && !Final(TypeOf(d[place + 4])) && !Leading(TypeOf(d[place + 4])) ==>
      Progress(d, place + 5, done, all)
  {
  }

  /** rtmpstart.c:145, 154, 167 and 176. */
  method FindEnd(d: seq<Byte>, from: nat) returns (place: nat)
    requires NextStart(d, from).Some?
    ensures NextStart(d, from) == Some(place)
  {
    place := from;
    while !StartAt(d, place)
      invariant place < |d| && NextStart(d, place) == NextStart(d, from)
      decreases |d| - place
    {
      place := place + 1;
    }
  }

  /** One more entry in the table, and its type among the types seen. */
  method AddSlice(table: array<Slice>, sliceNu: nat, nut: set<nat>, s: Slice) returns (sliceNu': nat, nut': set<nat>)
    requires sliceNu < table.Length && nut == Types(table[..sliceNu])
    modifies table
    ensures sliceNu' == sliceNu + 1 && table[..sliceNu'] == old(table[..sliceNu]) + [s]
    ensures nut' == nut + {s.nut} == Types(table[..sliceNu'])
  {
    TypesSnoc(table[..sliceNu], s);
    table[sliceNu] := s;
    assert table[..sliceNu + 1] == old(table[..sliceNu]) + [s];
    sliceNu', nut' := sliceNu + 1, nut + {s.nut};
  }

  /** rtmpstart.c:141-149, and the same for the other leading units. */
  method AddLeading(d: seq<Byte>, place: nat, q: nat, t: nat, table: array<Slice>, sliceNu: nat, nut: set<nat>,
                    ghost all: seq<Slice>)
    returns (e: nat, sliceNu': nat, nut': set<nat>)
    requires q == place + 4 < |d| && StartAt(d, place) && t == TypeOf(d[q]) && Leading(t)
    requires sliceNu <= table.Length && Progress(d, place, table[..sliceNu], all) && |all| <= table.Length
    requires nut == Types(table[..sliceNu])
    modifies table
    ensures place < e <= |d| && sliceNu' <= table.Length && Progress(d, e, table[..sliceNu'], all)
    ensures nut' == nut + {t} == Types(table[..sliceNu'])
  {
    ghost var end := ProgressLeading(d, place, table[..sliceNu], all, q);
    e := FindEnd(d, q);
    sliceNu', nut' := AddSlice(table, sliceNu, nut, Slice(q, e - q, t));
  }

  /** rtmpstart.c:103-189, on data of at least four bytes in which every leading unit is followed by a start code. */
  method GetSliceInfo(d: seq<Byte>, table: array<Slice>) returns (sliceNu: nat, nut: set<nat>, width: nat, high: nat)
    requires |d| >= 4 && table.Length == TABLE_SIZE
    requires Split(d, 0).Some? && |Split(d, 0).value| <= TABLE_SIZE
    modifies table
    ensures sliceNu <= TABLE_SIZE && table[..sliceNu] == Split(d, 0).value && nut == Types(table[..sliceNu])
    ensures (width, high) == if SPS in nut then (720, 576) else (0, 0)
  {
    ghost var all := Split(d, 0).value;
    sliceNu, nut, width, high := 0, {}, 0, 0;
    var place := 0;
    while place < |d| - 4
      invariant sliceNu <= TABLE_SIZE && Progress(d, place, table[..sliceNu], all)
      invariant nut == Types(table[..sliceNu])
      invariant (width, high) == if SPS in nut then (720, 576) else (0, 0)
      decreases |d| - place
    {
      if !StartAt(d, place) {
        ProgressSkip(d, place, table[..sliceNu], all);
        place := place + 1;
        continue;
      }
      var q := place + 4;
      var t := TypeOf(d[q]);
      if Final(t) {
        ProgressFinal(d, place, table[..sliceNu], all, q);
        sliceNu, nut := AddSlice(table, sliceNu, nut, Slice(q, |d| - q, t));
        return;
      } else if Leading(t) {
        place, sliceNu, nut := AddLeading(d, place, q, t, table, sliceNu, nut, all);
        if t == SPS {
          high, width := 576, 720;
        }
      } else {
        ProgressSkip(d, place, table[..sliceNu], all);
        place := q + 1;
      }
    }
  }
}
