/**
 Which datagrams set the clock in ExtLibs/Ntp/ntpclient.c:485-550, in plain arithmetic on their words: the layout of
 figure 1 and the checks of section 5 of RFC 4330, and the conversion to seconds since 1970.
 */
module NtpReplies {
  import opened Machine
  import opened NtpExchange
  import opened NtpProbe

  /** The first word of a packet, from its fields; the last one holds poll interval and precision. */
  predicate Header(w: U32, li: nat, vn: nat, mode: nat, stratum: nat, low: nat) {
    && li < 4 && vn < 8 && mode < 8 && stratum < 256 && low < 65536
    && w == (((li * 8 + vn) * 8 + mode) * 256 + stratum) * 65536 + low
  }

  /** At most 65536 in absolute value, as a signed number. */
  predicate Moderate(w: U32) {
    w <= 65536 || w >= 0x1_0000_0000 - 65536
  }

  /** A synchronised server's answer to the request with the given transmit time. */
  ghost predicate GoodReply(words: seq<U32>, probe: NtpTime)
    requires |words| >= 12
  {
    && (exists li, vn, mode, stratum, low ::
          Header(words[0], li, vn, mode, stratum, low) && li != 3 && vn >= 3 && mode == 4 && stratum != 0)
    && words[6] == probe.coarse && words[7] == probe.fine
    && !(words[10] == 0 && words[11] == 0) && Moderate(words[1]) && Moderate(words[2])
  }

  lemma FieldsOf(w: U32, li: nat, vn: nat, mode: nat, stratum: nat, low: nat)
    requires Header(w, li, vn, mode, stratum, low)
    ensures w / 0x4000_0000 % 4 == li && w / 0x0800_0000 % 8 == vn && w / 0x0100_0000 % 8 == mode && w / 0x1_0000 % 256 == stratum
  {
    var a := li * 8 + vn;
    var b := a * 8 + mode;
    var c := b * 256 + stratum;
    assert w / 0x1_0000 == c && c % 256 == stratum;
    assert w / 0x0100_0000 == b && b % 8 == mode;
    assert w / 0x0800_0000 == a && a % 8 == vn;
    assert w / 0x4000_0000 == li;
  }

  lemma HeaderExists(w: U32)
    ensures Header(w, w / 0x4000_0000, w / 0x0800_0000 % 8, w / 0x0100_0000 % 8, w / 0x1_0000 % 256, w % 65536)
  {
    var (c, b, a) := (w / 0x1_0000, w / 0x0100_0000, w / 0x0800_0000);
    assert w == c * 65536 + w % 65536;
    assert c / 256 == b && b / 8 == a && a / 8 == w / 0x4000_0000;
  }

  /** The checks of the program are those of a good reply. */
  lemma ChecksAre(words: seq<U32>, probe: NtpTime)
    requires |words| >= 12
    ensures CrossChecks(words, probe) <==> GoodReply(words, probe)
  {
    var w := words[0];
    HeaderExists(w);
    SignedModerate(words[1]);
    SignedModerate(words[2]);
    if GoodReply(words, probe) {
      var li, vn, mode, stratum, low :|
        Header(w, li, vn, mode, stratum, low) && li != 3 && vn >= 3 && mode == 4 && stratum != 0;
      FieldsOf(w, li, vn, mode, stratum, low);
    }
  }

  lemma SignedModerate(w: U32)
    ensures -65536 <= ToInt(w) <= 65536 <==> Moderate(w)
  {
  }

  /** A datagram from the NTP port, of a length that fits the buffer, that answers the probe. */
  ghost predicate Answer(e: Event, probe: NtpTime) {
    e.Packet? && 1 <= e.len <= 1299 && e.port == 123 && |e.words| >= 12 && GoodReply(e.words, probe)
  }

  lemma AcceptedIsAnswer(e: Event, probe: NtpTime)
    requires ValidEvent(e)
    ensures Accepted(e, probe) <==> Answer(e, probe)
  {
    if e.Packet? {
      ChecksAre(e.words, probe);
    }
  }

  /** The time-out that makes the loop send a probe, or end. */
  predicate Expires(e: Event) {
    e.Timeout? && e.tvSec == 0
  }

  /** After the probe: what ends the loop without a call, a second time-out or a datagram of unfit length. */
  predicate Stops(e: Event) {
    Expires(e) || (e.Packet? && !(1 <= e.len <= 1299))
  }

  /** The call for a reply: its argument is the transmit time in seconds since 1970. */
  predicate CallFor(c: Call, words: seq<U32>, probe: NtpTime)
    requires |words| >= 12
  {
    (c.seconds + 0x83aa7e80) % 0x1_0000_0000 == words[10] && c.against == probe && c.probes == 1
  }

  lemma SecondsAre(t: NtpTime, s: U32)
    requires s == CallbackTime(t)
    ensures (s + 0x83aa7e80) % 0x1_0000_0000 == t.coarse
  {
  }

  // ----- one event

  lemma StepBefore(s: State, e: Event)
    requires ValidEvent(e) && s.probes == 0 && !s.done && s.setClock && !Answer(e, s.timeOfSend)
    ensures Expires(e) ==> Step(s, e) == s.(probes := 1, timeOfSend := e.now, sent := s.sent + [e.now])
    ensures !Expires(e) ==> Step(s, e) == s
  {
    AcceptedIsAnswer(e, s.timeOfSend);
  }

  lemma StepAfter(s: State, e: Event)
    requires ValidEvent(e) && s.probes == 1 && !s.done && s.setClock
    ensures Answer(e, s.timeOfSend) ==>
      var s' := Step(s, e);
      s'.done && |s'.calls| == |s.calls| + 1 && s'.calls[..|s.calls|] == s.calls &&
      CallFor(s'.calls[|s.calls|], e.words, s.timeOfSend)
    ensures !Answer(e, s.timeOfSend) && Stops(e) ==> Step(s, e).done && Step(s, e).calls == s.calls
    ensures !Answer(e, s.timeOfSend) && !Stops(e) ==> Step(s, e) == s
  {
    AcceptedIsAnswer(e, s.timeOfSend);
    if Answer(e, s.timeOfSend) {
      SecondsAre(Transmit(e.words), CallbackTime(Transmit(e.words)));
    }
  }

  // ----- after the probe

  /** Event i is the first answer to the probe, and nothing has ended the loop before. */
  ghost predicate LeadsAt(events: seq<Event>, i: nat, probe: NtpTime) {
    i < |events| && Answer(events[i], probe) && forall k :: 0 <= k < i ==> !Answer(events[k], probe) && !Stops(events[k])
  }

  lemma LeadsLater(events: seq<Event>, i: nat, probe: NtpTime)
    requires events != [] && !Answer(events[0], probe) && !Stops(events[0])
    ensures LeadsAt(events[1..], i, probe) <==> LeadsAt(events, i + 1, probe)
  {
    var rest := events[1..];
    if LeadsAt(events, i + 1, probe) {
      assert forall k :: 0 <= k < |rest| ==> rest[k] == events[k + 1];
    }
    if LeadsAt(rest, i, probe) {
      forall k | 0 <= k < i + 1
        ensures !Answer(events[k], probe) && !Stops(events[k])
      {
        assert k > 0 ==> events[k] == rest[k - 1];
      }
    }
  }

  lemma {:induction false} AfterLeads(s: State, events: seq<Event>, i: nat)
    requires ValidEvents(events) && s.probes == 1 && !s.done && s.setClock && LeadsAt(events, i, s.timeOfSend)
    ensures var r := Run(s, events);
      |r.calls| == |s.calls| + 1 && r.calls[..|s.calls|] == s.calls && CallFor(r.calls[|s.calls|], events[i].words, s.timeOfSend)
    decreases |events|
  {
    StepAfter(s, events[0]);
    if i > 0 {
      LeadsLater(events, i - 1, s.timeOfSend);
      AfterLeads(s, events[1..], i - 1);
    }
  }

  lemma {:induction false} AfterNone(s: State, events: seq<Event>)
    requires ValidEvents(events) && s.probes == 1 && !s.done && s.setClock
    requires forall i :: 0 <= i < |events| ==> !LeadsAt(events, i, s.timeOfSend)
    ensures Run(s, events).calls == s.calls
    decreases |events|
  {
    if events != [] {
      StepAfter(s, events[0]);
      assert !LeadsAt(events, 0, s.timeOfSend);
      if !Stops(events[0]) {
        forall i | 0 <= i < |events[1..]|
          ensures !LeadsAt(events[1..], i, s.timeOfSend)
        {
          LeadsLater(events, i, s.timeOfSend);
        }
        AfterNone(s, events[1..]);
      }
    }
  }

  // ----- the whole run

  /** The probe is sent at event q, and no datagram before answers what time_of_send holds until then. */
  ghost predicate QuietUntil(events: seq<Event>, q: nat, junk: NtpTime) {
    q <= |events| && forall i :: 0 <= i < q ==> !Expires(events[i]) && !Answer(events[i], junk)
  }

  lemma {:induction false} SkipQuiet(s: State, events: seq<Event>, q: nat)
    requires ValidEvents(events) && s.probes == 0 && !s.done && s.setClock && QuietUntil(events, q, s.timeOfSend)
    ensures Run(s, events) == Run(s, events[q..])
    decreases q
  {
    if q > 0 {
      StepBefore(s, events[0]);
      assert events[1..][q - 1..] == events[q..];
      SkipQuiet(s, events[1..], q - 1);
    } else {
      assert events[0..] == events;
    }
  }

  /** The state once the probe is sent. */
  lemma ProbeSent(events: seq<Event>, q: nat, junk: NtpTime) returns (s: State)
    requires ValidEvents(events) && QuietUntil(events, q, junk) && q < |events| && Expires(events[q])
    ensures s.probes == 1 && !s.done && s.setClock && s.timeOfSend == events[q].now && s.calls == []
    ensures Run(Start(junk), events) == Run(s, events[q + 1..])
  {
    SkipQuiet(Start(junk), events, q);
    var rest := events[q..];
    assert rest[0] == events[q] && rest[1..] == events[q + 1..];
    s := Start(junk).(probes := 1, timeOfSend := events[q].now, sent := [events[q].now]);
    assert Start(junk).sent + [events[q].now] == [events[q].now];
  }

  /**
   The run calls back if and only if, before anything ends the loop, some datagram after the probe is a good reply to
   it; then it calls once, for the first such reply.
   */
  lemma CallsBackIff(events: seq<Event>, junk: NtpTime, q: nat)
    requires ValidEvents(events) && QuietUntil(events, q, junk) && q < |events| && Expires(events[q])
    ensures var (calls, probe, rest) := (Run(Start(junk), events).calls, events[q].now, events[q + 1..]);
      && (calls != [] <==> exists i :: 0 <= i < |rest| && LeadsAt(rest, i, probe))
      && forall i :: 0 <= i < |rest| && LeadsAt(rest, i, probe) ==> |calls| == 1 && CallFor(calls[0], rest[i].words, probe)
  {
    var s := ProbeSent(events, q, junk);
    var (probe, rest) := (events[q].now, events[q + 1..]);
    forall i | 0 <= i < |rest| && LeadsAt(rest, i, probe)
      ensures |Run(s, rest).calls| == 1 && CallFor(Run(s, rest).calls[0], rest[i].words, probe)
    {
      AfterLeads(s, rest, i);
    }
    if forall i :: 0 <= i < |rest| ==> !LeadsAt(rest, i, probe) {
      AfterNone(s, rest);
    }
  }

  /** Without a probe there is no call. */
  lemma NoProbeNoCall(events: seq<Event>, junk: NtpTime)
    requires ValidEvents(events) && QuietUntil(events, |events|, junk)
    ensures Run(Start(junk), events).calls == []
  {
    SkipQuiet(Start(junk), events, |events|);
    assert events[|events|..] == [];
  }

  /** A reply that does not carry the time of the probe makes no call. */
  lemma ForgedReply(junk: NtpTime)
    ensures var events := [Timeout(0, NtpTime(5, 0)), Packet(48, 123, [0x1C01_0000, 0, 0, 0, 0, 0, 1, 1, 0, 0, 0x9000_0000, 0])];
      ValidEvents(events) && Run(Start(junk), events).calls == []
  {
    var events := [Timeout(0, NtpTime(5, 0)), Packet(48, 123, [0x1C01_0000, 0, 0, 0, 0, 0, 1, 1, 0, 0, 0x9000_0000, 0])];
    CallsBackIff(events, junk, 0);
    var rest := events[1..];
    assert |rest| == 1 && rest[0] == events[1] && events[1].words[6] == 1;
    assert !Answer(rest[0], NtpTime(5, 0));
    assert forall i :: 0 <= i < |rest| ==> !LeadsAt(rest, i, NtpTime(5, 0));
  }
}
