/**
 The probe loop of ExtLibs/Ntp/ntpclient.c:485-550 with the reply checks of rfc1305print (lines 336-408), under
 the settings of NtpStart (lines 734-752): one probe, cross checks on, clock setting on, no live mode. What
 select and recvfrom deliver is a sequence of events.
 */
module NtpProbe {
  import opened Machine
  import opened NtpExchange

  const JAN_1970 := 0x83aa7e80
  const INCOMING := 1300
  const NTP_PORT := 123
  const PROBE_COUNT := 1

  /**
   One turn of the loop. Timeout: select found nothing, tvSec is what it left in `to`. Packet: recvfrom
   gave len, source port and the words then in the receive buffer.
   */
  datatype Event =
    | SelectError
    | Timeout(tvSec: nat, now: NtpTime)
    | Packet(len: int, port: nat, words: seq<U32>)

  /** A call of the time callback: its argument, the send time checked against, and the probes sent until then. */
  datatype Call = Call(seconds: U32, against: NtpTime, probes: nat)

  datatype State = State(probes: nat, setClock: bool, timeOfSend: NtpTime, done: bool, sent: seq<NtpTime>, calls: seq<Call>)

  // ----- replies

  function Field(w: U32, shift: nat, size: nat): nat
    requires shift > 0 && size > 0
  {
    w / shift % size
  }

  function Originate(words: seq<U32>): NtpTime
    requires |words| >= 12
  {
    NtpTime(words[6], words[7])
  }

  function Transmit(words: seq<U32>): NtpTime
    requires |words| >= 12
  {
    NtpTime(words[10], words[11])
  }

  /** ntpclient.c:392-403. */
  predicate CrossChecks(words: seq<U32>, timeOfSend: NtpTime)
    requires |words| >= 12
  {
    && Field(words[0], 0x4000_0000, 4) != 3
    && Field(words[0], 0x0800_0000, 8) >= 3
    && Field(words[0], 0x0100_0000, 8) == 4
    && Originate(words) == timeOfSend
    && Transmit(words) != NtpTime(0, 0)
    && -65536 <= ToInt(words[1]) <= 65536
    && -65536 <= ToInt(words[2]) <= 65536
    && Field(words[0], 0x1_0000, 256) != 0
  }

  /** ntpclient.c:172-174. */
  function CallbackTime(t: NtpTime): U32 {
    (t.coarse - JAN_1970) % W
  }

  predicate ValidEvent(e: Event) {
    e.Packet? ==> |e.words| >= 12
  }

  predicate ValidEvents(events: seq<Event>) {
    forall i :: 0 <= i < |events| ==> ValidEvent(events[i])
  }

  /** A datagram that fits the buffer, comes from the NTP port and passes every check against the given send time. */
  predicate Accepted(e: Event, timeOfSend: NtpTime) {
    ValidEvent(e) && e.Packet? && 0 < e.len < INCOMING && e.port == NTP_PORT && CrossChecks(e.words, timeOfSend)
  }

  // ----- the loop as a state machine

  /** ntpclient.c:499-502 and 734-752; nothing has set time_of_send yet. */
  function Start(junk: NtpTime): State {
    State(0, true, junk, false, [], [])
  }

  /** A datagram of this length is looked at; the others fall through to the end of the loop body. */
  predicate Readable(e: Event)
    requires e.Packet?
  {
    0 < e.len < INCOMING
  }

  function Step(s: State, e: Event): State
    requires ValidEvent(e)
  {
    match e
    case SelectError => s
    case Timeout(tvSec, now) =>
      if tvSec != 0 then s
      else if s.probes >= PROBE_COUNT then s.(done := true)
      else s.(probes := s.probes + 1, timeOfSend := now, sent := s.sent + [now])
    case Packet(len, port, words) =>
      if Readable(e) && !Accepted(e, s.timeOfSend) then s
      else
        var s' := if Readable(e) && s.setClock
                  then s.(calls := s.calls + [Call(CallbackTime(Transmit(words)), s.timeOfSend, s.probes)]) else s;
        if s.probes >= PROBE_COUNT then s'.(setClock := false, done := true) else s'
  }

  function Run(s: State, events: seq<Event>): State
    requires ValidEvents(events)
    decreases |events|
  {
    if s.done || events == [] then s else Run(Step(s, events[0]), events[1..])
  }

  // ----- the loop itself

  /** ntpclient.c:485-550, until it breaks out or the events are used up. */
  method PrimaryLoop(events: seq<Event>, junk: NtpTime) returns (s: State)
    requires ValidEvents(events)
    ensures s == Run(Start(junk), events)
  {
    var probesSent, setClock, timeOfSend, sent, calls := 0, true, junk, [], [];
    var next := 0;
    assert events[0..] == events;
    while next < |events|
      invariant next <= |events|
      invariant Run(State(probesSent, setClock, timeOfSend, false, sent, calls), events[next..]) == Run(Start(junk), events)
    {
      var e := events[next];
      assert events[next..][0] == e && events[next..][1..] == events[next + 1..];
      next := next + 1;
      if !e.Packet? {
        if e.SelectError? { continue; }
        if e.tvSec == 0 {
          if probesSent >= PROBE_COUNT {
            return State(probesSent, setClock, timeOfSend, true, sent, calls);
          }
          timeOfSend := e.now;
          sent := sent + [timeOfSend];
          probesSent := probesSent + 1;
        }
        continue;
      }
      if 0 < e.len < INCOMING {
        if e.port != NTP_PORT { continue; }
        if !CrossChecks(e.words, timeOfSend) { continue; }
        if setClock {
          calls := calls + [Call(CallbackTime(Transmit(e.words)), timeOfSend, probesSent)];
        }
      }
      if probesSent >= PROBE_COUNT {
        return State(probesSent, false, timeOfSend, true, sent, calls);
      }
    }
    return State(probesSent, setClock, timeOfSend, false, sent, calls);
  }

  // ----- every run

  /** The probe has been sent when the first timeout with nothing left to wait for has been seen. */
  predicate Sends(e: Event) {
    e.Timeout? && e.tvSec == 0
  }

  /** No datagram before the first probe passes the checks against what time_of_send happens to hold. */
  predicate Quiet(events: seq<Event>, junk: NtpTime)
    decreases |events|
  {
    events == [] || Sends(events[0]) || (!Accepted(events[0], junk) && Quiet(events[1..], junk))
  }

  /** How many do. */
  function EarlyReplies(events: seq<Event>, junk: NtpTime): nat
    decreases |events|
  {
    if events == [] || Sends(events[0]) then 0
    else (if Accepted(events[0], junk) then 1 else 0) + EarlyReplies(events[1..], junk)
  }

  /** The call was made for a reply among the events, one that answered the probe. */
  predicate Answers(c: Call, e: Event, probe: NtpTime) {
    Accepted(e, probe) && c.probes == 1 && c.against == probe && c.seconds == CallbackTime(Transmit(e.words))
  }

  ghost predicate AnswerAmong(c: Call, events: seq<Event>, probe: NtpTime) {
    exists i :: 0 <= i < |events| && Answers(c, events[i], probe)
  }

  /** Once the probe is sent: no other probe follows, and at most one call, for a reply to that probe, which ends the loop. */
  lemma {:induction false} AfterProbe(s: State, events: seq<Event>)
    requires ValidEvents(events) && s.probes == |s.sent| == 1 && s.timeOfSend == s.sent[0] && (s.setClock || s.done)
    ensures var r := Run(s, events);
      && r.probes == 1 && r.sent == s.sent
      && (r.calls == s.calls || (r.done && |r.calls| == |s.calls| + 1 && r.calls[..|s.calls|] == s.calls &&
                                 AnswerAmong(r.calls[|s.calls|], events, s.sent[0])))
    decreases |events|
  {
    if !s.done && events != [] {
      var (e, rest) := (events[0], events[1..]);
      var s' := Step(s, e);
      AfterProbe(s', rest);
      if s'.calls != s.calls {
        assert Run(s', rest) == s';
        assert Answers(s'.calls[|s.calls|], events[0], s.sent[0]);
      } else {
        AnswerLater(Run(s', rest).calls, |s.calls|, events, s.sent[0]);
      }
    }
  }

  lemma AnswerLater(calls: seq<Call>, n: nat, events: seq<Event>, probe: NtpTime)
    requires events != []
    ensures n < |calls| && AnswerAmong(calls[n], events[1..], probe) ==> AnswerAmong(calls[n], events, probe)
  {
    if n < |calls| && AnswerAmong(calls[n], events[1..], probe) {
      var i :| 0 <= i < |events[1..]| && Answers(calls[n], events[1..][i], probe);
      assert Answers(calls[n], events[i + 1], probe);
    }
  }

  /** Before and after: the early calls, then at most one answer to the only probe. */
  lemma {:induction false} WholeRun(s: State, events: seq<Event>)
    requires ValidEvents(events) && s.probes == 0 && s.sent == [] && !s.done && s.setClock
    ensures var (r, early) := (Run(s, events), |s.calls| + EarlyReplies(events, s.timeOfSend));
      && r.probes == |r.sent| <= 1
      && (|r.calls| == early || (|r.calls| == early + 1 && r.done && |r.sent| == 1 &&
                                 AnswerAmong(r.calls[early], events, r.sent[0])))
    decreases |events|
  {
    if events != [] {
      var (e, rest) := (events[0], events[1..]);
      var s' := Step(s, e);
      if Sends(e) {
        AfterProbe(s', rest);
      } else {
        WholeRun(s', rest);
      }
      var r := Run(s', rest);
      if |r.sent| == 1 {
        AnswerLater(r.calls, |s.calls| + EarlyReplies(events, s.timeOfSend), events, r.sent[0]);
      }
    }
  }

  lemma {:induction false} QuietIsNone(events: seq<Event>, junk: NtpTime)
    ensures Quiet(events, junk) <==> EarlyReplies(events, junk) == 0
    decreases |events|
  {
    if events != [] && !Sends(events[0]) {
      QuietIsNone(events[1..], junk);
    }
  }

  /** In every run at most one probe is sent. */
  lemma AtMostOneProbe(events: seq<Event>, junk: NtpTime)
    requires ValidEvents(events)
    ensures |Run(Start(junk), events).sent| <= 1
  {
    WholeRun(Start(junk), events);
  }

  /** A datagram taken before the probe leads to a call before the probe. */
  lemma {:induction false} EarlyCall(s: State, events: seq<Event>)
    requires ValidEvents(events) && s.probes == 0 && !s.done && s.setClock && !Quiet(events, s.timeOfSend)
    ensures var r := Run(s, events);
      |r.calls| > |s.calls| && r.calls[|s.calls|].probes == 0
    decreases |events|
  {
    var s' := Step(s, events[0]);
    if Accepted(events[0], s.timeOfSend) {
      CallsGrow(s', events[1..]);
    } else {
      EarlyCall(s', events[1..]);
    }
  }

  lemma {:induction false} CallsGrow(s: State, events: seq<Event>)
    requires ValidEvents(events)
    ensures |Run(s, events).calls| >= |s.calls| && Run(s, events).calls[..|s.calls|] == s.calls
    decreases |events|
  {
    if !s.done && events != [] {
      var s' := Step(s, events[0]);
      CallsGrow(s', events[1..]);
      assert s'.calls[..|s.calls|] == s.calls;
    }
  }

  /**
   If no datagram is taken before the probe, the callback is called at most once, with the transmit time of a
   reply that passed every check against that probe.
   */
  lemma CallbackAnswersProbe(events: seq<Event>, junk: NtpTime)
    requires ValidEvents(events) && Quiet(events, junk)
    ensures var r := Run(Start(junk), events);
      |r.calls| <= 1 && (|r.calls| == 1 ==> |r.sent| == 1 && r.done && AnswerAmong(r.calls[0], events, r.sent[0]))
  {
    WholeRun(Start(junk), events);
    QuietIsNone(events, junk);
  }

  /** Every call comes after a probe if and only if no datagram is taken before it. */
  lemma CallsFollowProbeIffQuiet(events: seq<Event>, junk: NtpTime)
    requires ValidEvents(events)
    ensures Quiet(events, junk) <==> forall i :: 0 <= i < |Run(Start(junk), events).calls| ==> Run(Start(junk), events).calls[i].probes == 1
  {
    if Quiet(events, junk) {
      CallbackAnswersProbe(events, junk);
    } else {
      EarlyCall(Start(junk), events);
    }
  }

  /** A reply that happens to carry the value left in time_of_send, twice before the probe: two calls. */
  lemma TwoCallsBeforeProbe(junk: NtpTime)
    ensures exists events :: ValidEvents(events) && |Run(Start(junk), events).calls| == 2 && Run(Start(junk), events).sent == []
  {
    var p := Packet(48, NTP_PORT, [0x1C01_0000, 0, 0, 0, 0, 0, junk.coarse, junk.fine, 0, 0, 1, 0]);
    assert Accepted(p, junk);
    var s := Start(junk);
    var s1 := Step(s, p);
    var s2 := Step(s1, p);
    var events := [p, p];
    assert events[1..] == [p] && [p][1..] == [];
    assert Run(s2, []) == s2;
    assert Run(s1, [p]) == Run(s2, []);
    assert Run(s, events) == Run(s1, [p]);
    assert ValidEvents(events);
  }
}
