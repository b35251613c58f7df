/**
 What `multiplexer_proto` (src/proto_mng.c) does to the packets of a run, told by their ports, protocols and
 settings.
 */
module FlowEffects {
  import opened FlowTable

  /** The effect on packet i of a run is that on the bucket its predecessors leave. */
  lemma {:induction false} EffectAt(c: seq<Flow>, events: seq<Event>, i: nat)
    requires i < |events|
    ensures Effects(c, events)[i] == EffectOf(Run(c, events[..i]), events[i])
    decreases |events|
  {
    if i > 0 {
      EffectAt(Multiplexed(c, events[0]), events[1..], i - 1);
      assert events[..i][0] == events[0] && events[..i][1..] == events[1..][..i - 1];
    }
  }

  predicate HasPort(e: Ends, port: int) { e.inPort == port || e.outPort == port }

  /** In every run from the initial bucket: of a TCP flow with neither port 22 nor port 443, every packet of either
      direction in which neither HTTPS nor HTTP is detected loses its payload. */
  lemma {:induction false} TcpPayloadRemoved(garbage: Ends, t: int, events: seq<Event>, x: Ends, i: nat)
    requires x.protocol == 6 && !HasPort(x, 22) && !HasPort(x, 443)
    requires i < |events| && Matches(events[i].packet.ends, x) && events[i].packet.proto !in {443, 80}
    ensures Effects(Initial(garbage, t), events)[i].stripped
  {
    EffectAt(Initial(garbage, t), events, i);
  }

  /** No packet of a TCP flow with port 22 or port 443 at either end does, nor one in which HTTPS or HTTP is
      detected. */
  lemma {:induction false} TcpPayloadKept(garbage: Ends, t: int, events: seq<Event>, x: Ends, i: nat)
    requires x.protocol == 6 && i < |events| && Matches(events[i].packet.ends, x)
    requires HasPort(x, 22) || HasPort(x, 443) || events[i].packet.proto in {443, 80}
    ensures !Effects(Initial(garbage, t), events)[i].stripped
  {
    EffectAt(Initial(garbage, t), events, i);
  }

  /** With the DNS module on, exactly the UDP packets that are not DNS lose their payload; with it off, exactly those
      of the flows with neither port 22 nor port 443. */
  lemma {:induction false} UdpPayload(garbage: Ends, t: int, events: seq<Event>, x: Ends, i: nat)
    requires x.protocol == 17 && i < |events| && Matches(events[i].packet.ends, x)
    ensures Effects(Initial(garbage, t), events)[i].stripped <==>
      if events[i].settings.dns then events[i].packet.proto != 53 else !HasPort(x, 22) && !HasPort(x, 443)
  {
    EffectAt(Initial(garbage, t), events, i);
  }

  /** A packet of any other protocol always does, and no module runs on it. */
  lemma {:induction false} OtherPayload(garbage: Ends, t: int, events: seq<Event>, i: nat)
    requires i < |events| && events[i].packet.ends.protocol !in {6, 17}
    ensures Effects(Initial(garbage, t), events)[i] == Effect(false, false, true)
  {
    EffectAt(Initial(garbage, t), events, i);
  }

  /** The verdict that packet i of a run finds. */
  function Found(garbage: Ends, t: int, events: seq<Event>, i: nat): int
    requires i < |events|
  {
    Verdict(Run(Initial(garbage, t), events[..i]), events[i].packet.ends)
  }

  /** An address of a TCP or UDP packet is replaced exactly when the external-IP module is on and the origin is 1 or 10,
      and either the flow has no verdict and the count is below alpha, or its verdict is 1 and the origin is 1: at
      verdict 1 only a destination is. */
  lemma {:induction false} AddressReplaced(garbage: Ends, t: int, events: seq<Event>, i: nat)
    requires i < |events| && events[i].packet.ends.protocol in {6, 17}
    ensures Effects(Initial(garbage, t), events)[i].replaced <==>
      var v, found := events[i], Found(garbage, t, events, i);
      && v.settings.extIp && v.packet.origin in {1, 10}
      && ((found == -1 && v.answers.below) || (found == 1 && v.packet.origin == 1))
  {
    EffectAt(Initial(garbage, t), events, i);
    HeldBackByZero(garbage, t, events[..i], events[i].packet.ends);
  }

  lemma {:induction false} VerdictAfterExtIp(c: seq<Flow>, v: Event)
    requires Verdict(c, v.packet.ends) == 0
    ensures Verdict(AfterExtIp(c, v), v.packet.ends) == 0
  {
    JudgedVerdict(c, v.packet.ends, v.packet.now, ExtFlag(Verdict(c, v.packet.ends), v.answers.below), v.packet.ends);
    MatchesIsEquivalence(v.packet.ends, v.packet.ends, v.packet.ends);
  }

  /** A module runs on a packet exactly when the verdict is not 0 and the external-IP module, or for TCP the
      module of the protocol detected, is on for it. */
  lemma {:induction false} ModuleRuns(garbage: Ends, t: int, events: seq<Event>, i: nat)
    requires i < |events|
    ensures Effects(Initial(garbage, t), events)[i].ran <==>
      var v := events[i];
      && Found(garbage, t, events, i) != 0
      && ((v.packet.ends.protocol in {6, 17} && v.settings.extIp && v.packet.origin in {1, 10})
          || (v.packet.ends.protocol == 6 && v.packet.proto == 443 && v.settings.tls)
          || (v.packet.ends.protocol == 6 && v.packet.proto == 80 && v.settings.http))
  {
    var c, v := Run(Initial(garbage, t), events[..i]), events[i];
    EffectAt(Initial(garbage, t), events, i);
    HeldBackByZero(garbage, t, events[..i], v.packet.ends);
    if Verdict(c, v.packet.ends) == 0 {
      VerdictAfterExtIp(c, v);
    }
  }

  // ----- The entries of a bucket -----

  predicate HasEntry(c: seq<Flow>, x: Ends) { Find(c, x) < |c| }

  /** Whether the packet consults the verdict of its flow: for the external-IP module in TCP and UDP, for the modules
      of HTTPS and HTTP in TCP. */
  predicate Consults(v: Event) {
    || (v.packet.ends.protocol in {6, 17} && v.settings.extIp && v.packet.origin in {1, 10})
    || (v.packet.ends.protocol == 6 && v.packet.proto == 443 && v.settings.tls)
    || (v.packet.ends.protocol == 6 && v.packet.proto == 80 && v.settings.http)
  }

  lemma {:induction false} ReferencedEntries(c: seq<Flow>, e: Ends, now: int, x: Ends)
    ensures HasEntry(Referenced(c, e, now), x) <==> HasEntry(c, x) || Matches(e, x)
  {
    if HasEntry(c, e) {
      FindSame(c, Referenced(c, e, now), x);
      if Matches(e, x) {
        FindMatching(c, e, x);
      }
    } else {
      FindAppend(c, Flow(e, now, -1), x);
    }
  }

  lemma {:induction false} JudgedEntries(c: seq<Flow>, e: Ends, now: int, flag: int, x: Ends)
    ensures HasEntry(Judged(c, e, now, flag), x) <==> HasEntry(c, x) || Matches(e, x)
  {
    ReferencedEntries(c, e, now, x);
    FindSame(Referenced(c, e, now), Judged(c, e, now, flag), x);
  }

  lemma {:induction false} EntryStep(c: seq<Flow>, v: Event, x: Ends)
    ensures HasEntry(Multiplexed(c, v), x) <==> HasEntry(c, x) || (Consults(v) && Matches(v.packet.ends, x))
  {
    var e, now, d := v.packet.ends, v.packet.now, AfterExtIp(c, v);
    ReferencedEntries(c, e, now, x);
    JudgedEntries(c, e, now, ExtFlag(Verdict(c, e), v.answers.below), x);
    JudgedEntries(d, e, now, v.answers.tls, x);
    JudgedEntries(d, e, now, v.answers.http, x);
  }

  /** In every run from any bucket: a flow has an entry exactly when it had one before or one of its packets, of
      either direction, has consulted its verdict. */
  lemma {:induction false} EntryExactly(c: seq<Flow>, events: seq<Event>, x: Ends)
    ensures HasEntry(Run(c, events), x) <==>
      || HasEntry(c, x)
      || exists i :: 0 <= i < |events| && Consults(events[i]) && Matches(events[i].packet.ends, x)
    decreases |events|
  {
    if events != [] {
      var rest := events[1..];
      EntryStep(c, events[0], x);
      EntryExactly(Multiplexed(c, events[0]), rest, x);
      assert forall i :: 0 < i < |events| ==> events[i] == rest[i - 1];
      assert forall i :: 0 <= i < |rest| ==> rest[i] == events[i + 1];
    }
  }
}
