/**
 The flow table and its verdicts (src/flow_mng.c, `external_ip`, src/ext-ip_mng.c, and the IPv4 part of
 `multiplexer_proto`, src/proto_mng.c): one bucket, without the sweep of old flows.
 */
module FlowTable {
  import opened Sequences

  const TCP_UDP_FLOWS: nat := 2000003

  type U8 = x: int | 0 <= x < 0x100
  type U16 = x: int | 0 <= x < 0x1_0000
  type U32 = x: int | 0 <= x < 0x1_0000_0000

  /** What identifies a flow: the IPv4 addresses and ports of a packet in the order it carries them. */
  datatype Ends = Ends(src: U32, dst: U32, inPort: U16, outPort: U16, protocol: U8)

  function Reversed(e: Ends): Ends {
    Ends(e.dst, e.src, e.outPort, e.inPort, e.protocol)
  }

  function Bits(x: U32): bv32 { x as bv32 }

  function Xor(x: bv32, y: bv32): bv32 { x ^ y }

  function Value(x: bv32): nat { x as int }

  /** `getHash`. */
  function GetHash(e: Ends): (h: nat)
    ensures h < TCP_UDP_FLOWS
  {
    var addresses := Xor(Bits(e.src), Bits(e.dst));
    Value(Xor(Xor(Xor(addresses, Bits(e.inPort)), Bits(e.outPort)), Bits(e.protocol))) % TCP_UDP_FLOWS
  }

  /** The hash is the remainder by the number of buckets of the exclusive or of the five words. */
  lemma GetHashExact(e: Ends, x: nat)
    requires x == Value(Xor(Xor(Xor(Xor(Bits(e.src), Bits(e.dst)), Bits(e.inPort)), Bits(e.outPort)), Bits(e.protocol)))
    ensures GetHash(e) < 2000003 && exists q: nat :: x == 2000003 * q + GetHash(e)
  {
    BucketOf(x);
  }

  lemma BucketOf(x: nat)
    ensures exists q: nat :: x == 2000003 * q + x % TCP_UDP_FLOWS
  {
    assert x == 2000003 * (x / 2000003) + x % 2000003;
  }

  /** The test of `reference_flow`. */
  predicate Matches(a: Ends, b: Ends) {
    && ((a.src == b.src && a.dst == b.dst) || (a.src == b.dst && a.dst == b.src))
    && ((a.inPort == b.inPort && a.outPort == b.outPort) || (a.outPort == b.inPort && a.inPort == b.outPort))
    && a.protocol == b.protocol
  }

  /** The same ends, with the ports of one exchanged. */
  function Crossed(e: Ends): Ends {
    Ends(e.src, e.dst, e.outPort, e.inPort, e.protocol)
  }

  /** Exactly four packets match: the flow, its reverse, and both with the ports crossed. */
  lemma MatchesExactly(a: Ends, b: Ends)
    ensures Matches(a, b) <==> b in {a, Reversed(a), Crossed(a), Reversed(Crossed(a))}
  {
  }

  lemma MatchesIsEquivalence(a: Ends, b: Ends, c: Ends)
    ensures Matches(a, a) && (Matches(a, b) ==> Matches(b, a))
    ensures Matches(a, b) && Matches(b, c) ==> Matches(a, c)
  {
  }

  lemma XorEither(x: bv32, y: bv32)
    ensures Xor(x, y) == Xor(y, x)
  {
  }

  lemma XorGroup(m: bv32, x: bv32, y: bv32)
    ensures Xor(Xor(m, x), y) == Xor(m, Xor(x, y))
  {
  }

  lemma XorLast(m: bv32, x: bv32, y: bv32)
    ensures Xor(Xor(m, x), y) == Xor(Xor(m, y), x)
  {
    XorGroup(m, x, y);
    XorGroup(m, y, x);
    XorEither(x, y);
  }

  /** Whatever matches, in particular the other direction, falls into the same bucket. */
  lemma SameBucket(a: Ends, b: Ends)
    requires Matches(a, b)
    ensures GetHash(a) == GetHash(b)
  {
    XorEither(Bits(a.src), Bits(a.dst));
    XorLast(Xor(Bits(a.src), Bits(a.dst)), Bits(a.inPort), Bits(a.outPort));
  }

  // ----- One bucket as a value -----

  datatype Flow = Flow(ends: Ends, timestamp: int, toAnon: int)

  /** The first entry that matches, and the length of the chain if none does. */
  function Find(c: seq<Flow>, e: Ends): (i: nat)
    ensures i <= |c| && (i < |c| ==> Matches(c[i].ends, e))
  {
    if c == [] then 0 else if Matches(c[0].ends, e) then 0 else 1 + Find(c[1..], e)
  }

  /** `reference_flow`: the matching entry with a new timestamp, or a new entry at the end. */
  function Referenced(c: seq<Flow>, e: Ends, now: int): (r: seq<Flow>)
    ensures Find(c, e) < |r|
  {
    var i := Find(c, e);
    if i < |c| then c[i := c[i].(timestamp := now)] else c + [Flow(e, now, -1)]
  }

  function Verdict(c: seq<Flow>, e: Ends): int {
    if Find(c, e) < |c| then c[Find(c, e)].toAnon else -1
  }

  /** One use of the verdict: a module may rewrite the packet unless the verdict is 0, and then its
      flag is the new verdict. */
  function Judged(c: seq<Flow>, e: Ends, now: int, flag: int): seq<Flow> {
    var r := Referenced(c, e, now);
    var i := Find(c, e);
    if r[i].toAnon == -1 || r[i].toAnon == 1 then r[i := r[i].(toAnon := if flag != 0 then 1 else 0)] else r
  }

  predicate MayRewrite(c: seq<Flow>, e: Ends) {
    Verdict(c, e) == -1 || Verdict(c, e) == 1
  }

  lemma {:induction false} FindSame(c: seq<Flow>, d: seq<Flow>, e: Ends)
    requires |c| == |d| && forall i :: 0 <= i < |c| ==> c[i].ends == d[i].ends
    ensures Find(c, e) == Find(d, e)
  {
    if c != [] {
      FindSame(c[1..], d[1..], e);
    }
  }

  lemma {:induction false} FindAppend(c: seq<Flow>, f: Flow, e: Ends)
    ensures Find(c + [f], e) == if Find(c, e) < |c| then Find(c, e) else if Matches(f.ends, e) then |c| else |c| + 1
  {
    if c == [] {
      assert c + [f] == [f] && [f][1..] == [];
    } else {
      assert (c + [f])[1..] == c[1..] + [f];
      FindAppend(c[1..], f, e);
    }
  }

  /** What matches one end matches the other: both directions find the same entry. */
  lemma {:induction false} FindMatching(c: seq<Flow>, a: Ends, b: Ends)
    requires Matches(a, b)
    ensures Find(c, a) == Find(c, b)
  {
    if c != [] {
      MatchesIsEquivalence(c[0].ends, a, b);
      MatchesIsEquivalence(b, a, a);
      MatchesIsEquivalence(a, b, b);
      MatchesIsEquivalence(c[0].ends, b, a);
      FindMatching(c[1..], a, b);
    }
  }

  /** A use of the verdict of one flow: its own verdict follows the flag, unless it is 0, and every
      other flow keeps its own. */
  lemma JudgedVerdict(c: seq<Flow>, e: Ends, now: int, flag: int, x: Ends)
    ensures Verdict(Judged(c, e, now, flag), x) ==
      if Matches(e, x) then (if MayRewrite(c, e) then (if flag != 0 then 1 else 0) else Verdict(c, e))
      else Verdict(c, x)
  {
    var i, r, d := Find(c, e), Referenced(c, e, now), Judged(c, e, now, flag);
    FindSame(r, d, x);
    if i < |c| {
      FindSame(c, r, x);
      if Matches(e, x) {
        FindMatching(c, e, x);
      } else {
        NotTheSame(c[i].ends, e, x);
      }
    } else {
      FindAppend(c, Flow(e, now, -1), x);
      if Matches(e, x) {
        FindMatching(c, e, x);
      }
    }
  }

  lemma NotTheSame(f: Ends, e: Ends, x: Ends)
    requires Matches(f, e) && !Matches(e, x)
    ensures !Matches(f, x)
  {
    MatchesIsEquivalence(e, f, x);
    MatchesIsEquivalence(f, e, e);
  }

  // ----- A packet through the modules -----

  const TCP: U8 := 6
  const UDP: U8 := 17
  const SSH: U16 := 22
  const HTTPS: U16 := 443
  const DNS := 53

  datatype Settings = Settings(extIp: bool, tls: bool, http: bool, dns: bool)

  /** A packet: its ends, time, origin, and the protocol detected in it. */
  datatype Packet = Packet(ends: Ends, now: int, origin: int, proto: int)

  /** What depends on more than the flow: whether the count of the external address is below alpha, and
      the flags of the TLS and HTTP modules if they run. */
  datatype Answers = Answers(below: bool, tls: int, http: int)

  datatype Event = Event(settings: Settings, packet: Packet, answers: Answers)

  predicate UsesExtIp(v: Event) { v.settings.extIp && v.packet.origin in {1, 10} }

  predicate UsesTls(v: Event) { v.packet.proto == 443 && v.settings.tls }

  predicate UsesHttp(v: Event) { v.packet.proto == 80 && v.settings.http }

  /** The flag of `external_ip`: it counts the address only of a flow that has no verdict yet. */
  function ExtFlag(verdict: int, below: bool): int {
    if verdict == -1 && below then 1 else 0
  }

  /** Whether `external_ip` puts another address in: a new one, or at verdict 1 the one kept with the
      flow, but that for the destination only. */
  predicate Swaps(verdict: int, origin: int, below: bool) {
    if verdict == -1 then below else verdict == 1 && origin == 1
  }

  function Judge(c: seq<Flow>, v: Event, flag: int): seq<Flow> {
    Judged(c, v.packet.ends, v.packet.now, flag)
  }

  /** The bucket behind the external-IP module, for a TCP packet. */
  function AfterExtIp(c: seq<Flow>, v: Event): seq<Flow> {
    if UsesExtIp(v) then Judge(c, v, ExtFlag(Verdict(c, v.packet.ends), v.answers.below)) else c
  }

  function TcpPart(c: seq<Flow>, v: Event): seq<Flow> {
    var d := AfterExtIp(c, v);
    if UsesTls(v) then Judge(d, v, v.answers.tls) else if UsesHttp(v) then Judge(d, v, v.answers.http) else d
  }

  /** For a UDP packet the verdict is consulted, but no verdict is stored. */
  function UdpPart(c: seq<Flow>, v: Event): seq<Flow> {
    if UsesExtIp(v) then Referenced(c, v.packet.ends, v.packet.now) else c
  }

  /** The IPv4 part of `multiplexer_proto`, as a function on the bucket. */
  function Multiplexed(c: seq<Flow>, v: Event): seq<Flow> {
    if v.packet.ends.protocol == TCP then TcpPart(c, v)
    else if v.packet.ends.protocol == UDP then UdpPart(c, v)
    else c
  }

  predicate IsIp(v: Event) { v.packet.ends.protocol in {TCP, UDP} }

  /** Whether a module that consults the verdict runs on the packet, and so may rewrite it. */
  predicate Rewrites(c: seq<Flow>, v: Event) {
    || (IsIp(v) && UsesExtIp(v) && MayRewrite(c, v.packet.ends))
    || (v.packet.ends.protocol == TCP && (UsesTls(v) || UsesHttp(v)) && MayRewrite(AfterExtIp(c, v), v.packet.ends))
  }

  /** Whether the external-IP module replaces an address of the packet. */
  predicate Replaces(c: seq<Flow>, v: Event) {
    && IsIp(v) && UsesExtIp(v) && MayRewrite(c, v.packet.ends)
    && Swaps(Verdict(c, v.packet.ends), v.packet.origin, v.answers.below)
  }

  predicate OtherPorts(e: Ends) {
    e.inPort != SSH && e.inPort != HTTPS && e.outPort != SSH && e.outPort != HTTPS
  }

  /** Whether the payload is removed. */
  predicate Strips(v: Event) {
    if v.packet.ends.protocol == TCP then v.packet.proto !in {443, 80} && OtherPorts(v.packet.ends)
    else if v.packet.ends.protocol == UDP then
      if v.settings.dns then v.packet.proto != DNS else OtherPorts(v.packet.ends)
    else true
  }

  datatype Effect = Effect(ran: bool, replaced: bool, stripped: bool)

  function EffectOf(c: seq<Flow>, v: Event): Effect {
    Effect(Rewrites(c, v), Replaces(c, v), Strips(v))
  }

  lemma ReferencedVerdict(c: seq<Flow>, e: Ends, now: int, x: Ends)
    ensures Verdict(Referenced(c, e, now), x) == Verdict(c, x)
  {
    var i, r := Find(c, e), Referenced(c, e, now);
    if i < |c| {
      FindSame(c, r, x);
    } else {
      FindAppend(c, Flow(e, now, -1), x);
      if Matches(e, x) {
        FindMatching(c, e, x);
      }
    }
  }

  lemma TcpKeeps(c: seq<Flow>, v: Event, x: Ends)
    ensures !Matches(v.packet.ends, x) ==> Verdict(TcpPart(c, v), x) == Verdict(c, x)
    ensures Matches(v.packet.ends, x) && Verdict(c, x) == 0 ==>
      Verdict(TcpPart(c, v), x) == Verdict(AfterExtIp(c, v), v.packet.ends) == Verdict(c, v.packet.ends) == 0
  {
    var e, now, d := v.packet.ends, v.packet.now, AfterExtIp(c, v);
    JudgedVerdict(c, e, now, ExtFlag(Verdict(c, e), v.answers.below), x);
    JudgedVerdict(d, e, now, v.answers.tls, x);
    JudgedVerdict(d, e, now, v.answers.http, x);
    if Matches(e, x) {
      FindMatching(c, e, x);
      FindMatching(d, e, x);
    }
  }

  lemma MultiplexedKeeps(c: seq<Flow>, v: Event, x: Ends)
    ensures !Matches(v.packet.ends, x) ==> Verdict(Multiplexed(c, v), x) == Verdict(c, x)
    ensures Matches(v.packet.ends, x) && Verdict(c, x) == 0 ==> Verdict(Multiplexed(c, v), x) == 0 && !Rewrites(c, v)
  {
    TcpKeeps(c, v, x);
    ReferencedVerdict(c, v.packet.ends, v.packet.now, x);
    if Matches(v.packet.ends, x) {
      FindMatching(c, v.packet.ends, x);
    }
  }

  // ----- Runs -----

  function Run(c: seq<Flow>, events: seq<Event>): seq<Flow>
    decreases |events|
  {
    if events == [] then c else Run(Multiplexed(c, events[0]), events[1..])
  }

  /** A bucket as initialised: its element holds no verdict, and arbitrary ends. */
  function Initial(garbage: Ends, timestamp: int): seq<Flow> { [Flow(garbage, timestamp, -1)] }

  /** No packet of the flow is rewritten by a module during the run. */
  ghost predicate LeftAlone(c: seq<Flow>, events: seq<Event>, x: Ends)
    decreases |events|
  {
    events != [] ==>
      && (Matches(events[0].packet.ends, x) ==> !Rewrites(c, events[0]))
      && LeftAlone(Multiplexed(c, events[0]), events[1..], x)
  }

  /** Once the verdict of a flow is 0 it stays 0 whatever packets follow, and no later packet of the
      flow, in either direction, is rewritten by the external-IP, TLS or HTTP module. */
  lemma {:induction false} ZeroIsFinal(c: seq<Flow>, events: seq<Event>, x: Ends)
    requires Verdict(c, x) == 0
    ensures LeftAlone(c, events, x) && Verdict(Run(c, events), x) == 0
    ensures LeftAlone(c, events, Reversed(x)) && Verdict(Run(c, events), Reversed(x)) == 0
    decreases |events|
  {
    var y := Reversed(x);
    FindMatching(c, x, y);
    if events != [] {
      MultiplexedKeeps(c, events[0], x);
      MultiplexedKeeps(c, events[0], y);
      ZeroIsFinal(Multiplexed(c, events[0]), events[1..], x);
    }
  }

  /** The verdicts the code ever stores. */
  ghost predicate Verdicts(c: seq<Flow>) {
    forall i :: 0 <= i < |c| ==> c[i].toAnon in {-1, 0, 1}
  }

  lemma JudgedVerdicts(c: seq<Flow>, e: Ends, now: int, flag: int)
    requires Verdicts(c)
    ensures Verdicts(Judged(c, e, now, flag)) && Verdicts(Referenced(c, e, now))
  {
  }

  lemma MultiplexedVerdicts(c: seq<Flow>, v: Event)
    requires Verdicts(c)
    ensures Verdicts(Multiplexed(c, v))
  {
    var e, now, d := v.packet.ends, v.packet.now, AfterExtIp(c, v);
    JudgedVerdicts(c, e, now, ExtFlag(Verdict(c, e), v.answers.below));
    JudgedVerdicts(d, e, now, v.answers.tls);
    JudgedVerdicts(d, e, now, v.answers.http);
  }

  lemma {:induction false} RunVerdicts(c: seq<Flow>, events: seq<Event>)
    requires Verdicts(c)
    ensures Verdicts(Run(c, events))
    decreases |events|
  {
    if events != [] {
      MultiplexedVerdicts(c, events[0]);
      RunVerdicts(Multiplexed(c, events[0]), events[1..]);
    }
  }

  /** In every bucket reached, a module is held back exactly by verdict 0: verdict 1 is judged again. */
  lemma HeldBackByZero(garbage: Ends, t: int, events: seq<Event>, e: Ends)
    ensures var c := Run(Initial(garbage, t), events); MayRewrite(c, e) <==> Verdict(c, e) != 0
  {
    RunVerdicts(Initial(garbage, t), events);
  }

  // ----- TCP: how long verdict 1 lasts -----

  /** A TCP packet that leaves verdict 1 as it is: the external-IP module does not consult it, and
      whatever other module does asks for anonymisation again. */
  predicate KeepsOne(v: Event) {
    && !UsesExtIp(v)
    && (UsesTls(v) ==> v.answers.tls != 0)
    && (UsesHttp(v) ==> v.answers.http != 0)
  }

  lemma OneStep(c: seq<Flow>, v: Event, x: Ends)
    requires Verdict(c, x) == 1 && Matches(v.packet.ends, x) && x.protocol == TCP
    ensures Verdict(Multiplexed(c, v), x) == if KeepsOne(v) then 1 else 0
  {
    var e, now, d := v.packet.ends, v.packet.now, AfterExtIp(c, v);
    FindMatching(c, e, x);
    FindMatching(d, e, x);
    JudgedVerdict(c, e, now, ExtFlag(Verdict(c, e), v.answers.below), x);
    JudgedVerdict(d, e, now, v.answers.tls, x);
    JudgedVerdict(d, e, now, v.answers.http, x);
  }

  lemma RunSplit(c: seq<Flow>, events: seq<Event>, n: nat)
    requires 0 < n <= |events|
    ensures Run(c, events[..n]) == Run(Multiplexed(c, events[0]), events[1..][..n - 1])
  {
    assert events[..n][1..] == events[1..][..n - 1];
  }

  /** The verdict of a flow is 1 after every prefix of a run. */
  ghost predicate StaysOne(c: seq<Flow>, events: seq<Event>, x: Ends) {
    forall n {:trigger events[..n]} :: 0 <= n <= |events| ==> Verdict(Run(c, events[..n]), x) == 1
  }

  lemma StaysOneFirst(c: seq<Flow>, events: seq<Event>, x: Ends)
    requires events != [] && Verdict(c, x) == 1
    ensures StaysOne(c, events, x) <==> StaysOne(Multiplexed(c, events[0]), events[1..], x)
  {
    var d, rest := Multiplexed(c, events[0]), events[1..];
    if StaysOne(c, events, x) {
      forall n {:trigger rest[..n]} | 0 <= n <= |rest| ensures Verdict(Run(d, rest[..n]), x) == 1 {
        RunSplit(c, events, n + 1);
        assert Verdict(Run(c, events[..n + 1]), x) == 1;
      }
    }
    if StaysOne(d, rest, x) {
      forall n {:trigger events[..n]} | 0 <= n <= |events| ensures Verdict(Run(c, events[..n]), x) == 1 {
        if n > 0 {
          RunSplit(c, events, n);
          assert Verdict(Run(d, rest[..n - 1]), x) == 1;
        }
      }
    }
  }

  /** Verdict 1 of a TCP flow lasts through a run exactly when no packet of the flow, in either
      direction, is consulted by the external-IP module, and the TLS and HTTP modules ask for
      anonymisation again whenever they run on one. */
  lemma {:induction false} OneLastsExactly(c: seq<Flow>, events: seq<Event>, x: Ends)
    requires Verdict(c, x) == 1 && x.protocol == TCP
    ensures StaysOne(c, events, x) <==>
      forall i :: 0 <= i < |events| && Matches(events[i].packet.ends, x) ==> KeepsOne(events[i])
    decreases |events|
  {
    if events == [] {
      assert events[..0] == [];
    } else {
      var v, d, rest := events[0], Multiplexed(c, events[0]), events[1..];
      StaysOneFirst(c, events, x);
      assert forall i :: 0 <= i < |rest| ==> rest[i] == events[i + 1];
      if Matches(v.packet.ends, x) {
        OneStep(c, v, x);
      } else {
        MultiplexedKeeps(c, v, x);
      }
      if Verdict(d, x) == 1 {
        OneLastsExactly(d, rest, x);
      } else {
        assert rest[..0] == [] && Run(d, rest[..0]) == d;
      }
    }
  }

  lemma RunOfTwo(c: seq<Flow>, first: Event, second: Event)
    ensures Run(c, [first]) == Multiplexed(c, first)
    ensures Run(c, [first, second]) == Multiplexed(Multiplexed(c, first), second)
  {
    var d := Multiplexed(c, first);
    assert [first][1..] == [] && [first, second][1..] == [second] && [second][1..] == [];
    assert Run(d, []) == d && Run(d, [second]) == Run(Multiplexed(d, second), []);
  }

  /** A TCP flow once anonymised for its external address does not stay so: from a bucket as
      initialised, the first packet gets verdict 1, and the next one that the module consults, whatever
      its count, ends it. */
  lemma OneIsNotFinal(garbage: Ends, t: int, first: Event, second: Event)
    requires UsesExtIp(first) && first.answers.below && !UsesTls(first) && !UsesHttp(first)
    requires UsesExtIp(second) && first.packet.ends.protocol == TCP && Matches(second.packet.ends, first.packet.ends)
    ensures var c, x := Initial(garbage, t), first.packet.ends;
      Verdict(Run(c, [first]), x) == 1 && Verdict(Run(c, [first, second]), x) == 0
  {
    var c, x := Initial(garbage, t), first.packet.ends;
    RunOfTwo(c, first, second);
    MatchesIsEquivalence(x, x, x);
    JudgedVerdict(c, x, first.packet.now, ExtFlag(Verdict(c, x), true), x);
    OneStep(Multiplexed(c, first), second, x);
  }

  // ----- UDP: every packet is judged on its own -----

  lemma {:induction false} UdpHasNoVerdict(c: seq<Flow>, events: seq<Event>, x: Ends)
    requires x.protocol == UDP && Verdict(c, x) == -1
    ensures Verdict(Run(c, events), x) == -1
    decreases |events|
  {
    if events != [] {
      var v := events[0];
      MultiplexedKeeps(c, v, x);
      ReferencedVerdict(c, v.packet.ends, v.packet.now, x);
      UdpHasNoVerdict(Multiplexed(c, v), events[1..], x);
    }
  }

  /** In every bucket reached, a UDP flow has no verdict, and the external-IP module replaces an address
      of a UDP packet exactly when it is used and the count of that address is below alpha now, whatever
      happened to the flow before. */
  lemma UdpJudgedAnew(garbage: Ends, t: int, events: seq<Event>, v: Event)
    requires v.packet.ends.protocol == UDP
    ensures var c := Run(Initial(garbage, t), events);
      && Verdict(c, v.packet.ends) == -1
      && (Replaces(c, v) <==> UsesExtIp(v) && v.answers.below)
  {
    UdpHasNoVerdict(Initial(garbage, t), events, v.packet.ends);
  }

  /** So a UDP flow left alone at first need not be left alone, nor one anonymised at first stay so. */
  lemma UdpKeepsNoPromise(e: Ends, garbage: Ends, t: int, below: bool)
    requires e.protocol == UDP
    ensures var c := Initial(garbage, t);
      var settings := Settings(true, false, false, false);
      var first := Event(settings, Packet(e, 0, 1, 0), Answers(below, 0, 0));
      var second := Event(settings, Packet(e, 1, 1, 0), Answers(!below, 0, 0));
      (Replaces(c, first) <==> below) && (Replaces(Run(c, [first]), second) <==> !below)
  {
    var settings := Settings(true, false, false, false);
    var first := Event(settings, Packet(e, 0, 1, 0), Answers(below, 0, 0));
    var second := Event(settings, Packet(e, 1, 1, 0), Answers(!below, 0, 0));
    UdpJudgedAnew(garbage, t, [], first);
    UdpJudgedAnew(garbage, t, [first], second);
  }

  /** What the packets of a run are subjected to. */
  function Effects(c: seq<Flow>, events: seq<Event>): (r: seq<Effect>)
    ensures |r| == |events|
    decreases |events|
  {
    if events == [] then [] else [EffectOf(c, events[0])] + Effects(Multiplexed(c, events[0]), events[1..])
  }

  // ----- The bucket in memory -----

  /** `struct table_flow`. */
  class Entry {
    const ends: Ends
    var timestamp: int
    var toAnon: int
    var prev: Entry?
    var next: Entry?

    constructor (ends: Ends, timestamp: int, prev: Entry?)
      ensures this.ends == ends && this.timestamp == timestamp && toAnon == -1 && this.prev == prev && next == null
    {
      this.ends, this.timestamp, this.prev := ends, timestamp, prev;
      toAnon, next := -1, null;
    }
  }

  ghost function At(s: seq<Entry>, i: int): Entry? {
    if 0 <= i < |s| then s[i] else null
  }

  ghost predicate Links(s: seq<Entry>)
    reads s`prev, s`next
  {
    forall i {:trigger s[i].prev} {:trigger s[i].next} :: 0 <= i < |s| ==>
      && s[i].prev == At(s, i - 1)
      && s[i].next == At(s, i + 1)
  }

  ghost predicate Shows(s: seq<Entry>, c: seq<Flow>)
    reads s`timestamp, s`toAnon
  {
    |c| == |s| && forall i {:trigger c[i]} {:trigger s[i].timestamp} {:trigger s[i].toAnon} :: 0 <= i < |s| ==>
      c[i] == Flow(s[i].ends, s[i].timestamp, s[i].toAnon)
  }

  /** One entry of the flow table: its element in the table, which no flow owns but which takes part
      in the walk with whatever it holds, and the chain behind it. */
  class Slot {
    const head: Entry
    ghost var chain: seq<Entry>
    ghost var flows: seq<Flow>

    ghost predicate Valid()
      reads this, chain
    {
      Distinct(chain) && Links(chain) && chain != [] && chain[0] == head && Shows(chain, flows)
    }

    constructor (garbage: Ends, timestamp: int)
      ensures Valid() && flows == [Flow(garbage, timestamp, -1)]
      ensures fresh(head) && chain == [head]
    {
      head := new Entry(garbage, timestamp, null);
      new;
      chain, flows := [head], [Flow(garbage, timestamp, -1)];
    }

    /** The walk of `reference_flow`: the first match, or the last entry. */
    method Walk(e: Ends) returns (curr: Entry, found: bool)
      requires Valid()
      ensures found == (Find(flows, e) < |flows|)
      ensures found ==> curr == chain[Find(flows, e)]
      ensures !found ==> curr == chain[|chain| - 1]
    {
      curr, found := head, false;
      ghost var p := 0;
      while true
        invariant p < |chain| && curr == chain[p] && !found
        invariant Find(flows, e) == p + Find(flows[p..], e)
        decreases |chain| - p
      {
        assert flows[p..][1..] == flows[p + 1..];
        if Matches(curr.ends, e) {
          found := true;
          break;
        }
        if curr.next == null {
          break;
        }
        curr := curr.next;
        p := p + 1;
      }
    }

    /** A new entry behind the last one. */
    method Append(last: Entry, e: Ends, now: int) returns (curr: Entry)
      requires Valid() && last == chain[|chain| - 1]
      modifies this`chain, this`flows, last`next
      ensures Valid() && fresh(curr) && chain == old(chain) + [curr] && flows == old(flows) + [Flow(e, now, -1)]
    {
      curr := new Entry(e, now, last);
      last.next := curr;
      chain := chain + [curr];
      flows := flows + [Flow(e, now, -1)];
    }

    /** `reference_flow` without the sweep. */
    method ReferenceFlow(e: Ends, now: int) returns (curr: Entry)
      requires Valid()
      modifies this, chain
      ensures Valid() && flows == Referenced(old(flows), e, now)
      ensures chain == old(chain) || (chain == old(chain) + [curr] && fresh(curr))
      ensures curr == chain[Find(old(flows), e)]
    {
      var found;
      curr, found := Walk(e);
      if found {
        ghost var i := Find(flows, e);
        curr.timestamp := now;
        flows := flows[i := flows[i].(timestamp := now)];
      } else {
        curr := Append(curr, e, now);
      }
    }

    method StoreVerdict(flusso: Entry, ghost i: nat, flag: int)
      requires Valid() && i < |chain| && flusso == chain[i]
      modifies this`flows, flusso`toAnon
      ensures Valid() && flows == old(flows)[i := old(flows)[i].(toAnon := if flag != 0 then 1 else 0)]
    {
      flusso.toAnon := if flag != 0 then 1 else 0;
      flows := flows[i := flows[i].(toAnon := if flag != 0 then 1 else 0)];
    }

    /** The verdict is consulted and, unless it is 0, the module runs and decides it anew. */
    method Consult(e: Ends, now: int, flag: int) returns (ran: bool)
      requires Valid()
      modifies this, chain
      ensures Valid() && flows == Judged(old(flows), e, now, flag) && ran == MayRewrite(old(flows), e)
      ensures fresh(Elems(chain) - old(Elems(chain)))
    {
      var flusso := ReferenceFlow(e, now);
      ghost var i := Find(old(flows), e);
      ran := flusso.toAnon == -1 || flusso.toAnon == 1;
      if ran {
        StoreVerdict(flusso, i, flag);
      }
    }

    /** The external-IP module, if it is used on the packet; only for TCP its flag becomes the verdict. */
    method ConsultExtIp(v: Event) returns (ran: bool, replaced: bool)
      requires Valid() && IsIp(v)
      modifies this, chain
      ensures Valid()
      ensures flows == if v.packet.ends.protocol == TCP then AfterExtIp(old(flows), v) else UdpPart(old(flows), v)
      ensures ran == (UsesExtIp(v) && MayRewrite(old(flows), v.packet.ends)) && replaced == Replaces(old(flows), v)
      ensures fresh(Elems(chain) - old(Elems(chain)))
    {
      ran, replaced := false, false;
      if v.settings.extIp {
        if v.packet.origin == 1 || v.packet.origin == 10 {
          ran, replaced := ReferenceExtIp(v);
        }
      }
    }

    method ReferenceExtIp(v: Event) returns (ran: bool, replaced: bool)
      requires Valid() && IsIp(v) && UsesExtIp(v)
      modifies this, chain
      ensures Valid()
      ensures flows == if v.packet.ends.protocol == TCP then AfterExtIp(old(flows), v) else UdpPart(old(flows), v)
      ensures ran == MayRewrite(old(flows), v.packet.ends) && replaced == Replaces(old(flows), v)
      ensures fresh(Elems(chain) - old(Elems(chain)))
    {
      var flusso := ReferenceFlow(v.packet.ends, v.packet.now);
      ghost var i := Find(old(flows), v.packet.ends);
      assert flusso.toAnon == Verdict(old(flows), v.packet.ends);
      replaced := false;
      ran := flusso.toAnon == -1 || flusso.toAnon == 1;
      if ran {
        var flag;
        flag, replaced := ExternalIp(flusso, v.packet.origin, v.answers.below);
        if v.packet.ends.protocol == TCP {
          StoreVerdict(flusso, i, flag);
        }
      }
    }

    /** The TLS or HTTP module, if one of them is used on the packet. */
    method ConsultPayload(v: Event) returns (ran: bool)
      requires Valid()
      modifies this, chain
      ensures Valid() && fresh(Elems(chain) - old(Elems(chain)))
      ensures flows == if UsesTls(v) then Judge(old(flows), v, v.answers.tls)
        else if UsesHttp(v) then Judge(old(flows), v, v.answers.http) else old(flows)
      ensures ran == ((UsesTls(v) || UsesHttp(v)) && MayRewrite(old(flows), v.packet.ends))
    {
      ran := false;
      if v.packet.proto == 443 {
        if v.settings.tls {
          ran := Consult(v.packet.ends, v.packet.now, v.answers.tls);
        }
      } else if v.packet.proto == 80 {
        if v.settings.http {
          ran := Consult(v.packet.ends, v.packet.now, v.answers.http);
        }
      }
    }

    /** The IPv4 part of `multiplexer_proto`. */
    method Multiplex(v: Event) returns (effect: Effect)
      requires Valid()
      modifies this, chain
      ensures Valid() && flows == Multiplexed(old(flows), v) && effect == EffectOf(old(flows), v)
      ensures fresh(Elems(chain) - old(Elems(chain)))
    {
      var ran, replaced, stripped := false, false, false;
      if v.packet.ends.protocol == TCP {
        ran, replaced := ConsultExtIp(v);
        assert forall i :: 0 <= i < |chain| ==> chain[i] in Elems(chain);
        var more := ConsultPayload(v);
        ran := ran || more;
        stripped := v.packet.proto != 443 && v.packet.proto != 80 && OtherPorts(v.packet.ends);
      } else if v.packet.ends.protocol == UDP {
        ran, replaced := ConsultExtIp(v);
        stripped := if v.settings.dns then v.packet.proto != DNS else OtherPorts(v.packet.ends);
      } else {
        stripped := true;
      }
      effect := Effect(ran, replaced, stripped);
    }

    /** The packets of a run, one after the other. */
    method MultiplexEach(events: seq<Event>) returns (effects: seq<Effect>)
      requires Valid()
      modifies this, chain
      ensures Valid() && flows == Run(old(flows), events) && effects == Effects(old(flows), events)
      ensures fresh(Elems(chain) - old(Elems(chain)))
      decreases |events|
    {
      if events == [] {
        effects := [];
      } else {
        var first := Multiplex(events[0]);
        assert forall i :: 0 <= i < |chain| ==> chain[i] in Elems(chain);
        var rest := MultiplexEach(events[1..]);
        effects := [first] + rest;
      }
    }
  }

  /** `external_ip` for IPv4: the flag, and whether it replaces the address. Behind the source address
      the test for verdict 1 stands inside the one for no verdict, and never holds. */
  method ExternalIp(flusso: Entry, origin: int, below: bool) returns (flag: int, replaced: bool)
    requires origin in {1, 10} && flusso.toAnon in {-1, 1}
    ensures flag == ExtFlag(flusso.toAnon, below) && replaced == Swaps(flusso.toAnon, origin, below)
  {
    flag, replaced := 0, false;
    if origin == 10 {
      if flusso.toAnon == -1 {
        if below {
          flag, replaced := flag + 1, true;
        }
      }
    }
    if origin == 1 {
      if flusso.toAnon == -1 {
        if below {
          flag, replaced := flag + 1, true;
        }
      }
      if flusso.toAnon == 1 {
        replaced := true;
      }
    }
  }

  /** A bucket from its initialisation on. */
  method Session(garbage: Ends, timestamp: int, events: seq<Event>) returns (effects: seq<Effect>)
    ensures effects == Effects(Initial(garbage, timestamp), events)
  {
    var slot := new Slot(garbage, timestamp);
    effects := slot.MultiplexEach(events);
  }
}
