/**
 Runs of `table_add` on one bucket of the name table (src/proto_mng.c): what the returned counts
 say about the window of each name, and what a walk cut short does.
 */
module NameRuns {
  import opened Sequences
  import opened AlphaWindow
  import opened NameChain

  // ----- What one call does to the clients of every name -----

  ghost predicate DistinctNames(c: seq<Named>) {
    forall i, j :: 0 <= i < j < |c| ==> c[i].name != c[j].name
  }

  lemma {:induction false} FindSame(c: seq<Named>, d: seq<Named>, x: string)
    requires |c| == |d| && forall i :: 0 <= i < |c| ==> c[i].name == d[i].name
    ensures Find(c, x) == Find(d, x)
  {
    if c != [] {
      FindSame(c[1..], d[1..], x);
    }
  }

  lemma ClientsAppend(a: seq<Named>, b: seq<Named>, x: string)
    ensures ClientsOf(a + b, x) == if Find(a, x) < |a| then ClientsOf(a, x) else ClientsOf(b, x)
  {
    FindAppend(a, b, x);
    var p, q, s := Find(a, x), Find(b, x), a + b;
    if p < |a| {
      assert s[p] == a[p];
    } else if q < |b| {
      assert s[|a| + q] == b[q];
    }
  }

  lemma FindOne(y: Named, x: string)
    ensures Find([y], x) == if y.name == x then 0 else 1
  {
    FindIs([y], x, if y.name == x then 0 else 1);
  }

  /** The map update changes the clients of its own name only. */
  lemma UpdateClients(c: seq<Named>, call: Call, kAnon: int, delta: int, x: string)
    ensures ClientsOf(Update(c, call, kAnon, delta), x) ==
      if x == call.name then Referenced(ClientsOf(c, x), call.slot, call.now, kAnon, delta) else ClientsOf(c, x)
  {
    var q, d := Find(c, call.name), Update(c, call, kAnon, delta);
    if q < |c| {
      FindSame(c, d, x);
    } else {
      FindOne(d[|c|], x);
      ClientsAppend(c, [d[|c|]], x);
    }
  }

  lemma UpdateDistinct(c: seq<Named>, call: Call, kAnon: int, delta: int)
    requires DistinctNames(c)
    ensures DistinctNames(Update(c, call, kAnon, delta))
  {
    if Find(c, call.name) == |c| {
      forall j | 0 <= j < |c| ensures c[j].name != call.name {
        FirstFound(c, call.name, j);
      }
    }
  }

  /** A survivor carries the name of one of the names passed. */
  lemma {:induction false} KeptFrom(c: seq<Named>, i: nat, limit: int, p: nat) returns (j: nat)
    requires i <= |c| && p < |Kept(c, i, limit)|
    ensures j < i && Kept(c, i, limit)[p].name == c[j].name
  {
    if i == 1 {
      j := 0;
    } else if p < |Kept(c, i - 1, limit)| {
      j := KeptFrom(c, i - 1, limit, p);
    } else {
      j := i - 1;
    }
  }

  lemma KeptSnoc(c: seq<Named>, i: nat, limit: int)
    requires 1 < i <= |c|
    ensures Kept(c, i, limit) == Kept(c, i - 1, limit) +
      if Pruned(c[i - 1].clients, limit) == [] then [] else [Named(c[i - 1].name, Pruned(c[i - 1].clients, limit))]
  {
  }

  lemma LastName(a: seq<Named>, y: Named)
    requires DistinctNames(a) && forall p :: 0 <= p < |a| ==> a[p].name != y.name
    ensures DistinctNames(a + [y])
  {
  }

  lemma {:induction false} KeptDistinct(c: seq<Named>, i: nat, limit: int)
    requires DistinctNames(c) && i <= |c|
    ensures DistinctNames(Kept(c, i, limit))
  {
    if i > 1 {
      KeptDistinct(c, i - 1, limit);
      KeptSnoc(c, i, limit);
      var k, v := Kept(c, i - 1, limit), Pruned(c[i - 1].clients, limit);
      if v != [] {
        forall p | 0 <= p < |k| ensures k[p].name != c[i - 1].name {
          var j := KeptFrom(c, i - 1, limit, p);
        }
        LastName(k, Named(c[i - 1].name, v));
      }
    }
  }

  lemma SweptDistinct(c: seq<Named>, s: nat, limit: int)
    requires DistinctNames(c) && s <= |c|
    ensures DistinctNames(Swept(c, s, limit))
  {
    KeptDistinct(c, s, limit);
    var k := Kept(c, s, limit);
    forall p, q | 0 <= p < |k| && s <= q < |c| ensures k[p].name != c[q].name {
      var j := KeptFrom(c, s, limit, p);
    }
    var t := Swept(c, s, limit);
    forall p, q | 0 <= p < q < |t| ensures t[p].name != t[q].name {
      if p >= |k| {
        assert t[p] == c[p - |k| + s] && t[q] == c[q - |k| + s];
      } else if q >= |k| {
        assert t[p] == k[p] && t[q] == c[q - |k| + s];
      }
    }
  }

  /** The clients a sweep leaves to the name at j. */
  function Left(c: seq<Named>, j: nat, limit: int): seq<Entry>
    requires j < |c|
  {
    if j == 0 then c[0].clients else Pruned(c[j].clients, limit)
  }

  /** A name passed keeps its pruned clients, or is gone when none remains. */
  lemma {:induction false} KeptClients(c: seq<Named>, i: nat, limit: int, j: nat, x: string)
    requires j < i <= |c| && c[j].name == x
    requires forall m :: 0 <= m < i && m != j ==> c[m].name != x
    ensures ClientsOf(Kept(c, i, limit), x) == Left(c, j, limit)
    ensures Find(Kept(c, i, limit), x) == |Kept(c, i, limit)| ==> Left(c, j, limit) == []
  {
    if i == 1 {
      FindOne(c[0], x);
    } else {
      KeptSnoc(c, i, limit);
      var v := Pruned(c[i - 1].clients, limit);
      var last := if v == [] then [] else [Named(c[i - 1].name, v)];
      if v != [] {
        FindOne(last[0], x);
      }
      ClientsAppend(Kept(c, i - 1, limit), last, x);
      FindAppend(Kept(c, i - 1, limit), last, x);
      if j == i - 1 {
        KeptFind(c, i - 1, limit, x);
      } else {
        KeptClients(c, i - 1, limit, j, x);
      }
    }
  }

  lemma SweptClientsPassed(c: seq<Named>, s: nat, limit: int, j: nat)
    requires DistinctNames(c) && j < s <= |c|
    ensures ClientsOf(Swept(c, s, limit), c[j].name) == Left(c, j, limit)
  {
    var x := c[j].name;
    KeptClients(c, s, limit, j, x);
    ClientsAppend(Kept(c, s, limit), c[s..], x);
    FindIs(c[s..], x, |c| - s);
  }

  lemma SweptClientsAhead(c: seq<Named>, s: nat, limit: int, x: string)
    requires s <= |c| && forall j :: 0 <= j < s ==> c[j].name != x
    ensures ClientsOf(Swept(c, s, limit), x) == ClientsOf(c, x)
  {
    KeptFind(c, s, limit, x);
    ClientsAppend(Kept(c, s, limit), c[s..], x);
    FindIs(c[..s], x, s);
    ClientsAppend(c[..s], c[s..], x);
    assert c == c[..s] + c[s..];
  }

  /** What a walk does to the clients of a name: nothing to its own name, at most a pruning to others. */
  lemma SweepClients(c: seq<Named>, number: int, name: string, limit: int, x: string)
    requires c != [] && DistinctNames(c)
    ensures var t := Swept(c, Stop(c, number, 0, name, limit), limit);
      && (x == name ==> ClientsOf(t, x) == ClientsOf(c, x))
      && (ClientsOf(t, x) == ClientsOf(c, x) || ClientsOf(t, x) == Pruned(ClientsOf(c, x), limit))
  {
    var s := Stop(c, number, 0, name, limit);
    if j :| 0 <= j < s && c[j].name == x {
      Passed(c, number, 0, name, limit, j);
      SweptClientsPassed(c, s, limit, j);
      FindIs(c, x, j);
    } else {
      SweptClientsAhead(c, s, limit, x);
    }
  }

  /** What a whole call that does what it is for does to the clients of a name. */
  lemma CallClients(b: Bucket, call: Call, kAnon: int, delta: int, x: string)
    requires Wf(b) && DistinctNames(b.names) && (b.names != [] ==> Reaches(b, call, delta))
    ensures var now, after := ClientsOf(b.names, x), ClientsOf(TableAdd(b, call, kAnon, delta).bucket.names, x);
      if x == call.name then after == Referenced(now, call.slot, call.now, kAnon, delta)
      else after == now || after == Pruned(now, call.now - delta)
  {
    if b.names == [] {
      FindOne(Refer(Named(call.name, []), call, kAnon, delta), x);
    } else {
      CallExact(b, call, kAnon, delta);
      var w := WalkOf(b, call, delta);
      WalkClients(b, call, delta, x);
      UpdateClients(w.names, call, kAnon, delta, x);
    }
  }

  lemma FoundFirst(b: Bucket, call: Call, delta: int)
    requires b.names != [] && Wf(b)
    ensures var w := WalkOf(b, call, delta); w.found ==> Find(w.names, call.name) == w.at
  {
    if call.clean {
      var w := WalkIs(b, call, delta);
      Placed(b.names, b.number, call.name, call.now - delta, Stop(b.names, b.number, 0, call.name, call.now - delta));
    } else {
      PlainFrom(b.names, b.number, 0, call.name);
    }
  }

  lemma WalkClients(b: Bucket, call: Call, delta: int, x: string)
    requires b.names != [] && DistinctNames(b.names)
    ensures var c, t, limit := b.names, WalkOf(b, call, delta).names, call.now - delta;
      && DistinctNames(t)
      && (x == call.name ==> ClientsOf(t, x) == ClientsOf(c, x))
      && (ClientsOf(t, x) == ClientsOf(c, x) || ClientsOf(t, x) == Pruned(ClientsOf(c, x), limit))
  {
    if call.clean {
      var w := WalkIs(b, call, delta);
      SweptDistinct(b.names, Stop(b.names, b.number, 0, call.name, call.now - delta), call.now - delta);
      SweepClients(b.names, b.number, call.name, call.now - delta, x);
    } else {
      PlainCount(b.names, b.number, 0, call.name);
    }
  }

  // ----- Runs -----

  /** The bucket after a run of calls. */
  function Run(calls: seq<Call>, kAnon: int, delta: int): Bucket {
    if calls == [] then Bucket(0, [])
    else TableAdd(Run(calls[..|calls| - 1], kAnon, delta), calls[|calls| - 1], kAnon, delta).bucket
  }

  /** No walk of the run is cut short. */
  ghost predicate AllReach(calls: seq<Call>, kAnon: int, delta: int) {
    calls != [] ==>
      var g, call := calls[..|calls| - 1], calls[|calls| - 1];
      var b := Run(g, kAnon, delta);
      AllReach(g, kAnon, delta) && (b.names != [] ==> Reaches(b, call, delta))
  }

  ghost predicate InOrder(calls: seq<Call>) {
    forall i, j :: 0 <= i <= j < |calls| ==> calls[i].now <= calls[j].now
  }

  /** The references of a run to one name. */
  function RefsTo(calls: seq<Call>, x: string): seq<Event> {
    if calls == [] then []
    else
      var g, call := calls[..|calls| - 1], calls[|calls| - 1];
      if call.name == x then RefsTo(g, x) + [Ref(call.slot, call.now)] else RefsTo(g, x)
  }

  lemma {:induction false} RefsNotLater(calls: seq<Call>, x: string, now: int)
    requires forall i :: 0 <= i < |calls| ==> calls[i].now <= now
    ensures NotLater(RefsTo(calls, x), now)
  {
    if calls != [] {
      var g, call := calls[..|calls| - 1], calls[|calls| - 1];
      RefsNotLater(g, x, now);
      if call.name == x {
        forall r | Refers(RefsTo(calls, x), r) ensures r.now <= now {
          assert r == Ref(call.slot, call.now) || Refers(RefsTo(g, x), r);
        }
      }
    }
  }

  lemma RefsNext(calls: seq<Call>, call: Call, x: string)
    ensures RefsTo(calls + [call], x) ==
      if call.name == x then RefsTo(calls, x) + [Ref(call.slot, call.now)] else RefsTo(calls, x)
  {
    assert (calls + [call])[..|calls|] == calls;
  }

  /** The clients a bucket holds for a name follow the references to it. */
  ghost predicate Tracks(c: seq<Named>, calls: seq<Call>, x: string, limit: int) {
    Follows(ClientsOf(c, x), RefsTo(calls, x), limit)
  }

  lemma TrackStep(b: Bucket, calls: seq<Call>, call: Call, kAnon: int, delta: nat, x: string)
    requires Wf(b) && DistinctNames(b.names) && (b.names != [] ==> Reaches(b, call, delta))
    requires forall i :: 0 <= i < |calls| ==> calls[i].now <= call.now
    requires Tracks(b.names, calls, x, call.now - delta)
    ensures Tracks(TableAdd(b, call, kAnon, delta).bucket.names, calls + [call], x, call.now - delta)
  {
    CallClients(b, call, kAnon, delta, x);
    RefsNext(calls, call, x);
    if x == call.name {
      RefsNotLater(calls, x, call.now);
      RefFollows(ClientsOf(b.names, x), RefsTo(calls, x), call.slot, call.now, kAnon, delta);
    } else {
      PruneFollows(ClientsOf(b.names, x), RefsTo(calls, x), call.now - delta);
    }
  }

  lemma CallDistinct(b: Bucket, call: Call, kAnon: int, delta: int)
    requires Wf(b) && DistinctNames(b.names) && (b.names != [] ==> Reaches(b, call, delta))
    ensures DistinctNames(TableAdd(b, call, kAnon, delta).bucket.names)
    ensures b.number == |b.names| ==>
      TableAdd(b, call, kAnon, delta).bucket.number == |TableAdd(b, call, kAnon, delta).bucket.names|
    ensures TableAdd(b, call, kAnon, delta).ret == |ClientsOf(TableAdd(b, call, kAnon, delta).bucket.names, call.name)|
  {
    if b.names == [] {
      FindOne(Refer(Named(call.name, []), call, kAnon, delta), call.name);
    } else {
      var w := WalkOf(b, call, delta);
      CallExact(b, call, kAnon, delta);
      WalkClients(b, call, delta, call.name);
      WalkCount(b, call, delta);
      UpdateDistinct(w.names, call, kAnon, delta);
      FoundFirst(b, call, delta);
      ReturnsCount(w, call, kAnon, delta);
    }
  }

  lemma ReturnsCount(w: Walk, call: Call, kAnon: int, delta: int)
    requires w.at < |w.names| && Right(w, call, kAnon, delta) && (w.found ==> Find(w.names, call.name) == w.at)
    ensures Place(w, call, kAnon, delta).ret == |ClientsOf(Update(w.names, call, kAnon, delta), call.name)|
  {
    UpdateClients(w.names, call, kAnon, delta, call.name);
  }

  /** The bucket after a run whose walks are not cut short: distinct names, a true count, and for
      every name exactly its clients, as the references to it alone would leave them. */
  lemma {:induction false} RunTracks(calls: seq<Call>, kAnon: int, delta: nat, x: string)
    requires InOrder(calls) && AllReach(calls, kAnon, delta)
    ensures var b := Run(calls, kAnon, delta);
      && Wf(b) && DistinctNames(b.names) && b.number == |b.names|
      && (calls != [] ==> Tracks(b.names, calls, x, calls[|calls| - 1].now - delta))
  {
    if calls != [] {
      var g, call := calls[..|calls| - 1], calls[|calls| - 1];
      assert calls == g + [call];
      var b := Run(g, kAnon, delta);
      RunTracks(g, kAnon, delta, x);
      StepWf(b, call, kAnon, delta);
      CallDistinct(b, call, kAnon, delta);
      if g == [] {
        NothingFollows(call.now - delta);
      } else {
        LaterLimit(ClientsOf(b.names, x), RefsTo(g, x), g[|g| - 1].now - delta, call.now - delta);
      }
      TrackStep(b, g, call, kAnon, delta, x);
    }
  }

  /** What the last call of a run returns. */
  function LastRet(calls: seq<Call>, kAnon: int, delta: int): nat
    requires calls != []
  {
    TableAdd(Run(calls[..|calls| - 1], kAnon, delta), calls[|calls| - 1], kAnon, delta).ret
  }

  /** What the calls of a run return. */
  function Returned(calls: seq<Call>, kAnon: int, delta: int): (rets: seq<nat>)
    ensures |rets| == |calls|
  {
    if calls == [] then [] else Returned(calls[..|calls| - 1], kAnon, delta) + [LastRet(calls, kAnon, delta)]
  }

  lemma RunNext(calls: seq<Call>, call: Call, kAnon: int, delta: int)
    ensures Run(calls + [call], kAnon, delta) == TableAdd(Run(calls, kAnon, delta), call, kAnon, delta).bucket
  {
    assert (calls + [call])[..|calls|] == calls;
  }

  ghost predicate Look(calls: seq<Call>) { true }

  /** What a run leaves and returns. */
  ghost predicate Told(calls: seq<Call>, kAnon: int, delta: int, b: Bucket, rets: seq<nat>) {
    forall c: seq<Call> {:trigger Look(c)} :: Look(c) && c == calls ==>
      b == Run(c, kAnon, delta) && rets == Returned(c, kAnon, delta)
  }

  lemma ToldNothing(kAnon: int, delta: int)
    ensures Told([], kAnon, delta, Bucket(0, []), [])
  {
  }

  lemma ToldIs(calls: seq<Call>, kAnon: int, delta: int, b: Bucket, rets: seq<nat>)
    requires Told(calls, kAnon, delta, b, rets)
    ensures b == Run(calls, kAnon, delta) && rets == Returned(calls, kAnon, delta)
  {
    assert Look(calls);
  }

  lemma ToldNext(calls: seq<Call>, kAnon: int, delta: int, b: Bucket, rets: seq<nat>, call: Call)
    requires Told(calls, kAnon, delta, b, rets)
    ensures var a := TableAdd(b, call, kAnon, delta); Told(calls + [call], kAnon, delta, a.bucket, rets + [a.ret])
  {
    ToldIs(calls, kAnon, delta, b, rets);
    assert (calls + [call])[..|calls|] == calls;
  }

  /** Entry n is what call n returns as the last of the calls up to it. */
  lemma {:induction false} ReturnedAt(calls: seq<Call>, n: nat, kAnon: int, delta: int)
    requires n < |calls|
    ensures Returned(calls, kAnon, delta)[n] == LastRet(calls[..n + 1], kAnon, delta)
  {
    if n == |calls| - 1 {
      assert calls[..n + 1] == calls;
    } else {
      var g := calls[..|calls| - 1];
      ReturnedAt(g, n, kAnon, delta);
      assert g[..n + 1] == calls[..n + 1];
    }
  }

  /** The clients held for the name of the last call, before that call. */
  function Before(calls: seq<Call>, kAnon: int, delta: int): seq<Entry>
    requires calls != []
  {
    ClientsOf(Run(calls[..|calls| - 1], kAnon, delta).names, calls[|calls| - 1].name)
  }

  lemma LastReference(calls: seq<Call>, kAnon: int, delta: nat)
    requires calls != [] && InOrder(calls) && AllReach(calls, kAnon, delta)
    ensures var call := calls[|calls| - 1];
      var v := Referenced(Before(calls, kAnon, delta), call.slot, call.now, kAnon, delta);
      && LastRet(calls, kAnon, delta) == |v|
      && Follows(v, RefsTo(calls, call.name), call.now - delta)
  {
    var g, call := calls[..|calls| - 1], calls[|calls| - 1];
    RunTracks(calls, kAnon, delta, call.name);
    RunTracks(g, kAnon, delta, call.name);
    CallDistinct(Run(g, kAnon, delta), call, kAnon, delta);
    CallClients(Run(g, kAnon, delta), call, kAnon, delta, call.name);
  }

  /** After any run whose walks are not cut short, the count returned is at least the number of
      distinct clients of the name in the window, and equal to it exactly when the reference prunes or
      finds nothing outdated. So a name found below k_anon truly is, and a name not found below k_anon
      truly is not, unless the client makes the list k_anon long with an outdated one at its end. */
  lemma RunCountsWindow(calls: seq<Call>, kAnon: int, delta: nat)
    requires calls != [] && InOrder(calls) && AllReach(calls, kAnon, delta)
    ensures var call, n := calls[|calls| - 1], LastRet(calls, kAnon, delta);
      var limit, before := call.now - delta, Before(calls, kAnon, delta);
      var window, w := Window(RefsTo(calls, call.name), limit), Touched(before, call.slot, call.now);
      && |window| <= n
      && (|window| == n <==> |w| > kAnon || AllFresh(w, limit))
      && (n < kAnon ==> |window| < kAnon)
      && ((n < kAnon <==> |window| < kAnon) <==> !Misjudged(before, call.slot, call.now, kAnon, delta))
  {
    var call, before := calls[|calls| - 1], Before(calls, kAnon, delta);
    var limit := call.now - delta;
    LastReference(calls, kAnon, delta);
    CountFollows(Referenced(before, call.slot, call.now, kAnon, delta), RefsTo(calls, call.name), limit);
    FreshAfter(before, call.slot, call.now, kAnon, delta);
    Verdict(before, call.slot, call.now, kAnon, delta, |Window(RefsTo(calls, call.name), limit)|);
  }

  // ----- Walks cut short -----

  /** A name seen once. */
  function Seen(x: string, slot: nat, seen: int): Named { Named(x, [Entry(slot, seen)]) }

  lemma FirstReference(x: string, call: Call, kAnon: int, delta: nat)
    ensures Refer(Named(x, []), call, kAnon, delta) == Seen(x, call.slot, call.now)
  {
    assert Pruned([Entry(call.slot, call.now)], call.now - delta) == [Entry(call.slot, call.now)];
  }

  /** A new name asked for without cleaning goes to the end. */
  lemma Enters(calls: seq<Call>, c: seq<Named>, call: Call, kAnon: int, delta: nat)
    requires Run(calls, kAnon, delta) == Bucket(|c|, c)
    requires !call.clean && forall i :: 0 <= i < |c| ==> c[i].name != call.name
    ensures Run(calls + [call], kAnon, delta) == Bucket(|c| + 1, c + [Seen(call.name, call.slot, call.now)])
  {
    RunNext(calls, call, kAnon, delta);
    FirstReference(call.name, call, kAnon, delta);
    if c != [] {
      FindIs(c, call.name, |c|);
      PlainFrom(c, |c|, 0, call.name);
      assert c[..|c| - 1 + 1] == c;
    }
  }

  /** Three names, each seen once at time 0. */
  function Three(x: string, y: string, z: string): seq<Call> {
    [Call(false, x, 1, 0)] + [Call(false, y, 2, 0)] + [Call(false, z, 3, 0)]
  }

  lemma RunOne(x: string, kAnon: int, delta: nat)
    ensures Run([Call(false, x, 1, 0)], kAnon, delta) == Bucket(1, [Seen(x, 1, 0)])
  {
    Enters([], [], Call(false, x, 1, 0), kAnon, delta);
    assert [] + [Call(false, x, 1, 0)] == [Call(false, x, 1, 0)];
    assert [] + [Seen(x, 1, 0)] == [Seen(x, 1, 0)];
  }

  lemma RunThree(x: string, y: string, z: string, kAnon: int, delta: nat)
    requires x != y && x != z && y != z
    ensures Run(Three(x, y, z), kAnon, delta) == Bucket(3, [Seen(x, 1, 0), Seen(y, 2, 0), Seen(z, 3, 0)])
  {
    var a, b, c := Seen(x, 1, 0), Seen(y, 2, 0), Seen(z, 3, 0);
    RunOne(x, kAnon, delta);
    Enters([Call(false, x, 1, 0)], [a], Call(false, y, 2, 0), kAnon, delta);
    assert [a] + [b] == [a, b] && [a, b] + [c] == [a, b, c];
    Enters([Call(false, x, 1, 0)] + [Call(false, y, 2, 0)], [a, b], Call(false, z, 3, 0), kAnon, delta);
  }

  /** The walk with cleaning passes a name inside the chain whose only client has expired. */
  lemma PassExpired(c: seq<Named>, number: int, i: nat, name: string, limit: int)
    requires |c| > 2 && 0 < i < number && c[1].name != name && |c[1].clients| == 1 && c[1].clients[0].seen < limit
    ensures Sweep(c, number, 1, i, name, limit) == Sweep([c[0]] + c[2..], number - 1, 1, i + 1, name, limit)
  {
    var v := c[1].clients;
    assert v[..0] == [] && Pruned(v[..0], limit) == [] && Pruned(v, limit) == [];
    assert Cut(c, 1) == [c[0]] + c[2..];
  }

  /** One expired name inside the chain suffices to miss the last one: whatever the names of a bucket,
      the last of three gets a second entry when the others have expired. */
  lemma SecondEntry(x: string, y: string, z: string, kAnon: int, delta: nat, now: int)
    requires x != y && x != z && y != z && now > delta
    ensures Run(Three(x, y, z) + [Call(true, z, 4, now)], kAnon, delta) ==
      Bucket(3, [Seen(x, 1, 0), Seen(z, 3, 0), Seen(z, 4, now)])
  {
    var call, limit := Call(true, z, 4, now), now - delta;
    var a, b, c := Seen(x, 1, 0), Seen(y, 2, 0), Seen(z, 3, 0);
    RunThree(x, y, z, kAnon, delta);
    RunNext(Three(x, y, z), call, kAnon, delta);
    PassExpired([a, b, c], 3, 1, z, limit);
    assert [a] + [a, b, c][2..] == [a, c];
    assert Sweep([a, c], 2, 1, 2, z, limit) == Walk([a, c], 1, false, 2);
    FirstReference(z, call, kAnon, delta);
    assert [a, c][..2] == [a, c];
  }

  lemma RunFive(x: string, y: string, z: string, u: string, v: string, t: int, kAnon: int, delta: nat)
    requires x != y && x != z && y != z && u != v && u !in {x, y, z} && v !in {x, y, z}
    ensures Run(Three(x, y, z) + [Call(false, u, 4, t)] + [Call(false, v, 5, t)], kAnon, delta) ==
      Bucket(5, [Seen(x, 1, 0), Seen(y, 2, 0), Seen(z, 3, 0), Seen(u, 4, t), Seen(v, 5, t)])
  {
    var three := [Seen(x, 1, 0), Seen(y, 2, 0), Seen(z, 3, 0)];
    RunThree(x, y, z, kAnon, delta);
    Enters(Three(x, y, z), three, Call(false, u, 4, t), kAnon, delta);
    Enters(Three(x, y, z) + [Call(false, u, 4, t)], three + [Seen(u, 4, t)], Call(false, v, 5, t), kAnon, delta);
  }

  /** A new name asked for while two names inside the chain have expired: the name at the end, seen
      within the window, is cut off the chain with its clients, and `number` no longer is its length. */
  lemma LiveNameCutOff(x: string, y: string, z: string, u: string, v: string, w: string, t: int, now: int, kAnon: int,
                       delta: nat)
    requires x != y && x != z && y != z && u != v && u !in {x, y, z} && v !in {x, y, z} && w !in {x, y, z, u, v}
    requires 0 < now - delta <= t <= now
    ensures var live := Three(x, y, z) + [Call(false, u, 4, t)] + [Call(false, v, 5, t)];
      && Find(Run(live, kAnon, delta).names, v) == 4
      && Run(live + [Call(true, w, 6, now)], kAnon, delta) == Bucket(4, [Seen(x, 1, 0), Seen(u, 4, t), Seen(w, 6, now)])
  {
    var live := Three(x, y, z) + [Call(false, u, 4, t)] + [Call(false, v, 5, t)];
    var call, limit := Call(true, w, 6, now), now - delta;
    var a, b, c, d, e := Seen(x, 1, 0), Seen(y, 2, 0), Seen(z, 3, 0), Seen(u, 4, t), Seen(v, 5, t);
    RunFive(x, y, z, u, v, t, kAnon, delta);
    FindIs([a, b, c, d, e], v, 4);
    RunNext(live, call, kAnon, delta);
    PassExpired([a, b, c, d, e], 5, 1, w, limit);
    assert [a] + [a, b, c, d, e][2..] == [a, c, d, e];
    PassExpired([a, c, d, e], 4, 2, w, limit);
    assert [a] + [a, c, d, e][2..] == [a, d, e];
    assert Sweep([a, d, e], 3, 1, 3, w, limit) == Walk([a, d, e], 1, false, 3);
    FirstReference(w, call, kAnon, delta);
    assert [a, d, e][..2] == [a, d];
  }
}
