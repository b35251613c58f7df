/**
 Every run of `table_add` on one bucket of the name table (src/proto_mng.c), whether or not a walk is
 cut short: what the counts it returns still say.
 */
module NameCounts {
  import opened Sequences
  import opened AlphaWindow
  import opened NameChain
  import opened NameRuns

  /** Every entry of every name on the chain, also of a name with two, comes from a reference to it. */
  ghost predicate AllTruthful(c: seq<Named>, calls: seq<Call>) {
    forall p {:trigger c[p]} :: 0 <= p < |c| ==> Truthful(c[p].clients, RefsTo(calls, c[p].name))
  }

  lemma {:induction false} SweepTruthful(c: seq<Named>, number: int, p: nat, i: nat, name: string, limit: int,
                                         calls: seq<Call>)
    requires p < |c| && AllTruthful(c, calls)
    ensures var w := Sweep(c, number, p, i, name, limit);
      AllTruthful(w.names, calls) && (w.found ==> w.names[w.at].name == name)
    decreases |c| - p
  {
    if i < number && c[p].name != name && p + 1 < |c| {
      if i == 0 {
        SweepTruthful(c, number, p + 1, i + 1, name, limit, calls);
      } else {
        var v := Pruned(c[p].clients, limit);
        if v == [] {
          SweepTruthful(Cut(c, p), number - 1, p, i + 1, name, limit, calls);
        } else {
          TruthPruned(c[p].clients, RefsTo(calls, c[p].name), limit);
          SweepTruthful(c[p := Named(c[p].name, v)], number, p + 1, i + 1, name, limit, calls);
        }
      }
    }
  }

  lemma {:induction false} PlainFinds(c: seq<Named>, number: int, i: nat, name: string)
    requires i < |c|
    ensures var w := Plain(c, number, i, name); w.names == c && (w.found ==> c[w.at].name == name)
    decreases |c| - i
  {
    if i < number && c[i].name != name && i + 1 < |c| {
      PlainFinds(c, number, i + 1, name);
    }
  }

  lemma {:induction false} WalkTruthful(b: Bucket, call: Call, delta: int, calls: seq<Call>)
    requires b.names != [] && AllTruthful(b.names, calls)
    ensures var w := WalkOf(b, call, delta);
      AllTruthful(w.names, calls) && (w.found ==> w.names[w.at].name == call.name)
  {
    if call.clean {
      SweepTruthful(b.names, b.number, 0, 0, call.name, call.now - delta, calls);
    } else {
      PlainFinds(b.names, b.number, 0, call.name);
    }
  }

  /** The clients that a call finds for its name: of the entry where its walk ends, or none. */
  function Met(b: Bucket, call: Call, delta: int): seq<Entry> {
    if b.names == [] then []
    else
      var w := WalkOf(b, call, delta);
      if w.found then w.names[w.at].clients else []
  }

  lemma {:induction false} MetCounts(b: Bucket, call: Call, kAnon: int, delta: int)
    ensures TableAdd(b, call, kAnon, delta).ret == |Referenced(Met(b, call, delta), call.slot, call.now, kAnon, delta)|
  {
  }

  lemma {:induction false} MetTruthful(b: Bucket, call: Call, delta: int, calls: seq<Call>)
    requires AllTruthful(b.names, calls)
    ensures Truthful(Met(b, call, delta), RefsTo(calls, call.name))
  {
    if b.names != [] {
      WalkTruthful(b, call, delta, calls);
    }
  }

  lemma {:induction false} NamedMore(x: Named, calls: seq<Call>, call: Call)
    requires Truthful(x.clients, RefsTo(calls, x.name))
    ensures Truthful(x.clients, RefsTo(calls + [call], x.name))
  {
    RefsNext(calls, call, x.name);
    TruthMore(x.clients, RefsTo(calls, x.name), Ref(call.slot, call.now));
  }

  lemma {:induction false} ReferTruthful(x: Named, calls: seq<Call>, call: Call, kAnon: int, delta: int)
    requires x.name == call.name && Truthful(x.clients, RefsTo(calls, x.name))
    requires forall i :: 0 <= i < |calls| ==> calls[i].now <= call.now
    ensures Truthful(Refer(x, call, kAnon, delta).clients, RefsTo(calls + [call], x.name))
  {
    RefsNext(calls, call, x.name);
    RefsNotLater(calls, x.name, call.now);
    TruthReferenced(x.clients, RefsTo(calls, x.name), call.slot, call.now, kAnon, delta);
  }

  lemma {:induction false} AllMore(c: seq<Named>, calls: seq<Call>, call: Call)
    requires AllTruthful(c, calls)
    ensures AllTruthful(c, calls + [call])
  {
    forall p | 0 <= p < |c| ensures Truthful(c[p].clients, RefsTo(calls + [call], c[p].name)) {
      NamedMore(c[p], calls, call);
    }
  }

  lemma {:induction false} PlaceTruthful(w: Walk, x: Named, call: Call, kAnon: int, delta: int, calls: seq<Call>)
    requires w.at < |w.names| && AllTruthful(w.names, calls)
    requires x == Refer(if w.found then w.names[w.at] else Named(call.name, []), call, kAnon, delta)
    requires Truthful(x.clients, RefsTo(calls, x.name))
    ensures AllTruthful(Place(w, call, kAnon, delta).bucket.names, calls)
  {
  }

  lemma {:induction false} CallTruthful(b: Bucket, call: Call, kAnon: int, delta: int, calls: seq<Call>)
    requires AllTruthful(b.names, calls) && forall i :: 0 <= i < |calls| ==> calls[i].now <= call.now
    ensures AllTruthful(TableAdd(b, call, kAnon, delta).bucket.names, calls + [call])
  {
    var x := Named(call.name, Met(b, call, delta));
    MetTruthful(b, call, delta, calls);
    ReferTruthful(x, calls, call, kAnon, delta);
    if b.names != [] {
      WalkTruthful(b, call, delta, calls);
      var w := WalkOf(b, call, delta);
      AllMore(w.names, calls, call);
      PlaceTruthful(w, Refer(x, call, kAnon, delta), call, kAnon, delta, calls + [call]);
    }
  }

  lemma {:induction false} RunTruthful(calls: seq<Call>, kAnon: int, delta: int)
    requires InOrder(calls)
    ensures AllTruthful(Run(calls, kAnon, delta).names, calls)
  {
    if calls != [] {
      var g, call := calls[..|calls| - 1], calls[|calls| - 1];
      assert calls == g + [call];
      RunTruthful(g, kAnon, delta);
      CallTruthful(Run(g, kAnon, delta), call, kAnon, delta, g);
    }
  }

  /** After every run in time order, also one whose walks are cut short: the count returned is at most
      the number of distinct clients that ever referred to the name, and a count above k_anon is at most
      the number of those in the window. So a name let pass with more than k_anon clients has them. */
  lemma {:induction false} CountIsReal(calls: seq<Call>, kAnon: int, delta: nat)
    requires calls != [] && InOrder(calls)
    ensures var call, n := calls[|calls| - 1], LastRet(calls, kAnon, delta);
      var h := RefsTo(calls, call.name);
      && n <= |Ever(h)|
      && (n > kAnon ==> n <= |Window(h, call.now - delta)|)
  {
    var g, call := calls[..|calls| - 1], calls[|calls| - 1];
    assert calls == g + [call];
    var v, limit := Met(Run(g, kAnon, delta), call, delta), call.now - delta;
    RunTruthful(g, kAnon, delta);
    MetTruthful(Run(g, kAnon, delta), call, delta, g);
    MetCounts(Run(g, kAnon, delta), call, kAnon, delta);
    ReferTruthful(Named(call.name, v), g, call, kAnon, delta);
    TruthCounts(Referenced(v, call.slot, call.now, kAnon, delta), RefsTo(calls, call.name), limit);
    FreshAfter(v, call.slot, call.now, kAnon, delta);
    PrunedFacts(Touched(v, call.slot, call.now), limit);
  }
}
