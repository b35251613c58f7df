/**
 The clients seen with a name (src/lru.c) as a value: a list of client slots with the time each
 was last seen, most recent first, and what it says about the window of the last delta seconds.
 */
module AlphaWindow {

  datatype Entry = Entry(slot: nat, seen: int)

  /** The entries of the other slots. */
  function Others(v: seq<Entry>, slot: nat): seq<Entry> {
    if v == [] then [] else if v[0].slot == slot then Others(v[1..], slot) else [v[0]] + Others(v[1..], slot)
  }

  /** `prune`: entries leave from the end as long as they are older than the limit. */
  function Pruned(v: seq<Entry>, limit: int): seq<Entry> {
    if v == [] || v[|v| - 1].seen >= limit then v else Pruned(v[..|v| - 1], limit)
  }

  /** The slot moves to the front, or enters there. */
  function Touched(v: seq<Entry>, slot: nat, now: int): seq<Entry> {
    [Entry(slot, now)] + Others(v, slot)
  }

  /** `referencePage`, as a function. */
  function Referenced(v: seq<Entry>, slot: nat, now: int, kAnon: int, delta: int): seq<Entry> {
    var w := Touched(v, slot, now);
    if |w| > kAnon then Pruned(w, now - delta) else w
  }

  // ----- Histories -----

  /** What happens to a name: a client refers to it, or a sweep prunes it. */
  datatype Event = Ref(slot: nat, now: int) | Prune(now: int)

  function Step(v: seq<Entry>, e: Event, kAnon: int, delta: int): seq<Entry> {
    match e
    case Ref(slot, now) => Referenced(v, slot, now, kAnon, delta)
    case Prune(now) => Pruned(v, now - delta)
  }

  /** The list after a history. */
  function After(h: seq<Event>, kAnon: int, delta: int): seq<Entry> {
    if h == [] then [] else Step(After(h[..|h| - 1], kAnon, delta), h[|h| - 1], kAnon, delta)
  }

  ghost predicate Monotone(h: seq<Event>) {
    forall i, j :: 0 <= i <= j < |h| ==> h[i].now <= h[j].now
  }

  /** The distinct client slots that referred to the name at or after the limit. */
  ghost function Window(h: seq<Event>, limit: int): set<nat> {
    set i | 0 <= i < |h| && h[i].Ref? && h[i].now >= limit :: h[i].slot
  }

  // ----- What every list satisfies -----

  ghost predicate DistinctSlots(v: seq<Entry>) {
    forall i, j :: 0 <= i < j < |v| ==> v[i].slot != v[j].slot
  }

  /** Times do not increase from the front to the end. */
  ghost predicate Ordered(v: seq<Entry>) {
    forall i, j :: 0 <= i < j < |v| ==> v[i].seen >= v[j].seen
  }

  /** Every entry comes from a reference in the history. */
  ghost predicate Sound(v: seq<Entry>, h: seq<Event>) {
    forall e :: e in v ==> Ref(e.slot, e.seen) in h
  }

  ghost predicate Refers(h: seq<Event>, r: Event) {
    r in h && r.Ref?
  }

  /** The slot of a reference is listed, at least as recently. */
  ghost predicate Listed(v: seq<Entry>, r: Event)
    requires r.Ref?
  {
    exists e :: e in v && e.slot == r.slot && e.seen >= r.now
  }

  /** Every slot that referred to the name since the limit is listed. */
  ghost predicate Complete(v: seq<Entry>, h: seq<Event>, limit: int) {
    forall r {:trigger Refers(h, r)} :: Refers(h, r) && r.now >= limit ==> Listed(v, r)
  }

  lemma {:induction false} OthersElems(v: seq<Entry>, slot: nat)
    ensures forall e :: e in Others(v, slot) <==> e in v && e.slot != slot
  {
    if v != [] {
      OthersElems(v[1..], slot);
      assert v == [v[0]] + v[1..];
    }
  }

  lemma {:induction false} OthersDistinct(v: seq<Entry>, slot: nat)
    requires DistinctSlots(v)
    ensures DistinctSlots(Others(v, slot))
  {
    if v != [] {
      OthersDistinct(v[1..], slot);
      OthersElems(v[1..], slot);
      FrontSlot(v[0], Others(v[1..], slot));
    }
  }

  lemma {:induction false} OthersOrdered(v: seq<Entry>, slot: nat)
    requires Ordered(v)
    ensures Ordered(Others(v, slot))
  {
    if v != [] {
      OthersOrdered(v[1..], slot);
      OthersElems(v[1..], slot);
      OrderedCons(v[0], Others(v[1..], slot));
    }
  }

  lemma FrontSlot(e: Entry, w: seq<Entry>)
    requires DistinctSlots(w)
    ensures (forall d :: d in w ==> d.slot != e.slot) ==> DistinctSlots([e] + w)
  {
  }

  lemma OrderedCons(e: Entry, w: seq<Entry>)
    requires Ordered(w)
    ensures (forall d :: d in w ==> d.seen <= e.seen) ==> Ordered([e] + w)
  {
  }

  /** A slot with one entry: the others are the rest. */
  lemma {:induction false} OthersAt(v: seq<Entry>, p: nat)
    requires DistinctSlots(v) && p < |v|
    ensures Others(v, v[p].slot) == v[..p] + v[p + 1..]
  {
    if p == 0 {
      OthersAbsent(v[1..], v[0].slot);
    } else {
      OthersAt(v[1..], p - 1);
      assert v[1..][..p - 1] == v[1..p];
      assert v[1..][p..] == v[p + 1..];
      assert v[..p] == [v[0]] + v[1..p];
    }
  }

  lemma {:induction false} OthersAbsent(v: seq<Entry>, slot: nat)
    requires forall e :: e in v ==> e.slot != slot
    ensures Others(v, slot) == v
  {
    if v != [] {
      assert v[0] in v;
      OthersAbsent(v[1..], slot);
    }
  }

  /** Pruning keeps a prefix: everything at or after the limit, and nothing older at its end. */
  lemma {:induction false} PrunedFacts(v: seq<Entry>, limit: int)
    ensures |Pruned(v, limit)| <= |v| && Pruned(v, limit) == v[..|Pruned(v, limit)|]
    ensures forall e :: e in v && e.seen >= limit ==> e in Pruned(v, limit)
    ensures Pruned(v, limit) != [] ==> Pruned(v, limit)[|Pruned(v, limit)| - 1].seen >= limit
  {
    if v != [] && v[|v| - 1].seen < limit {
      PrunedFacts(v[..|v| - 1], limit);
      assert v == v[..|v| - 1] + [v[|v| - 1]];
    }
  }

  lemma PrunedKeepsFirst(v: seq<Entry>, limit: int)
    requires v != [] && v[0].seen >= limit
    ensures Pruned(v, limit) != [] && Pruned(v, limit)[0] == v[0]
  {
    PrunedFacts(v, limit);
    assert v[0] in v;
  }

  ghost predicate Describes(v: seq<Entry>, h: seq<Event>, limit: int) {
    DistinctSlots(v) && Ordered(v) && Sound(v, h) && Complete(v, h, limit)
  }

  // Trigger of `Follows`, so that it unfolds only where a proof asks.
  ghost predicate Open(v: seq<Entry>) { true }

  /** The invariant of a list under the events of a history. */
  ghost predicate Follows(v: seq<Entry>, h: seq<Event>, limit: int) {
    forall w {:trigger Open(w)} :: Open(w) && w == v ==> Describes(w, h, limit)
  }

  lemma PruneFollows(v: seq<Entry>, h: seq<Event>, limit: int)
    requires Follows(v, h, limit)
    ensures Follows(Pruned(v, limit), h, limit)
  {
    assert Open(v);
    PrunedFacts(v, limit);
    PrunedLists(v, h, limit);
    PrefixKeeps(v, h, |Pruned(v, limit)|);
  }

  lemma PrunedLists(v: seq<Entry>, h: seq<Event>, limit: int)
    requires Complete(v, h, limit)
    ensures Complete(Pruned(v, limit), h, limit)
  {
    PrunedFacts(v, limit);
    var w := Pruned(v, limit);
    forall r | Refers(h, r) && r.now >= limit ensures Listed(w, r) {
      var e :| e in v && e.slot == r.slot && e.seen >= r.now;
      assert e in w;
    }
  }

  lemma PrefixKeeps(v: seq<Entry>, h: seq<Event>, n: nat)
    requires n <= |v| && DistinctSlots(v) && Ordered(v) && Sound(v, h)
    ensures DistinctSlots(v[..n]) && Ordered(v[..n]) && Sound(v[..n], h)
  {
    forall e | e in v[..n] ensures e in v {
    }
  }

  ghost predicate NotLater(h: seq<Event>, now: int) {
    forall r {:trigger Refers(h, r)} :: Refers(h, r) ==> r.now <= now
  }

  lemma TouchFollows(v: seq<Entry>, h: seq<Event>, limit: int, slot: nat, now: int)
    requires Follows(v, h, limit) && NotLater(h, now)
    ensures Follows(Touched(v, slot, now), h + [Ref(slot, now)], limit)
  {
    assert Open(v);
    var h', w := h + [Ref(slot, now)], Touched(v, slot, now);
    OthersElems(v, slot);
    OthersDistinct(v, slot);
    OthersOrdered(v, slot);
    assert forall e :: e in v ==> Refers(h, Ref(e.slot, e.seen));
    FrontSlot(Entry(slot, now), Others(v, slot));
    OrderedCons(Entry(slot, now), Others(v, slot));
    forall r | Refers(h', r) && r.now >= limit ensures Listed(w, r) {
      assert r == Ref(slot, now) || Refers(h, r);
      if r.slot == slot {
        assert w[0] in w;
      } else {
        assert Refers(h, r);
        var e :| e in v && e.slot == r.slot && e.seen >= r.now;
        assert e in Others(v, slot);
      }
    }
  }

  /** Nothing in the history is later than its next event. */
  lemma NotAfter(h: seq<Event>, e: Event)
    requires Monotone(h + [e])
    ensures Monotone(h) && (forall r :: r in h ==> r.now <= e.now) && NotLater(h, e.now)
  {
    var h' := h + [e];
    forall i, j | 0 <= i <= j < |h| ensures h[i].now <= h[j].now {
      assert h'[i] == h[i] && h'[j] == h[j];
    }
    forall i | 0 <= i < |h| ensures h[i].now <= e.now {
      assert h'[i] == h[i] && h'[|h|] == e;
    }
  }

  function Now(h: seq<Event>): int
    requires h != []
  {
    h[|h| - 1].now
  }

  lemma LaterLimit(v: seq<Entry>, h: seq<Event>, limit: int, later: int)
    requires Follows(v, h, limit) && limit <= later
    ensures Follows(v, h, later)
  {
    assert Open(v);
  }

  lemma NothingFollows(limit: int)
    ensures Follows([], [], limit)
  {
  }

  lemma RefFollows(v: seq<Entry>, h: seq<Event>, slot: nat, now: int, kAnon: int, delta: nat)
    requires Follows(v, h, now - delta) && NotLater(h, now)
    ensures Follows(Referenced(v, slot, now, kAnon, delta), h + [Ref(slot, now)], now - delta)
  {
    TouchFollows(v, h, now - delta, slot, now);
    if |Touched(v, slot, now)| > kAnon {
      PruneFollows(Touched(v, slot, now), h + [Ref(slot, now)], now - delta);
    }
  }

  lemma StepFollows(v: seq<Entry>, h: seq<Event>, e: Event, kAnon: int, delta: nat)
    requires Follows(v, h, e.now - delta) && NotLater(h, e.now)
    ensures Follows(Step(v, e, kAnon, delta), h + [e], e.now - delta)
  {
    if e.Ref? {
      RefFollows(v, h, e.slot, e.now, kAnon, delta);
      assert e == Ref(e.slot, e.now);
    } else {
      PruneFollows(v, h, e.now - delta);
      PruneIsNoRef(Pruned(v, e.now - delta), h, e.now - delta, e.now);
      assert e == Prune(e.now);
    }
  }

  lemma PruneIsNoRef(v: seq<Entry>, h: seq<Event>, limit: int, now: int)
    requires Follows(v, h, limit)
    ensures Follows(v, h + [Prune(now)], limit)
  {
    assert Open(v);
    forall r | Refers(h + [Prune(now)], r) && r.now >= limit ensures Listed(v, r) {
      assert Refers(h, r);
    }
  }

  /** Every list reached by a history in time order is well formed, and complete for its window. */
  lemma {:induction false} AfterFollows(h: seq<Event>, kAnon: int, delta: nat)
    requires Monotone(h) && h != []
    ensures Follows(After(h, kAnon, delta), h, Now(h) - delta)
  {
    var g, e := h[..|h| - 1], h[|h| - 1];
    assert h == g + [e];
    NotAfter(g, e);
    if g == [] {
      NothingFollows(e.now - delta);
    } else {
      AfterFollows(g, kAnon, delta);
      assert g[|g| - 1] in g;
      LaterLimit(After(g, kAnon, delta), g, Now(g) - delta, e.now - delta);
    }
    StepFollows(After(g, kAnon, delta), g, e, kAnon, delta);
  }

  // ----- Counting the window -----

  ghost function Slots(v: seq<Entry>): set<nat> {
    set e | e in v :: e.slot
  }

  lemma {:induction false} SlotCount(v: seq<Entry>)
    requires DistinctSlots(v)
    ensures |Slots(v)| == |v|
  {
    if v != [] {
      var w, e := v[..|v| - 1], v[|v| - 1];
      SlotCount(w);
      assert v == w + [e];
      forall d | d in w ensures d.slot != e.slot {
        var i :| 0 <= i < |w| && w[i] == d;
        assert v[i] == d && v[|w|] == e;
      }
      assert Slots(v) == Slots(w) + {e.slot};
    }
  }

  lemma WindowWithin(v: seq<Entry>, h: seq<Event>, limit: int)
    requires Describes(v, h, limit)
    ensures Window(h, limit) <= Slots(v)
  {
    forall s | s in Window(h, limit) ensures s in Slots(v) {
      var i :| 0 <= i < |h| && h[i].Ref? && h[i].now >= limit && h[i].slot == s;
      assert Refers(h, h[i]);
      var e :| e in v && e.slot == h[i].slot && e.seen >= h[i].now;
    }
  }

  /** No entry is older than the limit. */
  ghost predicate AllFresh(v: seq<Entry>, limit: int) {
    v == [] || v[|v| - 1].seen >= limit
  }

  lemma WindowIsAll(v: seq<Entry>, h: seq<Event>, limit: int)
    requires Describes(v, h, limit) && AllFresh(v, limit)
    ensures Slots(v) <= Window(h, limit)
  {
    forall s | s in Slots(v) ensures s in Window(h, limit) {
      var e :| e in v && e.slot == s;
      var i :| 0 <= i < |v| && v[i] == e;
      assert e.seen >= limit;
      var j :| 0 <= j < |h| && h[j] == Ref(e.slot, e.seen);
    }
  }

  lemma LastIsOld(v: seq<Entry>, h: seq<Event>, limit: int)
    requires Describes(v, h, limit) && !AllFresh(v, limit)
    ensures v[|v| - 1].slot !in Window(h, limit)
  {
    var last := v[|v| - 1];
    forall i | 0 <= i < |h| && h[i].Ref? && h[i].now >= limit ensures h[i].slot != last.slot {
      assert Refers(h, h[i]);
      var e :| e in v && e.slot == h[i].slot && e.seen >= h[i].now;
      var j :| 0 <= j < |v| && v[j] == e;
    }
  }

  lemma SubsetCount(a: set<nat>, b: set<nat>)
    requires a <= b
    ensures |a| <= |b| && (|a| == |b| ==> a == b)
  {
    assert b == a + (b - a);
  }

  lemma CountFollows(v: seq<Entry>, h: seq<Event>, limit: int)
    requires Follows(v, h, limit)
    ensures |Window(h, limit)| <= |v|
    ensures |Window(h, limit)| == |v| <==> AllFresh(v, limit)
  {
    assert Open(v);
    WindowWithin(v, h, limit);
    SlotCount(v);
    SubsetCount(Window(h, limit), Slots(v));
    if AllFresh(v, limit) {
      WindowIsAll(v, h, limit);
      assert Window(h, limit) == Slots(v);
    } else {
      LastIsOld(v, h, limit);
      assert v[|v| - 1] in v;
      assert v[|v| - 1].slot in Slots(v);
      assert Window(h, limit) != Slots(v);
    }
  }

  /** n_entry counts at least the distinct clients of the window, and exactly them if and only if
      no entry has outlived the window. */
  lemma CountsWindow(h: seq<Event>, kAnon: int, delta: nat)
    requires Monotone(h) && h != []
    ensures var v, limit := After(h, kAnon, delta), Now(h) - delta;
      && |Window(h, limit)| <= |v|
      && (|Window(h, limit)| == |v| <==> AllFresh(v, limit))
  {
    AfterFollows(h, kAnon, delta);
    CountFollows(After(h, kAnon, delta), h, Now(h) - delta);
  }

  /** A prune, and a reference that leaves more than k_anon entries, make the count exact. */
  lemma PrunedIsExact(h: seq<Event>, kAnon: int, delta: nat)
    requires Monotone(h) && h != []
    requires h[|h| - 1].Prune? || |Touched(After(h[..|h| - 1], kAnon, delta), h[|h| - 1].slot, Now(h))| > kAnon
    ensures |After(h, kAnon, delta)| == |Window(h, Now(h) - delta)|
  {
    var v, e := After(h[..|h| - 1], kAnon, delta), h[|h| - 1];
    var w := if e.Prune? then v else Touched(v, e.slot, e.now);
    PrunedFacts(w, e.now - delta);
    assert After(h, kAnon, delta) == Step(v, e, kAnon, delta) == Pruned(w, e.now - delta);
    CountsWindow(h, kAnon, delta);
  }

  /** A reference leaves only fresh entries exactly when it prunes, or there is nothing to prune. */
  lemma FreshAfter(v: seq<Entry>, slot: nat, now: int, kAnon: int, delta: nat)
    ensures var w := Touched(v, slot, now);
      AllFresh(Referenced(v, slot, now, kAnon, delta), now - delta) <==> |w| > kAnon || AllFresh(w, now - delta)
  {
    PrunedFacts(Touched(v, slot, now), now - delta);
  }

  /** What matters to the verdict of a reference: whether the list stands at k_anon with an outdated entry. */
  predicate Misjudged(before: seq<Entry>, slot: nat, now: int, kAnon: int, delta: int) {
    var w := Touched(before, slot, now);
    |w| == kAnon && w[|w| - 1].seen < now - delta
  }

  lemma Verdict(before: seq<Entry>, slot: nat, now: int, kAnon: int, delta: nat, n: nat)
    requires var v := Referenced(before, slot, now, kAnon, delta);
      n <= |v| && (n == |v| <==> AllFresh(v, now - delta))
    ensures var count := |Referenced(before, slot, now, kAnon, delta)|;
      && (count < kAnon ==> n < kAnon)
      && ((count < kAnon <==> n < kAnon) <==> !Misjudged(before, slot, now, kAnon, delta))
  {
    FreshAfter(before, slot, now, kAnon, delta);
    var w := Touched(before, slot, now);
    PrunedFacts(w, now - delta);
    if |w| > kAnon {
      assert w[0] in Pruned(w, now - delta);
    }
  }

  /** The verdict of a reference (fewer than k_anon entries: anonymise) is the verdict of the window
      exactly when the client, moved or entered at the front of the list, does not make it k_anon
      entries with an outdated one at the end. */
  lemma VerdictExact(h: seq<Event>, kAnon: int, delta: nat)
    requires Monotone(h) && h != [] && h[|h| - 1].Ref?
    ensures var before, e := After(h[..|h| - 1], kAnon, delta), h[|h| - 1];
      var count, window := |After(h, kAnon, delta)|, Window(h, Now(h) - delta);
      && (count < kAnon ==> |window| < kAnon)
      && ((count < kAnon <==> |window| < kAnon) <==> !Misjudged(before, e.slot, e.now, kAnon, delta))
  {
    var e := h[|h| - 1];
    CountsWindow(h, kAnon, delta);
    Verdict(After(h[..|h| - 1], kAnon, delta), e.slot, e.now, kAnon, delta, |Window(h, Now(h) - delta)|);
  }

  // ----- What every list says truly, complete or not -----

  /** The entries are of distinct clients and come from references, whatever else the history holds. */
  ghost predicate Truthful(v: seq<Entry>, h: seq<Event>) {
    forall w {:trigger Open(w)} :: Open(w) && w == v ==> DistinctSlots(w) && Ordered(w) && Sound(w, h)
  }

  lemma TruthMore(v: seq<Entry>, h: seq<Event>, e: Event)
    requires Truthful(v, h)
    ensures Truthful(v, h + [e])
  {
    assert Open(v);
  }

  lemma TruthPruned(v: seq<Entry>, h: seq<Event>, limit: int)
    requires Truthful(v, h)
    ensures Truthful(Pruned(v, limit), h)
  {
    assert Open(v);
    PrunedFacts(v, limit);
    PrefixKeeps(v, h, |Pruned(v, limit)|);
  }

  lemma TruthTouched(v: seq<Entry>, h: seq<Event>, slot: nat, now: int)
    requires Truthful(v, h) && NotLater(h, now)
    ensures Truthful(Touched(v, slot, now), h + [Ref(slot, now)])
  {
    assert Open(v);
    OthersElems(v, slot);
    OthersDistinct(v, slot);
    OthersOrdered(v, slot);
    assert forall e :: e in v ==> Refers(h, Ref(e.slot, e.seen));
    FrontSlot(Entry(slot, now), Others(v, slot));
    OrderedCons(Entry(slot, now), Others(v, slot));
  }

  lemma TruthReferenced(v: seq<Entry>, h: seq<Event>, slot: nat, now: int, kAnon: int, delta: int)
    requires Truthful(v, h) && NotLater(h, now)
    ensures Truthful(Referenced(v, slot, now, kAnon, delta), h + [Ref(slot, now)])
  {
    TruthTouched(v, h, slot, now);
    TruthPruned(Touched(v, slot, now), h + [Ref(slot, now)], now - delta);
  }

  /** The distinct client slots that ever referred to the name. */
  ghost function Ever(h: seq<Event>): set<nat> {
    set i | 0 <= i < |h| && h[i].Ref? :: h[i].slot
  }

  /** A truthful list counts no client that never referred, and after a reference that leaves more than
      k_anon entries none outside the window. */
  lemma TruthCounts(v: seq<Entry>, h: seq<Event>, limit: int)
    requires Truthful(v, h)
    ensures |v| <= |Ever(h)|
    ensures AllFresh(v, limit) ==> |v| <= |Window(h, limit)|
  {
    assert Open(v);
    SlotCount(v);
    forall s | s in Slots(v) ensures s in Ever(h) && (AllFresh(v, limit) ==> s in Window(h, limit)) {
      var e :| e in v && e.slot == s;
      var i :| 0 <= i < |v| && v[i] == e;
      var j :| 0 <= j < |h| && h[j] == Ref(e.slot, e.seen);
    }
    SubsetCount(Slots(v), Ever(h));
    if AllFresh(v, limit) {
      SubsetCount(Slots(v), Window(h, limit));
    }
  }

  /** Three clients suffice for k_anon = 3 although the first was last seen long before the window. */
  lemma StaleClientCounts()
    ensures var h := [Ref(1, 0), Ref(2, 1000), Ref(3, 1001)];
      Monotone(h) && |After(h, 3, 60)| == 3 && |Window(h, Now(h) - 60)| < 3
  {
    var h := [Ref(1, 0), Ref(2, 1000), Ref(3, 1001)];
    assert h[..2] == [Ref(1, 0), Ref(2, 1000)] && h[..2][..1] == [Ref(1, 0)] && [Ref(1, 0)][..0] == [];
    var v0: seq<Entry> := After([], 3, 60);
    var v1 := After([Ref(1, 0)], 3, 60);
    assert v1 == [Entry(1, 0)];
    var v2 := After(h[..2], 3, 60);
    OthersAbsent(v1, 2);
    assert v2 == [Entry(2, 1000), Entry(1, 0)];
    OthersAbsent(v2, 3);
    assert After(h, 3, 60) == [Entry(3, 1001), Entry(2, 1000), Entry(1, 0)];
    CountsWindow(h, 3, 60);
  }
}
