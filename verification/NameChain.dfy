/**
 `table_add` (src/proto_mng.c) on values: one bucket of the name table, its chain of names with
 their clients, the walk that looks for a name, with or without cleaning, and what it leaves.
 */
module NameChain {
  import opened Sequences
  import opened AlphaWindow

  datatype Named = Named(name: string, clients: seq<Entry>)

  /** `bitMap[h].number` and the chain that starts at `table[h]`. */
  datatype Bucket = Bucket(number: int, names: seq<Named>)

  /** Where a walk ends: the chain and the count it leaves, the position of curr_name, found. */
  datatype Walk = Walk(names: seq<Named>, at: nat, found: bool, number: int)

  /** One reference to a name by a client. */
  datatype Call = Call(clean: bool, name: string, slot: nat, now: int)

  /** The walk without cleaning. */
  function Plain(c: seq<Named>, number: int, i: nat, name: string): (w: Walk)
    requires i < |c|
    ensures w.at < |w.names|
    decreases |c| - i
  {
    if i >= number then Walk(c, i, false, number)
    else if c[i].name == name then Walk(c, i, true, number)
    else if i + 1 < |c| then Plain(c, number, i + 1, name)
    else Walk(c, i, false, number)
  }

  /** The walk with partial cleaning: names after the first are pruned as they are passed, and
      leave the chain when no client remains; `number` shrinks with them. */
  function Sweep(c: seq<Named>, number: int, p: nat, i: nat, name: string, limit: int): (w: Walk)
    requires p < |c|
    ensures w.at < |w.names|
    decreases |c| - p
  {
    if i >= number then Walk(c, p, false, number)
    else if c[p].name == name then Walk(c, p, true, number)
    else if p + 1 >= |c| then Walk(c, p, false, number)
    else if i == 0 then Sweep(c, number, p + 1, i + 1, name, limit)
    else
      var v := Pruned(c[p].clients, limit);
      if v == [] then Sweep(Cut(c, p), number - 1, p, i + 1, name, limit)
      else Sweep(c[p := Named(c[p].name, v)], number, p + 1, i + 1, name, limit)
  }

  /** What `table_add` leaves and returns: the bucket and the n_entry of the name. */
  datatype Added = Added(bucket: Bucket, ret: nat)

  /** A name with one more reference. */
  function Refer(x: Named, call: Call, kAnon: int, delta: int): Named {
    Named(x.name, Referenced(x.clients, call.slot, call.now, kAnon, delta))
  }

  /** The reference itself: at the name found, or as a new name linked behind curr_name. */
  function Place(w: Walk, call: Call, kAnon: int, delta: int): Added
    requires w.at < |w.names|
  {
    if w.found then
      var x := Refer(w.names[w.at], call, kAnon, delta);
      Added(Bucket(w.number, w.names[w.at := x]), |x.clients|)
    else
      var x := Refer(Named(call.name, []), call, kAnon, delta);
      Added(Bucket(w.number + 1, w.names[..w.at + 1] + [x]), |x.clients|)
  }

  function WalkOf(b: Bucket, call: Call, delta: int): (w: Walk)
    requires b.names != []
    ensures w.at < |w.names|
  {
    if call.clean then Sweep(b.names, b.number, 0, 0, call.name, call.now - delta)
    else Plain(b.names, b.number, 0, call.name)
  }

  /** `table_add`, as a function. */
  function TableAdd(b: Bucket, call: Call, kAnon: int, delta: int): Added {
    if b.names == [] then
      var x := Refer(Named(call.name, []), call, kAnon, delta);
      Added(Bucket(b.number + 1, [x]), |x.clients|)
    else Place(WalkOf(b, call, delta), call, kAnon, delta)
  }

  // ----- What a sweep leaves -----

  /** The survivors among the first i names: the first one untouched, the others pruned. */
  function Kept(c: seq<Named>, i: nat, limit: int): (k: seq<Named>)
    requires i <= |c|
    ensures |k| <= i && (i > 0 ==> k != [])
  {
    if i == 0 then []
    else if i == 1 then [c[0]]
    else
      var v := Pruned(c[i - 1].clients, limit);
      Kept(c, i - 1, limit) + if v == [] then [] else [Named(c[i - 1].name, v)]
  }

  /** How many of the first i names a sweep unlinks. */
  function Gone(c: seq<Named>, i: nat, limit: int): (n: nat)
    requires i <= |c|
  {
    i - |Kept(c, i, limit)|
  }

  /** The first name, from i on, at which a sweep ends. */
  function Stop(c: seq<Named>, number: int, i: nat, name: string, limit: int): (s: nat)
    requires i < |c|
    ensures i <= s < |c|
    decreases |c| - i
  {
    if i + Gone(c, i, limit) >= number || c[i].name == name || i + 1 == |c| then i
    else Stop(c, number, i + 1, name, limit)
  }

  lemma {:induction false} Stops(c: seq<Named>, number: int, i: nat, name: string, limit: int)
    requires i < |c|
    ensures var s := Stop(c, number, i, name, limit);
      s + Gone(c, s, limit) >= number || c[s].name == name || s + 1 == |c|
    decreases |c| - i
  {
    if i + Gone(c, i, limit) < number && c[i].name != name && i + 1 < |c| {
      Stops(c, number, i + 1, name, limit);
    }
  }

  /** The names before that one are all passed. */
  lemma {:induction false} Passed(c: seq<Named>, number: int, i: nat, name: string, limit: int, j: nat)
    requires i <= j < |c| && j < Stop(c, number, i, name, limit)
    ensures j + Gone(c, j, limit) < number && c[j].name != name
    decreases |c| - i
  {
    if i < j {
      Passed(c, number, i + 1, name, limit, j);
    }
  }

  /** The chain a sweep of the first s names leaves. */
  function Swept(c: seq<Named>, s: nat, limit: int): (t: seq<Named>)
    requires s <= |c|
    ensures |t| == |c| - Gone(c, s, limit)
  {
    Kept(c, s, limit) + c[s..]
  }

  function SweptWalk(c: seq<Named>, number: int, s: nat, name: string, limit: int): Walk
    requires s < |c|
  {
    Walk(Swept(c, s, limit), |Kept(c, s, limit)|,
      s + Gone(c, s, limit) < number && c[s].name == name, number - Gone(c, s, limit))
  }

  lemma Middle<T>(a: seq<T>, x: T, b: seq<T>, y: T)
    ensures var t := a + ([x] + b);
      t[|a|] == x && Cut(t, |a|) == a + b && t[|a| := y] == a + [y] + b
  {
    var t := a + ([x] + b);
    assert t[..|a|] == a && t[|a| + 1..] == b;
  }

  /** One step of the sweep, from a name passed to the next. */
  lemma SweptNext(c: seq<Named>, i: nat, limit: int)
    requires 0 < i && i + 1 < |c|
    ensures var t, p, v := Swept(c, i, limit), |Kept(c, i, limit)|, Pruned(c[i].clients, limit);
      && p + 1 < |t| && t[p] == c[i]
      && Swept(c, i + 1, limit) == if v == [] then Cut(t, p) else t[p := Named(c[i].name, v)]
  {
    var k, v := Kept(c, i, limit), Pruned(c[i].clients, limit);
    assert c[i..] == [c[i]] + c[i + 1..];
    Middle(k, c[i], c[i + 1..], Named(c[i].name, v));
    if v == [] {
      assert Kept(c, i + 1, limit) == k;
    } else {
      assert Kept(c, i + 1, limit) == k + [Named(c[i].name, v)];
    }
  }

  /** The sweep with the first i names done. */
  function SweepAt(c: seq<Named>, number: int, i: nat, name: string, limit: int): Walk
    requires i < |c|
  {
    Sweep(Swept(c, i, limit), number - Gone(c, i, limit), |Kept(c, i, limit)|, i, name, limit)
  }

  lemma SweepStep(c: seq<Named>, number: int, i: nat, name: string, limit: int)
    requires 0 < i && i + 1 < |c| && i + Gone(c, i, limit) < number && c[i].name != name
    ensures SweepAt(c, number, i, name, limit) == SweepAt(c, number, i + 1, name, limit)
  {
    SweptNext(c, i, limit);
    var t, p := Swept(c, i, limit), |Kept(c, i, limit)|;
    assert t[p] == c[i] && p + 1 < |t|;
  }

  lemma SweepFirst(c: seq<Named>, number: int, name: string, limit: int)
    requires 1 < |c| && 0 < number && c[0].name != name
    ensures SweepAt(c, number, 0, name, limit) == SweepAt(c, number, 1, name, limit)
  {
    assert Swept(c, 1, limit) == c == Swept(c, 0, limit);
  }

  lemma SweepEnd(c: seq<Named>, number: int, i: nat, name: string, limit: int)
    requires i < |c|
    requires i + Gone(c, i, limit) >= number || c[i].name == name || i + 1 == |c|
    ensures SweepAt(c, number, i, name, limit) == SweptWalk(c, number, i, name, limit)
  {
    var t, p := Swept(c, i, limit), |Kept(c, i, limit)|;
    assert t[p] == c[i];
  }

  lemma SweepNext(c: seq<Named>, number: int, i: nat, name: string, limit: int)
    requires i + 1 < |c| && i + Gone(c, i, limit) < number && c[i].name != name
    ensures SweepAt(c, number, i, name, limit) == SweepAt(c, number, i + 1, name, limit)
  {
    if i == 0 {
      SweepFirst(c, number, name, limit);
    } else {
      SweepStep(c, number, i, name, limit);
    }
  }

  lemma {:induction false} SweepFrom(c: seq<Named>, number: int, i: nat, s: nat, name: string, limit: int)
    requires i < |c| && s == Stop(c, number, i, name, limit)
    ensures SweepAt(c, number, i, name, limit) == SweptWalk(c, number, s, name, limit)
    decreases |c| - i
  {
    if s == i {
      SweepEnd(c, number, i, name, limit);
    } else {
      SweepFrom(c, number, i + 1, s, name, limit);
      SweepNext(c, number, i, name, limit);
    }
  }

  /** The sweep in closed form. */
  lemma SweepIs(c: seq<Named>, number: int, name: string, limit: int)
    requires c != []
    ensures Sweep(c, number, 0, 0, name, limit) == SweptWalk(c, number, Stop(c, number, 0, name, limit), name, limit)
  {
    SweepFrom(c, number, 0, Stop(c, number, 0, name, limit), name, limit);
    assert Swept(c, 0, limit) == c;
  }

  // ----- What `table_add` is for: a map from names to clients -----

  /** The position of the first entry with the name, and the length if there is none. */
  function Find(c: seq<Named>, name: string): (q: nat)
    ensures q <= |c| && (q < |c| ==> c[q].name == name)
  {
    if c == [] then 0 else if c[0].name == name then 0 else 1 + Find(c[1..], name)
  }

  function ClientsOf(c: seq<Named>, name: string): seq<Entry> {
    if Find(c, name) < |c| then c[Find(c, name)].clients else []
  }

  /** The map update: the name's entry gets the reference, or is added once at the end. */
  function Update(c: seq<Named>, call: Call, kAnon: int, delta: int): seq<Named> {
    var q := Find(c, call.name);
    if q < |c| then c[q := Refer(c[q], call, kAnon, delta)] else c + [Refer(Named(call.name, []), call, kAnon, delta)]
  }

  /** The reference updates the map of names to clients that the walk has left, and the count. */
  predicate Right(w: Walk, call: Call, kAnon: int, delta: int)
    requires w.at < |w.names|
  {
    Place(w, call, kAnon, delta).bucket ==
      Bucket(if Find(w.names, call.name) < |w.names| then w.number else w.number + 1,
        Update(w.names, call, kAnon, delta))
  }

  /** The call does what it is for, given what its walk has unlinked. */
  predicate Faithful(b: Bucket, call: Call, kAnon: int, delta: int)
    requires b.names != []
  {
    Right(WalkOf(b, call, delta), call, kAnon, delta)
  }

  lemma {:induction false} FirstFound(c: seq<Named>, name: string, j: nat)
    requires j < Find(c, name)
    ensures j < |c| && c[j].name != name
  {
    if j > 0 {
      FirstFound(c[1..], name, j - 1);
    }
  }

  lemma {:induction false} FindIs(c: seq<Named>, name: string, q: nat)
    requires q <= |c| && (q < |c| ==> c[q].name == name)
    requires forall j :: 0 <= j < q ==> c[j].name != name
    ensures Find(c, name) == q
  {
    if q > 0 {
      forall j | 0 <= j < q - 1 ensures c[1..][j].name != name {
        assert c[1..][j] == c[j + 1];
      }
      FindIs(c[1..], name, q - 1);
    }
  }

  lemma {:induction false} FindAppend(a: seq<Named>, b: seq<Named>, name: string)
    ensures Find(a + b, name) == if Find(a, name) < |a| then Find(a, name) else |a| + Find(b, name)
  {
    if a == [] {
      assert a + b == b;
    } else {
      assert (a + b)[1..] == a[1..] + b;
      FindAppend(a[1..], b, name);
    }
  }

  /** A survivor carries the name of one of the names passed. */
  lemma {:induction false} KeptFind(c: seq<Named>, i: nat, limit: int, name: string)
    requires i <= |c| && forall j :: 0 <= j < i ==> c[j].name != name
    ensures Find(Kept(c, i, limit), name) == |Kept(c, i, limit)|
  {
    if i == 1 {
      FindIs([c[0]], name, 1);
    } else if i > 1 {
      KeptFind(c, i - 1, limit, name);
      var v := Pruned(c[i - 1].clients, limit);
      if v == [] {
        assert Kept(c, i, limit) == Kept(c, i - 1, limit);
      } else {
        var x := Named(c[i - 1].name, v);
        FindIs([x], name, 1);
        FindAppend(Kept(c, i - 1, limit), [x], name);
      }
    }
  }

  lemma {:induction false} GoneGrows(c: seq<Named>, i: nat, j: nat, limit: int)
    requires i <= j <= |c|
    ensures Gone(c, i, limit) <= Gone(c, j, limit)
  {
    if i < j {
      GoneGrows(c, i, j - 1, limit);
    }
  }

  /** A sweep stops at the name exactly when the shrunken bound has not cut the walk short. */
  lemma StopAtName(c: seq<Named>, number: int, name: string, limit: int)
    requires c != [] && Find(c, name) < |c|
    ensures var q, s := Find(c, name), Stop(c, number, 0, name, limit);
      && s <= q
      && (q + Gone(c, q, limit) < number <==> s == q && s + Gone(c, s, limit) < number)
      && (c[s].name == name ==> s == q)
  {
    Stops(c, number, 0, name, limit);
    var q, s := Find(c, name), Stop(c, number, 0, name, limit);
    if q < s {
      Passed(c, number, 0, name, limit, q);
    }
    if s < q {
      FirstFound(c, name, s);
      GoneGrows(c, s, q, limit);
    }
  }

  /** Without the name, a sweep reaches the last one exactly when it passes the one before it. */
  lemma StopAtLast(c: seq<Named>, number: int, name: string, limit: int)
    requires c != [] && Find(c, name) == |c|
    ensures var s, n := Stop(c, number, 0, name, limit), |c|;
      && c[s].name != name
      && (s + 1 == n <==> n == 1 || n - 2 + Gone(c, n - 2, limit) < number)
  {
    Stops(c, number, 0, name, limit);
    var s, n := Stop(c, number, 0, name, limit), |c|;
    FirstFound(c, name, s);
    if s + 1 < n {
      GoneGrows(c, s, n - 2, limit);
    } else if n > 1 {
      Passed(c, number, 0, name, limit, n - 2);
    }
  }

  /** The swept chain has the name at the same place of its unswept part. */
  lemma FindSwept(c: seq<Named>, number: int, name: string, limit: int)
    requires c != []
    ensures var s := Stop(c, number, 0, name, limit);
      && Find(Swept(c, s, limit), name) == |Kept(c, s, limit)| + Find(c[s..], name)
      && (Find(c, name) < |c| <==> Find(c[s..], name) < |c[s..]|)
      && (c[s].name == name ==> Find(c[s..], name) == 0)
  {
    var s := Stop(c, number, 0, name, limit);
    forall j | 0 <= j < s ensures c[j].name != name {
      Passed(c, number, 0, name, limit, j);
    }
    KeptFind(c, s, limit, name);
    FindAppend(Kept(c, s, limit), c[s..], name);
    assert c == c[..s] + c[s..];
    FindIs(c[..s], name, s);
    FindAppend(c[..s], c[s..], name);
  }

  /** The guard a caller can check: the walk is not cut short by the names it unlinks on its way to
      the name, or, for a new name, on its way to the last but one. */
  predicate Reaches(b: Bucket, call: Call, delta: int) {
    var q, n, limit := Find(b.names, call.name), |b.names|, call.now - delta;
    if !call.clean then true
    else if q < n then q + Gone(b.names, q, limit) < b.number
    else n <= 1 || n - 2 + Gone(b.names, n - 2, limit) < b.number
  }

  lemma PresentExact(w: Walk, call: Call, kAnon: int, delta: int)
    requires w.at < |w.names| && Find(w.names, call.name) < |w.names|
    requires w.found ==> Find(w.names, call.name) == w.at
    ensures Place(w, call, kAnon, delta).bucket == Bucket(w.number, Update(w.names, call, kAnon, delta)) <==> w.found
  {
  }

  lemma WalkIs(b: Bucket, call: Call, delta: int) returns (w: Walk)
    requires b.names != [] && call.clean
    ensures w == WalkOf(b, call, delta)
    ensures var limit := call.now - delta;
      w == SweptWalk(b.names, b.number, Stop(b.names, b.number, 0, call.name, limit), call.name, limit)
  {
    w := WalkOf(b, call, delta);
    SweepIs(b.names, b.number, call.name, call.now - delta);
  }

  lemma Placed(c: seq<Named>, number: int, name: string, limit: int, s: nat)
    requires c != [] && s == Stop(c, number, 0, name, limit)
    ensures var w := SweptWalk(c, number, s, name, limit);
      && w.at < |w.names|
      && (Find(w.names, name) < |w.names| <==> Find(c, name) < |c|)
      && (w.found ==> Find(w.names, name) == w.at)
      && (w.at + 1 == |w.names| <==> s + 1 == |c|)
  {
    FindSwept(c, number, name, limit);
  }

  lemma WalkPresent(b: Bucket, call: Call, kAnon: int, delta: int, w: Walk, s: nat)
    requires b.names != [] && call.clean && s == Stop(b.names, b.number, 0, call.name, call.now - delta)
    requires w == SweptWalk(b.names, b.number, s, call.name, call.now - delta)
    requires Find(b.names, call.name) < |b.names|
    ensures w.at < |w.names| && (Right(w, call, kAnon, delta) <==> w.found)
  {
    Placed(b.names, b.number, call.name, call.now - delta, s);
    PresentExact(w, call, kAnon, delta);
  }

  lemma WalkAbsent(b: Bucket, call: Call, kAnon: int, delta: int, w: Walk, s: nat)
    requires b.names != [] && call.clean && s == Stop(b.names, b.number, 0, call.name, call.now - delta)
    requires w == SweptWalk(b.names, b.number, s, call.name, call.now - delta)
    requires Find(b.names, call.name) == |b.names|
    ensures w.at < |w.names| && (Right(w, call, kAnon, delta) <==> s + 1 == |b.names|)
  {
    Placed(b.names, b.number, call.name, call.now - delta, s);
    assert b.names[s].name != call.name by {
      FirstFound(b.names, call.name, s);
    }
    AppendExact(w, call, kAnon, delta);
  }

  lemma ReachesIs(b: Bucket, call: Call, delta: int, s: nat)
    requires b.names != [] && call.clean && s == Stop(b.names, b.number, 0, call.name, call.now - delta)
    ensures Reaches(b, call, delta) <==>
      if Find(b.names, call.name) < |b.names| then SweptWalk(b.names, b.number, s, call.name, call.now - delta).found
      else s + 1 == |b.names|
  {
    if Find(b.names, call.name) < |b.names| {
      StopAtName(b.names, b.number, call.name, call.now - delta);
    } else {
      StopAtLast(b.names, b.number, call.name, call.now - delta);
    }
  }

  /** A call with cleaning does what it is for exactly when its walk is not cut short. */
  lemma SweepExact(b: Bucket, call: Call, kAnon: int, delta: int)
    requires b.names != [] && call.clean
    ensures Faithful(b, call, kAnon, delta) <==> Reaches(b, call, delta)
  {
    var w := WalkIs(b, call, delta);
    var s := Stop(b.names, b.number, 0, call.name, call.now - delta);
    ReachesIs(b, call, delta, s);
    if Find(b.names, call.name) < |b.names| {
      WalkPresent(b, call, kAnon, delta, w, s);
    } else {
      WalkAbsent(b, call, kAnon, delta, w, s);
    }
  }

  lemma AppendExact(w: Walk, call: Call, kAnon: int, delta: int)
    requires w.at < |w.names| && !w.found && Find(w.names, call.name) == |w.names|
    ensures Place(w, call, kAnon, delta).bucket.names == Update(w.names, call, kAnon, delta) <==> w.at + 1 == |w.names|
  {
    var names := Place(w, call, kAnon, delta).bucket.names;
    assert |names| == w.at + 2;
    if w.at + 1 == |w.names| {
      assert w.names[..w.at + 1] == w.names;
    }
  }

  // ----- The walk without cleaning -----

  lemma {:induction false} PlainFrom(c: seq<Named>, number: int, i: nat, name: string)
    requires i <= Find(c, name) && i < |c| && number >= |c|
    ensures var q := Find(c, name);
      Plain(c, number, i, name) == if q < |c| then Walk(c, q, true, number) else Walk(c, |c| - 1, false, number)
    decreases |c| - i
  {
    if i < Find(c, name) {
      FirstFound(c, name, i);
      if i + 1 < |c| {
        PlainFrom(c, number, i + 1, name);
      }
    }
  }

  /** The invariant of a bucket: `number` never falls below the length of the chain. */
  ghost predicate Wf(b: Bucket) {
    b.number >= |b.names| && (b.names == [] ==> b.number == 0)
  }

  /** A call does what it is for exactly when its walk is not cut short; without cleaning it never is. */
  lemma CallExact(b: Bucket, call: Call, kAnon: int, delta: int)
    requires b.names != [] && Wf(b)
    ensures Faithful(b, call, kAnon, delta) <==> Reaches(b, call, delta)
  {
    if call.clean {
      SweepExact(b, call, kAnon, delta);
    } else {
      PlainFrom(b.names, b.number, 0, call.name);
      if Find(b.names, call.name) < |b.names| {
        PresentExact(WalkOf(b, call, delta), call, kAnon, delta);
      } else {
        AppendExact(WalkOf(b, call, delta), call, kAnon, delta);
      }
    }
  }

  // ----- Counts -----

  lemma {:induction false} PrunedEmpty(v: seq<Entry>, limit: int)
    ensures Pruned(v, limit) == [] <==> AllOld(v, limit)
  {
    PrunedFacts(v, limit);
    if Pruned(v, limit) != [] {
      assert Pruned(v, limit)[|Pruned(v, limit)| - 1] in v;
    }
  }

  ghost predicate AllOld(v: seq<Entry>, limit: int) {
    forall e :: e in v ==> e.seen < limit
  }

  /** The positions of the names a sweep of the first i unlinks: not the first, and every client
      last seen before the limit. */
  ghost function Expired(c: seq<Named>, i: nat, limit: int): set<nat>
    requires i <= |c|
  {
    set j | 1 <= j < i && AllOld(c[j].clients, limit)
  }

  lemma ExpiredNext(c: seq<Named>, i: nat, limit: int)
    requires 1 <= i < |c|
    ensures |Expired(c, i + 1, limit)| == |Expired(c, i, limit)| + if AllOld(c[i].clients, limit) then 1 else 0
  {
    assert Expired(c, i + 1, limit) == Expired(c, i, limit) + if AllOld(c[i].clients, limit) then {i} else {};
  }

  lemma {:induction false} GoneCounts(c: seq<Named>, i: nat, limit: int)
    requires i <= |c|
    ensures Gone(c, i, limit) == |Expired(c, i, limit)|
  {
    if i <= 1 {
      assert Expired(c, i, limit) == {};
    } else {
      GoneCounts(c, i - 1, limit);
      PrunedEmpty(c[i - 1].clients, limit);
      ExpiredNext(c, i - 1, limit);
    }
  }

  /** The survivors keep their order: each stands as many places earlier as names before it left. */
  lemma {:induction false} SurvivorAt(c: seq<Named>, i: nat, limit: int, j: nat)
    requires j < i <= |c| && (j == 0 || Pruned(c[j].clients, limit) != [])
    ensures j - Gone(c, j, limit) < |Kept(c, i, limit)|
    ensures Kept(c, i, limit)[j - Gone(c, j, limit)] ==
      if j == 0 then c[0] else Named(c[j].name, Pruned(c[j].clients, limit))
  {
    if j + 1 < i {
      SurvivorAt(c, i - 1, limit, j);
    }
  }

  /** When no name between the first and the last has expired, a call does what it is for. */
  lemma NothingExpired(b: Bucket, call: Call, kAnon: int, delta: int)
    requires b.names != [] && Wf(b) && Expired(b.names, |b.names| - 1, call.now - delta) == {}
    ensures Faithful(b, call, kAnon, delta)
  {
    var c, limit := b.names, call.now - delta;
    GoneCounts(c, |c| - 1, limit);
    if Find(c, call.name) < |c| {
      GoneGrows(c, Find(c, call.name), |c| - 1, limit);
    } else if |c| > 1 {
      GoneGrows(c, |c| - 2, |c| - 1, limit);
    }
    CallExact(b, call, kAnon, delta);
  }

  lemma {:induction false} SweepCount(c: seq<Named>, number: int, p: nat, i: nat, name: string, limit: int)
    requires p < |c|
    ensures var w := Sweep(c, number, p, i, name, limit); w.number - |w.names| == number - |c|
    decreases |c| - p
  {
    if i < number && c[p].name != name && p + 1 < |c| {
      var v := Pruned(c[p].clients, limit);
      if i == 0 {
        SweepCount(c, number, p + 1, i + 1, name, limit);
      } else if v == [] {
        SweepCount(Cut(c, p), number - 1, p, i + 1, name, limit);
      } else {
        SweepCount(c[p := Named(c[p].name, v)], number, p + 1, i + 1, name, limit);
      }
    }
  }

  lemma {:induction false} PlainCount(c: seq<Named>, number: int, i: nat, name: string)
    requires i < |c|
    ensures var w := Plain(c, number, i, name); w.names == c && w.number == number
    decreases |c| - i
  {
    if i < number && c[i].name != name && i + 1 < |c| {
      PlainCount(c, number, i + 1, name);
    }
  }

  /** The walk changes `number` and the chain by the same amount. */
  lemma WalkCount(b: Bucket, call: Call, delta: int)
    requires b.names != []
    ensures var w := WalkOf(b, call, delta); w.number - |w.names| == b.number - |b.names|
  {
    if call.clean {
      SweepCount(b.names, b.number, 0, 0, call.name, call.now - delta);
    } else {
      PlainCount(b.names, b.number, 0, call.name);
    }
  }

  /** Every call keeps `number` at least the length of the chain; they stay equal exactly when no
      name is cut off behind the place where the new one is linked. */
  lemma StepWf(b: Bucket, call: Call, kAnon: int, delta: int)
    requires Wf(b)
    ensures var b' := TableAdd(b, call, kAnon, delta).bucket;
      && Wf(b') && b'.names != []
      && (b.names != [] && b.number == |b.names| ==>
            var w := WalkOf(b, call, delta);
            (b'.number == |b'.names| <==> w.found || w.at + 1 == |w.names|))
  {
    if b.names != [] {
      WalkCount(b, call, delta);
    }
  }
}
