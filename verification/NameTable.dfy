/**
 The name table in memory (`table_add`, src/proto_mng.c): one bucket, a doubly linked chain of
 names whose first element is part of the table, each name with its list of clients.
 */
module NameTable {
  import opened Sequences
  import opened AlphaWindow
  import opened NameChain
  import L = ClientLru
  import R = NameRuns

  /** `struct names`. */
  class Name {
    var name: string
    var prev: Name?
    var next: Name?
    const clients: L.Clients

    constructor (name: string)
      ensures this.name == name && prev == null && next == null
      ensures clients.Holds([]) && fresh(clients) && fresh(clients.repr)
      ensures this !in clients.repr && clients !in clients.repr
    {
      this.name, prev, next := name, null, null;
      clients := new L.Clients();
    }
  }

  ghost function At(s: seq<Name>, i: int): Name? {
    if 0 <= i < |s| then s[i] else null
  }

  ghost predicate Links(s: seq<Name>)
    reads s`prev, s`next
  {
    forall i {:trigger s[i].prev} {:trigger s[i].next} :: 0 <= i < |s| ==>
      && s[i].prev == At(s, i - 1)
      && s[i].next == At(s, i + 1)
  }

  // Triggers of `Owned`, so that it unfolds only where a proof asks.
  ghost predicate Ix(i: int) { true }

  /** A name is what the value says; its client list lives in cells. */
  ghost predicate NameAt(s: seq<Name>, vals: seq<Named>, cells: set<object>, i: int)
    requires 0 <= i < |s| == |vals|
    reads s`name, cells
  {
    && s[i].name == vals[i].name
    && s[i].clients in cells && s[i].clients.repr <= cells
    && s[i].clients.Holds(vals[i].clients)
  }

  /** The client lists of two names share nothing. */
  ghost predicate ApartAt(s: seq<Name>, cells: set<object>, i: int, j: int)
    requires 0 <= i < |s| && 0 <= j < |s|
    reads cells
  {
    && s[i].clients in cells && s[j].clients in cells
    && s[i].clients != s[j].clients
    && s[i].clients !in s[j].clients.repr && s[j].clients !in s[i].clients.repr
    && s[i].clients.repr !! s[j].clients.repr
  }

  ghost predicate OwnedBody(s: seq<Name>, vals: seq<Named>, cells: set<object>)
    reads s`name, cells
  {
    && |vals| == |s|
    && (forall i {:trigger Ix(i)} :: Ix(i) && 0 <= i < |s| ==> NameAt(s, vals, cells, i))
    && (forall i, j {:trigger Ix(i), Ix(j)} ::
          Ix(i) && Ix(j) && 0 <= i < |s| && 0 <= j < |s| && i != j ==> ApartAt(s, cells, i, j))
  }

  ghost predicate Ask(vals: seq<Named>) { true }

  /** The names are what the values say, and share no client list. */
  ghost predicate Owned(s: seq<Name>, vals: seq<Named>, cells: set<object>)
    reads s`name, cells
  {
    && |vals| == |s| && (forall i {:trigger s[i]} :: 0 <= i < |s| ==> s[i] !in cells)
    && forall v {:trigger Ask(v)} :: Ask(v) && v == vals ==> OwnedBody(s, v, cells)
  }

  /** `prune` on one of the names. */
  method PruneAt(x: Name, ghost s: seq<Name>, ghost vals: seq<Named>, ghost cells: set<object>, ghost p: nat,
                 now: int, delta: int)
    requires Owned(s, vals, cells) && p < |s| && x == s[p] && vals[p].clients != []
    modifies cells
    ensures Owned(s, vals[p := Named(vals[p].name, Pruned(vals[p].clients, now - delta))], cells)
    ensures s[p].clients.nEntry == |Pruned(vals[p].clients, now - delta)|
  {
    assert Ask(vals) && Ix(p);
    ghost var vals' := vals[p := Named(vals[p].name, Pruned(vals[p].clients, now - delta))];
    x.clients.Prune(now, delta, vals[p].clients);
    assert s[p].clients.Holds(vals'[p].clients);
    forall i | 0 <= i < |s| ensures NameAt(s, vals', cells, i) && s[i].clients.repr == old(s[i].clients.repr) {
      assert Ix(i);
      assert old(NameAt(s, vals, cells, i));
      if i != p {
        assert old(ApartAt(s, cells, i, p));
        assert vals'[i] == vals[i];
        assert s[i].clients.Holds(vals[i].clients);
      }
    }
    forall i, j | 0 <= i < |s| && 0 <= j < |s| && i != j ensures ApartAt(s, cells, i, j) {
      assert Ix(i) && Ix(j);
      assert old(ApartAt(s, cells, i, j));
    }
  }

  /** `referencePage` on one of the names; its list may grow by new cells. */
  method ReferenceAt(x: Name, ghost s: seq<Name>, ghost vals: seq<Named>, ghost cells: set<object>, ghost p: nat,
                     call: Call, kAnon: int, delta: nat)
    returns (ghost cells': set<object>)
    requires Owned(s, vals, cells) && p < |s| && x == s[p] && call.slot < L.MAX_CLIENT
    modifies cells
    ensures Owned(s, vals[p := Refer(vals[p], call, kAnon, delta)], cells')
    ensures s[p].clients.nEntry == |Refer(vals[p], call, kAnon, delta).clients|
    ensures cells <= cells' && fresh(cells' - cells)
  {
    assert Ask(vals) && Ix(p);
    ghost var vals' := vals[p := Refer(vals[p], call, kAnon, delta)];
    x.clients.ReferencePage(call.now, call.slot, kAnon, delta, vals[p].clients);
    cells' := cells + s[p].clients.repr;
    forall i | 0 <= i < |s|
      ensures NameAt(s, vals', cells', i) && (i != p ==> s[i].clients.repr == old(s[i].clients.repr))
    {
      assert Ix(i);
      assert old(NameAt(s, vals, cells, i));
      if i != p {
        assert old(ApartAt(s, cells, i, p));
        assert vals'[i] == vals[i];
        assert s[i].clients.Holds(vals[i].clients);
      }
    }
    forall i, j | 0 <= i < |s| && 0 <= j < |s| && i != j ensures ApartAt(s, cells', i, j) {
      assert Ix(i) && Ix(j);
      assert old(ApartAt(s, cells, i, j));
    }
  }

  // ----- The chain -----

  /** The links lead past the name at p. */
  ghost predicate Bridged(s: seq<Name>, p: nat)
    reads s`prev, s`next
  {
    forall i {:trigger s[i].prev} {:trigger s[i].next} :: 0 <= i < |s| && i != p ==>
      && s[i].prev == At(s, if i == p + 1 then p - 1 else i - 1)
      && s[i].next == At(s, if i == p - 1 then p + 1 else i + 1)
  }

  lemma CloseUp(s: seq<Name>, p: nat)
    requires p < |s| && Bridged(s, p)
    ensures Links(Cut(s, p))
  {
    var t := Cut(s, p);
    forall i | 0 <= i < |t| ensures t[i].prev == At(t, i - 1) && t[i].next == At(t, i + 1) {
      var j := if i < p then i else i + 1;
      assert t[i] == s[j];
      assert At(t, i - 1) == At(s, if j == p + 1 then p - 1 else j - 1);
      assert At(t, i + 1) == At(s, if j == p - 1 then p + 1 else j + 1);
    }
  }

  /** The links up to the name at p, and then to x. */
  ghost predicate Ends(s: seq<Name>, p: nat, x: Name)
    requires p < |s|
    reads s`prev, s`next, x
  {
    && (forall i {:trigger s[i].prev} {:trigger s[i].next} :: 0 <= i <= p ==>
          && s[i].prev == At(s, i - 1)
          && s[i].next == if i == p then x else At(s, i + 1))
    && x.prev == s[p] && x.next == null
  }

  lemma LinksSnoc(s: seq<Name>, p: nat, x: Name)
    requires p < |s| && Distinct(s) && x !in s && Ends(s, p, x)
    ensures Links(s[..p + 1] + [x]) && Distinct(s[..p + 1] + [x])
  {
    var t := s[..p + 1] + [x];
    forall i | 0 <= i < |t| ensures t[i].prev == At(t, i - 1) && t[i].next == At(t, i + 1) {
      if i <= p {
        assert t[i] == s[i] && At(t, i - 1) == At(s, i - 1);
      }
    }
  }

  lemma OwnedCut(s: seq<Name>, vals: seq<Named>, cells: set<object>, p: nat)
    requires Owned(s, vals, cells) && p < |s|
    ensures Owned(Cut(s, p), Cut(vals, p), cells)
  {
    var t, w := Cut(s, p), Cut(vals, p);
    assert Ask(vals);
    forall i | 0 <= i < |t| ensures NameAt(t, w, cells, i) {
      CutAt(s, p, i);
      CutAt(vals, p, i);
      assert Ix(if i < p then i else i + 1);
    }
    forall i, j | 0 <= i < |t| && 0 <= j < |t| && i != j ensures ApartAt(t, cells, i, j) {
      CutAt(s, p, i);
      CutAt(s, p, j);
      assert Ix(if i < p then i else i + 1) && Ix(if j < p then j else j + 1);
    }
  }

  lemma OwnedSnoc(s: seq<Name>, vals: seq<Named>, cells: set<object>, n: nat, x: Name, cells': set<object>)
    requires Owned(s, vals, cells) && n <= |s| && x.clients.Holds([])
    requires cells' == cells + {x.clients} + x.clients.repr && x !in cells'
    requires x.clients !in cells && x.clients.repr !! cells && x.clients !in x.clients.repr
    requires forall i :: 0 <= i < |s| ==> s[i] !in cells'
    ensures Owned(s[..n] + [x], vals[..n] + [Named(x.name, [])], cells')
  {
    var t, w := s[..n] + [x], vals[..n] + [Named(x.name, [])];
    assert Ask(vals);
    forall i | 0 <= i < |t| ensures NameAt(t, w, cells', i) {
      assert Ix(i);
      if i < n {
        assert t[i] == s[i] && w[i] == vals[i];
        assert NameAt(s, vals, cells, i);
      }
    }
    forall i, j | 0 <= i < |t| && 0 <= j < |t| && i != j ensures ApartAt(t, cells', i, j) {
      assert Ix(i) && Ix(j);
      if i < n {
        assert t[i] == s[i] && NameAt(s, vals, cells, i);
      }
      if j < n {
        assert t[j] == s[j] && NameAt(s, vals, cells, j);
      }
    }
  }

  /** The links of the neighbours of tmp lead past it. */
  method Bypass(tmp: Name, ghost s: seq<Name>, ghost p: nat) returns (curr: Name)
    requires Distinct(s) && Links(s) && 0 < p < |s| - 1 && tmp == s[p]
    modifies s`prev, s`next
    ensures Bridged(s, p) && curr == s[p + 1]
  {
    curr := tmp.next;
    if tmp.prev.prev != null {
      curr.prev.prev.next := curr;
      curr.prev := curr.prev.prev;
    } else {
      tmp.prev.next := curr;
      curr.prev := tmp.prev;
    }
  }

  /** A new name behind curr; what was behind it is cut off. */
  method LinkNew(curr: Name, ghost s: seq<Name>, ghost p: nat, name: string) returns (newName: Name)
    requires Distinct(s) && Links(s) && p < |s| && curr == s[p]
    modifies curr`next
    ensures Links(s[..p + 1] + [newName]) && Distinct(s[..p + 1] + [newName])
    ensures fresh(newName) && fresh(newName.clients) && fresh(newName.clients.repr) && newName.name == name
    ensures newName.clients.Holds([]) && newName !in newName.clients.repr && newName.clients !in newName.clients.repr
  {
    newName := new Name(name);
    curr.next := newName;
    newName.prev := curr;
    LinksSnoc(s, p, newName);
  }

  // Trigger of `Leads`, so that it unfolds only where a proof asks.
  ghost predicate Look(c: seq<Named>) { true }

  /** From here the walk with cleaning ends as w. */
  ghost predicate Leads(w: Walk, c: seq<Named>, number: int, p: nat, i: nat, name: string, limit: int) {
    p < |c| && forall d {:trigger Look(d)} :: Look(d) && d == c ==> w == Sweep(d, number, p, i, name, limit)
  }

  lemma LeadsEnd(w: Walk, c: seq<Named>, number: int, p: nat, i: nat, name: string, limit: int)
    requires Leads(w, c, number, p, i, name, limit)
    ensures i >= number ==> w == Walk(c, p, false, number)
    ensures i < number && c[p].name == name ==> w == Walk(c, p, true, number)
    ensures i < number && c[p].name != name && p + 1 >= |c| ==> w == Walk(c, p, false, number)
    ensures 0 == i < number && c[p].name != name && p + 1 < |c| ==> Leads(w, c, number, p + 1, 1, name, limit)
  {
    assert Look(c);
  }

  /** The walk passes a name that is not the first, and not the last. */
  lemma PassStep(w: Walk, c: seq<Named>, number: int, p: nat, i: nat, name: string, limit: int)
    requires Leads(w, c, number, p, i, name, limit) && 0 < p < |c| - 1 && 0 < i < number && c[p].name != name
    ensures var v := Pruned(c[p].clients, limit);
      var d := c[p := Named(c[p].name, v)];
      if v == [] then Leads(w, Cut(d, p), number - 1, p, i + 1, name, limit)
      else Leads(w, d, number, p + 1, i + 1, name, limit)
  {
    assert Look(c);
    assert Cut(c[p := Named(c[p].name, Pruned(c[p].clients, limit))], p) == Cut(c, p);
  }

  /** One entry of the table, with its count in the bitmap. */
  class Slot {
    const first: Name
    var number: int
    ghost var chain: seq<Name>
    ghost var vals: seq<Named>
    ghost var cells: set<object>

    ghost predicate Linked()
      reads this`chain, chain`prev, chain`next
    {
      Distinct(chain) && Links(chain) && chain != [] && chain[0] == first
    }

    ghost predicate Valid()
      reads this, chain`prev, chain`next, chain`name, cells
    {
      && Linked() && Owned(chain, vals, cells) && this !in cells
      && (number == 0 ==> vals == [Named("", [])])
      && (number != 0 ==> number >= |chain|)
    }

    /** The bucket as a value; the element in the table is no name while the count is 0. */
    ghost function Abs(): NameChain.Bucket
      reads this
    {
      NameChain.Bucket(number, if number == 0 then [] else vals)
    }

    /** Zero-initialised. */
    constructor ()
      ensures Valid() && Abs() == NameChain.Bucket(0, [])
      ensures fresh(first) && chain == [first] && fresh(cells)
    {
      first := new Name("");
      number := 0;
      new;
      chain, vals, cells := [first], [Named("", [])], {first.clients} + first.clients.repr;
      assert NameAt(chain, vals, cells, 0);
    }

    /** The walk without cleaning. */
    method Search(name: string) returns (curr: Name, found: bool, ghost p: nat)
      requires Valid()
      ensures p < |chain| && curr == chain[p]
      ensures Plain(vals, number, 0, name) == Walk(vals, p, found, number)
    {
      curr, found, p := first, false, 0;
      var i := 0;
      while i < number
        invariant 0 <= i == p < |chain| && curr == chain[p] && !found
        invariant Plain(vals, number, 0, name) == Plain(vals, number, i, name)
        decreases |chain| - i
      {
        assert Ask(vals) && Ix(p);
        if curr.name == name {
          found := true;
          break;
        } else if curr.next != null {
          curr := curr.next;
          p := p + 1;
        } else {
          break;
        }
        i := i + 1;
      }
    }

    /** `prune` on the name at p. */
    method PruneName(curr: Name, ghost p: nat, now: int, delta: int)
      requires Valid() && p < |chain| && curr == chain[p] && number != 0 && vals[p].clients != []
      modifies this`vals, cells
      ensures Valid() && vals == old(vals)[p := Named(old(vals)[p].name, Pruned(old(vals)[p].clients, now - delta))]
      ensures curr.clients.nEntry == |vals[p].clients|
    {
      PruneAt(curr, chain, vals, cells, p, now, delta);
      vals := vals[p := Named(vals[p].name, Pruned(vals[p].clients, now - delta))];
    }

    method PruneIfAny(curr: Name, ghost p: nat, now: int, delta: int)
      requires Valid() && p < |chain| && curr == chain[p] && number != 0
      modifies this`vals, cells
      ensures Valid() && vals == old(vals)[p := Named(old(vals)[p].name, Pruned(old(vals)[p].clients, now - delta))]
      ensures curr.clients.nEntry == |vals[p].clients|
    {
      assert Ask(vals) && Ix(p);
      curr.clients.CountIs(vals[p].clients);
      if curr.clients.nEntry > 0 {
        PruneName(curr, p, now, delta);
      }
    }

    /** A name inside the chain is unlinked. */
    method UnlinkName(tmp: Name, ghost p: nat) returns (curr: Name)
      requires Valid() && 0 < p < |chain| - 1 && tmp == chain[p] && number != 0
      modifies this`chain, this`vals, this`number, chain`prev, chain`next
      ensures Valid() && chain == Cut(old(chain), p) && vals == Cut(old(vals), p) && number == old(number) - 1 != 0
      ensures p < |chain| && curr == chain[p] && forall j :: 0 <= j < |chain| ==> chain[j] in old(chain)
    {
      curr := Bypass(tmp, chain, p);
      assert Owned(chain, vals, cells);
      OwnedCut(chain, vals, cells, p);
      CloseUp(chain, p);
      CutDistinct(chain, p);
      CutAt(chain, p, 0);
      CutAt(chain, p, p);
      ghost var s, v := Cut(chain, p), Cut(vals, p);
      chain := s;
      vals := v;
      number := number - 1;
      assert Linked() && Owned(s, v, cells);
    }

    /** The walk with partial cleaning passes a name inside the chain. */
    method Pass(at: Name, ghost w: Walk, ghost p: nat, ghost i: nat, ghost name: string, now: int, delta: int)
      returns (curr: Name, ghost q: nat)
      requires Valid() && number > i > 0 && 0 < p < |chain| - 1 && at == chain[p] && vals[p].name != name
      requires Leads(w, vals, number, p, i, name, now - delta)
      modifies this`chain, this`vals, this`number, chain`prev, chain`next, cells
      ensures Valid() && number != 0 && 0 < q < |chain| && curr == chain[q] && cells == old(cells)
      ensures |chain| - q < |old(chain)| - p && forall j :: 0 <= j < |chain| ==> chain[j] in old(chain)
      ensures Leads(w, vals, number, q, i + 1, name, now - delta)
    {
      PassStep(w, vals, number, p, i, name, now - delta);
      PruneIfAny(at, p, now, delta);
      q := p;
      if at.clients.nEntry <= 0 {
        curr := UnlinkName(at, p);
      } else {
        curr := at.next;
        q := p + 1;
      }
    }

    /** One turn of the walk, past a name that is not the one looked for and not the last. */
    method Advance(at: Name, ghost w: Walk, ghost p: nat, i: nat, ghost name: string, now: int, delta: int)
      returns (curr: Name, ghost q: nat)
      requires Valid() && number > i && p < |chain| - 1 && at == chain[p] && vals[p].name != name && (i > 0 ==> p > 0)
      requires Leads(w, vals, number, p, i, name, now - delta)
      modifies this`chain, this`vals, this`number, chain`prev, chain`next, cells
      ensures Valid() && number != 0 && 0 < q < |chain| && curr == chain[q] && cells == old(cells)
      ensures |chain| - q < |old(chain)| - p && forall j :: 0 <= j < |chain| ==> chain[j] in old(chain)
      ensures Leads(w, vals, number, q, i + 1, name, now - delta)
    {
      if i != 0 {
        curr, q := Pass(at, w, p, i, name, now, delta);
      } else {
        LeadsEnd(w, vals, number, p, i, name, now - delta);
        curr, q := at.next, p + 1;
      }
    }

    /** The walk with partial cleaning, which ends as the function w says. */
    method SearchAndClean(name: string, now: int, delta: int, ghost w: Walk)
      returns (curr: Name, found: bool, ghost p: nat)
      requires Valid() && number != 0 && Leads(w, vals, number, 0, 0, name, now - delta)
      modifies this`chain, this`vals, this`number, chain`prev, chain`next, cells
      ensures Valid() && number != 0 && p < |chain| && curr == chain[p] && cells == old(cells)
      ensures w == Walk(vals, p, found, number)
      ensures forall i :: 0 <= i < |chain| ==> chain[i] in old(chain)
    {
      curr, found, p := first, false, 0;
      var i := 0;
      while i < number
        invariant Valid() && number != 0 && p < |chain| && curr == chain[p] && !found && cells == old(cells)
        invariant 0 <= i && (i > 0 ==> p > 0) && forall j :: 0 <= j < |chain| ==> chain[j] in old(chain)
        invariant Leads(w, vals, number, p, i, name, now - delta)
        decreases |chain| - p
      {
        assert Ask(vals) && Ix(p);
        LeadsEnd(w, vals, number, p, i, name, now - delta);
        if curr.name == name {
          found := true;
          return;
        } else if curr.next != null {
          curr, p := Advance(curr, w, p, i, name, now, delta);
        } else {
          return;
        }
        i := i + 1;
      }
      LeadsEnd(w, vals, number, p, i, name, now - delta);
    }

    /** A new name, linked behind curr. */
    method Append(curr: Name, ghost p: nat, name: string) returns (newName: Name)
      requires Valid() && number != 0 && p < |chain| && curr == chain[p]
      modifies this`chain, this`vals, this`cells, curr`next
      ensures Linked() && Owned(chain, vals, cells) && this !in cells
      ensures fresh(newName) && chain == old(chain)[..p + 1] + [newName]
        && vals == old(vals)[..p + 1] + [Named(name, [])]
      ensures old(cells) <= cells && fresh(cells - old(cells))
    {
      newName := LinkNew(curr, chain, p, name);
      ghost var s, v, c := chain, vals, cells;
      chain := s[..p + 1] + [newName];
      vals := v[..p + 1] + [Named(name, [])];
      cells := c + {newName.clients} + newName.clients.repr;
      OwnedSnoc(s, v, c, p + 1, newName, cells);
    }

    /** `referencePage` on the name at p. */
    method ReferenceName(curr: Name, ghost p: nat, call: Call, kAnon: int, delta: nat) returns (ret: nat)
      requires Linked() && Owned(chain, vals, cells) && this !in cells
      requires p < |chain| && curr == chain[p] && call.slot < L.MAX_CLIENT
      modifies this`vals, this`cells, cells
      ensures Linked() && Owned(chain, vals, cells) && this !in cells
      ensures vals == old(vals)[p := Refer(old(vals)[p], call, kAnon, delta)] && ret == |vals[p].clients|
      ensures old(cells) <= cells && fresh(cells - old(cells))
    {
      cells := ReferenceAt(curr, chain, vals, cells, p, call, kAnon, delta);
      vals := vals[p := Refer(vals[p], call, kAnon, delta)];
      ret := curr.clients.nEntry;
    }

    /** The branch of `table_add` for an empty bucket: its first element takes the name. */
    method ReferenceFirst(call: Call, kAnon: int, delta: nat) returns (ret: nat)
      requires Valid() && number == 0 && call.slot < L.MAX_CLIENT
      modifies this`vals, this`cells, this`number, first, cells
      ensures Valid() && number == 1 && vals == [Refer(Named(call.name, []), call, kAnon, delta)]
        && ret == |vals[0].clients|
      ensures fresh(cells - old(cells))
    {
      assert Ask(vals) && Ix(0) && NameAt(chain, vals, cells, 0);
      first.name := call.name;
      first.prev := null;
      first.next := null;
      vals := [Named(call.name, [])];
      ret := ReferenceName(first, 0, call, kAnon, delta);
      number := number + 1;
    }

    /** The end of `table_add`: the reference at the name found, or at a new one behind curr. */
    method PlaceCall(curr: Name, found: bool, ghost p: nat, call: Call, kAnon: int, delta: nat) returns (ret: nat)
      requires Valid() && number != 0 && p < |chain| && curr == chain[p] && call.slot < L.MAX_CLIENT
      modifies this`chain, this`vals, this`cells, this`number, curr, cells
      ensures Valid() && number != 0
      ensures Added(NameChain.Bucket(number, vals), ret) ==
        Place(Walk(old(vals), p, found, old(number)), call, kAnon, delta)
      ensures fresh(cells - old(cells)) && forall i :: 0 <= i < |chain| ==> chain[i] in old(chain) || fresh(chain[i])
    {
      if found {
        ret := ReferenceName(curr, p, call, kAnon, delta);
      } else {
        var newName := Append(curr, p, call.name);
        ret := ReferenceName(newName, p + 1, call, kAnon, delta);
        number := number + 1;
      }
    }

    /** `table_add`; the random number decides whether the walk cleans. */
    method TableAdd(probability: int, name: string, slot: nat, now: int, kAnon: int, delta: nat) returns (ret: nat)
      requires Valid() && slot < L.MAX_CLIENT
      modifies this`chain, this`vals, this`cells, this`number, first, chain, cells
      ensures Valid()
      ensures Added(Abs(), ret) ==
        NameChain.TableAdd(old(Abs()), Call(probability >= 33, name, slot, now), kAnon, delta)
      ensures fresh(cells - old(cells)) && forall i :: 0 <= i < |chain| ==> chain[i] in old(chain) || fresh(chain[i])
    {
      var call := Call(probability >= 33, name, slot, now);
      if number == 0 {
        ret := ReferenceFirst(call, kAnon, delta);
        return;
      }
      var curr, found;
      ghost var p;
      if probability < 33 {
        curr, found, p := Search(name);
        PlainCount(vals, number, 0, name);
      } else {
        curr, found, p := SearchAndClean(name, now, delta, WalkOf(Abs(), call, delta));
      }
      assert WalkOf(old(Abs()), call, delta) == Walk(vals, p, found, number);
      ret := PlaceCall(curr, found, p, call, kAnon, delta);
    }

    /** Everything a call may change. */
    ghost function Footprint(): set<object>
      reads this
    {
      {this, first} + cells + Elems(chain)
    }

    /** One more call of a run. */
    method Next(ghost before: seq<Call>, ghost rets: seq<nat>, call: Call, kAnon: int, delta: nat) returns (ret: nat)
      requires Valid() && R.Told(before, kAnon, delta, Abs(), rets) && call.slot < L.MAX_CLIENT
      modifies Footprint()
      ensures Valid() && R.Told(before + [call], kAnon, delta, Abs(), rets + [ret])
      ensures fresh(Footprint() - old(Footprint()))
    {
      R.ToldNext(before, kAnon, delta, Abs(), rets, call);
      ret := TableAdd(if call.clean then 33 else 0, call.name, call.slot, call.now, kAnon, delta);
    }
  }

  /** A bucket from its initialisation on, and the counts returned. */
  method Session(calls: seq<Call>, kAnon: int, delta: nat) returns (rets: seq<nat>)
    requires forall i :: 0 <= i < |calls| ==> calls[i].slot < L.MAX_CLIENT
    ensures rets == R.Returned(calls, kAnon, delta)
  {
    var slot := new Slot();
    rets := [];
    R.ToldNothing(kAnon, delta);
    for n := 0 to |calls|
      invariant slot.Valid() && R.Told(calls[..n], kAnon, delta, slot.Abs(), rets) && fresh(slot.Footprint())
    {
      TakeNext(calls, n);
      var ret := slot.Next(calls[..n], rets, calls[n], kAnon, delta);
      rets := rets + [ret];
    }
    TakeAll(calls);
    R.ToldIs(calls, kAnon, delta, slot.Abs(), rets);
  }
}
