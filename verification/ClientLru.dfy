/**
 The least recently used list of the clients of a name (src/lru.c): a doubly linked list of
 client slots, reached from its two ends and from a table with one place for every slot.
 */
module ClientLru {
  import opened Sequences
  import opened AlphaWindow

  const MAX_CLIENT: nat := 900

  class Node {
    const clientHash: nat
    var timestamp: int
    var prev: Node?
    var next: Node?

    constructor (clientHash: nat, timestamp: int)
      ensures this.clientHash == clientHash && this.timestamp == timestamp && prev == null && next == null
    {
      this.clientHash, this.timestamp := clientHash, timestamp;
      prev, next := null, null;
    }
  }

  datatype Client = Client(active: bool, lastSeen: int, lruPtr: Node?)

  /** The node at an index, and null outside the list. */
  ghost function At(s: seq<Node>, i: int): Node? {
    if 0 <= i < |s| then s[i] else null
  }

  /** next and prev mirror each other along the list. */
  ghost predicate Links(s: seq<Node>)
    reads s`prev, s`next
  {
    forall i {:trigger s[i].prev} {:trigger s[i].next} :: 0 <= i < |s| ==>
      && s[i].prev == At(s, i - 1)
      && s[i].next == At(s, i + 1)
  }

  /** The links lead past the node at p. */
  ghost predicate Bridged(s: seq<Node>, p: nat)
    reads s`prev, s`next
  {
    forall i {:trigger s[i].prev} {:trigger s[i].next} :: 0 <= i < |s| && i != p ==>
      && s[i].prev == At(s, if i == p + 1 then p - 1 else i - 1)
      && s[i].next == At(s, if i == p - 1 then p + 1 else i + 1)
  }

  lemma CloseUp(s: seq<Node>, p: nat)
    requires p < |s| && Bridged(s, p)
    ensures Links(Cut(s, p))
  {
    var t := Cut(s, p);
    forall i | 0 <= i < |t| ensures t[i].prev == At(t, i - 1) && t[i].next == At(t, i + 1) {
      var j := if i < p then i else i + 1;
      assert t[i] == s[j];
      assert At(t, i - 1) == At(s, if j == p + 1 then p - 1 else j - 1);
      assert At(t, i + 1) == At(s, if j == p - 1 then p + 1 else j + 1);
    }
  }

  /** A node is the one its slot points to. */
  ghost predicate InSlot(table: seq<Client>, x: Node) {
    x.clientHash < |table| && table[x.clientHash].active && table[x.clientHash].lruPtr == x
  }

  /** An active slot points to a listed node with its index. */
  ghost predicate SlotListed(table: seq<Client>, s: seq<Node>, h: nat)
    requires h < |table|
  {
    if table[h].active then table[h].lruPtr in s && table[h].lruPtr.clientHash == h
    else table[h].lruPtr == null
  }

  /** The active slots are those of the listed nodes. */
  ghost predicate SlotsOf(table: seq<Client>, s: seq<Node>) {
    && |table| == MAX_CLIENT
    && (forall x {:trigger InSlot(table, x)} :: x in s ==> InSlot(table, x))
    && (forall h {:trigger SlotListed(table, s, h)} :: 0 <= h < MAX_CLIENT ==> SlotListed(table, s, h))
  }

  /** The entries are what the nodes say. */
  ghost predicate Shows(s: seq<Node>, v: seq<Entry>)
    reads s`timestamp
  {
    |v| == |s| && forall i {:trigger v[i]} {:trigger s[i].timestamp} :: 0 <= i < |s| ==>
      v[i] == Entry(s[i].clientHash, s[i].timestamp)
  }

  /** A new node enters at the front. */
  lemma SlotsEnter(table: seq<Client>, s: seq<Node>, x: Node, c: Client)
    requires SlotsOf(table, s) && x.clientHash < MAX_CLIENT && !table[x.clientHash].active
    requires c.active && c.lruPtr == x
    ensures SlotsOf(table[x.clientHash := c], [x] + s)
    ensures forall y :: y in s ==> y.clientHash != x.clientHash
  {
    var t, s' := table[x.clientHash := c], [x] + s;
    forall y | y in s ensures y.clientHash != x.clientHash && InSlot(t, y) {
      assert InSlot(table, y);
    }
    assert InSlot(t, x);
    forall h | 0 <= h < MAX_CLIENT ensures SlotListed(t, s', h) {
      assert SlotListed(table, s, h);
      assert x in s';
    }
  }

  /** The last node leaves. */
  lemma SlotsLeave(table: seq<Client>, s: seq<Node>)
    requires SlotsOf(table, s) && s != [] && Distinct(s)
    ensures var x := s[|s| - 1];
      x.clientHash < |table|
        && SlotsOf(table[x.clientHash := table[x.clientHash].(active := false, lruPtr := null)], s[..|s| - 1])
  {
    var n := |s| - 1;
    var x, s' := s[n], s[..n];
    assert InSlot(table, x);
    var t := table[x.clientHash := table[x.clientHash].(active := false, lruPtr := null)];
    assert s == s' + [x];
    forall y | y in s' ensures InSlot(t, y) {
      var i :| 0 <= i < n && s[i] == y;
      assert InSlot(table, y);
    }
    forall h | 0 <= h < MAX_CLIENT ensures SlotListed(t, s', h) {
      assert SlotListed(table, s, h);
    }
  }

  /** The same nodes in another order. */
  lemma SlotsReorder(table: seq<Client>, s: seq<Node>, s': seq<Node>)
    requires SlotsOf(table, s) && Elems(s) == Elems(s')
    ensures SlotsOf(table, s')
  {
    forall x | x in s' ensures InSlot(table, x) {
      assert x in Elems(s');
    }
    forall h | 0 <= h < MAX_CLIENT ensures SlotListed(table, s', h) {
      assert SlotListed(table, s, h);
      assert table[h].active ==> table[h].lruPtr in Elems(s);
    }
  }

  /** The listed slots are distinct. */
  lemma ViewDistinct(table: seq<Client>, s: seq<Node>, v: seq<Entry>)
    requires SlotsOf(table, s) && Distinct(s) && Shows(s, v)
    ensures DistinctSlots(v)
  {
    forall i, j | 0 <= i < j < |v| ensures v[i].slot != v[j].slot {
      assert InSlot(table, s[i]) && InSlot(table, s[j]);
    }
  }

  /** A sequence with the element at p moved to the front. */
  function ToFront<T>(s: seq<T>, p: nat): (t: seq<T>)
    requires p < |s|
    ensures |t| == |s| && t[0] == s[p]
    ensures forall i :: 1 <= i < |s| ==> t[i] == if i <= p then s[i - 1] else s[i]
  {
    [s[p]] + Cut(s, p)
  }

  lemma ToFrontElems<T>(s: seq<T>, p: nat)
    requires p < |s|
    ensures Elems(ToFront(s, p)) == Elems(s)
  {
    var t := ToFront(s, p);
    forall i | 0 <= i < |s| ensures s[i] in t {
      assert t[if i == p then 0 else if i < p then i + 1 else i] == s[i];
    }
    forall i | 0 <= i < |t| ensures t[i] in s {
    }
  }

  lemma ToFrontShows(s: seq<Node>, v: seq<Entry>, p: nat)
    requires p < |s| && Shows(s, v)
    ensures Shows(ToFront(s, p), ToFront(v, p))
  {
  }

  /** Moving the node of a slot to the front leaves the entries of the other slots in order. */
  lemma Moved(table: seq<Client>, s: seq<Node>, v: seq<Entry>, x: Node) returns (p: nat)
    requires SlotsOf(table, s) && Distinct(s) && Shows(s, v) && x in s && x != s[0]
    ensures 0 < p < |s| && s[p] == x
    ensures Shows(ToFront(s, p), ToFront(v, p)) && SlotsOf(table, ToFront(s, p)) && Elems(ToFront(s, p)) == Elems(s)
    ensures ToFront(v, p) == [v[p]] + Others(v, x.clientHash)
  {
    p :| 0 <= p < |s| && s[p] == x;
    assert v[p].slot == x.clientHash;
    ViewDistinct(table, s, v);
    OthersAt(v, p);
    ToFrontShows(s, v, p);
    ToFrontElems(s, p);
    SlotsReorder(table, s, ToFront(s, p));
  }

  lemma Unmoved(table: seq<Client>, s: seq<Node>, v: seq<Entry>)
    requires SlotsOf(table, s) && Distinct(s) && Shows(s, v) && s != []
    ensures v[1..] == Others(v, s[0].clientHash)
  {
    ViewDistinct(table, s, v);
    OthersAt(v, 0);
    assert v[0].slot == s[0].clientHash;
  }

  /** An inactive slot is not listed. */
  lemma NotListed(table: seq<Client>, s: seq<Node>, v: seq<Entry>, h: nat)
    requires SlotsOf(table, s) && Shows(s, v) && h < |table| && !table[h].active
    ensures Others(v, h) == v
  {
    forall i | 0 <= i < |v| ensures v[i].slot != h {
      assert InSlot(table, s[i]);
    }
    OthersAbsent(v, h);
  }

  // Trigger of `Holds`, so that it unfolds only where a proof asks.
  ghost predicate Ask(v: seq<Entry>) { true }

  /** The client part of `struct names`. */
  class Clients {
    var head: Node?
    var tail: Node?
    var nEntry: int
    var nClient: int
    var oldest: int
    const clientList: array<Client>
    ghost var list: seq<Node>
    ghost var view: seq<Entry>
    ghost var repr: set<object>

    ghost predicate ListValid()
      reads this`head, this`tail, this`list, list`prev, list`next
    {
      Distinct(list) && Links(list) && head == At(list, 0) && tail == At(list, |list| - 1)
    }

    ghost predicate Valid()
      reads this`head, this`tail, this`list, this`view, this`nEntry, list`prev, list`next, list`timestamp, clientList
    {
      ListValid() && Shows(list, view) && SlotsOf(clientList[..], list) && nEntry == |list|
    }

    /** Zero-initialised. */
    constructor ()
      ensures Holds([]) && fresh(repr) && this !in repr
    {
      head, tail, nEntry, nClient, oldest, list, view := null, null, 0, 0, 0, [], [];
      repr := {};
      clientList := new Client[MAX_CLIENT](_ => Client(false, 0, null));
      new;
      forall h | 0 <= h < MAX_CLIENT ensures SlotListed(clientList[..], list, h) {
      }
      Close();
    }

    /** The list part of `Enqueue`. */
    method LinkFirst(tmp: Node)
      requires ListValid() && tmp !in list && tmp.prev == null && tmp.next == null && nEntry == |list|
      modifies this`head, this`tail, this`list, list`prev, tmp`next
      ensures ListValid() && list == [tmp] + old(list)
    {
      if nEntry == 0 {
        tail, head := tmp, tmp;
      } else {
        tmp.next := head;
        head.prev := tmp;
        head := tmp;
      }
      list := [tmp] + list;
    }

    method Enqueue(now: int, hashVal: nat)
      requires Valid() && hashVal < MAX_CLIENT && !clientList[hashVal].active
      modifies this`head, this`tail, this`nEntry, this`nClient, this`list, this`view, list`prev, clientList
      ensures Valid() && view == Touched(old(view), hashVal, now)
      ensures list != [] && fresh(list[0]) && list == [list[0]] + old(list)
      ensures clientList[hashVal].lastSeen == now && nClient == old(nClient) + 1
    {
      NotListed(clientList[..], list, view, hashVal);
      var tmp := new Node(hashVal, now);
      SlotsEnter(clientList[..], list, tmp, Client(true, now, tmp));
      LinkFirst(tmp);
      clientList[hashVal] := Client(true, now, tmp);
      nEntry := nEntry + 1;
      nClient := nClient + 1;
      view := [Entry(hashVal, now)] + view;
    }

    /** The part of `referencePage` that takes a node out of the list. */
    method Detach(x: Node, ghost p: nat)
      requires ListValid() && 0 < p < |list| && list[p] == x
      modifies this`tail, this`list, list`prev, list`next
      ensures ListValid() && list == Cut(old(list), p)
    {
      ghost var s := list;
      x.prev.next := x.next;
      if x.next != null {
        x.next.prev := x.prev;
      }
      if x == tail {
        tail := x.prev;
        tail.next := null;
      }
      CloseUp(s, p);
      CutDistinct(s, p);
      list := Cut(s, p);
    }

    /** The part of `referencePage` that puts a node before the head. */
    method PutFirst(x: Node)
      requires ListValid() && list != [] && x !in list
      modifies this`head, this`list, head`prev, x`prev, x`next
      ensures ListValid() && list == [x] + old(list)
    {
      x.next := head;
      x.prev := null;
      x.next.prev := x;
      head := x;
      list := [x] + list;
    }

    /** The part of `referencePage` that moves a node to the front. */
    method MoveToFront(x: Node, ghost p: nat)
      requires ListValid() && 0 < p < |list| && list[p] == x
      modifies this`head, this`tail, this`list, list`prev, list`next
      ensures ListValid() && list == ToFront(old(list), p)
    {
      CutDistinct(list, p);
      Detach(x, p);
      PutFirst(x);
    }

    /** The node of an active slot that is not at the front moves there. */
    method BringForward(x: Node)
      requires Valid() && x in list && x != head
      modifies this`head, this`tail, this`list, this`view, list`prev, list`next
      ensures Valid() && list != [] && list[0] == x && Elems(list) == old(Elems(list))
      ensures view[1..] == Others(old(view), x.clientHash)
    {
      ghost var p := Moved(clientList[..], list, view, x);
      ghost var s, v := ToFront(list, p), ToFront(view, p);
      MoveToFront(x, p);
      assert Shows(s, v);
      view := v;
    }

    method Stamp(now: int)
      requires Valid() && list != []
      modifies head`timestamp, this`view
      ensures Valid() && view == [Entry(list[0].clientHash, now)] + old(view)[1..]
    {
      head.timestamp := now;
      view := [Entry(head.clientHash, now)] + view[1..];
    }

    /** The active branches of `referencePage`. */
    method Refresh(hashVal: nat, now: int)
      requires Valid() && hashVal < MAX_CLIENT && clientList[hashVal].active
      modifies this`head, this`tail, this`list, this`view, list`prev, list`next, list`timestamp
      ensures Valid() && view == Touched(old(view), hashVal, now)
      ensures Elems(list) == old(Elems(list))
    {
      assert SlotListed(clientList[..], list, hashVal);
      var x := clientList[hashVal].lruPtr;
      if x != head {
        BringForward(x);
      } else {
        Unmoved(clientList[..], list, view);
      }
      Stamp(now);
    }

    /** One turn of `prune`: the last node leaves the list. */
    method CutTail()
      requires ListValid() && list != []
      modifies this`head, this`tail, this`list, list`next
      ensures ListValid() && list == old(list)[..|old(list)| - 1]
    {
      var tmp := tail;
      if tail == head {
        head, tail := null, null;
      } else {
        tail := tmp.prev;
        tail.next := null;
      }
      list := list[..|list| - 1];
    }

    /** One turn of `prune`. */
    method DropLast()
      requires Valid() && list != []
      modifies this`head, this`tail, this`nEntry, this`list, this`view, list`next, clientList
      ensures Valid() && list == old(list)[..|old(list)| - 1] && view == old(view)[..|old(view)| - 1]
    {
      var tmp := tail;
      SlotsLeave(clientList[..], list);
      CutTail();
      clientList[tmp.clientHash] := clientList[tmp.clientHash].(active := false, lruPtr := null);
      nEntry := nEntry - 1;
      view := view[..|view| - 1];
    }

    /** The loop of `prune`. */
    method PruneList(timestamp: int, delta: int)
      requires Valid() && list != []
      modifies this`head, this`tail, this`nEntry, this`list, this`view, list`next, clientList
      ensures Valid() && view == Pruned(old(view), timestamp - delta)
      ensures list <= old(list)
    {
      var tmp := tail;
      while tmp.timestamp < timestamp - delta
        invariant Valid() && list != [] && tmp == tail && list <= old(list)
        invariant Pruned(view, timestamp - delta) == Pruned(old(view), timestamp - delta)
        decreases |list|
      {
        var only := tail == head;
        DropLast();
        if only {
          break;
        }
        tmp := tail;
      }
    }

    // ----- The client part as its callers see it -----

    ghost predicate Inner(v: seq<Entry>)
      reads this, repr
    {
      && clientList in repr && Elems(list) <= repr && this !in repr
      && Valid() && view == v
    }

    /** The list holds exactly these entries, front first. */
    ghost predicate Holds(v: seq<Entry>)
      reads this, repr
    {
      forall w {:trigger Ask(w)} :: Ask(w) && w == v ==> Inner(w)
    }

    /** Closes `Holds` again after a step. */
    ghost method Close()
      requires Valid() && this !in repr
      modifies this`repr
      ensures Holds(view) && repr == old(repr) + {clientList} + Elems(list)
    {
      repr := repr + {clientList} + Elems(list);
      assert Inner(view);
    }

    /** `referencePage` up to the pruning. */
    method Touch(hashVal: nat, now: int, ghost v: seq<Entry>)
      requires Holds(v) && hashVal < MAX_CLIENT
      modifies this, repr
      ensures Holds(Touched(v, hashVal, now)) && fresh(repr - old(repr))
    {
      assert Ask(v);
      if !clientList[hashVal].active {
        Enqueue(now, hashVal);
      } else {
        Refresh(hashVal, now);
      }
      Close();
    }

    /** `prune`; its callers make sure that there is an entry. */
    method Prune(timestamp: int, delta: int, ghost v: seq<Entry>)
      requires Holds(v) && v != []
      modifies this, repr
      ensures Holds(Pruned(v, timestamp - delta)) && nEntry == |Pruned(v, timestamp - delta)| && repr == old(repr)
    {
      assert Ask(v);
      PruneList(timestamp, delta);
      Close();
    }

    /** n_entry is the length of the list. */
    lemma CountIs(v: seq<Entry>)
      requires Holds(v)
      ensures nEntry == |v|
    {
      assert Ask(v);
    }

    /** The last line of `referencePage`. */
    method SetOldest(ghost v: seq<Entry>)
      requires Holds(v) && v != []
      modifies this
      ensures Holds(v) && oldest == v[|v| - 1].seen && repr == old(repr)
    {
      assert Ask(v);
      oldest := tail.timestamp;
      Close();
    }

    /** `referencePage`. */
    method ReferencePage(now: int, hashVal: nat, kAnon: int, delta: nat, ghost v: seq<Entry>)
      requires Holds(v) && hashVal < MAX_CLIENT
      modifies this, repr
      ensures var w := Referenced(v, hashVal, now, kAnon, delta);
        && Holds(w) && nEntry == |w| && w != [] && w[0] == Entry(hashVal, now)
        && oldest == w[|w| - 1].seen
      ensures fresh(repr - old(repr))
    {
      ghost var w := Touched(v, hashVal, now);
      PrunedKeepsFirst(w, now - delta);
      Touch(hashVal, now, v);
      CountIs(w);
      if nEntry > kAnon {
        Prune(now, delta, w);
        w := Pruned(w, now - delta);
      }
      SetOldest(w);
      CountIs(w);
    }
  }
}
