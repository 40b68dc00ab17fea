/** The load balancer of load_balancer.c as a value: the hash ring and the
    table of every server that exists. The class in load_balancer.dfy is
    specified by the functions here. */
module Balancer {
  import opened Words
  import opened Hashing
  import opened Hashtable
  import opened HashRing

  type Tables = map<nat, Table>

  datatype State = State(ring: Ring, tables: Tables)

  /** Every table has HMAX buckets and keeps each entry in its key's bucket. */
  predicate TablesShaped(tables: Tables) {
    forall id :: id in tables ==> Shaped(tables[id]) && WellPlaced(tables[id])
  }

  /** The ring is ordered, holds replica labels only, and every label
      leads to a server that has a table. */
  predicate Routable(ring: Ring, tables: Tables) {
    && Sorted(ring)
    && (forall l :: l in ring ==> l < 3 * MAX_HASH && ServerOf(l) in tables)
    && TablesShaped(tables)
  }

  /** Every server that has a table has its three labels on the ring. */
  predicate Complete(ring: Ring, tables: Tables) {
    forall id :: id in tables ==>
      id < MAX_HASH && forall r :: 0 <= r < 3 ==> ReplicaLabel(r, id) in ring
  }

  predicate Wf(s: State) {
    Routable(s.ring, s.tables) && Complete(s.ring, s.tables)
  }

  /** loader_store on values: the pair goes to the server owning the key. */
  function StoreEntry(ring: Ring, tables: Tables, key: CString, value: CString): (r: Tables)
    requires Routable(ring, tables) && |ring| > 0
    ensures r.Keys == tables.Keys && Routable(ring, r)
  {
    var id := Owner(ring, key);
    StorePlaced(tables[id], key, value);
    tables[id := Store(tables[id], key, value)]
  }

  /** loader_retrieve on values. */
  function RetrieveEntry(ring: Ring, tables: Tables, key: CString): Option<CString>
    requires Routable(ring, tables) && |ring| > 0
  {
    Retrieve(tables[Owner(ring, key)], key)
  }

  /** `r` is `es` with some of its elements left out, the rest in order. */
  predicate Subseq<T(==)>(r: seq<T>, es: seq<T>)
    decreases |es|
  {
    if r == [] then true
    else if es == [] then false
    else (r[|r| - 1] == es[|es| - 1] && Subseq(r[..|r| - 1], es[..|es| - 1]))
         || Subseq(r, es[..|es| - 1])
  }

  /** The entries of `es` that the label at position `p` owns, in the
      order of `es`. */
  function Owned(ring: Ring, p: nat, es: seq<KeyValuePair>): (r: seq<KeyValuePair>)
    ensures Subseq(r, es)
    ensures forall e :: e in r <==> e in es && KeyPosition(ring, e.key) == p
    decreases |es|
  {
    if es == [] then []
    else
      var n := |es| - 1;
      var front := Owned(ring, p, es[..n]);
      assert es == es[..n] + [es[n]];
      if KeyPosition(ring, es[n].key) == p then
        assert (front + [es[n]])[..|front|] == front;
        front + [es[n]]
      else front
  }

  /** add_redistribute_objects: the label goes in at its ring position,
      then the copy step. */
  function Redistribute(s: State, serverLabel: u32): State
    requires Routable(s.ring, s.tables) && serverLabel !in s.ring
    requires serverLabel < 3 * MAX_HASH && ServerOf(serverLabel) in s.tables
  {
    var p := RingPosition(s.ring, serverLabel);
    var ring := Insert(s.ring, p, serverLabel);
    State(ring, CopyOwned(ring, p, s.tables))
  }

  /** The copy step of add_redistribute_objects for the label at position
      `p`: unless it is alone on the ring or its clockwise neighbour
      belongs to the same server, the neighbour server's entries that the
      label owns are stored into the label's server, and the neighbour
      keeps its own copies. Those stale copies are stored again when the
      neighbour's server is removed (Rebalance.StaleCopyComesBack). */
  function CopyOwned(ring: Ring, p: nat, tables: Tables): (r: Tables)
    requires p < |ring| && TablesShaped(tables)
    requires forall l :: l in ring ==> ServerOf(l) in tables
    ensures r.Keys == tables.Keys && TablesShaped(r)
    ensures forall j :: j in tables && j != ServerOf(ring[p]) ==> r[j] == tables[j]
  {
    var id := ServerOf(ring[p]);
    if |ring| <= 1 then tables
    else
      var right := if p + 1 == |ring| then 0 else p + 1;
      var rightId := ServerOf(ring[right]);
      if id == rightId then tables
      else
        var copies := Owned(ring, p, Entries(tables[rightId]));
        StoreEachPlaced(tables[id], copies);
        tables[id := StoreEach(tables[id], copies)]
  }

  /** Inserting a new replica label of a known server at its ring position
      keeps the ring routable. */
  lemma InsertRoutable(ring: Ring, tables: Tables, serverLabel: u32)
    requires Routable(ring, tables) && serverLabel !in ring
    requires serverLabel < 3 * MAX_HASH && ServerOf(serverLabel) in tables
    ensures Routable(Insert(ring, RingPosition(ring, serverLabel), serverLabel), tables)
  {
    InsertSorted(ring, serverLabel);
    InsertMembers(ring, RingPosition(ring, serverLabel), serverLabel);
  }

  /** A redistribution keeps the state routable and adds exactly the label. */
  lemma RedistributeRoutable(s: State, serverLabel: u32)
    requires Routable(s.ring, s.tables) && serverLabel !in s.ring
    requires serverLabel < 3 * MAX_HASH && ServerOf(serverLabel) in s.tables
    ensures var r := Redistribute(s, serverLabel);
            && Routable(r.ring, r.tables) && r.tables.Keys == s.tables.Keys
            && |r.ring| == |s.ring| + 1
            && (forall x :: x in r.ring <==> x in s.ring || x == serverLabel)
  {
    RedistributeSorted(s, serverLabel);
    RedistributeRing(s, serverLabel);
    RedistributeTables(s, serverLabel);
  }

  lemma RedistributeSorted(s: State, serverLabel: u32)
    requires Routable(s.ring, s.tables) && serverLabel !in s.ring
    requires serverLabel < 3 * MAX_HASH && ServerOf(serverLabel) in s.tables
    ensures Sorted(Redistribute(s, serverLabel).ring)
  {
    InsertSorted(s.ring, serverLabel);
  }

  lemma RedistributeRing(s: State, serverLabel: u32)
    requires Routable(s.ring, s.tables) && serverLabel !in s.ring
    requires serverLabel < 3 * MAX_HASH && ServerOf(serverLabel) in s.tables
    ensures forall x :: x in Redistribute(s, serverLabel).ring <==> x in s.ring || x == serverLabel
  {
    InsertMembers(s.ring, RingPosition(s.ring, serverLabel), serverLabel);
  }

  lemma RedistributeTables(s: State, serverLabel: u32)
    requires Routable(s.ring, s.tables) && serverLabel !in s.ring
    requires serverLabel < 3 * MAX_HASH && ServerOf(serverLabel) in s.tables
    ensures TablesShaped(Redistribute(s, serverLabel).tables)
    ensures Redistribute(s, serverLabel).tables.Keys == s.tables.Keys
  {
  }

  /** loader_add_server: an empty table for `id`, then its three labels. */
  function AddServer(s: State, id: nat): State
    requires Wf(s) && id < MAX_HASH && id !in s.tables
  {
    NewServerRoutable(s, id);
    AddReplicas(State(s.ring, s.tables[id := EmptyTable()]), id)
  }

  /** The three add_redistribute_objects calls of loader_add_server, for
      the labels `id`, `MAX_HASH + id` and `2 * MAX_HASH + id` in turn. */
  function AddReplicas(s: State, id: nat): State
    requires Routable(s.ring, s.tables) && id < MAX_HASH && id in s.tables
    requires forall r :: 0 <= r < 3 ==> ReplicaLabel(r, id) !in s.ring
  {
    var s0 := Redistribute(s, ReplicaLabel(0, id));
    RedistributeNext(s, ReplicaLabel(0, id), ReplicaLabel(1, id));
    RedistributeNext(s, ReplicaLabel(0, id), ReplicaLabel(2, id));
    var s1 := Redistribute(s0, ReplicaLabel(1, id));
    RedistributeNext(s0, ReplicaLabel(1, id), ReplicaLabel(2, id));
    Redistribute(s1, ReplicaLabel(2, id))
  }

  /** remove_from_hashring on values. */
  function RemoveLabel(ring: Ring, serverLabel: u32): (r: Ring)
    requires Sorted(ring) && serverLabel in ring
    ensures Sorted(r) && |r| == |ring| - 1
    ensures forall x :: x in r <==> x in ring && x != serverLabel
  {
    var p := RingPosition(ring, serverLabel);
    PositionOfMember(ring, serverLabel);
    DeleteSorted(ring, p);
    DeleteMembers(ring, p);
    Delete(ring, p)
  }

  /** The entries `es` passed to loader_store one after the other. */
  function StoreEachEntry(ring: Ring, tables: Tables, es: seq<KeyValuePair>): (r: Tables)
    requires Routable(ring, tables) && (|ring| > 0 || es == [])
    ensures r.Keys == tables.Keys && Routable(ring, r)
    decreases |es|
  {
    if es == [] then tables
    else
      var n := |es| - 1;
      StoreEntry(ring, StoreEachEntry(ring, tables, es[..n]), es[n].key, es[n].value)
  }

  /** The ring once the three labels of `id` are removed. */
  function RemoveLabels(ring: Ring, id: nat): (r: Ring)
    requires Sorted(ring) && id < MAX_HASH
    requires forall l :: l in ring ==> l < 3 * MAX_HASH
    requires forall k :: 0 <= k < 3 ==> ReplicaLabel(k, id) in ring
    ensures Sorted(r) && |r| == |ring| - 3
  {
    var r0 := RemoveLabel(ring, ReplicaLabel(0, id));
    var r1 := RemoveLabel(r0, ReplicaLabel(1, id));
    RemoveLabel(r1, ReplicaLabel(2, id))
  }

  /** The labels left are all the others. */
  lemma RemoveLabelsMembers(ring: Ring, id: nat)
    requires Sorted(ring) && id < MAX_HASH
    requires forall l :: l in ring ==> l < 3 * MAX_HASH
    requires forall k :: 0 <= k < 3 ==> ReplicaLabel(k, id) in ring
    ensures forall x :: x in RemoveLabels(ring, id) <==>
              x in ring && x != ReplicaLabel(0, id) && x != ReplicaLabel(1, id) && x != ReplicaLabel(2, id)
  {
    var r0 := RemoveLabel(ring, ReplicaLabel(0, id));
    var r1 := RemoveLabel(r0, ReplicaLabel(1, id));
    var r := RemoveLabel(r1, ReplicaLabel(2, id));
    assert r == RemoveLabels(ring, id);
  }

  /** loader_remove_server: the three labels leave the ring, every entry of
      the server is stored again through the ring without it, and the
      server's table goes away. */
  function RemoveServer(s: State, id: nat): (r: State)
    requires Wf(s) && id in s.tables
    requires |s.ring| > 3 || Count(s.tables[id]) == 0
  {
    var ring := RemoveLabels(s.ring, id);
    var es := Entries(s.tables[id]);
    RemoveLabelsRoutable(s, id);
    var tables := StoreEachEntry(ring, s.tables, es);
    State(ring, tables - {id})
  }

  // ------------------------------------------------------------------
  // Properties

  /** loader_retrieve finds the value loader_store just stored. */
  lemma RetrieveAfterStoreEntry(ring: Ring, tables: Tables, key: CString, value: CString)
    requires Routable(ring, tables) && |ring| > 0
    ensures RetrieveEntry(ring, StoreEntry(ring, tables, key, value), key) == Some(value)
  {
    RetrieveAfterStore(tables[Owner(ring, key)], key, value);
  }

  /** loader_store leaves the value of every incomparable key alone. */
  lemma RetrieveStoreEntryOther(ring: Ring, tables: Tables, key: CString, value: CString, other: CString)
    requires Routable(ring, tables) && |ring| > 0 && Incomparable(key, other)
    ensures RetrieveEntry(ring, StoreEntry(ring, tables, key, value), other) == RetrieveEntry(ring, tables, other)
  {
    var id := Owner(ring, key);
    if Owner(ring, other) == id {
      RetrieveStoreOther(tables[id], key, value, other);
    }
  }

  /** After storing prefix-free entries one by one through the ring, each
      of them is served with its value. */
  lemma {:induction false} RetrieveAfterStoreEachEntry(ring: Ring, tables: Tables, es: seq<KeyValuePair>, i: nat)
    requires Routable(ring, tables) && |ring| > 0 && PrefixFree(es) && i < |es|
    ensures RetrieveEntry(ring, StoreEachEntry(ring, tables, es), es[i].key) == Some(es[i].value)
    decreases |es|
  {
    var n := |es| - 1;
    var front := StoreEachEntry(ring, tables, es[..n]);
    if i == n {
      RetrieveAfterStoreEntry(ring, front, es[n].key, es[n].value);
    } else {
      PrefixFreeFront(es, n);
      RetrieveAfterStoreEachEntry(ring, tables, es[..n], i);
      assert es[..n][i] == es[i];
      RetrieveStoreEntryOther(ring, front, es[n].key, es[n].value, es[i].key);
    }
  }

  /** Filtering prefix-free entries keeps them prefix-free. */
  lemma {:induction false} OwnedPrefixFree(ring: Ring, p: nat, es: seq<KeyValuePair>)
    requires PrefixFree(es)
    ensures PrefixFree(Owned(ring, p, es))
    decreases |es|
  {
    if es != [] {
      var n := |es| - 1;
      PrefixFreeFront(es, n);
      OwnedPrefixFree(ring, p, es[..n]);
      var front := Owned(ring, p, es[..n]);
      forall a | 0 <= a < |front|
        ensures Incomparable(front[a].key, es[n].key)
      {
        assert front[a] in es[..n];
        var k :| 0 <= k < n && es[..n][k] == front[a];
        assert es[k] == front[a];
      }
    }
  }

  /** add_redistribute_objects: after a label goes in, each entry of its
      clockwise neighbour's server that the label now owns is served by the
      label's server with the neighbour's value, provided the neighbour's
      keys are prefix-free and the two labels belong to different servers. */
  lemma RedistributeServesCopies(s: State, serverLabel: u32, e: KeyValuePair)
    requires Routable(s.ring, s.tables) && serverLabel !in s.ring
    requires serverLabel < 3 * MAX_HASH && ServerOf(serverLabel) in s.tables
    requires |s.ring| > 0
    requires var p := RingPosition(s.ring, serverLabel);
             var q := if p == |s.ring| then 0 else p;
             && ServerOf(s.ring[q]) != ServerOf(serverLabel)
             && PrefixFree(Entries(s.tables[ServerOf(s.ring[q])]))
             && e in Entries(s.tables[ServerOf(s.ring[q])])
    requires KeyPosition(Redistribute(s, serverLabel).ring, e.key) == RingPosition(s.ring, serverLabel)
    ensures var r := Redistribute(s, serverLabel);
            Routable(r.ring, r.tables) && RetrieveEntry(r.ring, r.tables, e.key) == Some(e.value)
  {
    RedistributeRoutable(s, serverLabel);
    var p := RingPosition(s.ring, serverLabel);
    var ring := Insert(s.ring, p, serverLabel);
    var right := if p + 1 == |ring| then 0 else p + 1;
    assert ring[right] == s.ring[if p == |s.ring| then 0 else p];
    var rightId := ServerOf(ring[right]);
    var copies := Owned(ring, p, Entries(s.tables[rightId]));
    OwnedPrefixFree(ring, p, Entries(s.tables[rightId]));
    var i :| 0 <= i < |copies| && copies[i] == e;
    RetrieveAfterStoreEach(s.tables[ServerOf(serverLabel)], copies, i);
  }

  /** add_redistribute_objects changes nothing for a key that the new label
      does not take over, unless the key's owner is another label of the
      same server as the new one. */
  lemma RedistributeKeepsOthers(s: State, serverLabel: u32, key: CString)
    requires Routable(s.ring, s.tables) && serverLabel !in s.ring
    requires serverLabel < 3 * MAX_HASH && ServerOf(serverLabel) in s.tables
    requires |s.ring| > 0
    requires KeyPosition(Redistribute(s, serverLabel).ring, key) != RingPosition(s.ring, serverLabel)
    requires Owner(s.ring, key) != ServerOf(serverLabel)
    ensures var r := Redistribute(s, serverLabel);
            && Routable(r.ring, r.tables)
            && Owner(r.ring, key) == Owner(s.ring, key)
            && RetrieveEntry(r.ring, r.tables, key) == RetrieveEntry(s.ring, s.tables, key)
  {
    RedistributeRoutable(s, serverLabel);
    KeyPositionAfterInsert(s.ring, serverLabel, key);
  }

  /** Filtering two runs of entries is filtering each. */
  lemma {:induction false} OwnedAppend(ring: Ring, p: nat, a: seq<KeyValuePair>, b: seq<KeyValuePair>)
    ensures Owned(ring, p, a + b) == Owned(ring, p, a) + Owned(ring, p, b)
    decreases |b|
  {
    if b == [] {
      assert a + b == a;
    } else {
      var n := |b| - 1;
      OwnedAppend(ring, p, a, b[..n]);
      var ab := a + b;
      assert ab[..|ab| - 1] == a + b[..n] && ab[|ab| - 1] == b[n];
      var x, y := Owned(ring, p, a), Owned(ring, p, b[..n]);
      if KeyPosition(ring, b[n].key) == p {
        assert Owned(ring, p, ab) == x + y + [b[n]];
        assert Owned(ring, p, b) == y + [b[n]];
        assert x + y + [b[n]] == x + (y + [b[n]]);
      } else {
        assert Owned(ring, p, ab) == x + y;
        assert Owned(ring, p, b) == y;
      }
    }
  }

  /** Storing two runs of entries through the ring is storing the first,
      then the second. */
  lemma {:induction false} StoreEachEntryAppend(ring: Ring, tables: Tables, a: seq<KeyValuePair>, b: seq<KeyValuePair>)
    requires Routable(ring, tables) && (|ring| > 0 || a + b == [])
    ensures StoreEachEntry(ring, tables, a + b) == StoreEachEntry(ring, StoreEachEntry(ring, tables, a), b)
    decreases |b|
  {
    if b == [] {
      assert a + b == a;
    } else {
      var n := |b| - 1;
      StoreEachEntryAppend(ring, tables, a, b[..n]);
      assert (a + b)[..|a + b| - 1] == a + b[..n];
    }
  }

  /** loader_add_server keeps the balancer well formed: every server,
      the new one included, has a table and its three labels on the ring. */
  lemma AddServerWf(s: State, id: nat)
    requires Wf(s) && id < MAX_HASH && id !in s.tables
    ensures Wf(AddServer(s, id)) && AddServer(s, id).tables.Keys == s.tables.Keys + {id}
  {
    AddServerRing(s, id);
    AddServerMembers(s, id);
    var r := AddServer(s, id);
    CompleteAfterAdd(s.ring, s.tables, id, r.ring, r.tables);
  }

  lemma CompleteAfterAdd(ring: Ring, tables: Tables, id: nat, ring': Ring, tables': Tables)
    requires Complete(ring, tables) && id < MAX_HASH
    requires tables'.Keys == tables.Keys + {id}
    requires forall x :: x in ring' <==>
               x in ring || x == ReplicaLabel(0, id) || x == ReplicaLabel(1, id) || x == ReplicaLabel(2, id)
    ensures Complete(ring', tables')
  {
  }

  /** The three redistributions add exactly the three labels of `id`,
      keep the ring routable and leave the set of servers as it was. */
  lemma AddReplicasGrow(s: State, id: nat)
    requires Routable(s.ring, s.tables) && id < MAX_HASH && id in s.tables
    requires forall r :: 0 <= r < 3 ==> ReplicaLabel(r, id) !in s.ring
    ensures var r := AddReplicas(s, id);
            && Routable(r.ring, r.tables) && r.tables.Keys == s.tables.Keys
            && |r.ring| == |s.ring| + 3
            && forall x :: x in r.ring <==>
                 x in s.ring || x == ReplicaLabel(0, id) || x == ReplicaLabel(1, id) || x == ReplicaLabel(2, id)
  {
    AddReplicasSteps(s, id);
    var s0 := Redistribute(s, ReplicaLabel(0, id));
    var s1 := Redistribute(s0, ReplicaLabel(1, id));
    RedistributeRoutable(s, ReplicaLabel(0, id));
    RedistributeRoutable(s0, ReplicaLabel(1, id));
    RedistributeRoutable(s1, ReplicaLabel(2, id));
  }

  /** The ring grows by three labels. */
  lemma AddServerRing(s: State, id: nat)
    requires Wf(s) && id < MAX_HASH && id !in s.tables
    ensures var r := AddServer(s, id);
            && Routable(r.ring, r.tables)
            && r.tables.Keys == s.tables.Keys + {id}
            && |r.ring| == |s.ring| + 3
  {
    NewServerRoutable(s, id);
    AddReplicasGrow(State(s.ring, s.tables[id := EmptyTable()]), id);
  }

  /** The labels added are the three of the new server and no other
      label moves or disappears. */
  lemma AddServerMembers(s: State, id: nat)
    requires Wf(s) && id < MAX_HASH && id !in s.tables
    ensures forall x :: x in AddServer(s, id).ring <==>
              x in s.ring || x == ReplicaLabel(0, id) || x == ReplicaLabel(1, id) || x == ReplicaLabel(2, id)
  {
    NewServerRoutable(s, id);
    AddReplicasGrow(State(s.ring, s.tables[id := EmptyTable()]), id);
  }

  /** loader_remove_server keeps the balancer well formed: the server and
      its three labels are gone and every other label stays. */
  lemma RemoveServerWf(s: State, id: nat)
    requires Wf(s) && id in s.tables
    requires |s.ring| > 3 || Count(s.tables[id]) == 0
    ensures var r := RemoveServer(s, id);
            && Wf(r)
            && r.tables.Keys == s.tables.Keys - {id}
            && |r.ring| == |s.ring| - 3
            && (forall x :: x in r.ring <==> x in s.ring && ServerOf(x) != id)
  {
    RemoveServerRing(s, id);
  }

  lemma RemoveServerRing(s: State, id: nat)
    requires Wf(s) && id in s.tables
    requires |s.ring| > 3 || Count(s.tables[id]) == 0
    ensures var r := RemoveServer(s, id);
            && r.tables.Keys == s.tables.Keys - {id}
            && |r.ring| == |s.ring| - 3
            && (forall x :: x in r.ring <==> x in s.ring && ServerOf(x) != id)
            && Routable(r.ring, r.tables)
  {
    RemoveLabelsRoutable(s, id);
    RemoveServerMembers(s, id);
    var r := RemoveServer(s, id);
    assert r.ring == RemoveLabels(s.ring, id);
    RoutableWithout(r.ring, StoreEachEntry(r.ring, s.tables, Entries(s.tables[id])), id);
  }

  /** Replacing one server's table by another well-placed one keeps the
      state routable. */
  lemma RoutableUpdate(ring: Ring, tables: Tables, id: nat, t: Table)
    requires Routable(ring, tables) && id in tables && Shaped(t) && WellPlaced(t)
    ensures Routable(ring, tables[id := t])
  {
  }

  /** Removing one label keeps the ring sorted and routing to existing
      servers. */
  lemma RemoveLabelRoutable(ring: Ring, tables: Tables, serverLabel: u32)
    requires Routable(ring, tables) && serverLabel in ring
    ensures Routable(RemoveLabel(ring, serverLabel), tables)
  {
  }

  /** A table whose server has no label on the ring can go. */
  lemma RoutableWithout(ring: Ring, tables: Tables, id: nat)
    requires Routable(ring, tables)
    requires forall x :: x in ring ==> ServerOf(x) != id
    ensures Routable(ring, tables - {id})
  {
  }

  lemma RemoveServerMembers(s: State, id: nat)
    requires Wf(s) && id in s.tables
    ensures forall x :: x in RemoveLabels(s.ring, id) <==> x in s.ring && ServerOf(x) != id
  {
    RemoveLabelsMembers(s.ring, id);
    forall x | x in s.ring
      ensures ServerOf(x) == id <==>
                x == ReplicaLabel(0, id) || x == ReplicaLabel(1, id) || x == ReplicaLabel(2, id)
    {
      LabelsOfServer(x, id);
    }
  }

  /** loader_remove_server loses no data: with prefix-free keys on the
      removed server, each of its entries is served afterwards by another
      server with the same value. */
  lemma RemoveServerKeepsEntries(s: State, id: nat, i: nat)
    requires Wf(s) && id in s.tables && |s.ring| > 3
    requires PrefixFree(Entries(s.tables[id])) && i < |Entries(s.tables[id])|
    ensures var r := RemoveServer(s, id);
            var e := Entries(s.tables[id])[i];
            && Routable(r.ring, r.tables)
            && |r.ring| > 0
            && Owner(r.ring, e.key) != id
            && RetrieveEntry(r.ring, r.tables, e.key) == Some(e.value)
  {
    RemoveServerWf(s, id);
    RemoveLabelsRoutable(s, id);
    var ring := RemoveLabels(s.ring, id);
    var es := Entries(s.tables[id]);
    RetrieveAfterStoreEachEntry(ring, s.tables, es, i);
    var q := KeyPosition(ring, es[i].key);
    assert ring[q] in ring;
  }

  // ------------------------------------------------------------------
  // Helpers

  lemma {:induction false} StoreEachPlaced(t: Table, es: seq<KeyValuePair>)
    requires Shaped(t) && WellPlaced(t)
    ensures WellPlaced(StoreEach(t, es))
    decreases |es|
  {
    if es != [] {
      var n := |es| - 1;
      StoreEachPlaced(t, es[..n]);
      StorePlaced(StoreEach(t, es[..n]), es[n].key, es[n].value);
    }
  }

  /** A fresh empty table for a server without labels keeps the state
      routable, and none of the server's labels is on the ring yet. */
  lemma NewServerRoutable(s: State, id: nat)
    requires Wf(s) && id < MAX_HASH && id !in s.tables
    ensures Routable(s.ring, s.tables[id := EmptyTable()])
    ensures forall r :: 0 <= r < 3 ==> ReplicaLabel(r, id) !in s.ring
  {
    EmptyTableCount();
    NoLabelsOf(s, id);
  }

  /** After one redistribution, the next label of the same server can go in. */
  lemma RedistributeNext(s: State, serverLabel: u32, next: u32)
    requires Routable(s.ring, s.tables) && serverLabel !in s.ring && next !in s.ring
    requires serverLabel < 3 * MAX_HASH && ServerOf(serverLabel) in s.tables
    requires next != serverLabel
    ensures var r := Redistribute(s, serverLabel);
            Routable(r.ring, r.tables) && next !in r.ring && r.tables.Keys == s.tables.Keys
  {
    RedistributeRoutable(s, serverLabel);
    var r := Redistribute(s, serverLabel);
    assert next !in multiset(r.ring);
  }

  /** A server without a table has no label on a routable ring. */
  lemma NoLabelsOf(s: State, id: nat)
    requires Routable(s.ring, s.tables) && id < MAX_HASH && id !in s.tables
    ensures forall r :: 0 <= r < 3 ==> ReplicaLabel(r, id) !in s.ring
  {
  }

  /** The ring without the labels of `id` still routes every key to a
      server with a table, and is empty only when there is nothing to move. */
  lemma RemoveLabelsRoutable(s: State, id: nat)
    requires Wf(s) && id in s.tables
    requires |s.ring| > 3 || Count(s.tables[id]) == 0
    ensures var ring := RemoveLabels(s.ring, id);
            && Routable(ring, s.tables) && |ring| == |s.ring| - 3
            && (|ring| > 0 || Entries(s.tables[id]) == [])
  {
    RemoveLabelsMembers(s.ring, id);
  }

  /** One more bucket of the source table: the copies grow by the entries
      of that bucket that position `p` owns. */
  lemma CopyStep(ring: Ring, p: nat, t: Table, source: seq<Chain>, i: nat)
    requires Shaped(t) && i < |source|
    ensures var before := StoreEach(t, Owned(ring, p, Entries(source[..i])));
            StoreEach(before, Owned(ring, p, source[i])) == StoreEach(t, Owned(ring, p, Entries(source[..i + 1])))
  {
    assert source[..i + 1][..i] == source[..i];
    OwnedAppend(ring, p, Entries(source[..i]), source[i]);
    StoreEachAppend(t, Owned(ring, p, Entries(source[..i])), Owned(ring, p, source[i]));
  }

  /** One more entry of a bucket: the copies grow by that entry when
      position `p` owns it. */
  lemma EntryStep(ring: Ring, p: nat, t: Table, chain: seq<KeyValuePair>, j: nat)
    requires Shaped(t) && j < |chain|
    ensures var before := StoreEach(t, Owned(ring, p, chain[..j]));
            StoreEach(t, Owned(ring, p, chain[..j + 1])) ==
              if KeyPosition(ring, chain[j].key) == p then Store(before, chain[j].key, chain[j].value) else before
  {
    assert chain[..j + 1][..j] == chain[..j];
    var front := Owned(ring, p, chain[..j]);
    if KeyPosition(ring, chain[j].key) == p {
      assert (front + [chain[j]])[..|front|] == front;
    } else {
      assert front + [] == front;
    }
  }
  /** The three steps of AddReplicas one after the other: each label of
      `id` can go in when its turn comes, on a state that still has `id`. */
  lemma AddReplicasSteps(s: State, id: nat)
    requires Routable(s.ring, s.tables) && id < MAX_HASH && id in s.tables
    requires forall r :: 0 <= r < 3 ==> ReplicaLabel(r, id) !in s.ring
    ensures var s0 := Redistribute(s, ReplicaLabel(0, id));
            && Routable(s0.ring, s0.tables) && ReplicaLabel(1, id) !in s0.ring && id in s0.tables
            && var s1 := Redistribute(s0, ReplicaLabel(1, id));
               && Routable(s1.ring, s1.tables) && ReplicaLabel(2, id) !in s1.ring && id in s1.tables
               && AddReplicas(s, id) == Redistribute(s1, ReplicaLabel(2, id))
  {
    RedistributeNext(s, ReplicaLabel(0, id), ReplicaLabel(1, id));
    RedistributeNext(s, ReplicaLabel(0, id), ReplicaLabel(2, id));
    var s0 := Redistribute(s, ReplicaLabel(0, id));
    RedistributeNext(s0, ReplicaLabel(1, id), ReplicaLabel(2, id));
  }

  /** One more entry passed to loader_store. */
  lemma StoreEachEntryStep(ring: Ring, tables: Tables, es: seq<KeyValuePair>, j: nat)
    requires Routable(ring, tables) && j < |es| && |ring| > 0
    ensures StoreEachEntry(ring, tables, es[..j + 1]) ==
              StoreEntry(ring, StoreEachEntry(ring, tables, es[..j]), es[j].key, es[j].value)
  {
    assert es[..j + 1][..j] == es[..j];
  }

  /** One more bucket of the removed server passed to loader_store, and the
      count of the entries left. */
  lemma RestoreStep(ring: Ring, tables: Tables, t: seq<Chain>, i: nat)
    requires Routable(ring, tables) && i < |t| && (|ring| > 0 || Count(t) == 0)
    ensures Count(t) == |Entries(t[..i])| + |t[i]| + |Entries(t[i + 1..])|
    ensures Entries(t[..i + 1]) == Entries(t[..i]) + t[i]
    ensures |ring| > 0 || (Entries(t[..i]) == [] && t[i] == [])
    ensures StoreEachEntry(ring, StoreEachEntry(ring, tables, Entries(t[..i])), t[i]) ==
              StoreEachEntry(ring, tables, Entries(t[..i + 1]))
    ensures |Entries(t[i + 1..])| == 0 ==> Entries(t[..i + 1]) == Entries(t)
  {
    EntriesSplit(t, i);
    assert t[..i + 1][..i] == t[..i];
    StoreEachEntryAppend(ring, tables, Entries(t[..i]), t[i]);
    if |Entries(t[i + 1..])| == 0 {
      assert Entries(t) == Entries(t[..i + 1]) + Entries(t[i + 1..]);
    }
  }

  /** The three labels of `id` can leave the ring one after the other. */
  lemma RemoveLabelsSteps(ring: Ring, id: nat)
    requires Sorted(ring) && id < MAX_HASH
    requires forall r :: 0 <= r < 3 ==> ReplicaLabel(r, id) in ring
    ensures ReplicaLabel(0, id) == id && ReplicaLabel(0, id) in ring
    ensures var r0 := RemoveLabel(ring, ReplicaLabel(0, id));
            && ReplicaLabel(1, id) == MAX_HASH + id && ReplicaLabel(1, id) in r0
            && var r1 := RemoveLabel(r0, ReplicaLabel(1, id));
               && ReplicaLabel(2, id) == 2 * MAX_HASH + id && ReplicaLabel(2, id) in r1
  {
    assert ReplicaLabel(0, id) in ring && ReplicaLabel(1, id) in ring && ReplicaLabel(2, id) in ring;
  }
}
