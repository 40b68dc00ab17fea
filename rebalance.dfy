/** Redistribution when a server joins, as written and as intended.

    add_redistribute_objects (load_balancer.c:175-183) copies the entries a
    new label takes into the label's server and leaves them on the clockwise
    neighbour. loader_remove_server (load_balancer.c:239-244) stores every
    entry of the removed server again, so a stale copy left behind comes
    back over a newer value (StaleCopyComesBack).

    MoveOwned is the intended step: the neighbour also gives up the entries
    it hands over. With it, every stored key sits on the server the ring
    routes it to (Placed). Adding a server, storing and removing a server
    all keep that, and the value stored last is the one served after a
    server is removed (MovedServesLastStore). */
module Rebalance {
  import opened Words
  import opened Hashing
  import opened Hashtable
  import opened HashRing
  import opened Balancer

  /** The keys stored in a table. */
  function Keys(t: seq<Chain>): set<CString> {
    set b, i | 0 <= b < |t| && 0 <= i < |t[b]| :: t[b][i].key
  }

  /** The keys of a run of entries. */
  function KeysOf(es: seq<KeyValuePair>): set<CString> {
    set e | e in es :: e.key
  }

  /** Every key stored by a server outside `skip` is routed to that server. */
  predicate PlacedExcept(ring: Ring, tables: Tables, skip: set<nat>) {
    forall j, k :: j in tables && j !in skip && k in Keys(tables[j]) ==> |ring| > 0 && Owner(ring, k) == j
  }

  /** Every stored key is routed to the server that stores it. */
  predicate Placed(ring: Ring, tables: Tables) {
    PlacedExcept(ring, tables, {})
  }

  /** The entries of `es` that the label at position `p` does not own, in
      the order of `es`. */
  function Kept(ring: Ring, p: nat, es: seq<KeyValuePair>): (r: seq<KeyValuePair>)
    ensures Subseq(r, es)
    ensures forall e :: e in r <==> e in es && KeyPosition(ring, e.key) != p
    decreases |es|
  {
    if es == [] then []
    else
      var n := |es| - 1;
      var front := Kept(ring, p, es[..n]);
      assert es == es[..n] + [es[n]];
      if KeyPosition(ring, es[n].key) != p then
        assert (front + [es[n]])[..|front|] == front;
        front + [es[n]]
      else front
  }

  /** The neighbour's table once the entries the label at `p` takes have
      left it. */
  function Drop(ring: Ring, p: nat, t: Table): (r: Table)
    requires Shaped(t) && WellPlaced(t)
    ensures Shaped(r) && WellPlaced(r)
    ensures forall k :: k in Keys(r) ==> k in Keys(t) && KeyPosition(ring, k) != p
  {
    var r := seq(|t|, b requires 0 <= b < |t| => Kept(ring, p, t[b]));
    DropFacts(ring, p, t, r);
    r
  }

  /** The intended step of add_redistribute_objects for the label at
      position `p`: the copies of CopyOwned, and the neighbour's server
      keeps only the entries the label does not take. */
  function MoveOwned(ring: Ring, p: nat, tables: Tables): (r: Tables)
    requires p < |ring| && TablesShaped(tables)
    requires forall l :: l in ring ==> ServerOf(l) in tables
    ensures r.Keys == tables.Keys && TablesShaped(r)
  {
    var copied := CopyOwned(ring, p, tables);
    if |ring| <= 1 then copied
    else
      var right := if p + 1 == |ring| then 0 else p + 1;
      var rightId := ServerOf(ring[right]);
      if ServerOf(ring[p]) == rightId then copied
      else copied[rightId := Drop(ring, p, tables[rightId])]
  }

  /** add_redistribute_objects with the move step. */
  function RedistributeMoved(s: State, serverLabel: u32): State
    requires Routable(s.ring, s.tables) && serverLabel !in s.ring
    requires serverLabel < 3 * MAX_HASH && ServerOf(serverLabel) in s.tables
  {
    var p := RingPosition(s.ring, serverLabel);
    var ring := Insert(s.ring, p, serverLabel);
    State(ring, MoveOwned(ring, p, s.tables))
  }

  /** loader_add_server with the move step. */
  function AddServerMoved(s: State, id: nat): State
    requires Wf(s) && id < MAX_HASH && id !in s.tables
  {
    NewServerRoutable(s, id);
    AddReplicasMoved(State(s.ring, s.tables[id := EmptyTable()]), id)
  }

  /** The three redistributions of loader_add_server with the move step. */
  function AddReplicasMoved(s: State, id: nat): State
    requires Routable(s.ring, s.tables) && id < MAX_HASH && id in s.tables
    requires forall r :: 0 <= r < 3 ==> ReplicaLabel(r, id) !in s.ring
  {
    var s0 := RedistributeMoved(s, ReplicaLabel(0, id));
    RedistributeMovedNext(s, ReplicaLabel(0, id), ReplicaLabel(1, id));
    RedistributeMovedNext(s, ReplicaLabel(0, id), ReplicaLabel(2, id));
    var s1 := RedistributeMoved(s0, ReplicaLabel(1, id));
    RedistributeMovedNext(s0, ReplicaLabel(1, id), ReplicaLabel(2, id));
    RedistributeMoved(s1, ReplicaLabel(2, id))
  }

  // ------------------------------------------------------------------
  // The code as written

  /** A key held by server `b` moves to a new server `c`, is then stored
      with a new value, and `b` is removed: the copy left on `b` is stored
      again and the old value is served. */
  lemma StaleCopyComesBack(s: State, b: nat, c: nat, k: CString, v1: CString, v2: CString, i: nat)
    requires Wf(s) && c < MAX_HASH && c !in s.tables && b in s.tables
    requires PrefixFree(Entries(s.tables[b])) && i < |Entries(s.tables[b])|
    requires Entries(s.tables[b])[i] == KeyValuePair(k, v1) && v1 != v2
    requires var s1 := AddServer(s, c); |s1.ring| > 0 && Owner(s1.ring, k) == c
    ensures var s1 := AddServer(s, c);
            && Wf(s1)
            && var s2 := State(s1.ring, StoreEntry(s1.ring, s1.tables, k, v2));
               && RetrieveEntry(s2.ring, s2.tables, k) == Some(v2)
               && Wf(s2) && b in s2.tables && |s2.ring| > 3
               && var s3 := RemoveServer(s2, b);
                  && Routable(s3.ring, s3.tables) && |s3.ring| > 0
                  && RetrieveEntry(s3.ring, s3.tables, k) == Some(v1)
                  && RetrieveEntry(s3.ring, s3.tables, k) != Some(v2)
  {
    AddServerWf(s, c);
    AddServerRing(s, c);
    AddServerKeeps(s, c);
    var labelsLeft := RemoveLabels(s.ring, b);
    var s1 := AddServer(s, c);
    var s2 := State(s1.ring, StoreEntry(s1.ring, s1.tables, k, v2));
    RetrieveAfterStoreEntry(s1.ring, s1.tables, k, v2);
    assert s2.tables[b] == s.tables[b];
    RemoveServerKeepsEntries(s2, b, i);
  }

  /** A redistribution leaves every table but that of the new label's
      server as it was. */
  lemma RedistributeKeeps(s: State, serverLabel: u32)
    requires Routable(s.ring, s.tables) && serverLabel !in s.ring
    requires serverLabel < 3 * MAX_HASH && ServerOf(serverLabel) in s.tables
    ensures forall j :: j in s.tables && j != ServerOf(serverLabel) ==>
              Redistribute(s, serverLabel).tables[j] == s.tables[j]
  {
  }

  /** loader_add_server leaves the table of every existing server as it was. */
  lemma AddServerKeeps(s: State, id: nat)
    requires Wf(s) && id < MAX_HASH && id !in s.tables
    ensures forall j :: j in s.tables ==> j in AddServer(s, id).tables && AddServer(s, id).tables[j] == s.tables[j]
  {
    NewServerRoutable(s, id);
    var s' := State(s.ring, s.tables[id := EmptyTable()]);
    AddReplicasSteps(s', id);
    var s0 := Redistribute(s', ReplicaLabel(0, id));
    var s1 := Redistribute(s0, ReplicaLabel(1, id));
    RedistributeKeeps(s', ReplicaLabel(0, id));
    RedistributeKeeps(s0, ReplicaLabel(1, id));
    RedistributeKeeps(s1, ReplicaLabel(2, id));
  }

  // ------------------------------------------------------------------
  // The move step

  /** The move step adds the same label as add_redistribute_objects and
      keeps the state routable. */
  lemma RedistributeMovedRoutable(s: State, serverLabel: u32)
    requires Routable(s.ring, s.tables) && serverLabel !in s.ring
    requires serverLabel < 3 * MAX_HASH && ServerOf(serverLabel) in s.tables
    ensures var r := RedistributeMoved(s, serverLabel);
            && r.ring == Redistribute(s, serverLabel).ring
            && Routable(r.ring, r.tables) && r.tables.Keys == s.tables.Keys
  {
    RedistributeRoutable(s, serverLabel);
  }

  /** After one move step, the next label of the same server can go in. */
  lemma RedistributeMovedNext(s: State, serverLabel: u32, next: u32)
    requires Routable(s.ring, s.tables) && serverLabel !in s.ring && next !in s.ring
    requires serverLabel < 3 * MAX_HASH && ServerOf(serverLabel) in s.tables
    requires next != serverLabel
    ensures var r := RedistributeMoved(s, serverLabel);
            Routable(r.ring, r.tables) && next !in r.ring && r.tables.Keys == s.tables.Keys
  {
    RedistributeNext(s, serverLabel, next);
    RedistributeMovedRoutable(s, serverLabel);
  }

  /** The three move steps of AddReplicasMoved one after the other. */
  lemma AddReplicasMovedSteps(s: State, id: nat)
    requires Routable(s.ring, s.tables) && id < MAX_HASH && id in s.tables
    requires forall r :: 0 <= r < 3 ==> ReplicaLabel(r, id) !in s.ring
    ensures var s0 := RedistributeMoved(s, ReplicaLabel(0, id));
            && Routable(s0.ring, s0.tables) && ReplicaLabel(1, id) !in s0.ring && id in s0.tables
            && var s1 := RedistributeMoved(s0, ReplicaLabel(1, id));
               && Routable(s1.ring, s1.tables) && ReplicaLabel(2, id) !in s1.ring && id in s1.tables
               && AddReplicasMoved(s, id) == RedistributeMoved(s1, ReplicaLabel(2, id))
  {
    RedistributeMovedNext(s, ReplicaLabel(0, id), ReplicaLabel(1, id));
    RedistributeMovedNext(s, ReplicaLabel(0, id), ReplicaLabel(2, id));
    var s0 := RedistributeMoved(s, ReplicaLabel(0, id));
    RedistributeMovedNext(s0, ReplicaLabel(1, id), ReplicaLabel(2, id));
  }

  /** Adding a server with the move step builds the same ring as
      loader_add_server and keeps the balancer well formed. */
  lemma AddServerMovedWf(s: State, id: nat)
    requires Wf(s) && id < MAX_HASH && id !in s.tables
    ensures var r := AddServerMoved(s, id);
            && r.ring == AddServer(s, id).ring
            && Wf(r) && r.tables.Keys == s.tables.Keys + {id}
  {
    NewServerRoutable(s, id);
    AddServerWf(s, id);
    var s' := State(s.ring, s.tables[id := EmptyTable()]);
    AddReplicasSteps(s', id);
    AddReplicasMovedSteps(s', id);
    var s0 := RedistributeMoved(s', ReplicaLabel(0, id));
    var s1 := RedistributeMoved(s0, ReplicaLabel(1, id));
    RedistributeMovedRoutable(s', ReplicaLabel(0, id));
    RedistributeMovedRoutable(s0, ReplicaLabel(1, id));
    RedistributeMovedRoutable(s1, ReplicaLabel(2, id));
    var t0 := Redistribute(s', ReplicaLabel(0, id));
    assert s0.ring == t0.ring;
    var t1 := Redistribute(t0, ReplicaLabel(1, id));
    assert s1.ring == t1.ring;
  }

  /** The move step keeps every stored key on the server it is routed to. */
  lemma RedistributeMovedPlaced(s: State, serverLabel: u32)
    requires Routable(s.ring, s.tables) && serverLabel !in s.ring
    requires serverLabel < 3 * MAX_HASH && ServerOf(serverLabel) in s.tables
    requires Placed(s.ring, s.tables)
    ensures var r := RedistributeMoved(s, serverLabel);
            Placed(r.ring, r.tables)
  {
    var p := RingPosition(s.ring, serverLabel);
    var ring := Insert(s.ring, p, serverLabel);
    var id := ServerOf(serverLabel);
    var right := if p + 1 == |ring| then 0 else p + 1;
    var rightId := ServerOf(ring[right]);
    var r := RedistributeMoved(s, serverLabel);
    if |s.ring| > 0 && id != rightId {
      var copies := Owned(ring, p, Entries(s.tables[rightId]));
      assert r.tables == s.tables[id := StoreEach(s.tables[id], copies)][rightId := Drop(ring, p, s.tables[rightId])];
      MovedPlaced(s, serverLabel);
    } else if |s.ring| > 0 {
      assert r.tables == s.tables;
      forall j, k | j in s.tables && k in Keys(s.tables[j])
        ensures Owner(ring, k) == j
      {
        InsertOwner(s.ring, serverLabel, k);
      }
    } else {
      assert r.tables == s.tables;
      UnroutedEmpty(s.ring, s.tables);
    }
  }

  /** The tables after a move between two different servers keep every
      stored key on the server it is routed to. */
  lemma MovedPlaced(s: State, serverLabel: u32)
    requires Routable(s.ring, s.tables) && serverLabel !in s.ring
    requires serverLabel < 3 * MAX_HASH && ServerOf(serverLabel) in s.tables
    requires Placed(s.ring, s.tables) && |s.ring| > 0
    requires var p := RingPosition(s.ring, serverLabel);
             var ring := Insert(s.ring, p, serverLabel);
             ServerOf(ring[if p + 1 == |ring| then 0 else p + 1]) != ServerOf(serverLabel)
    ensures var p := RingPosition(s.ring, serverLabel);
            var ring := Insert(s.ring, p, serverLabel);
            var id := ServerOf(serverLabel);
            var rightId := ServerOf(ring[if p + 1 == |ring| then 0 else p + 1]);
            var copies := Owned(ring, p, Entries(s.tables[rightId]));
            Placed(ring, s.tables[id := StoreEach(s.tables[id], copies)][rightId := Drop(ring, p, s.tables[rightId])])
  {
    var p := RingPosition(s.ring, serverLabel);
    var ring := Insert(s.ring, p, serverLabel);
    var id := ServerOf(serverLabel);
    var rightId := ServerOf(ring[if p + 1 == |ring| then 0 else p + 1]);
    var copies := Owned(ring, p, Entries(s.tables[rightId]));
    var moved := s.tables[id := StoreEach(s.tables[id], copies)][rightId := Drop(ring, p, s.tables[rightId])];
    forall j, k | j in moved && k in Keys(moved[j])
      ensures |ring| > 0 && Owner(ring, k) == j
    {
      if j == id {
        StoreEachKeys(s.tables[id], copies);
        if k in KeysOf(copies) {
          var e :| e in copies && e.key == k;
        }
      } else if j != rightId {
        assert moved[j] == s.tables[j];
      }
      MovedKeyOwner(s, serverLabel, j, k);
    }
  }

  /** Where a key of one of the tables after a move is routed: a key the
      neighbour kept, a key the label's server had or took over, and a key
      of any other server all stay with their server. */
  lemma MovedKeyOwner(s: State, serverLabel: u32, j: nat, k: CString)
    requires Routable(s.ring, s.tables) && serverLabel !in s.ring
    requires Placed(s.ring, s.tables) && |s.ring| > 0 && j in s.tables
    requires var p := RingPosition(s.ring, serverLabel);
             var ring := Insert(s.ring, p, serverLabel);
             var id := ServerOf(serverLabel);
             var rightId := ServerOf(ring[if p + 1 == |ring| then 0 else p + 1]);
             && rightId != id
             && (j == rightId ==> k in Keys(s.tables[j]) && KeyPosition(ring, k) != p)
             && (j == id ==> k in Keys(s.tables[j]) || KeyPosition(ring, k) == p)
             && (j != rightId && j != id ==> k in Keys(s.tables[j]))
    ensures Owner(Insert(s.ring, RingPosition(s.ring, serverLabel), serverLabel), k) == j
  {
    InsertOwner(s.ring, serverLabel, k);
    if k in Keys(s.tables[j]) {
      PlacedAt(s.ring, s.tables, {}, j, k);
    }
  }

  /** Inserting a label changes the owner of a key only when the key moves
      to the label, and it then moves away from the server of the label's
      clockwise neighbour. */
  lemma InsertOwner(ring: Ring, serverLabel: u32, key: CString)
    requires |ring| > 0
    ensures var p := RingPosition(ring, serverLabel);
            var ring' := Insert(ring, p, serverLabel);
            var right := if p + 1 == |ring'| then 0 else p + 1;
            && (KeyPosition(ring', key) != p ==> Owner(ring', key) == Owner(ring, key))
            && (KeyPosition(ring', key) == p ==>
                  Owner(ring', key) == ServerOf(serverLabel) && Owner(ring, key) == ServerOf(ring'[right]))
  {
    KeyPositionAfterInsert(ring, serverLabel, key);
    var p := RingPosition(ring, serverLabel);
    var ring' := Insert(ring, p, serverLabel);
    var right := if p + 1 == |ring'| then 0 else p + 1;
    assert ring'[right] == ring[if p == |ring| then 0 else p];
  }

  /** Adding a server with the move step keeps every stored key on the
      server it is routed to. */
  lemma AddServerMovedPlaced(s: State, id: nat)
    requires Wf(s) && id < MAX_HASH && id !in s.tables
    requires Placed(s.ring, s.tables)
    ensures var r := AddServerMoved(s, id);
            Placed(r.ring, r.tables)
  {
    NewServerRoutable(s, id);
    var s' := State(s.ring, s.tables[id := EmptyTable()]);
    EmptyKeys();
    assert Placed(s'.ring, s'.tables);
    AddReplicasMovedSteps(s', id);
    var s0 := RedistributeMoved(s', ReplicaLabel(0, id));
    var s1 := RedistributeMoved(s0, ReplicaLabel(1, id));
    RedistributeMovedPlaced(s', ReplicaLabel(0, id));
    RedistributeMovedPlaced(s0, ReplicaLabel(1, id));
    RedistributeMovedPlaced(s1, ReplicaLabel(2, id));
  }

  /** The move step adds no key to a server other than that of the new label. */
  lemma RedistributeMovedKeys(s: State, serverLabel: u32)
    requires Routable(s.ring, s.tables) && serverLabel !in s.ring
    requires serverLabel < 3 * MAX_HASH && ServerOf(serverLabel) in s.tables
    ensures forall j :: j in s.tables && j != ServerOf(serverLabel) ==>
              Keys(RedistributeMoved(s, serverLabel).tables[j]) <= Keys(s.tables[j])
  {
  }

  /** Adding a server with the move step adds no key to an existing server. */
  lemma AddServerMovedKeys(s: State, id: nat, j: nat)
    requires Wf(s) && id < MAX_HASH && id !in s.tables && j in s.tables
    ensures j in AddServerMoved(s, id).tables && Keys(AddServerMoved(s, id).tables[j]) <= Keys(s.tables[j])
  {
    NewServerRoutable(s, id);
    var s' := State(s.ring, s.tables[id := EmptyTable()]);
    AddReplicasMovedKeys(s', id);
    assert s'.tables[j] == s.tables[j];
  }

  /** The three move steps add no key to a server other than `id`. */
  lemma AddReplicasMovedKeys(s: State, id: nat)
    requires Routable(s.ring, s.tables) && id < MAX_HASH && id in s.tables
    requires forall r :: 0 <= r < 3 ==> ReplicaLabel(r, id) !in s.ring
    ensures AddReplicasMoved(s, id).tables.Keys == s.tables.Keys
    ensures forall j :: j in s.tables && j != id ==>
              Keys(AddReplicasMoved(s, id).tables[j]) <= Keys(s.tables[j])
  {
    AddReplicasMovedSteps(s, id);
    var s0 := RedistributeMoved(s, ReplicaLabel(0, id));
    var s1 := RedistributeMoved(s0, ReplicaLabel(1, id));
    RedistributeMovedKeys(s, ReplicaLabel(0, id));
    RedistributeMovedKeys(s0, ReplicaLabel(1, id));
    RedistributeMovedKeys(s1, ReplicaLabel(2, id));
    RedistributeMovedRoutable(s1, ReplicaLabel(2, id));
  }

  // ------------------------------------------------------------------
  // Storing and removing keep the placement

  /** loader_store keeps every stored key on the server it is routed to. */
  lemma StoreEntryPlaced(ring: Ring, tables: Tables, key: CString, value: CString, skip: set<nat>)
    requires Routable(ring, tables) && |ring| > 0 && PlacedExcept(ring, tables, skip)
    ensures PlacedExcept(ring, StoreEntry(ring, tables, key, value), skip)
  {
    StoreKeys(tables[Owner(ring, key)], key, value);
  }

  /** Storing a run of entries through the ring keeps every key placed. */
  lemma {:induction false} StoreEachEntryPlaced(ring: Ring, tables: Tables, es: seq<KeyValuePair>, skip: set<nat>)
    requires Routable(ring, tables) && (|ring| > 0 || es == []) && PlacedExcept(ring, tables, skip)
    ensures PlacedExcept(ring, StoreEachEntry(ring, tables, es), skip)
    decreases |es|
  {
    if es != [] {
      var n := |es| - 1;
      StoreEachEntryPlaced(ring, tables, es[..n], skip);
      StoreEntryPlaced(ring, StoreEachEntry(ring, tables, es[..n]), es[n].key, es[n].value, skip);
    }
  }

  /** Removing the three labels of `id` moves no key of another server. */
  lemma RemoveLabelsOwner(ring: Ring, id: nat, key: CString)
    requires Sorted(ring) && id < MAX_HASH
    requires forall l :: l in ring ==> l < 3 * MAX_HASH
    requires forall r :: 0 <= r < 3 ==> ReplicaLabel(r, id) in ring
    requires |ring| > 0 && Owner(ring, key) != id
    ensures var r := RemoveLabels(ring, id);
            |r| > 0 && Owner(r, key) == Owner(ring, key)
  {
    RemoveLabelsSteps(ring, id);
    var r0 := RemoveLabel(ring, ReplicaLabel(0, id));
    var r1 := RemoveLabel(r0, ReplicaLabel(1, id));
    RemoveLabelOwner(ring, ReplicaLabel(0, id), key);
    RemoveLabelOwner(r0, ReplicaLabel(1, id), key);
    RemoveLabelOwner(r1, ReplicaLabel(2, id), key);
  }

  /** remove_from_hashring keeps a key on its label unless it removes that label. */
  lemma RemoveLabelOwner(ring: Ring, serverLabel: u32, key: CString)
    requires Sorted(ring) && serverLabel in ring
    requires ring[KeyPosition(ring, key)] != serverLabel
    ensures var r := RemoveLabel(ring, serverLabel);
            |r| > 0 && r[KeyPosition(r, key)] == ring[KeyPosition(ring, key)]
  {
    PositionOfMember(ring, serverLabel);
    KeyPositionAfterDelete(ring, RingPosition(ring, serverLabel), key);
  }

  /** loader_remove_server keeps every stored key on the server it is
      routed to. */
  lemma RemoveServerPlaced(s: State, id: nat)
    requires Wf(s) && id in s.tables
    requires |s.ring| > 3 || Count(s.tables[id]) == 0
    requires Placed(s.ring, s.tables)
    ensures var r := RemoveServer(s, id);
            Placed(r.ring, r.tables)
  {
    var ring := RemoveLabels(s.ring, id);
    RemoveLabelsRoutable(s, id);
    RemoveLabelsPlaced(s, id);
    var tables := StoreEachEntry(ring, s.tables, Entries(s.tables[id]));
    StoreEachEntryPlaced(ring, s.tables, Entries(s.tables[id]), {id});
    assert RemoveServer(s, id) == State(ring, tables - {id});
    PlacedWithout(ring, tables, id);
  }

  /** Once the labels of `id` are gone, every other server's keys still
      route to it. */
  lemma RemoveLabelsPlaced(s: State, id: nat)
    requires Wf(s) && id in s.tables && Placed(s.ring, s.tables)
    ensures PlacedExcept(RemoveLabels(s.ring, id), s.tables, {id})
  {
    var ring := RemoveLabels(s.ring, id);
    forall j, k | j in s.tables && j != id && k in Keys(s.tables[j])
      ensures |ring| > 0 && Owner(ring, k) == j
    {
      PlacedAt(s.ring, s.tables, {}, j, k);
      RemoveLabelsOwner(s.ring, id, k);
    }
  }

  /** The table of a server left out of the placement can go. */
  lemma PlacedWithout(ring: Ring, tables: Tables, id: nat)
    requires PlacedExcept(ring, tables, {id})
    ensures Placed(ring, tables - {id})
  {
    forall j: int, k: CString | j in tables && j != id && k in Keys(tables[j])
      ensures |ring| > 0 && Owner(ring, k) == j
    {
      PlacedAt(ring, tables, {id}, j, k);
    }
    assert PlacedExcept(ring, tables - {id}, {});
  }

  /** loader_store leaves the value of every key incomparable with all the
      stored keys alone. */
  lemma {:induction false} RetrieveStoreEachEntryOther(ring: Ring, tables: Tables, es: seq<KeyValuePair>, key: CString)
    requires Routable(ring, tables) && |ring| > 0
    requires forall e :: e in es ==> Incomparable(e.key, key)
    ensures RetrieveEntry(ring, StoreEachEntry(ring, tables, es), key) == RetrieveEntry(ring, tables, key)
    decreases |es|
  {
    if es != [] {
      var n := |es| - 1;
      assert es[n] in es;
      RetrieveStoreEachEntryOther(ring, tables, es[..n], key);
      RetrieveStoreEntryOther(ring, StoreEachEntry(ring, tables, es[..n]), es[n].key, es[n].value, key);
    }
  }

  /** With every key placed, loader_remove_server changes nothing for a key
      routed to another server, when none of the removed server's keys is
      a prefix of it or has it as a prefix. */
  lemma RemoveServerServesOthers(s: State, id: nat, key: CString)
    requires Wf(s) && id in s.tables
    requires |s.ring| > 3 || Count(s.tables[id]) == 0
    requires Placed(s.ring, s.tables)
    requires |s.ring| > 0 && Owner(s.ring, key) != id
    requires forall x :: x in Keys(s.tables[id]) ==> x == key || Incomparable(x, key)
    ensures var r := RemoveServer(s, id);
            && Wf(r) && Placed(r.ring, r.tables) && |r.ring| > 0
            && RetrieveEntry(r.ring, r.tables, key) == RetrieveEntry(s.ring, s.tables, key)
  {
    RemoveServerWf(s, id);
    RemoveServerPlaced(s, id);
    RemoveLabelsRoutable(s, id);
    RemoveLabelsOwner(s.ring, id, key);
    var ring := RemoveLabels(s.ring, id);
    var es := Entries(s.tables[id]);
    forall e | e in es
      ensures Incomparable(e.key, key)
    {
      EntryKeys(s.tables[id], e);
    }
    RetrieveStoreEachEntryOther(ring, s.tables, es, key);
  }

  /** With every key placed, a value stored for a key that another server
      owns is still served after server `b` is removed, when none of the
      keys of `b` is a prefix of it or has it as a prefix. */
  lemma StoreThenRemoveServer(s: State, b: nat, k: CString, v: CString)
    requires Wf(s) && Placed(s.ring, s.tables)
    requires b in s.tables && |s.ring| > 3 && Owner(s.ring, k) != b
    requires forall x :: x in Keys(s.tables[b]) ==> x == k || Incomparable(x, k)
    ensures var s2 := State(s.ring, StoreEntry(s.ring, s.tables, k, v));
            && Wf(s2) && Placed(s2.ring, s2.tables) && b in s2.tables
            && var s3 := RemoveServer(s2, b);
               && Wf(s3) && Placed(s3.ring, s3.tables) && |s3.ring| > 0
               && RetrieveEntry(s3.ring, s3.tables, k) == Some(v)
  {
    var s2 := State(s.ring, StoreEntry(s.ring, s.tables, k, v));
    StoreEntryPlaced(s.ring, s.tables, k, v, {});
    RetrieveAfterStoreEntry(s.ring, s.tables, k, v);
    assert s2.tables[b] == s.tables[b];
    RemoveServerServesOthers(s2, b, k);
  }

  /** The intended behaviour: a key held by server `b` moves to a new
      server `c`, is then stored with a new value, and `b` is removed; the
      new value is served. */
  lemma MovedServesLastStore(s: State, b: nat, c: nat, k: CString, v: CString)
    requires Wf(s) && Placed(s.ring, s.tables)
    requires c < MAX_HASH && c !in s.tables && b in s.tables
    requires forall x :: x in Keys(s.tables[b]) ==> x == k || Incomparable(x, k)
    requires var s1 := AddServerMoved(s, c); |s1.ring| > 0 && Owner(s1.ring, k) != b
    ensures var s1 := AddServerMoved(s, c);
            && Wf(s1) && Placed(s1.ring, s1.tables)
            && var s2 := State(s1.ring, StoreEntry(s1.ring, s1.tables, k, v));
               && Wf(s2) && Placed(s2.ring, s2.tables) && b in s2.tables
               && var s3 := RemoveServer(s2, b);
                  && Wf(s3) && Placed(s3.ring, s3.tables) && |s3.ring| > 0
                  && RetrieveEntry(s3.ring, s3.tables, k) == Some(v)
  {
    AddServerMovedWf(s, c);
    AddServerMovedPlaced(s, c);
    AddServerMovedKeys(s, c, b);
    AddServerRing(s, c);
    var labelsLeft := RemoveLabels(s.ring, b);
    StoreThenRemoveServer(AddServerMoved(s, c), b, k, v);
  }

  // ------------------------------------------------------------------
  // Keys

  /** With no label on the ring, no server stores a key. */
  lemma UnroutedEmpty(ring: Ring, tables: Tables)
    requires Placed(ring, tables) && |ring| == 0
    ensures forall j :: j in tables ==> Keys(tables[j]) == {}
  {
    forall j | j in tables
      ensures Keys(tables[j]) == {}
    {
      if k :| k in Keys(tables[j]) {
        PlacedAt(ring, tables, {}, j, k);
      }
    }
  }

  /** One instance of the placement. */
  lemma PlacedAt(ring: Ring, tables: Tables, skip: set<nat>, j: nat, k: CString)
    requires PlacedExcept(ring, tables, skip)
    requires j in tables && j !in skip && k in Keys(tables[j])
    ensures |ring| > 0 && Owner(ring, k) == j
  {
  }

  /** The keys of an entry of a table are keys of the table. */
  lemma {:induction false} EntryKeys(t: seq<Chain>, e: KeyValuePair)
    requires e in Entries(t)
    ensures e.key in Keys(t)
    decreases |t|
  {
    var n := |t| - 1;
    if e in t[n] {
      var i :| 0 <= i < |t[n]| && t[n][i] == e;
      assert t[n][i].key in Keys(t);
    } else {
      EntryKeys(t[..n], e);
      var b, i :| 0 <= b < n && 0 <= i < |t[..n][b]| && t[..n][b][i].key == e.key;
      assert t[b][i].key in Keys(t);
    }
  }

  /** An empty table stores no key. */
  lemma EmptyKeys()
    ensures Keys(EmptyTable()) == {}
  {
  }

  /** server_store adds no key but its own. */
  lemma StoreKeys(t: Table, key: CString, value: CString)
    requires Shaped(t)
    ensures Keys(Store(t, key, value)) <= Keys(t) + {key}
  {
    var u := Store(t, key, value);
    var b := BucketIndex(key);
    forall k | k in Keys(u)
      ensures k in Keys(t) || k == key
    {
      var c, i :| 0 <= c < |u| && 0 <= i < |u[c]| && u[c][i].key == k;
      if c != b {
        assert t[c][i].key in Keys(t);
      } else {
        match FindKey(t[b], key)
        case Some(j) =>
          assert t[b][i].key in Keys(t);
        case None =>
          if i < |t[b]| {
            assert t[b][i].key in Keys(t);
          }
      }
    }
  }

  /** Storing a run of entries adds no key but theirs. */
  lemma {:induction false} StoreEachKeys(t: Table, es: seq<KeyValuePair>)
    requires Shaped(t)
    ensures Keys(StoreEach(t, es)) <= Keys(t) + KeysOf(es)
    decreases |es|
  {
    if es != [] {
      var n := |es| - 1;
      StoreEachKeys(t, es[..n]);
      StoreKeys(StoreEach(t, es[..n]), es[n].key, es[n].value);
      forall k | k in KeysOf(es[..n])
        ensures k in KeysOf(es)
      {
        var e :| e in es[..n] && e.key == k;
      }
      assert es[n] in es;
    }
  }

  /** The filtered buckets keep their places and lose the keys of `p`. */
  lemma DropFacts(ring: Ring, p: nat, t: Table, r: Table)
    requires Shaped(t) && WellPlaced(t) && |r| == |t|
    requires forall b :: 0 <= b < |t| ==> r[b] == Kept(ring, p, t[b])
    ensures Shaped(r) && WellPlaced(r)
    ensures forall k :: k in Keys(r) ==> k in Keys(t) && KeyPosition(ring, k) != p
  {
    forall b, j | 0 <= b < HMAX && 0 <= j < |r[b]|
      ensures BucketIndex(r[b][j].key) == b
    {
      assert r[b][j] in Kept(ring, p, t[b]);
      var i :| 0 <= i < |t[b]| && t[b][i] == r[b][j];
    }
    forall k | k in Keys(r)
      ensures k in Keys(t) && KeyPosition(ring, k) != p
    {
      var b, j :| 0 <= b < |r| && 0 <= j < |r[b]| && r[b][j].key == k;
      assert r[b][j] in Kept(ring, p, t[b]);
      var i :| 0 <= i < |t[b]| && t[b][i] == r[b][j];
      assert t[b][i].key in Keys(t);
    }
  }
}
