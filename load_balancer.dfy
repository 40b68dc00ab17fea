/** The load balancer of load_balancer.c: an array of MAX_HASH server slots
    and the hash ring, a circular list of replica labels kept in increasing
    order of label hash. Its ghost `Tables` holds the table of every server
    that exists, so that `Abstract()` is the value state of balancer.dfy. */
module LoadBalancing {
  import opened Words
  import opened Hashing
  import opened Hashtable
  import opened HashRing
  import opened Balancer
  import opened CircularList
  import opened Server

  /** hashring_position: walks the ring from its head and stops at the first
      label whose hash is at least the hash of `serverLabel`; the size of
      the ring when there is none. */
  method HashringPosition(hashring: List<u32>, serverLabel: u32) returns (p: nat)
    requires hashring.Valid()
    ensures p == RingPosition(hashring.Contents, serverLabel)
  {
    var h := HashServers(serverLabel);
    var current := hashring.head;
    var i := 0;
    while i < hashring.size
      invariant 0 <= i <= hashring.size
      invariant i < hashring.size ==> current == hashring.Nodes[i]
      invariant forall j :: 0 <= j < i ==> HashServers(hashring.Contents[j]) < h
    {
      if h <= HashServers(current.data) {
        FirstAtLeastAt(hashring.Contents, h, i);
        return i;
      }
      current := current.next;
      i := i + 1;
    }
    FirstAtLeastNone(hashring.Contents, h);
    return hashring.size;
  }

  /** key_hashring_position: the same walk with the key hash; past the last
      label the key goes to position 0. */
  method KeyHashringPosition(hashring: List<u32>, key: CString) returns (p: nat)
    requires hashring.Valid()
    ensures p == KeyPosition(hashring.Contents, key)
  {
    var h := HashKey(key);
    var current := hashring.head;
    var i := 0;
    while i < hashring.size
      invariant 0 <= i <= hashring.size
      invariant i < hashring.size ==> current == hashring.Nodes[i]
      invariant forall j :: 0 <= j < i ==> HashServers(hashring.Contents[j]) < h
    {
      if h <= HashServers(current.data) {
        FirstAtLeastAt(hashring.Contents, h, i);
        return i;
      }
      current := current.next;
      i := i + 1;
    }
    FirstAtLeastNone(hashring.Contents, h);
    return 0;
  }

  /** The outer loop of add_redistribute_objects (load_balancer.c:167-187):
      every bucket of `source` in turn. */
  method CopyServer(hashring: List<u32>, p: nat, target: ServerMemory, source: ServerMemory)
    requires hashring.Valid() && target.Valid() && source.Valid()
    requires hashring.Repr !! target.Repr && source.Repr !! target.Repr
    modifies target.Repr
    ensures target.Valid() && fresh(target.Repr - old(target.Repr))
    ensures target.Chains == StoreEach(old(target.Chains), Owned(old(hashring.Contents), p, Entries(old(source.Chains))))
  {
    ghost var chains := source.Chains;
    var i := 0;
    while i < target.hmax
      invariant 0 <= i <= HMAX && target.Valid() && fresh(target.Repr - old(target.Repr))
      invariant source.Valid() && source.Chains == chains && hashring.Valid()
      invariant target.Chains == StoreEach(old(target.Chains), Owned(hashring.Contents, p, Entries(chains[..i])))
    {
      assert source.BucketValid(i);
      CopyBucket(hashring, p, target, source.buckets[i]);
      CopyStep(hashring.Contents, p, old(target.Chains), chains, i);
      i := i + 1;
    }
    assert chains[..i] == chains;
  }

  /** The inner loop of add_redistribute_objects (load_balancer.c:168-186):
      walks one bucket of the neighbour server and stores into `target`
      every entry whose key lands on ring position `p`. */
  method CopyBucket(hashring: List<u32>, p: nat, target: ServerMemory, bucket: List<KeyValuePair>)
    requires hashring.Valid() && target.Valid() && bucket.Valid()
    requires hashring.Repr !! target.Repr && bucket.Repr !! target.Repr
    modifies target.Repr
    ensures target.Valid() && fresh(target.Repr - old(target.Repr))
    ensures target.Chains == StoreEach(old(target.Chains), Owned(old(hashring.Contents), p, old(bucket.Contents)))
  {
    ghost var chain := bucket.Contents;
    var current := bucket.head;
    var j := 0;
    while j < bucket.size
      invariant 0 <= j <= bucket.size && bucket.Valid() && bucket.Contents == chain && hashring.Valid()
      invariant j < bucket.size ==> current == bucket.Nodes[j]
      invariant target.Valid() && fresh(target.Repr - old(target.Repr))
      invariant target.Chains == StoreEach(old(target.Chains), Owned(hashring.Contents, p, chain[..j]))
    {
      EntryStep(hashring.Contents, p, old(target.Chains), chain, j);
      CopyIfOwned(hashring, p, target, current.data);
      current := current.next;
      j := j + 1;
    }
    assert chain[..j] == chain;
  }

  /** The body of the inner loop of add_redistribute_objects
      (load_balancer.c:172-184): the entry goes into `target` when its key
      lands on ring position `p`. */
  method CopyIfOwned(hashring: List<u32>, p: nat, target: ServerMemory, entry: KeyValuePair)
    requires hashring.Valid() && target.Valid() && hashring.Repr !! target.Repr
    modifies target.Repr
    ensures target.Valid() && fresh(target.Repr - old(target.Repr))
    ensures KeyPosition(hashring.Contents, entry.key) == p ==>
              target.Chains == Store(old(target.Chains), entry.key, entry.value)
    ensures KeyPosition(hashring.Contents, entry.key) != p ==> target.Chains == old(target.Chains)
  {
    var position := KeyHashringPosition(hashring, entry.key);
    if position == p {
      target.Store(entry.key, entry.value);
    }
  }

  class LoadBalancer {
    const serversHt: array<ServerMemory?>
    const hashring: List<u32>

    ghost var Tables: Tables
    ghost var Repr: set<object>

    /** The ring is a valid list apart from the balancer and its slots. */
    ghost predicate RingValid()
      reads hashring, hashring.Repr
    {
      hashring.Valid() && this !in hashring.Repr && serversHt !in hashring.Repr
    }

    /** The server in slot `id` is valid and apart from the balancer, the
        slots and the ring. */
    ghost predicate ServerValid(id: nat)
      requires id < serversHt.Length
      reads serversHt, hashring
      reads if serversHt[id] != null then {serversHt[id]} + serversHt[id].Repr else {}
    {
      var m := serversHt[id];
      && m != null && m.Valid()
      && this !in m.Repr && serversHt !in m.Repr && m.Repr !! hashring.Repr
    }

    /** The objects of the server in slot `id`, if there is one. */
    ghost function SlotRepr(id: nat): set<object>
      reads serversHt, if id < serversHt.Length && serversHt[id] != null then {serversHt[id]} else {}
    {
      if id < serversHt.Length && serversHt[id] != null then serversHt[id].Repr else {}
    }

    /** The representation invariant that holds between the steps of adding
        or removing a server: the ring and the servers are valid, apart from
        one another, the servers hold `Tables`, and the ring routes every key
        to a server that exists. */
    ghost predicate Inner()
      reads this, Repr
    {
      this in Repr && Holds(Tables, Repr)
    }

    /** Inner with the ghost fields as parameters. It does not read the
        balancer itself, so it survives an update of `Tables` and `Repr`. */
    ghost predicate Holds(tables: Tables, repr: set<object>)
      reads repr - {this}
    {
      && serversHt in repr && hashring in repr && hashring.Repr <= repr && this !in hashring.Repr
      && RingValid()
      && serversHt.Length == MAX_HASH
      && (forall id :: id in tables ==> id < MAX_HASH)
      && (forall id {:trigger serversHt[id]} :: id in tables ==>
            && id < MAX_HASH && serversHt[id] != null
            && serversHt[id] in repr && serversHt[id].Repr <= repr && this !in serversHt[id].Repr
            && ServerValid(id) && serversHt[id].Chains == tables[id])
      && (forall i, j {:trigger serversHt[i], serversHt[j]} :: i in tables && j in tables && i != j ==>
            && i < MAX_HASH && j < MAX_HASH && serversHt[i] != null && serversHt[j] != null
            && serversHt[i].Repr !! serversHt[j].Repr)
      && Routable(hashring.Contents, tables)
    }

    /** The full invariant: in addition, every server has its three labels
        on the ring. */
    ghost predicate Valid()
      reads this, Repr
    {
      Inner() && Complete(hashring.Contents, Tables)
    }

    /** The value state this balancer holds. */
    ghost function Abstract(): State
      reads this, hashring
    {
      State(hashring.Contents, Tables)
    }

    /** init_load_balancer: no server and an empty ring. */
    constructor ()
      ensures Valid() && fresh(Repr)
      ensures Tables == map[] && hashring.Contents == []
    {
      serversHt := new ServerMemory?[MAX_HASH](_ => null);
      var l := new List<u32>();
      hashring := l;
      Tables := map[];
      Repr := {this, serversHt} + l.Repr;
      new;
    }

    /** server_store on the server in slot `id`. */
    method StoreInto(id: nat, key: CString, value: CString)
      requires Inner() && id in Tables
      modifies this, serversHt[id].Repr
      ensures Inner() && fresh(Repr - old(Repr))
      ensures fresh(serversHt[id].Repr - old(serversHt[id].Repr))
      ensures Abstract() == State(old(hashring.Contents), old(Tables)[id := Store(old(Tables)[id], key, value)])
    {
      var m := serversHt[id];
      assert ServerValid(id);
      m.Store(key, value);
      StoredHolds(id);
      Tables, Repr := Tables[id := m.Chains], Repr + m.Repr;
    }

    /** Once server `id` changed in place and gained only fresh objects, the
        invariant holds of the tables with its new table. */
    twostate lemma StoredHolds(id: nat)
      requires old(Inner()) && id in old(Tables)
      requires unchanged(old(Repr) - old(serversHt[id].Repr))
      requires serversHt[id].Valid() && fresh(serversHt[id].Repr - old(serversHt[id].Repr))
      ensures Holds(old(Tables)[id := serversHt[id].Chains], old(Repr) + serversHt[id].Repr)
    {
      var m := serversHt[id];
      assert old(hashring.Repr) !! old(m.Repr);
      StoredValid(id);
      OthersKept(id);
      RoutableUpdate(hashring.Contents, old(Tables), id, m.Chains);
      var tables := old(Tables)[id := m.Chains];
      forall i, j | i in tables && j in tables && i != j
        ensures serversHt[i].Repr !! serversHt[j].Repr
      {
        assert old(serversHt[i].Repr) !! old(serversHt[j].Repr);
      }
    }

    /** Server `id` and the ring are still valid once the objects of that
        server changed and it gained only fresh ones. */
    twostate lemma StoredValid(id: nat)
      requires id < serversHt.Length && old(serversHt[id]) != null && unchanged(serversHt)
      requires old(RingValid()) && old(serversHt[id].Repr) !! old(hashring.Repr)
      requires this !in old(serversHt[id].Repr) && serversHt !in old(serversHt[id].Repr)
      requires unchanged(old(hashring.Repr))
      requires serversHt[id].Valid() && fresh(serversHt[id].Repr - old(serversHt[id].Repr))
      ensures ServerValid(id) && RingValid() && hashring.Contents == old(hashring.Contents)
    {
    }

    /** The servers other than `id` are left as they were. */
    twostate lemma OthersKept(id: nat)
      requires old(Inner()) && id in old(Tables)
      requires unchanged(old(Repr) - old(serversHt[id].Repr) - {this})
      ensures forall j :: j in old(Tables) && j != id ==>
                ServerValid(j) && serversHt[j].Chains == old(Tables)[j] && serversHt[j].Repr == old(serversHt[j].Repr)
    {
      forall j | j in old(Tables) && j != id
        ensures ServerValid(j) && serversHt[j].Chains == old(Tables)[j] && serversHt[j].Repr == old(serversHt[j].Repr)
      {
        assert old(serversHt[j].Repr) !! old(serversHt[id].Repr);
      }
    }

    /** The label at a ring position and the id of its server, as
        loader_store and loader_retrieve read them. */
    method ServerAt(position: nat) returns (serverId: nat)
      requires Inner() && position < hashring.size
      ensures serverId == ServerOf(hashring.Contents[position]) && serverId in Tables
    {
      var serverLabel := hashring.GetNode(position);
      ModSmall(position, hashring.size);
      serverId := serverLabel.data % MAX_HASH;
      assert hashring.Contents[position] in hashring.Contents;
    }

    /** loader_store: the key's position on the ring, the label there, and
        the store into that label's server, whose id is returned. An empty
        ring makes get_node divide by zero, so the ring must have a label. */
    method LoaderStore(key: CString, value: CString) returns (serverId: nat)
      requires Inner() && hashring.size > 0
      modifies this, SlotRepr(Owner(hashring.Contents, key))
      ensures Inner() && fresh(Repr - old(Repr))
      ensures serverId == Owner(old(hashring.Contents), key)
      ensures Abstract() == State(old(hashring.Contents), StoreEntry(old(hashring.Contents), old(Tables), key, value))
    {
      var position := KeyHashringPosition(hashring, key);
      serverId := ServerAt(position);
      StoreInto(serverId, key, value);
    }

    /** loader_retrieve: the value the key's owner holds for it, and that
        owner's id. */
    method LoaderRetrieve(key: CString) returns (r: Option<CString>, serverId: nat)
      requires Inner() && hashring.size > 0
      ensures serverId == Owner(hashring.Contents, key)
      ensures r == RetrieveEntry(hashring.Contents, Tables, key)
    {
      var position := KeyHashringPosition(hashring, key);
      serverId := ServerAt(position);
      assert ServerValid(serverId);
      r := serversHt[serverId].Retrieve(key);
    }

    /** Once the ring changed in place and gained only fresh objects, the
        invariant holds again with the same tables, provided the new ring
        still routes every key. */
    twostate lemma RingChangedHolds()
      requires old(Inner())
      requires unchanged(old(Repr) - old(hashring.Repr))
      requires hashring.Valid() && fresh(hashring.Repr - old(hashring.Repr))
      requires Routable(hashring.Contents, old(Tables))
      ensures Holds(old(Tables), old(Repr) + hashring.Repr)
    {
      forall id | id in old(Tables)
        ensures ServerValid(id) && serversHt[id].Chains == old(Tables)[id]
      {
        assert old(serversHt[id].Repr) !! old(hashring.Repr);
      }
    }

    /** The add_node call of add_redistribute_objects: the label goes in at
        its ring position. */
    method InsertLabel(p: nat, serverLabel: u32)
      requires Inner() && serverLabel !in hashring.Contents
      requires serverLabel < 3 * MAX_HASH && ServerOf(serverLabel) in Tables
      requires p == RingPosition(hashring.Contents, serverLabel)
      modifies this, hashring.Repr
      ensures Inner() && fresh(Repr - old(Repr))
      ensures Abstract() == State(Insert(old(hashring.Contents), p, serverLabel), old(Tables))
    {
      InsertRoutable(hashring.Contents, Tables, serverLabel);
      hashring.AddNode(p, serverLabel);
      RingChangedHolds();
      Repr := Repr + hashring.Repr;
    }

    /** The copy step of add_redistribute_objects on the balancer: server
        `id` receives the entries of server `rightId` that ring position `p`
        owns. */
    method CopyOwnedFrom(p: nat, id: nat, rightId: nat)
      requires Inner() && id in Tables && rightId in Tables && id != rightId
      modifies this, serversHt[id].Repr
      ensures Inner() && fresh(Repr - old(Repr))
      ensures Abstract() ==
                State(old(hashring.Contents), old(Tables)[id := StoreEach(old(Tables)[id], Owned(old(hashring.Contents), p, Entries(old(Tables)[rightId])))])
    {
      var target := serversHt[id];
      var source := serversHt[rightId];
      assert ServerValid(id) && ServerValid(rightId);
      assert source.Repr !! target.Repr && source.Chains == Tables[rightId] && target.Chains == Tables[id];
      CopyServer(hashring, p, target, source);
      ghost var copied := target.Chains;
      assert copied == StoreEach(old(Tables)[id], Owned(old(hashring.Contents), p, Entries(old(Tables)[rightId])));
      StoredHolds(id);
      Tables, Repr := old(Tables)[id := copied], Repr + target.Repr;
    }

    /** add_redistribute_objects: the label goes on the ring, then the copy
        step. */
    method AddRedistributeObjects(serverLabel: u32)
      requires Inner() && serverLabel !in hashring.Contents
      requires serverLabel < 3 * MAX_HASH && ServerOf(serverLabel) in Tables
      modifies Repr
      ensures Inner() && fresh(Repr - old(Repr))
      ensures Abstract() == Redistribute(old(Abstract()), serverLabel)
    {
      var p := HashringPosition(hashring, serverLabel);
      InsertLabel(p, serverLabel);
      ghost var R1 := Repr;
      CopyToLabel(p);
      assert fresh(Repr - R1) && fresh(R1 - old(Repr));
      assert Repr - old(Repr) <= (Repr - R1) + (R1 - old(Repr));
    }

    /** The copy step of add_redistribute_objects once the label sits at
        ring position `p` (load_balancer.c:140-187): unless it is alone on
        the ring or its clockwise neighbour belongs to the same server, the
        neighbour server's entries that the label owns are copied into the
        label's server. */
    method CopyToLabel(p: nat)
      requires Inner() && p < hashring.size
      modifies this, serversHt[ServerOf(hashring.Contents[p])].Repr
      ensures Inner() && fresh(Repr - old(Repr))
      ensures Abstract() == State(old(hashring.Contents), CopyOwned(old(hashring.Contents), p, old(Tables)))
    {
      ghost var s := Abstract();
      var serverLabel := hashring.GetNode(p);
      ModSmall(p, hashring.size);
      var id := serverLabel.data % MAX_HASH;
      assert s.ring[p] in s.ring;
      if hashring.size <= 1 {
        return;
      }
      var right := p + 1;
      if right == hashring.size {
        right := 0;
      }
      var rightNode := hashring.GetNode(right);
      ModSmall(right, hashring.size);
      var rightId := rightNode.data % MAX_HASH;
      assert s.ring[right] in s.ring;
      if id == rightId {
        return;
      }
      CopyOwnedFrom(p, id, rightId);
    }
      /** Once slot `id`, empty in the tables, received a fresh valid server
        and nothing else changed, the invariant holds of the tables with the
        new server's table. */
    twostate lemma NewServerHolds(id: nat)
      requires old(Inner()) && id < MAX_HASH && id !in old(Tables)
      requires unchanged(old(Repr) - {serversHt})
      requires forall j :: 0 <= j < MAX_HASH && j != id ==> serversHt[j] == old(serversHt[j])
      requires serversHt[id] != null && serversHt[id].Valid() && fresh(serversHt[id].Repr)
      requires Routable(hashring.Contents, old(Tables)[id := serversHt[id].Chains])
      ensures Holds(old(Tables)[id := serversHt[id].Chains], old(Repr) + serversHt[id].Repr)
    {
      forall j | j in old(Tables)
        ensures ServerValid(j) && serversHt[j].Chains == old(Tables)[j] && serversHt[j].Repr == old(serversHt[j].Repr)
      {
        assert serversHt[j] == old(serversHt[j]) && old(ServerValid(j));
      }
    }

    /** The first step of loader_add_server: init_server_memory fills slot
        `id`, and the new server's table is empty. */
    method AttachServer(id: nat)
      requires Inner() && id < MAX_HASH && id !in Tables
      requires Routable(hashring.Contents, Tables[id := EmptyTable()])
      modifies this, serversHt
      ensures Inner() && fresh(Repr - old(Repr))
      ensures Abstract() == State(old(hashring.Contents), old(Tables)[id := EmptyTable()])
    {
      var m := new ServerMemory();
      serversHt[id] := m;
      NewServerHolds(id);
      Tables, Repr := Tables[id := m.Chains], Repr + m.Repr;
    }

    /** The second and third add_redistribute_objects calls of
        loader_add_server, from the state `s0` the first one left; `s1` is
        the state the second one leaves. */
    method RedistributeLater(id: nat, ghost s0: State, ghost s1: State)
      requires Inner() && id < MAX_HASH && Abstract() == s0
      requires Routable(s0.ring, s0.tables) && ReplicaLabel(1, id) !in s0.ring && id in s0.tables
      requires s1 == Redistribute(s0, ReplicaLabel(1, id))
      requires Routable(s1.ring, s1.tables) && ReplicaLabel(2, id) !in s1.ring && id in s1.tables
      modifies Repr
      ensures Inner()
      ensures Abstract() == Redistribute(s1, ReplicaLabel(2, id))
    {
      var serverLabel1 := ReplicaLabel(1, id);
      var serverLabel2 := ReplicaLabel(2, id);
      AddRedistributeObjects(serverLabel1);
      assert hashring.Contents == s1.ring && Tables == s1.tables;
      AddRedistributeObjects(serverLabel2);
    }

    /** The three add_redistribute_objects calls of loader_add_server. */
    method RedistributeReplicas(id: nat)
      requires Inner() && id < MAX_HASH && id in Tables
      requires Routable(hashring.Contents, Tables)
      requires forall r :: 0 <= r < 3 ==> ReplicaLabel(r, id) !in hashring.Contents
      modifies Repr
      ensures Inner()
      ensures Abstract() == AddReplicas(old(Abstract()), id)
    {
      ghost var s := Abstract();
      AddReplicasSteps(s, id);
      ghost var s0 := Redistribute(s, ReplicaLabel(0, id));
      AddRedistributeObjects(id);
      RedistributeLater(id, s0, Redistribute(s0, ReplicaLabel(1, id)));
    }

    /** loader_add_server: a new server in slot `id`, then the
        redistribution for each of its three labels. */
    method LoaderAddServer(id: nat)
      requires Valid() && id < MAX_HASH && id !in Tables
      modifies Repr
      ensures Valid()
      ensures Abstract() == AddServer(old(Abstract()), id)
    {
      NewServerRoutable(Abstract(), id);
      AddServerWf(Abstract(), id);
      AttachServer(id);
      RedistributeReplicas(id);
    }

    /** remove_from_hashring: the label leaves the ring at the position
        hashring_position finds for it. */
    method RemoveFromHashring(serverLabel: u32)
      requires Inner() && serverLabel in hashring.Contents
      modifies hashring.Repr
      ensures Inner() && Repr == old(Repr) && hashring.Repr == old(hashring.Repr) && Tables == old(Tables)
      ensures hashring.Contents == RemoveLabel(old(hashring.Contents), serverLabel)
    {
      ghost var ring := hashring.Contents;
      assert Routable(ring, Tables);
      RemoveLabelRoutable(ring, Tables, serverLabel);
      var position := HashringPosition(hashring, serverLabel);
      PositionOfMember(ring, serverLabel);
      var removed := hashring.RemoveNode(position);
      RingChangedHolds();
      assert old(Repr) + hashring.Repr == Repr;
    }

    /** free_server_memory on the removed server: it leaves the tables.
        A server without a label on the ring receives no key, so the ring
        still routes every key to a server that exists. */
    method FreeServer(id: nat)
      requires Inner() && id in Tables
      requires forall l :: l in hashring.Contents ==> ServerOf(l) != id
      modifies this
      ensures Inner() && Repr == old(Repr)
      ensures Abstract() == State(old(hashring.Contents), old(Tables) - {id})
    {
      RoutableWithout(hashring.Contents, Tables, id);
      Tables := Tables - {id};
    }

    /** The loader_store call of loader_remove_server for one entry of
        server `id`: the ring no longer holds a label of `id`, so the entry
        goes to another server and server `id` is left as it was. */
    method RestoreEntry(id: nat, e: KeyValuePair)
      requires Inner() && id in Tables && hashring.size > 0
      requires forall l :: l in hashring.Contents ==> ServerOf(l) != id
      modifies Repr - SlotRepr(id)
      ensures Inner() && fresh(Repr - old(Repr)) && id in Tables && SlotRepr(id) == old(SlotRepr(id))
      ensures Abstract() == State(old(hashring.Contents), StoreEntry(old(hashring.Contents), old(Tables), e.key, e.value))
    {
      ghost var ring := hashring.Contents;
      var owner := Owner(ring, e.key);
      assert ring[KeyPosition(ring, e.key)] in ring;
      assert ServerValid(id) && ServerValid(owner) && SlotRepr(owner) !! SlotRepr(id);
      var newServer := LoaderStore(e.key, e.value);
    }

    /** The inner loop of loader_remove_server (load_balancer.c:238-255):
        every entry of one bucket of server `id` goes to loader_store, and
        the count of entries left goes down by one each time; `done` when
        it reaches zero, which ends the walk. */
    method RestoreBucket(id: nat, bucket: List<KeyValuePair>, remaining: int) returns (left: int, done: bool)
      requires Inner() && id in Tables
      requires forall l :: l in hashring.Contents ==> ServerOf(l) != id
      requires bucket.Valid() && bucket.Repr <= SlotRepr(id)
      requires hashring.size > 0 || bucket.Contents == []
      requires remaining >= bucket.size
      modifies Repr - SlotRepr(id)
      ensures Inner() && fresh(Repr - old(Repr)) && id in Tables && SlotRepr(id) == old(SlotRepr(id))
      ensures left == remaining - |old(bucket.Contents)|
      ensures done <==> left == 0 && |old(bucket.Contents)| > 0
      ensures Abstract() ==
                State(old(hashring.Contents), StoreEachEntry(old(hashring.Contents), old(Tables), old(bucket.Contents)))
    {
      ghost var chain := bucket.Contents;
      ghost var ring := hashring.Contents;
      ghost var tables := Tables;
      ghost var slot := SlotRepr(id);
      var current := bucket.head;
      left := remaining;
      done := false;
      var j := 0;
      while j < bucket.size && !done
        invariant 0 <= j <= bucket.size && bucket.Contents == chain
        invariant j < bucket.size ==> current == bucket.Nodes[j]
        invariant Inner() && fresh(Repr - old(Repr)) && id in Tables && SlotRepr(id) == slot
        invariant left == remaining - j && (done <==> j > 0 && left == 0)
        invariant Abstract() == State(ring, StoreEachEntry(ring, tables, chain[..j]))
      {
        StoreEachEntryStep(ring, tables, chain, j);
        RestoreEntry(id, current.data);
        left := left - 1;
        j := j + 1;
        if left == 0 {
          done := true;
        } else {
          current := current.next;
        }
      }
      assert chain[..j] == chain;
    }

    /** Bucket `i` of server `id` in the outer loop of loader_remove_server,
        in terms of the entries of the buckets before it: the count left
        and the stored entries both move on by one bucket. */
    method RestoreBucketAt(id: nat, m: ServerMemory, i: nat, remaining: int,
                           ghost ring: Ring, ghost tables: Tables, ghost t: Table) returns (left: int, done: bool)
      requires Inner() && id in Tables && i < HMAX
      requires m.Valid() && m.Chains == t && SlotRepr(id) == m.Repr
      requires forall l :: l in ring ==> ServerOf(l) != id
      requires Routable(ring, tables) && (|ring| > 0 || Count(t) == 0)
      requires remaining == Count(t) - |Entries(t[..i])| && |Entries(t[..i])| <= Count(t)
      requires Abstract() == State(ring, StoreEachEntry(ring, tables, Entries(t[..i])))
      modifies Repr - SlotRepr(id)
      ensures Inner() && fresh(Repr - old(Repr)) && id in Tables && SlotRepr(id) == m.Repr
      ensures left == Count(t) - |Entries(t[..i + 1])| && |Entries(t[..i + 1])| <= Count(t)
      ensures done ==> Entries(t[..i + 1]) == Entries(t)
      ensures Abstract() == State(ring, StoreEachEntry(ring, tables, Entries(t[..i + 1])))
    {
      assert m.BucketValid(i);
      RestoreStep(ring, tables, t, i);
      left, done := RestoreBucket(id, m.buckets[i], remaining);
    }

    /** The loops of loader_remove_server (load_balancer.c:228-257): every
        entry of server `id` goes to loader_store through a ring that no
        longer holds a label of `id`, bucket by bucket, until the count of
        its entries runs out. */
    method RestoreEntries(id: nat)
      requires Inner() && id in Tables
      requires forall l :: l in hashring.Contents ==> ServerOf(l) != id
      requires hashring.size > 0 || Count(Tables[id]) == 0
      modifies Repr - SlotRepr(id)
      ensures Inner() && id in Tables
      ensures Abstract() ==
                State(old(hashring.Contents), StoreEachEntry(old(hashring.Contents), old(Tables), Entries(old(Tables)[id])))
    {
      var m := serversHt[id];
      assert ServerValid(id);
      ghost var ring := hashring.Contents;
      ghost var tables := Tables;
      ghost var t := m.Chains;
      var remaining: int := m.size;
      var done := false;
      var i := 0;
      while i < m.hmax && !done
        invariant 0 <= i <= HMAX && m.Valid() && m.Chains == t && SlotRepr(id) == m.Repr
        invariant Inner() && fresh(Repr - old(Repr)) && id in Tables
        invariant remaining == Count(t) - |Entries(t[..i])| && |Entries(t[..i])| <= Count(t)
        invariant done ==> Entries(t[..i]) == Entries(t)
        invariant Abstract() == State(ring, StoreEachEntry(ring, tables, Entries(t[..i])))
      {
        ghost var before := Repr;
        remaining, done := RestoreBucketAt(id, m, i, remaining, ring, tables, t);
        assert fresh(Repr - before);
        assert Repr - old(Repr) <= (Repr - before) + (before - old(Repr));
        i := i + 1;
      }
      assert !done ==> t[..i] == t;
    }

    /** The three remove_from_hashring calls of loader_remove_server: the
        labels `id`, `MAX_HASH + id` and `2 * MAX_HASH + id` leave the ring. */
    method RemoveServerLabels(id: nat)
      requires Inner() && id in Tables && id < MAX_HASH
      requires forall r :: 0 <= r < 3 ==> ReplicaLabel(r, id) in hashring.Contents
      modifies hashring.Repr
      ensures Inner() && Repr == old(Repr)
      ensures Abstract() == State(RemoveLabels(old(hashring.Contents), id), old(Tables))
    {
      ghost var ring := hashring.Contents;
      assert Routable(ring, Tables);
      RemoveLabelsSteps(ring, id);
      var serverLabel1 := ReplicaLabel(1, id);
      var serverLabel2 := ReplicaLabel(2, id);
      RemoveFromHashring(id);
      RemoveFromHashring(serverLabel1);
      RemoveFromHashring(serverLabel2);
    }

    /** loader_remove_server: the three labels leave the ring, every entry
        of the server is stored again through the ring without them, and the
        server is freed (on either way out of the loops, the same call). */
    method LoaderRemoveServer(id: nat)
      requires Valid() && id in Tables
      requires hashring.size > 3 || Count(Tables[id]) == 0
      modifies Repr
      ensures Valid()
      ensures Abstract() == RemoveServer(old(Abstract()), id)
    {
      ghost var s := Abstract();
      RemoveServerMembers(s, id);
      RemoveLabelsRoutable(s, id);
      RemoveServerLabels(id);
      RestoreEntries(id);
      FreeServer(id);
      RemoveServerWf(s, id);
    }
  }
}
