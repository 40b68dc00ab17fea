/** The hash ring of load_balancer.c as a sequence of server labels, from
    the head of the ring list to its tail, and the two position searches
    over it. */
module HashRing {
  import opened Words
  import opened Hashing

  /** Server ids are below MAX_HASH; label `r * MAX_HASH + id` is replica
      `r` of server `id` (server.h:11). */
  const MAX_HASH: nat := 100000

  type Ring = seq<u32>

  /** `label % MAX_HASH`: the server a label belongs to. */
  function ServerOf(serverLabel: u32): (id: nat)
    ensures id < MAX_HASH
  {
    serverLabel % MAX_HASH
  }

  /** The three labels of server `id`: `id`, `MAX_HASH + id`, `2 * MAX_HASH + id`. */
  function ReplicaLabel(replica: nat, id: nat): (l: u32)
    requires replica < 3 && id < MAX_HASH
    ensures ServerOf(l) == id && l / MAX_HASH == replica
  {
    replica * MAX_HASH + id
  }

  /** A replica label belongs to server `id` exactly when it is one of the
      three labels of `id`. */
  lemma LabelsOfServer(serverLabel: u32, id: nat)
    requires serverLabel < 3 * MAX_HASH && id < MAX_HASH
    ensures ServerOf(serverLabel) == id <==>
              || serverLabel == ReplicaLabel(0, id)
              || serverLabel == ReplicaLabel(1, id)
              || serverLabel == ReplicaLabel(2, id)
  {
    var k := serverLabel / MAX_HASH;
    assert serverLabel == k * MAX_HASH + ServerOf(serverLabel);
    assert k < 3;
  }

  /** The ring is ordered by strictly increasing label hash. */
  predicate Sorted(ring: Ring) {
    forall i, j :: 0 <= i < j < |ring| ==> HashServers(ring[i]) < HashServers(ring[j])
  }

  /** The first position whose label hash is at least `h`, or `|ring|`
      (FirstAtLeastSpec). */
  function FirstAtLeast(ring: Ring, h: u32): (i: nat)
    ensures i <= |ring|
  {
    if ring == [] then 0
    else if h <= HashServers(ring[0]) then 0
    else 1 + FirstAtLeast(ring[1..], h)
  }

  /** hashring_position: where a label goes so that the ring stays ordered
      (RingPositionOrder). */
  function RingPosition(ring: Ring, serverLabel: u32): (p: nat)
    ensures p <= |ring|
  {
    FirstAtLeast(ring, HashServers(serverLabel))
  }

  /** key_hashring_position: the first label whose hash is at least the key
      hash, wrapping round to position 0 past the last label
      (KeyPositionOrder). */
  function KeyPosition(ring: Ring, key: CString): (p: nat)
    ensures p <= |ring| && (|ring| > 0 ==> p < |ring|)
  {
    var i := FirstAtLeast(ring, HashKey(key));
    if i == |ring| then 0 else i
  }

  /** The server responsible for `key`. */
  function Owner(ring: Ring, key: CString): (id: nat)
    requires |ring| > 0
    ensures id < MAX_HASH
  {
    ServerOf(ring[KeyPosition(ring, key)])
  }

  /** add_node on the ring. */
  function Insert(ring: Ring, p: nat, serverLabel: u32): (r: Ring)
    requires p <= |ring|
    ensures |r| == |ring| + 1 && r[p] == serverLabel
    ensures forall j :: 0 <= j < p ==> r[j] == ring[j]
    ensures forall j :: p < j < |r| ==> r[j] == ring[j - 1]
  {
    ring[..p] + [serverLabel] + ring[p..]
  }

  /** remove_node on the ring. */
  function Delete(ring: Ring, p: nat): (r: Ring)
    requires p < |ring|
    ensures |r| == |ring| - 1
    ensures forall j :: 0 <= j < p ==> r[j] == ring[j]
    ensures forall j :: p <= j < |r| ==> r[j] == ring[j + 1]
  {
    ring[..p] + ring[p + 1..]
  }

  // ------------------------------------------------------------------
  // Properties

  /** Inserting a new label at its ring position keeps the ring ordered. */
  lemma InsertSorted(ring: Ring, serverLabel: u32)
    requires Sorted(ring) && serverLabel !in ring
    ensures Sorted(Insert(ring, RingPosition(ring, serverLabel), serverLabel))
  {
    var p := RingPosition(ring, serverLabel);
    RingPositionOrder(ring, serverLabel);
    if p < |ring| && HashServers(serverLabel) == HashServers(ring[p]) {
      HashServersInjective(serverLabel, ring[p]);
    }
  }

  /** Removing any label keeps the ring ordered. */
  lemma DeleteSorted(ring: Ring, p: nat)
    requires Sorted(ring) && p < |ring|
    ensures Sorted(Delete(ring, p))
  {
  }

  /** The labels on the ring after an insertion: the old ones and the new one. */
  lemma InsertMembers(ring: Ring, p: nat, serverLabel: u32)
    requires p <= |ring|
    ensures forall x :: x in Insert(ring, p, serverLabel) <==> x in ring || x == serverLabel
  {
    var r := Insert(ring, p, serverLabel);
    forall x | x in ring
      ensures x in r
    {
      var i :| 0 <= i < |ring| && ring[i] == x;
      if i < p {
        assert r[i] == x;
      } else {
        assert r[i + 1] == x;
      }
    }
  }

  /** On an ordered ring, a deletion removes exactly the label deleted. */
  lemma DeleteMembers(ring: Ring, p: nat)
    requires Sorted(ring) && p < |ring|
    ensures forall x :: x in Delete(ring, p) <==> x in ring && x != ring[p]
  {
    var r := Delete(ring, p);
    SortedDistinct(ring);
    forall x | x in ring && x != ring[p]
      ensures x in r
    {
      var i :| 0 <= i < |ring| && ring[i] == x;
      if i < p {
        assert r[i] == x;
      } else {
        assert r[i - 1] == x;
      }
    }
  }

  /** On an ordered ring, the ring position of a label on the ring is the
      place where it sits. */
  lemma PositionOfMember(ring: Ring, serverLabel: u32)
    requires Sorted(ring) && serverLabel in ring
    ensures RingPosition(ring, serverLabel) < |ring|
    ensures ring[RingPosition(ring, serverLabel)] == serverLabel
  {
    var i :| 0 <= i < |ring| && ring[i] == serverLabel;
    forall j | 0 <= j < i
      ensures HashServers(ring[j]) < HashServers(serverLabel)
    {
    }
    FirstAtLeastAt(ring, HashServers(serverLabel), i);
  }

  /** A label is on an ordered ring at most once. */
  lemma SortedDistinct(ring: Ring)
    requires Sorted(ring)
    ensures forall i, j :: 0 <= i < j < |ring| ==> ring[i] != ring[j]
  {
  }

  /** Inserting label `l` at its position `p` of a non-empty ring changes the owner of a key only when the key moves to `l`, and then
      it moves from the label at `p` (wrapping to 0), which is the clockwise
      neighbour of `l` on the new ring. */
  lemma KeyPositionAfterInsert(ring: Ring, serverLabel: u32, key: CString)
    requires |ring| > 0
    ensures var p := RingPosition(ring, serverLabel);
            var ring' := Insert(ring, p, serverLabel);
            var q := KeyPosition(ring, key);
            var q' := KeyPosition(ring', key);
            && (q' == p ==> q == if p == |ring| then 0 else p)
            && (q' != p ==> ring'[q'] == ring[q])
  {
    var p := RingPosition(ring, serverLabel);
    var ring' := Insert(ring, p, serverLabel);
    var h := HashKey(key);
    var i := FirstAtLeast(ring, h);
    FirstAtLeastSpec(ring, h);
    RingPositionOrder(ring, serverLabel);
    FirstAtLeastInsert(ring, p, serverLabel, h);
    if i < p {
      assert ring'[i] == ring[i];
    } else if h <= HashServers(serverLabel) {
      assert i == p || (i == |ring| && p == |ring|);
    } else if i < |ring| {
      assert ring'[i + 1] == ring[i];
    } else {
      assert p > 0 ==> ring'[0] == ring[0];
    }
  }

  /** Deleting a label from an ordered ring moves no key that it did not
      own: such a key stays on the label it had. */
  lemma KeyPositionAfterDelete(ring: Ring, d: nat, key: CString)
    requires Sorted(ring) && d < |ring|
    requires ring[KeyPosition(ring, key)] != ring[d]
    ensures var r := Delete(ring, d);
            |r| > 0 && r[KeyPosition(r, key)] == ring[KeyPosition(ring, key)]
  {
    var r := Delete(ring, d);
    var l := ring[d];
    DeleteSorted(ring, d);
    DeleteMembers(ring, d);
    assert l !in r;
    forall j | 0 <= j < d
      ensures HashServers(r[j]) < HashServers(l)
    {
    }
    if d < |r| {
      FirstAtLeastAt(r, HashServers(l), d);
    } else {
      FirstAtLeastNone(r, HashServers(l));
    }
    assert RingPosition(r, l) == d;
    forall j | 0 <= j < |ring|
      ensures Insert(r, d, l)[j] == ring[j]
    {
    }
    assert Insert(r, d, l) == ring;
    KeyPositionAfterInsert(r, l, key);
  }

  /** The search on a ring with a label inserted in order, in terms of the
      search on the ring before. */
  lemma FirstAtLeastInsert(ring: Ring, p: nat, serverLabel: u32, h: u32)
    requires p <= |ring|
    ensures var i := FirstAtLeast(ring, h);
            FirstAtLeast(Insert(ring, p, serverLabel), h) ==
              if i < p then i else if h <= HashServers(serverLabel) then p else i + 1
  {
    var ring' := Insert(ring, p, serverLabel);
    var i := FirstAtLeast(ring, h);
    FirstAtLeastSpec(ring, h);
    if i < p {
      FirstAtLeastAt(ring', h, i);
    } else if h <= HashServers(serverLabel) {
      FirstAtLeastAt(ring', h, p);
    } else if i < |ring| {
      FirstAtLeastAt(ring', h, i + 1);
    } else {
      FirstAtLeastNone(ring', h);
    }
  }

  /** Every label before FirstAtLeast hashes below `h`, and the label at it,
      if any, hashes to `h` or more. */
  lemma {:induction false} FirstAtLeastSpec(ring: Ring, h: u32)
    ensures var i := FirstAtLeast(ring, h);
            && (forall j :: 0 <= j < i ==> HashServers(ring[j]) < h)
            && (i < |ring| ==> h <= HashServers(ring[i]))
    decreases |ring|
  {
    if ring != [] && HashServers(ring[0]) < h {
      FirstAtLeastSpec(ring[1..], h);
      var i := FirstAtLeast(ring, h);
      forall j | 0 <= j < i
        ensures HashServers(ring[j]) < h
      {
        if j > 0 {
          assert ring[j] == ring[1..][j - 1];
        }
      }
    }
  }

  /** hashring_position: every label before the position hashes below the
      new label, and the label at the position, if any, hashes at least as
      high. */
  lemma RingPositionOrder(ring: Ring, serverLabel: u32)
    ensures var p := RingPosition(ring, serverLabel);
            && (forall j :: 0 <= j < p ==> HashServers(ring[j]) < HashServers(serverLabel))
            && (p < |ring| ==> HashServers(serverLabel) <= HashServers(ring[p]))
  {
    FirstAtLeastSpec(ring, HashServers(serverLabel));
  }

  /** key_hashring_position: the key goes to the first label that hashes at
      least as high as the key, or to position 0 when every label hashes
      below it. */
  lemma KeyPositionOrder(ring: Ring, key: CString)
    ensures var p := KeyPosition(ring, key);
            && (forall j :: 0 <= j < p ==> HashServers(ring[j]) < HashKey(key))
            && (|| (p < |ring| && HashKey(key) <= HashServers(ring[p]))
                || (p == 0 && forall j :: 0 <= j < |ring| ==> HashServers(ring[j]) < HashKey(key)))
  {
    FirstAtLeastSpec(ring, HashKey(key));
  }

  /** FirstAtLeast is pinned down by its specification. */
  lemma FirstAtLeastAt(ring: Ring, h: u32, i: nat)
    requires i < |ring| && h <= HashServers(ring[i])
    requires forall j :: 0 <= j < i ==> HashServers(ring[j]) < h
    ensures FirstAtLeast(ring, h) == i
  {
    FirstAtLeastSpec(ring, h);
    var r := FirstAtLeast(ring, h);
    assert !(r < i) && !(i < r);
  }

  lemma FirstAtLeastNone(ring: Ring, h: u32)
    requires forall j :: 0 <= j < |ring| ==> HashServers(ring[j]) < h
    ensures FirstAtLeast(ring, h) == |ring|
  {
    FirstAtLeastSpec(ring, h);
  }
}
