/** The memory of one server (server.c): an array of `hmax` bucket lists of
    key-value pairs and a running count of the stored entries. Its ghost
    `Chains` is the table of hashtable.dfy that the buckets hold. */
module Server {
  import opened Words
  import opened Hashing
  import opened Hashtable
  import opened CircularList

  class ServerMemory {
    var buckets: array<List?<KeyValuePair>>
    var size: nat
    var hmax: nat

    ghost var Chains: Table
    ghost var Repr: set<object>

    /** Bucket `i` is a valid list inside the footprint holding `Chains[i]`. */
    ghost predicate BucketValid(i: nat)
      requires i < buckets.Length
      reads this, buckets, Repr
    {
      var l := buckets[i];
      && l != null && l in Repr && l.Repr <= Repr
      && this !in l.Repr && buckets !in l.Repr
      && l.Valid() && i < |Chains| && l.Contents == Chains[i]
    }

    ghost predicate Valid()
      reads this, Repr
    {
      && this in Repr && buckets in Repr
      && hmax == HMAX && buckets.Length == hmax && |Chains| == hmax
      && (forall i :: 0 <= i < hmax ==> BucketValid(i))
      && (forall i, j :: 0 <= i < hmax && 0 <= j < hmax && i != j ==>
            && buckets[i] != null && buckets[i] in Repr
            && buckets[j] != null && buckets[j] in Repr
            && buckets[i].Repr !! buckets[j].Repr)
      && size == Count(Chains)
      && WellPlaced(Chains)
    }

    /** init_server_memory: HMAX empty buckets and no entries. */
    constructor ()
      ensures Valid() && fresh(Repr)
      ensures hmax == HMAX && size == 0 && Chains == EmptyTable()
    {
      var a := new List?<KeyValuePair>[HMAX];
      ghost var R: set<object> := {};
      var i := 0;
      while i < HMAX
        invariant 0 <= i <= HMAX
        invariant forall k :: 0 <= k < i ==>
          && a[k] != null && fresh(a[k].Repr) && a !in a[k].Repr && a[k].Repr <= R
          && a[k].Valid() && a[k].Contents == []
        invariant forall k, l :: 0 <= k < i && 0 <= l < i && k != l ==>
          a[k] != null && a[l] != null && a[k].Repr !! a[l].Repr
        invariant fresh(R) && a !in R
      {
        var l := new List<KeyValuePair>();
        a[i] := l;
        R := R + l.Repr;
        i := i + 1;
      }
      buckets := a;
      hmax := HMAX;
      size := 0;
      Chains := EmptyTable();
      Repr := {this, a} + R;
      new;
      EmptyTableCount();
    }

    /** server_retrieve: the value of the first entry of the key's bucket
        that the key matches, or NULL. */
    method Retrieve(key: CString) returns (r: Option<CString>)
      requires Valid()
      ensures r == Hashtable.Retrieve(Chains, key)
    {
      var hashValue := HashKey(key) % hmax;
      var bucket := buckets[hashValue];
      assert BucketValid(hashValue);
      var current := bucket.head;
      var i := 0;
      while i < bucket.size
        invariant 0 <= i <= bucket.size
        invariant i < bucket.size ==> current == bucket.Nodes[i]
        invariant forall j :: 0 <= j < i ==> !KeyMatches(Chains[hashValue][j].key, key)
      {
        if KeyMatches(current.data.key, key) {
          return Some(current.data.value);
        }
        current := current.next;
        i := i + 1;
      }
      return None;
    }

    /** server_store: a matching entry of the key's bucket gets the new
        value in place; otherwise the pair is appended at the tail of the
        bucket and the entry count grows by one. */
    method Store(key: CString, value: CString)
      requires Valid()
      modifies Repr
      ensures Valid() && fresh(Repr - old(Repr))
      ensures Chains == Hashtable.Store(old(Chains), key, value)
      ensures size == old(size) + if Hashtable.Retrieve(old(Chains), key).None? then 1 else 0
    {
      var hashValue := HashKey(key) % hmax;
      var bucket := buckets[hashValue];
      assert BucketValid(hashValue);
      var current := bucket.head;
      var i := 0;
      while i < bucket.size
        invariant 0 <= i <= bucket.size
        invariant i < bucket.size ==> current == bucket.Nodes[i]
        invariant forall j :: 0 <= j < i ==> !KeyMatches(Chains[hashValue][j].key, key)
      {
        if KeyMatches(current.data.key, key) {
          Overwrite(hashValue, i, current, value);
          return;
        }
        current := current.next;
        i := i + 1;
      }
      Append(hashValue, KeyValuePair(key, value));
    }

    /** The in-place value copy of server_store (server.c:59-60): the entry
        keeps its stored key. */
    method Overwrite(b: nat, i: nat, node: Node<KeyValuePair>, value: CString)
      requires Valid() && b < hmax && BucketValid(b) && i < |Chains[b]|
      requires node == buckets[b].Nodes[i]
      modifies Repr
      ensures Valid() && Repr == old(Repr) && size == old(size)
      ensures Chains == old(Chains)[b := old(Chains)[b][i := KeyValuePair(old(Chains)[b][i].key, value)]]
    {
      var bucket := buckets[b];
      assert BucketValid(b);
      ghost var c := Chains[b][i := KeyValuePair(Chains[b][i].key, value)];
      CountUpdate(Chains, b, c);
      bucket.SetData(i, node, KeyValuePair(node.data.key, value));
      Chains := Chains[b := bucket.Contents];
      assert BucketValid(b);
      forall k | 0 <= k < hmax && k != b
        ensures BucketValid(k) && buckets[k].Repr == old(buckets[k].Repr)
      {
        assert old(BucketValid(k)) && old(buckets[k].Repr) !! old(buckets[b].Repr);
      }
      forall i, j | 0 <= i < hmax && 0 <= j < hmax && i != j
        ensures buckets[i].Repr !! buckets[j].Repr
      {
        assert old(buckets[i].Repr) !! old(buckets[j].Repr);
      }
    }

    /** The append of server_store (server.c:66-88): a new entry at the
        tail of bucket `b`, and one more entry in all. */
    method Append(b: nat, entry: KeyValuePair)
      requires Valid() && b < hmax && b == BucketIndex(entry.key)
      modifies Repr
      ensures Valid() && fresh(Repr - old(Repr)) && size == old(size) + 1
      ensures Chains == old(Chains)[b := old(Chains)[b] + [entry]]
    {
      var bucket := buckets[b];
      assert BucketValid(b);
      CountUpdate(Chains, b, Chains[b] + [entry]);
      bucket.AddNode(bucket.size, entry);
      assert bucket.Contents == old(bucket.Contents) + [entry] by {
        assert old(bucket.Contents)[..old(bucket.size)] == old(bucket.Contents);
      }
      size := size + 1;
      Chains := Chains[b := bucket.Contents];
      Repr := Repr + bucket.Repr;
      assert BucketValid(b);
      forall k | 0 <= k < hmax && k != b
        ensures BucketValid(k) && buckets[k].Repr == old(buckets[k].Repr)
      {
        assert old(BucketValid(k)) && old(buckets[k].Repr) !! old(buckets[b].Repr);
      }
      forall i, j | 0 <= i < hmax && 0 <= j < hmax && i != j
        ensures buckets[i].Repr !! buckets[j].Repr
      {
        assert old(buckets[i].Repr) !! old(buckets[j].Repr);
      }
    }

    /** server_remove: the first entry of the key's bucket that the key
        matches is unlinked and the entry count drops by one; without a
        match nothing changes. */
    method Remove(key: CString)
      requires Valid()
      modifies Repr
      ensures Valid() && Repr == old(Repr)
      ensures Chains == Hashtable.Remove(old(Chains), key)
      ensures size == old(size) - if Hashtable.Retrieve(old(Chains), key).Some? then 1 else 0
    {
      var hashValue := HashKey(key) % hmax;
      var bucket := buckets[hashValue];
      assert BucketValid(hashValue);
      var position := 0;
      var current := bucket.head;
      var i := 0;
      while i < bucket.size
        invariant 0 <= i <= bucket.size && position == i
        invariant i < bucket.size ==> current == bucket.Nodes[i]
        invariant forall j :: 0 <= j < i ==> !KeyMatches(Chains[hashValue][j].key, key)
      {
        if KeyMatches(current.data.key, key) {
          Delete(hashValue, position);
          return;
        }
        position := position + 1;
        current := current.next;
        i := i + 1;
      }
    }

    /** The unlinking of server_remove (server.c:102-112): entry `i` leaves
        bucket `b`, and there is one entry less in all. */
    method Delete(b: nat, i: nat)
      requires Valid() && b < hmax && i < |Chains[b]|
      modifies Repr
      ensures Valid() && Repr == old(Repr) && size == old(size) - 1
      ensures Chains == old(Chains)[b := old(Chains)[b][..i] + old(Chains)[b][i + 1..]]
    {
      var bucket := buckets[b];
      assert BucketValid(b);
      ghost var c := Chains[b][..i] + Chains[b][i + 1..];
      CountUpdate(Chains, b, c);
      assert forall k :: 0 <= k < |c| ==> c[k] == Chains[b][if k < i then k else k + 1];
      var removed := bucket.RemoveNode(i);
      size := size - 1;
      Chains := Chains[b := bucket.Contents];
      assert BucketValid(b);
      forall k | 0 <= k < hmax && k != b
        ensures BucketValid(k) && buckets[k].Repr == old(buckets[k].Repr)
      {
        assert old(BucketValid(k)) && old(buckets[k].Repr) !! old(buckets[b].Repr);
      }
      forall i, j | 0 <= i < hmax && 0 <= j < hmax && i != j
        ensures buckets[i].Repr !! buckets[j].Repr
      {
        assert old(buckets[i].Repr) !! old(buckets[j].Repr);
      }
    }
  }
}
