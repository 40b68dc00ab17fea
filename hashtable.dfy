/** The contents of one server's memory (server.c), as values: `HMAX`
    buckets, each a chain of key-value pairs in list order. The class in
    server.dfy keeps its buckets equal to a `Table` and its operations are
    specified by the functions here. */
module Hashtable {
  import opened Words
  import opened Hashing

  /** Number of buckets of every server (server.h:10). */
  const HMAX: nat := 1000

  datatype KeyValuePair = KeyValuePair(key: CString, value: CString)

  type Chain = seq<KeyValuePair>

  type Table = seq<Chain>

  /** `hash_function_key(key) % hmax`. */
  function BucketIndex(key: CString): (b: nat)
    ensures b < HMAX
  {
    HashKey(key) % HMAX
  }

  /** `strncmp(stored, key, strlen(key)) == 0`: characters are compared
      one by one until `key` runs out, which is a match, or until they
      differ; the NUL ending a shorter `stored` differs from every
      character of `key`. */
  predicate KeyMatches(stored: CString, key: CString)
    decreases |key|
  {
    key == [] || (stored != [] && stored[0] == key[0] && KeyMatches(stored[1..], key[1..]))
  }

  /** A key matches exactly the stored keys it is a prefix of. */
  lemma {:induction false} KeyMatchesPrefix(stored: CString, key: CString)
    ensures KeyMatches(stored, key) <==> |key| <= |stored| && stored[..|key|] == key
    decreases |key|
  {
    if key != [] && stored != [] {
      KeyMatchesPrefix(stored[1..], key[1..]);
      if |key| <= |stored| {
        assert stored[..|key|] == [stored[0]] + stored[1..][..|key| - 1];
        assert key == [key[0]] + key[1..];
      }
    }
  }

  /** Two keys neither of which is a prefix of the other. */
  predicate Incomparable(k1: CString, k2: CString) {
    !KeyMatches(k1, k2) && !KeyMatches(k2, k1)
  }

  /** The index of the first entry of `chain` that `key` matches. */
  function FindKey(chain: Chain, key: CString): (r: Option<nat>)
    ensures r.Some? ==> r.value < |chain| && KeyMatches(chain[r.value].key, key)
    ensures r.Some? ==> forall j :: 0 <= j < r.value ==> !KeyMatches(chain[j].key, key)
    ensures r.None? ==> forall j :: 0 <= j < |chain| ==> !KeyMatches(chain[j].key, key)
  {
    if chain == [] then None
    else if KeyMatches(chain[0].key, key) then Some(0)
    else match FindKey(chain[1..], key)
      case None => None
      case Some(j) => Some(j + 1)
  }

  /** The memory of a freshly initialised server: HMAX empty buckets. */
  function EmptyTable(): (t: Table)
    ensures |t| == HMAX && forall i :: 0 <= i < HMAX ==> t[i] == []
  {
    seq(HMAX, i => [])
  }

  /** A table with one bucket per hash value. */
  predicate Shaped(t: Table) {
    |t| == HMAX
  }

  /** server_store on values: a matching entry keeps its stored key and gets
      the new value; otherwise `(key, value)` is appended to the bucket. */
  function Store(t: Table, key: CString, value: CString): Table
    requires Shaped(t)
  {
    var b := BucketIndex(key);
    match FindKey(t[b], key)
      case Some(j) => t[b := t[b][j := KeyValuePair(t[b][j].key, value)]]
      case None => t[b := t[b] + [KeyValuePair(key, value)]]
  }

  /** server_remove on values: the first matching entry leaves its bucket. */
  function Remove(t: Table, key: CString): Table
    requires Shaped(t)
  {
    var b := BucketIndex(key);
    match FindKey(t[b], key)
      case Some(j) => t[b := t[b][..j] + t[b][j + 1..]]
      case None => t
  }

  /** server_retrieve on values: the value of the first matching entry. */
  function Retrieve(t: Table, key: CString): Option<CString>
    requires Shaped(t)
  {
    var b := BucketIndex(key);
    match FindKey(t[b], key)
      case Some(j) => Some(t[b][j].value)
      case None => None
  }

  /** All entries, bucket by bucket, each bucket in list order. */
  function Entries(t: seq<Chain>): (es: seq<KeyValuePair>)
    ensures |es| == Count(t)
  {
    if t == [] then [] else Entries(t[..|t| - 1]) + t[|t| - 1]
  }

  /** The total number of entries: the sum of the bucket sizes. */
  function Count(t: seq<Chain>): nat {
    if t == [] then 0 else Count(t[..|t| - 1]) + |t[|t| - 1]|
  }

  /** Every entry sits in the bucket its key hashes to. */
  predicate WellPlaced(t: Table)
    requires Shaped(t)
  {
    forall b, j :: 0 <= b < HMAX && 0 <= j < |t[b]| ==> BucketIndex(t[b][j].key) == b
  }

  /** The table after storing the entries `es` one after the other. */
  function StoreEach(t: Table, es: seq<KeyValuePair>): (r: Table)
    requires Shaped(t)
    ensures Shaped(r)
    decreases |es|
  {
    if es == [] then t
    else
      var last := es[|es| - 1];
      Store(StoreEach(t, es[..|es| - 1]), last.key, last.value)
  }

  /** No key of `es` is a prefix of another key of `es`. */
  predicate PrefixFree(es: seq<KeyValuePair>) {
    forall i, j :: 0 <= i < j < |es| ==> Incomparable(es[i].key, es[j].key)
  }

  // ------------------------------------------------------------------
  // Properties

  lemma {:induction false} CountUpdate(t: seq<Chain>, b: nat, c: Chain)
    requires b < |t|
    ensures Count(t[b := c]) == Count(t) - |t[b]| + |c|
    decreases |t|
  {
    var n := |t| - 1;
    assert t[b := c][..n] == if b == n then t[..n] else t[..n][b := c];
    if b < n {
      CountUpdate(t[..n], b, c);
    }
  }

  lemma EmptyTableCount()
    ensures Count(EmptyTable()) == 0 && WellPlaced(EmptyTable())
  {
    EmptyCount(EmptyTable());
  }

  lemma {:induction false} EmptyCount(t: seq<Chain>)
    requires forall i :: 0 <= i < |t| ==> t[i] == []
    ensures Count(t) == 0
    decreases |t|
  {
    if t != [] {
      EmptyCount(t[..|t| - 1]);
    }
  }

  /** A store adds an entry exactly when no entry matched before. */
  lemma StoreCount(t: Table, key: CString, value: CString)
    requires Shaped(t)
    ensures Shaped(Store(t, key, value))
    ensures Count(Store(t, key, value)) == Count(t) + if Retrieve(t, key).None? then 1 else 0
  {
    var b := BucketIndex(key);
    match FindKey(t[b], key)
    case Some(j) =>
      CountUpdate(t, b, t[b][j := KeyValuePair(t[b][j].key, value)]);
    case None =>
      CountUpdate(t, b, t[b] + [KeyValuePair(key, value)]);
  }

  /** A remove drops an entry exactly when one matched. */
  lemma RemoveCount(t: Table, key: CString)
    requires Shaped(t)
    ensures Shaped(Remove(t, key))
    ensures Count(Remove(t, key)) == Count(t) - if Retrieve(t, key).Some? then 1 else 0
  {
    var b := BucketIndex(key);
    match FindKey(t[b], key)
    case Some(j) =>
      CountUpdate(t, b, t[b][..j] + t[b][j + 1..]);
    case None =>
  }

  /** After server_store(key, value), server_retrieve(key) gives `value`. */
  lemma RetrieveAfterStore(t: Table, key: CString, value: CString)
    requires Shaped(t)
    ensures Retrieve(Store(t, key, value), key) == Some(value)
  {
    var b := BucketIndex(key);
    var t' := Store(t, key, value);
    match FindKey(t[b], key)
    case Some(j) =>
      assert FindKey(t'[b], key) == Some(j) by {
        FindKeyOnlyKeys(t[b], t'[b], key);
      }
    case None =>
      KeyMatchesPrefix(key, key);
      FindKeyAppend(t[b], KeyValuePair(key, value), key);
  }

  /** A store leaves the answer for an incomparable key as it was. */
  lemma RetrieveStoreOther(t: Table, key: CString, value: CString, other: CString)
    requires Shaped(t) && Incomparable(key, other)
    ensures Retrieve(Store(t, key, value), other) == Retrieve(t, other)
  {
    var b := BucketIndex(key);
    if BucketIndex(other) == b {
      match FindKey(t[b], key)
      case Some(j) =>
        FindKeyOnlyKeys(t[b], Store(t, key, value)[b], other);
        var r := FindKey(t[b], other);
        if r.Some? && r.value == j {
          PrefixesComparable(t[b][j].key, key, other);
        }
      case None =>
        FindKeyAppend(t[b], KeyValuePair(key, value), other);
    }
  }

  /** A remove leaves the answer for an incomparable key as it was. */
  lemma RetrieveRemoveOther(t: Table, key: CString, other: CString)
    requires Shaped(t) && Incomparable(key, other)
    ensures Retrieve(Remove(t, key), other) == Retrieve(t, other)
  {
    var b := BucketIndex(key);
    if BucketIndex(other) == b {
      match FindKey(t[b], key)
      case Some(j) =>
        var c := t[b];
        var d := c[..j] + c[j + 1..];
        assert Remove(t, key) == t[b := d];
        match FindKey(c, other) {
          case Some(k) =>
            if k == j {
              PrefixesComparable(c[j].key, key, other);
            } else {
              FindKeyDelete(c, j, other, k);
              assert d[if k < j then k else k - 1] == c[k];
            }
          case None =>
            FindKeyDeleteAbsent(c, j, other);
        }
      case None =>
    }
  }

  /** After storing prefix-free entries one by one, each of them can be
      retrieved with its value. */
  lemma {:induction false} RetrieveAfterStoreEach(t: Table, es: seq<KeyValuePair>, i: nat)
    requires Shaped(t) && PrefixFree(es) && i < |es|
    ensures Retrieve(StoreEach(t, es), es[i].key) == Some(es[i].value)
    decreases |es|
  {
    var n := |es| - 1;
    var front := StoreEach(t, es[..n]);
    if i == n {
      RetrieveAfterStore(front, es[n].key, es[n].value);
    } else {
      PrefixFreeFront(es, n);
      RetrieveAfterStoreEach(t, es[..n], i);
      assert es[..n][i] == es[i];
      RetrieveStoreOther(front, es[n].key, es[n].value, es[i].key);
    }
  }

  /** A front part of prefix-free entries is prefix-free. */
  lemma PrefixFreeFront(es: seq<KeyValuePair>, n: nat)
    requires PrefixFree(es) && n <= |es|
    ensures PrefixFree(es[..n])
  {
    forall a, b | 0 <= a < b < n
      ensures Incomparable(es[..n][a].key, es[..n][b].key)
    {
      assert es[..n][a] == es[a] && es[..n][b] == es[b];
    }
  }

  /** Storing two runs of entries is storing the first, then the second. */
  lemma {:induction false} StoreEachAppend(t: Table, a: seq<KeyValuePair>, b: seq<KeyValuePair>)
    requires Shaped(t)
    ensures StoreEach(t, a + b) == StoreEach(StoreEach(t, a), b)
    decreases |b|
  {
    if b == [] {
      assert a + b == a;
    } else {
      var n := |b| - 1;
      StoreEachAppend(t, a, b[..n]);
      assert (a + b)[..|a + b| - 1] == a + b[..n];
    }
  }

  /** The entries of a table are those of its buckets before `b`, then
      bucket `b`, then those of the buckets after it. */
  lemma {:induction false} EntriesSplit(t: seq<Chain>, b: nat)
    requires b < |t|
    ensures Entries(t) == Entries(t[..b]) + t[b] + Entries(t[b + 1..])
  {
    assert t[..b + 1][..b] == t[..b];
    assert Entries(t[..b + 1]) == Entries(t[..b]) + t[b];
    EntriesAppend(t[..b + 1], t[b + 1..]);
    assert t[..b + 1] + t[b + 1..] == t;
  }

  lemma {:induction false} EntriesAppend(t: seq<Chain>, u: seq<Chain>)
    ensures Entries(t + u) == Entries(t) + Entries(u)
    decreases |u|
  {
    if u == [] {
      assert t + u == t;
    } else {
      var n := |u| - 1;
      EntriesAppend(t, u[..n]);
      assert (t + u)[..|t + u| - 1] == t + u[..n];
    }
  }

  /** Store and remove keep every entry in the bucket of its key. */
  lemma StorePlaced(t: Table, key: CString, value: CString)
    requires Shaped(t) && WellPlaced(t)
    ensures Shaped(Store(t, key, value)) && WellPlaced(Store(t, key, value))
  {
  }

  lemma RemovePlaced(t: Table, key: CString)
    requires Shaped(t) && WellPlaced(t)
    ensures Shaped(Remove(t, key)) && WellPlaced(Remove(t, key))
  {
    var b := BucketIndex(key);
    match FindKey(t[b], key)
    case Some(j) =>
      var c := t[b][..j] + t[b][j + 1..];
      assert forall i :: 0 <= i < |c| ==> c[i] == t[b][if i < j then i else i + 1];
    case None =>
  }

  /** In a well-placed table every stored key can be found again. */
  lemma StoredKeyFound(t: Table, b: nat, j: nat)
    requires Shaped(t) && WellPlaced(t) && b < HMAX && j < |t[b]|
    ensures Retrieve(t, t[b][j].key).Some?
  {
    KeyMatchesPrefix(t[b][j].key, t[b][j].key);
  }

  // ------------------------------------------------------------------
  // Helpers about chains

  /** Two strings that share a prefix-extension are comparable. */
  lemma PrefixesComparable(s: CString, k1: CString, k2: CString)
    requires KeyMatches(s, k1) && KeyMatches(s, k2)
    ensures !Incomparable(k1, k2)
  {
    KeyMatchesPrefix(s, k1);
    KeyMatchesPrefix(s, k2);
    if |k1| <= |k2| {
      assert k2[..|k1|] == s[..|k1|];
      KeyMatchesPrefix(k2, k1);
    } else {
      assert k1[..|k2|] == s[..|k2|];
      KeyMatchesPrefix(k1, k2);
    }
  }

  /** FindKey depends only on the keys of the chain. */
  lemma FindKeyOnlyKeys(c: Chain, d: Chain, key: CString)
    requires |c| == |d| && forall i :: 0 <= i < |c| ==> c[i].key == d[i].key
    ensures FindKey(c, key) == FindKey(d, key)
  {
    var r := FindKey(c, key);
    var s := FindKey(d, key);
    if r.Some? && s.Some? {
      assert !(r.value < s.value) && !(s.value < r.value);
    }
  }

  lemma {:induction false} FindKeyAppend(c: Chain, e: KeyValuePair, key: CString)
    ensures FindKey(c + [e], key) ==
      if FindKey(c, key).Some? then FindKey(c, key)
      else if KeyMatches(e.key, key) then Some(|c|)
      else None
    decreases |c|
  {
    if c != [] {
      assert (c + [e])[1..] == c[1..] + [e];
      FindKeyAppend(c[1..], e, key);
    }
  }

  /** Deleting entry `j` keeps the first match `k` of a key whose first
      match is not `j`, shifted down when it came after `j`. */
  lemma FindKeyDelete(c: Chain, j: nat, key: CString, k: nat)
    requires j < |c| && FindKey(c, key) == Some(k) && k != j
    ensures FindKey(c[..j] + c[j + 1..], key) == Some(if k < j then k else k - 1)
  {
    var d := c[..j] + c[j + 1..];
    var m := if k < j then k else k - 1;
    forall i | 0 <= i <= m
      ensures d[i] == c[if i < j then i else i + 1]
    {
    }
    FindKeyFirst(d, key, m);
  }

  /** Deleting an entry leaves a key that matches nothing unmatched. */
  lemma FindKeyDeleteAbsent(c: Chain, j: nat, key: CString)
    requires j < |c| && FindKey(c, key) == None
    ensures FindKey(c[..j] + c[j + 1..], key) == None
  {
    var d := c[..j] + c[j + 1..];
    forall i | 0 <= i < |d|
      ensures !KeyMatches(d[i].key, key)
    {
      assert d[i] == c[if i < j then i else i + 1];
    }
    FindKeyAbsent(d, key);
  }

  /** The first entry a key matches is the one FindKey finds. */
  lemma FindKeyFirst(c: Chain, key: CString, k: nat)
    requires k < |c| && KeyMatches(c[k].key, key)
    requires forall i :: 0 <= i < k ==> !KeyMatches(c[i].key, key)
    ensures FindKey(c, key) == Some(k)
  {
    match FindKey(c, key) {
      case None =>
        assert false;
      case Some(m) =>
        if m != k {
          assert false;
        }
    }
  }

  /** A key that matches no entry is not found. */
  lemma FindKeyAbsent(c: Chain, key: CString)
    requires forall i :: 0 <= i < |c| ==> !KeyMatches(c[i].key, key)
    ensures FindKey(c, key) == None
  {
    if FindKey(c, key).Some? {
      assert false;
    }
  }
}
