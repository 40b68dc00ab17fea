# Load balancer with consistent hashing

This project models a load balancer written in C. It stores key-value pairs
on a set of servers and uses consistent hashing to decide where each key
goes. It has three layers.

- **The circular doubly-linked list** (`circular_list.dfy`, class
  `CircularList.List`). It has a `head`, a `tail` and a `size`. Its nodes are
  updated in place. `Contents` and `Nodes` are ghost sequences that give its
  abstract value.
- **The server memory** (`server.dfy`, class `Server.ServerMemory`). It is an
  array of `HMAX` = 1000 bucket lists of key-value pairs. Keys go to buckets
  by the djb2 hash (`Hashing.HashKey`). Keys are compared with
  `strncmp(stored, key, strlen(key))`, which is a prefix test
  (`Hashtable.KeyMatches`). The value semantics of one server are the
  functions of `hashtable.dfy`: `Store`, `Remove` and `Retrieve` on a
  `Table`, a sequence of chains.
- **The load balancer** (`load_balancer.dfy`, class
  `LoadBalancing.LoadBalancer`).
  - It has `MAX_HASH` = 100000 server slots.
  - The hash ring is a list of replica labels, ordered by label hash
    (`Hashing.HashServers`).
  - Server `id` has three labels: `id`, `MAX_HASH + id` and
    `2 * MAX_HASH + id`.
  - A key belongs to the first label whose hash is at least the key's hash,
    wrapping round to the head of the ring.
  - Adding a server inserts its labels one at a time. For each label, the
    entries that the label now owns are copied from the clockwise
    neighbour's server.
  - Removing a server deletes its labels and stores each of its entries again
    through the smaller ring.

  The value semantics of the balancer are the functions of `balancer.dfy`:
  `StoreEntry`, `RetrieveEntry`, `Redistribute`, `AddServer` and
  `RemoveServer` on a `State`. A `State` is the ring plus a map from server
  id to `Table`. The ring's own operations are in `hash_ring.dfy`.
- **Redistribution as intended** (`rebalance.dfy`, module `Rebalance`). The
  class and `balancer.dfy` follow the C code, which copies the entries a new
  label takes and leaves them on the neighbour. `Rebalance` shows where that
  goes wrong (see "Findings") and defines the intended move step,
  `MoveOwned`. With it every stored key sits on the server the ring routes
  it to (`Placed`), and the value stored last is served after a server is
  removed.

Every method of a class states its new state in terms of these functions. The
properties are then proved about the functions:

- round trips of the hash functions;
- retrieval after store;
- the ring stays sorted;
- the well-formedness invariant `Balancer.Wf`, which adding and removing
  servers preserve;
- every entry of a removed server can still be retrieved.

## Model

| member | source | states |
|---|---|---|
| Hashing.Djb2Step | server.c:16 | One djb2 round is `hash * 33 + c` reduced modulo 2^32, which is what the shift-and-add on an `unsigned int` computes. |
| Hashing.HashKeyAppend | server.c:10-19 | Appending a character to a key performs exactly one more wrapped djb2 round on the previous hash. |
| Hashing.Djb2Append | server.c:15-16 | The loop over a string followed by one character equals one more round after the loop over the string. |
| Hashing.ShrDivides | load_balancer.c:22-24 | The `>> k` of the mixer is division by 2^k. |
| Hashing.XorCancel | load_balancer.c:22-24 | Xor-ing twice with the same value gives back the other operand. |
| Hashing.ShrXor | load_balancer.c:22-24 | A right shift distributes over xor. |
| Hashing.XorBound | load_balancer.c:22-24 | The xor of two n-bit values is an n-bit value, so it stays an `unsigned int`. |
| Hashing.XorShiftHighHalf | load_balancer.c:24 | `(x >> 16) ^ x` keeps the top 16 bits of `x`. |
| Hashing.XorShiftInvolution | load_balancer.c:22-24 | `x -> (x >> 16) ^ x` on 32 bits is its own inverse. |
| Hashing.MulWrapInverse | load_balancer.c:22-23 | Multiplying modulo 2^32 by 0x45d9f3b is undone by multiplying by its odd inverse. |
| Hashing.MulWrapInverseLeft | load_balancer.c:22-23 | The same in the other order: the two multiplications are mutual inverses. |
| Hashing.MixUnmix | load_balancer.c:22-23 | Each multiply round of hash_function_servers has a right inverse. |
| Hashing.UnmixMix | load_balancer.c:22-23 | Each multiply round has a left inverse. |
| Hashing.HashUnhashServers | load_balancer.c:19-26 | hash_function_servers is onto the 32-bit values: every hash has a label. |
| Hashing.UnhashHashServers | load_balancer.c:19-26 | hash_function_servers can be inverted: the label is recovered from its hash. |
| Hashing.HashServersInjective | load_balancer.c:19-26 | Two labels with the same hash are equal, so no two ring labels tie. |
| Hashtable.BucketIndex | server.c:46 | A key's bucket is below `hmax`. |
| Hashtable.KeyMatchesPrefix | server.c:57-58 | The strncmp test over `strlen(key)` characters holds exactly when `key` is a prefix of the stored key. |
| Hashtable.FindKey | server.c:55-64 | The scan of a bucket returns the first matching position; when it returns none, no entry of the bucket matches. |
| Hashtable.EmptyTable | server.c:33-38 | init_server_memory makes HMAX empty buckets. |
| Hashtable.StoreCount | server.c:44-89 | server_store keeps the table shaped. It adds one entry exactly when the key was not retrievable, and otherwise overwrites in place. |
| Hashtable.RemoveCount | server.c:93-119 | server_remove drops one entry exactly when the key was retrievable. |
| Hashtable.RetrieveAfterStore | server.c:44-89 | server_retrieve returns the value just stored under a key. |
| Hashtable.RetrieveStoreOther | server.c:44-89 | Storing a key leaves retrieval of every key that is not comparable to it (neither is a prefix of the other) unchanged. |
| Hashtable.RetrieveRemoveOther | server.c:93-119 | Removing a key leaves retrieval of every incomparable key unchanged. |
| Hashtable.RetrieveAfterStoreEach | server.c:44-89 | After a run of pairwise incomparable stores, each key retrieves its own value. |
| Hashtable.StorePlaced | server.c:46-86 | Store keeps every entry in the bucket of its key's hash. |
| Hashtable.RemovePlaced | server.c:95-112 | Remove keeps every entry in the bucket of its key's hash. |
| Hashtable.StoredKeyFound | server.c:123-142 | Every stored entry's key can be retrieved from the table. |
| Hashtable.PrefixesComparable | server.c:57-58 | If one stored key matches two keys, those keys are comparable: strncmp conflates keys that are prefixes of one another. |
| Hashtable.FindKeyDelete | server.c:102-112 | Deleting a bucket entry other than the first match moves the first match by at most one place. |
| Hashtable.FindKeyDeleteAbsent | server.c:102-112 | Deleting a bucket entry does not create a match. |
| Hashtable.FindKeyAppend | server.c:85-86 | Appending an entry to a bucket changes the scan only when the bucket had no match before. |
| Hashtable.EntriesSplit | server.c:37-38 | The entries of a table are those of the buckets before `b`, then bucket `b`, then those after it. |
| Hashtable.StoreEachAppend | server.c:44-89 | Storing two runs of pairs is storing the first run, then the second. |
| HashRing.ServerOf | load_balancer.c:110 | `label % MAX_HASH` is a server id below MAX_HASH. |
| HashRing.ReplicaLabel | load_balancer.c:194-195 | Replica `r` of server `id` is a label of `id` whose quotient by MAX_HASH is `r`. |
| HashRing.LabelsOfServer | load_balancer.c:194-195 | A label below 3 * MAX_HASH belongs to server `id` exactly when it is one of the three replica labels of `id`. |
| HashRing.RingPositionOrder | load_balancer.c:48-69 | hashring_position returns the first position whose label hashes at least as high as the new label, and the size of the ring when there is none. |
| HashRing.KeyPositionOrder | load_balancer.c:75-96 | key_hashring_position returns the first label hashing at least as high as the key. When every label hashes lower, it wraps to 0. |
| HashRing.KeyPosition | load_balancer.c:75-96 | On a non-empty ring the key's position is a valid index. |
| HashRing.FirstAtLeastSpec | load_balancer.c:54-68 | The linear search stops at the first label hash that is not below the target. |
| HashRing.Insert | circular_doubly_linked_list.c:57-122 | add_node on ring values: the label is at `p`, the labels before it stay, and the labels after it shift by one. |
| HashRing.Delete | circular_doubly_linked_list.c:127-177 | remove_node on ring values: the labels after `p` shift back by one. |
| HashRing.InsertSorted | load_balancer.c:134-136 | A new label inserted at its hashring_position keeps the ring strictly ordered by hash. |
| HashRing.DeleteSorted | load_balancer.c:208-215 | Removing a label keeps the ring ordered. |
| HashRing.InsertMembers | load_balancer.c:136 | After the insertion the ring holds exactly the old labels and the new one. |
| HashRing.DeleteMembers | load_balancer.c:212 | On an ordered ring, a deletion removes exactly the label at that position. |
| HashRing.PositionOfMember | load_balancer.c:210-212 | For a label on the ring, hashring_position finds the place where it sits, so remove_from_hashring removes that label. |
| HashRing.SortedDistinct | load_balancer.c:48-69 | An ordered ring holds each label once. |
| HashRing.KeyPositionAfterInsert | load_balancer.c:173-184 | Inserting a label moves a key only when the key lands on the new label. The key then comes from the clockwise neighbour, whose entries add_redistribute_objects scans. |
| HashRing.FirstAtLeastInsert | load_balancer.c:54-68 | The search on the grown ring, in terms of the search on the old ring. |
| Balancer.StoreEntry | load_balancer.c:100-112 | loader_store keeps the set of servers and the routing invariant. |
| Balancer.CopyOwned | load_balancer.c:138-187 | The copy step of add_redistribute_objects changes only the new label's server and keeps every table shaped. |
| Balancer.Owned | load_balancer.c:175-184 | The entries the label at `p` takes keep the order they were scanned in (a subsequence). An entry is taken exactly when it was scanned and its key lands on position `p`. |
| Balancer.RemoveLabel | load_balancer.c:208-215 | remove_from_hashring removes exactly that label and keeps the ring ordered. |
| Balancer.RemoveLabels | load_balancer.c:225-227 | The three removals shrink the ring by three and keep it ordered. |
| Balancer.StoreEachEntry | load_balancer.c:239-254 | Re-storing a run of entries keeps the set of servers and the routing invariant. |
| Balancer.RetrieveAfterStoreEntry | load_balancer.c:100-126 | loader_retrieve returns what loader_store just stored under the key. |
| Balancer.RetrieveStoreEntryOther | load_balancer.c:100-126 | loader_store of one key leaves loader_retrieve of every incomparable key unchanged. |
| Balancer.RetrieveAfterStoreEachEntry | load_balancer.c:239-254 | After loader_store of pairwise incomparable entries, each is retrievable through the ring. |
| Balancer.OwnedPrefixFree | load_balancer.c:175-184 | The copied entries are pairwise incomparable when the neighbour's entries are. |
| Balancer.OwnedAppend | load_balancer.c:167-187 | Filtering entries bucket by bucket equals filtering them all at once. |
| Balancer.StoreEachEntryAppend | load_balancer.c:234-255 | Storing entries bucket by bucket equals storing them all in order. |
| Balancer.InsertRoutable | load_balancer.c:134-136 | A new replica label of an existing server, inserted at its position, keeps the ring routable. |
| Balancer.RedistributeRoutable | load_balancer.c:130-188 | add_redistribute_objects keeps the ring routable. It adds the label at its hashring_position and grows the ring by one. |
| Balancer.RedistributeSorted | load_balancer.c:130-188 | The ring stays ordered after add_redistribute_objects. |
| Balancer.RedistributeRing | load_balancer.c:130-188 | The ring after add_redistribute_objects holds the old labels and the new one. |
| Balancer.RedistributeTables | load_balancer.c:130-188 | add_redistribute_objects keeps the set of servers and every table shaped. |
| Balancer.RedistributeServesCopies | load_balancer.c:162-187 | Every entry of the neighbour whose key moves to the new label can be retrieved through the grown ring. |
| Balancer.RedistributeKeepsOthers | load_balancer.c:130-188 | For a key the new label does not take over (and not already on the same server), the owner and the retrieved value stay the same. |
| Balancer.AddReplicasGrow | load_balancer.c:202-204 | The three redistributions add exactly the three labels of the server and keep the ring routable. |
| Balancer.AddServerWf | load_balancer.c:191-205 | loader_add_server preserves the invariant: the ring is ordered and routable, and every server, the new one included, has all three labels on it. |
| Balancer.AddServerRing | load_balancer.c:191-205 | loader_add_server adds one server and grows the ring by three labels. |
| Balancer.AddServerMembers | load_balancer.c:191-205 | The labels after loader_add_server are the old labels plus the new server's three. |
| Balancer.CompleteAfterAdd | load_balancer.c:198-204 | A new table together with its three labels keeps every server's labels on the ring. |
| Balancer.RemoveServerWf | load_balancer.c:218-259 | loader_remove_server preserves the invariant. It removes the server and exactly its three labels and keeps every other label. |
| Balancer.RemoveServerRing | load_balancer.c:218-259 | After loader_remove_server the ring is routable without the server and three labels shorter. |
| Balancer.RemoveServerMembers | load_balancer.c:225-227 | The labels left are those of the other servers. |
| Balancer.RemoveLabelsMembers | load_balancer.c:225-227 | The three removals remove exactly the three labels of the server. |
| Balancer.RemoveServerKeepsEntries | load_balancer.c:228-258 | After loader_remove_server, every entry the removed server held is owned by another server and retrieved with its value. |
| Balancer.RemoveLabelRoutable | load_balancer.c:208-215 | Removing a label keeps the ring routable. |
| Balancer.RoutableWithout | load_balancer.c:250-258 | Freeing a server that has no label on the ring keeps every label routed to an existing server. |
| Balancer.NoLabelsOf | load_balancer.c:191-198 | A server without a table has no label on a routable ring. |
| Balancer.NewServerRoutable | load_balancer.c:198 | init_server_memory in a free slot keeps the ring routable. |
| Balancer.RoutableUpdate | load_balancer.c:111 | Replacing one server's table by a well-placed one keeps the ring routable. |
| Balancer.RedistributeNext | load_balancer.c:202-204 | Each redistribution leaves the next replica label off the ring. |
| Balancer.RemoveLabelsRoutable | load_balancer.c:225-227 | Without the server's labels the ring is still routable, non-empty when entries must be re-stored, and has no label of the server. |
| HashRing.KeyPositionAfterDelete | load_balancer.c:208-215 | Removing a label other than the one a key lands on leaves the key on the same label. |
| Rebalance.Kept | load_balancer.c:175-184 | The entries the label at `p` does not take, in scan order (a subsequence). An entry is kept exactly when its key does not land on `p`. |
| Rebalance.Drop | load_balancer.c:167-187 | The neighbour's table without the entries the label at `p` takes. It stays shaped, every key stays in its bucket, and no key left lands on `p`. |
| Rebalance.MoveOwned | load_balancer.c:162-187 | The intended move step keeps the set of servers and every table shaped. |
| Rebalance.StaleCopyComesBack | load_balancer.c:175-183 | A key moves from server B to a new server C, `(k, v2)` is stored, and B is removed. loader_remove_server stores B's stale `(k, v1)` again (load_balancer.c:239-244), and loader_retrieve returns `v1`, not `v2`. |
| Rebalance.RedistributeKeeps | load_balancer.c:130-188 | add_redistribute_objects changes no table but that of the new label's server. |
| Rebalance.AddServerKeeps | load_balancer.c:191-205 | loader_add_server leaves every existing server's table as it was, stale copies included. |
| Rebalance.RedistributeMovedRoutable | load_balancer.c:130-188 | The move step builds the same ring as add_redistribute_objects and keeps the state routable and the set of servers. |
| Rebalance.RedistributeMovedNext | load_balancer.c:202-204 | After one move step the next replica label of the server is still off the ring. |
| Rebalance.AddReplicasMovedSteps | load_balancer.c:202-204 | The three move steps of loader_add_server, one after the other, each on a routable state. |
| Rebalance.AddServerMovedWf | load_balancer.c:191-205 | loader_add_server with the move step builds the same ring and keeps the invariant `Wf`, with the new server added. |
| Rebalance.RedistributeMovedPlaced | load_balancer.c:130-188 | The move step keeps every stored key on the server the ring routes it to. |
| Rebalance.MovedPlaced | load_balancer.c:162-187 | When the new label and its neighbour belong to different servers, the copied and the kept entries all route to the server holding them. |
| Rebalance.MovedKeyOwner | load_balancer.c:175-183 | A key the neighbour keeps, a key the label's server has or takes, and a key of any other server each route to that server after the insertion. |
| Rebalance.InsertOwner | load_balancer.c:134-136 | Inserting a label changes a key's server only when the key lands on the label; the key then comes from the server of the clockwise neighbour. |
| Rebalance.AddServerMovedPlaced | load_balancer.c:191-205 | loader_add_server with the move step keeps every stored key placed. |
| Rebalance.RedistributeMovedKeys | load_balancer.c:162-187 | The move step adds no key to a server other than the new label's. |
| Rebalance.AddServerMovedKeys | load_balancer.c:191-205 | loader_add_server with the move step adds no key to an existing server. |
| Rebalance.AddReplicasMovedKeys | load_balancer.c:202-204 | The three move steps keep the set of servers and add no key to another server. |
| Rebalance.StoreEntryPlaced | load_balancer.c:100-112 | loader_store keeps every stored key on the server it is routed to. |
| Rebalance.StoreEachEntryPlaced | load_balancer.c:239-254 | Storing a run of entries through the ring keeps every key placed. |
| Rebalance.RemoveLabelOwner | load_balancer.c:208-215 | remove_from_hashring keeps a key on its label unless it removes that label. |
| Rebalance.RemoveLabelsOwner | load_balancer.c:225-227 | Removing the three labels of a server moves no key routed to another server. |
| Rebalance.RemoveServerPlaced | load_balancer.c:218-259 | loader_remove_server keeps every stored key placed. |
| Rebalance.RemoveLabelsPlaced | load_balancer.c:225-227 | After the three removals every other server's keys still route to it. |
| Rebalance.PlacedWithout | load_balancer.c:250-258 | Freeing a server whose keys are exempt from the placement leaves every remaining key placed. |
| Rebalance.RetrieveStoreEachEntryOther | load_balancer.c:239-254 | Re-storing entries whose keys are incomparable with a key leaves loader_retrieve of that key unchanged. |
| Rebalance.RemoveServerServesOthers | load_balancer.c:218-259 | With every key placed, loader_remove_server keeps the invariant and the placement, and a key routed to another server keeps its value. |
| Rebalance.StoreThenRemoveServer | load_balancer.c:100-112 | With every key placed, a value stored for a key routed away from server B is still served after B is removed. |
| Rebalance.MovedServesLastStore | load_balancer.c:239-244 | With the move step, the same run as StaleCopyComesBack serves the value stored last. |
| Rebalance.UnroutedEmpty | load_balancer.c:100-112 | With no label on the ring, no server stores a key. |
| Rebalance.EntryKeys | server.c:44-89 | The key of every entry of a table is one of its keys. |
| Rebalance.EmptyKeys | server.c:23-41 | A new server memory stores no key. |
| Rebalance.StoreKeys | server.c:44-89 | server_store adds no key but its own. |
| Rebalance.StoreEachKeys | server.c:44-89 | Storing a run of entries adds no key but theirs. |
| Rebalance.DropFacts | load_balancer.c:167-187 | Filtering each bucket keeps the table shaped and drops exactly the keys of `p`. |
| CircularList.List.constructor | circular_doubly_linked_list.c:8-20 | create_list: an empty list with NULL head and tail. |
| CircularList.List.GetNode | circular_doubly_linked_list.c:24-53 | get_node returns the node at `n mod size`, and NULL for a position that is negative as an `int`. |
| CircularList.List.AddNode | circular_doubly_linked_list.c:57-122 | add_node inserts a copy of the data at position `n` and keeps the list circular. A negative position changes nothing. |
| CircularList.List.Insert | circular_doubly_linked_list.c:80-121 | The splice for a non-negative position inserts at `n` and grows the size by one. |
| CircularList.List.LinkOnly | circular_doubly_linked_list.c:91-99 | The first node of an empty list is its own neighbour both ways. |
| CircularList.List.LinkFirst | circular_doubly_linked_list.c:82-90 | A new head in front of the old one. |
| CircularList.List.LinkLast | circular_doubly_linked_list.c:101-107 | A new tail after the old one. |
| CircularList.List.LinkAfter | circular_doubly_linked_list.c:109-118 | A new node after the node at `k`. |
| CircularList.List.RemoveNode | circular_doubly_linked_list.c:127-177 | remove_node unlinks the node at `n` and returns it with its data. It returns NULL and changes nothing for a negative position or an empty list. |
| CircularList.List.UnlinkFirst | circular_doubly_linked_list.c:145-156 | Removing the head. The last removal makes the list empty, with NULL head and tail. |
| CircularList.List.UnlinkLast | circular_doubly_linked_list.c:158-165 | Removing the tail. |
| CircularList.List.UnlinkInner | circular_doubly_linked_list.c:167-175 | Removing an inner node bridges its neighbours. |
| CircularList.List.SetData | server.c:59-60 | The in-place write through a node changes only that element. |
| Server.ServerMemory.constructor | server.c:23-41 | init_server_memory: HMAX empty buckets and size 0. |
| Server.ServerMemory.Retrieve | server.c:123-142 | server_retrieve returns the value of the first matching entry of the key's bucket, or NULL. |
| Server.ServerMemory.Store | server.c:44-89 | server_store overwrites the first match or appends a new pair, and updates `size`. |
| Server.ServerMemory.Overwrite | server.c:57-62 | The value of one entry is replaced in place. |
| Server.ServerMemory.Append | server.c:66-88 | A new pair at the end of the key's bucket, one more entry. |
| Server.ServerMemory.Remove | server.c:93-119 | server_remove unlinks the first match and decrements `size`. With no match it changes nothing. |
| Server.ServerMemory.Delete | server.c:102-113 | One entry leaves its bucket, one entry fewer. |
| LoadBalancing.HashringPosition | load_balancer.c:48-69 | The walk from the head returns the ring position of the label. |
| LoadBalancing.KeyHashringPosition | load_balancer.c:75-96 | The walk from the head returns the key's ring position. |
| LoadBalancing.CopyServer | load_balancer.c:166-187 | The two nested loops store, into the target server, the source entries that the label at `p` owns. |
| LoadBalancing.CopyBucket | load_balancer.c:168-186 | The inner loop does the same for one bucket. |
| LoadBalancing.CopyIfOwned | load_balancer.c:175-184 | One entry is stored exactly when its key lands on position `p`. |
| LoadBalancing.LoadBalancer.constructor | load_balancer.c:30-43 | init_load_balancer: no server and an empty ring. |
| LoadBalancing.LoadBalancer.StoreInto | load_balancer.c:111 | server_store on one slot changes that server's table only. |
| LoadBalancing.LoadBalancer.ServerAt | load_balancer.c:107-110 | The label at a position gives the id of an existing server. |
| LoadBalancing.LoadBalancer.LoaderStore | load_balancer.c:100-112 | loader_store reports the key's owner and stores the pair on it. |
| LoadBalancing.LoadBalancer.LoaderRetrieve | load_balancer.c:115-126 | loader_retrieve reports the key's owner and returns what that server holds for the key. |
| LoadBalancing.LoadBalancer.InsertLabel | load_balancer.c:134-136 | The label goes into the ring list at its position. |
| LoadBalancing.LoadBalancer.CopyOwnedFrom | load_balancer.c:166-187 | The new label's server receives the neighbour's entries that the label owns. |
| LoadBalancing.LoadBalancer.CopyToLabel | load_balancer.c:138-187 | The steps after the insertion: stop for a lone label or for a neighbour on the same server, otherwise copy. |
| LoadBalancing.LoadBalancer.AddRedistributeObjects | load_balancer.c:130-188 | add_redistribute_objects takes the balancer to `Redistribute` of its old state. |
| LoadBalancing.LoadBalancer.AttachServer | load_balancer.c:198 | The new slot holds an empty server. |
| LoadBalancing.LoadBalancer.RedistributeLater | load_balancer.c:203-204 | The second and third calls take the balancer through `Redistribute` twice. |
| LoadBalancing.LoadBalancer.RedistributeReplicas | load_balancer.c:202-204 | The three calls take the balancer to `AddReplicas` of its state. |
| LoadBalancing.LoadBalancer.LoaderAddServer | load_balancer.c:191-205 | loader_add_server keeps the full invariant and takes the balancer to `AddServer` of its old state. |
| LoadBalancing.LoadBalancer.RemoveFromHashring | load_balancer.c:208-215 | remove_from_hashring removes exactly that label from the ring list. |
| LoadBalancing.LoadBalancer.RemoveServerLabels | load_balancer.c:224-227 | The three calls remove the server's three labels. |
| LoadBalancing.LoadBalancer.RestoreEntry | load_balancer.c:241-244 | loader_store of one entry of the removed server leaves that server untouched. |
| LoadBalancing.LoadBalancer.RestoreBucket | load_balancer.c:238-255 | One bucket's entries go to loader_store and the count goes down by their number. The walk ends exactly when it reaches zero. |
| LoadBalancing.LoadBalancer.RestoreBucketAt | load_balancer.c:234-255 | After bucket `i`, every entry of the buckets up to `i` has been stored again. |
| LoadBalancing.LoadBalancer.RestoreEntries | load_balancer.c:228-257 | Both loops together store every entry of the server again, in bucket order, whichever way they end. |
| LoadBalancing.LoadBalancer.FreeServer | load_balancer.c:250-258 | free_server_memory: the server leaves the tables. |
| LoadBalancing.LoadBalancer.LoaderRemoveServer | load_balancer.c:218-259 | loader_remove_server keeps the full invariant and takes the balancer to `RemoveServer` of its old state. |

## Left out

- Memory management is not modelled:
  - `malloc`, `calloc` and `free`;
  - the `DIE` exit on allocation failure;
  - `free_server_memory`, `free_load_balancer` and `cdll_free`.
  A freed server is modelled as leaving the ghost map of tables. Its slot keeps the old pointer, as in the C code, and the model never reads a slot of a server that is not in the tables.
- The `void *` data of the list and `memcpy` with `data_size` are left out. The list is generic in its element type, and a node holds a copy of the value.
- The command-line driver that reads requests and prints results is not part of this model (input and output).
- Strings are sequences of non-NUL bytes. Their NUL terminator and the `strlen(...) + 1` sizes are not modelled.
- CircularList.List.GetNode: requires a non-empty list. The C code computes `n % size` before testing anything, so an empty list divides by zero.
- CircularList.List.AddNode: requires `n <= size` for a non-negative position. Every caller passes such a position. The C code would wrap a larger one through get_node.
- CircularList.List.AddNode: for a negative position, the C code allocates the node and leaks it. The model only states that the list is unchanged.
- CircularList.List.RemoveNode: requires `n < size` for a non-negative position on a non-empty list. Every caller passes such a position.
- Positions are `unsigned int` values that the list casts to `int`. `IsNegative` models a negative `int` argument. No unsigned value of 2^31 or more is formed by the balancer, because the rings hold at most 3 * MAX_HASH labels.
- LoadBalancing.LoadBalancer.LoaderStore and LoadBalancing.LoadBalancer.LoaderRetrieve require a non-empty ring. On an empty ring, get_node divides by zero.
- LoadBalancing.LoadBalancer.LoaderAddServer: requires that the id has no server yet. The C code would overwrite the slot and insert duplicate labels.
- LoadBalancing.LoadBalancer.LoaderAddServer: does not state that the objects it adds to the footprint are newly allocated.
- LoadBalancing.LoadBalancer.LoaderRemoveServer: requires an existing server. When entries must be stored again, at least one other server must remain, since otherwise the C code stores into an empty ring.
- LoadBalancing.LoadBalancer.LoaderRemoveServer: does not state that the objects it adds to the footprint are newly allocated.
- add_redistribute_objects copies the entries the new label owns and does not remove them from the neighbour. The class and `balancer.dfy` follow the code. loader_retrieve routes the key away from the stale copies, but loader_remove_server stores them again and can bring an old value back over a newer one (see "Findings"). The intended move is modelled in `rebalance.dfy`.
- Server.ServerMemory.Overwrite: replaces the old value whole. When the key exists, server.c:59-60 copies `strlen(value) + 1` bytes (server.c:49) into the old value's buffer, which was allocated for the old value only (server.c:77), so a longer value overflows that buffer. Byte buffers are not modelled, so the model gives the value the code evidently intends.
- The early `return` inside the loops of loader_remove_server is modelled by a `done` result that ends both loops. The server is freed on both ways out, so both end in the same state.
- Balancer.RetrieveAfterStoreEachEntry: assumes the stored keys are pairwise incomparable (neither is a prefix of the other). The strncmp prefix test can otherwise let one key overwrite another.
- Balancer.RemoveServerKeepsEntries: assumes the removed server's keys are pairwise incomparable, for the same reason.
- Balancer.RedistributeServesCopies: assumes the neighbour's keys are pairwise incomparable, for the same reason.
- Balancer.RedistributeKeepsOthers: does not cover a key whose owner is another label of the same server. add_redistribute_objects skips the copy in that case.
- The server id that loader_store and loader_retrieve write through their `int *server_id` argument is returned as `serverId`.

## Findings

| source | as written | input that shows it | evidently intended | confidence | as-written member | corrected member |
|---|---|---|---|---|---|---|
| load_balancer.c:175-183 and load_balancer.c:239-244 | add_redistribute_objects copies the entries a new label takes and leaves them on the neighbour; loader_remove_server stores every entry of the removed server again | server B holds key k with value v1; server C is added and k now routes to C; loader_store(k, v2) goes to C; loader_remove_server(B) stores (k, v1) again over v2; loader_retrieve(k) returns v1 | the neighbour gives up the entries it hands over, and loader_retrieve returns the value stored last | high, not executed | Rebalance.StaleCopyComesBack | Rebalance.MovedServesLastStore |
