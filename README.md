# In-memory bookkeeping structures: a consistent-hashing ring, an LFU cache and a load balancer

This project models three independent, sequential data structures in Dafny and proves the
invariants their code relies on.

- **The range-partitioned consistent-hashing ring** (`ConsistentHashing`, modules `RangeTable`, `NodeIds`, `Ring`).
  The key space `[1, keyRange]` is cut into intervals.
  - `RangeToNodeMap` keeps the intervals in increasing order, with the id of the node that owns each one.
    Lookups and reassignments use binary search.
  - Every node record keeps the list of intervals it owns.
  - `IDManager` keeps node ids dense (`0..n-1`, node `k` in slot `k`) by swapping with the highest id on removal.
  - `removeNode` hands every interval of the departing node to the remaining nodes.
  - `addNode` takes a share of intervals from the existing nodes.
  - The ring invariant (`Ring.ConsistentHashing.Valid`) has three parts:
    - the intervals tile the key space without gap or overlap;
    - ids are dense;
    - the table and the node lists agree. Interval `i` has table owner `x` iff node `x` lists it, and every interval is listed exactly once.
  - Every operation preserves the invariant.
- **The LFU cache with a recency tie-break** (`LFRUCacheD`, module `Lfru`).
  - It keeps a key-to-entry map, one deque of keys per frequency, and a pointer `lowest` to the smallest frequency in use.
  - `get` and `put` raise a key's frequency by one and move it to the head of the next bucket.
  - When the cache is full, `put` of a new key evicts the tail of bucket `lowest`.
  - The model carries ghost time stamps. With them it proves that the evicted key is the least recently touched of the least frequently used keys.
- **The worst-fit load balancer** (`LoadBalancer`, module `Balancer`).
  - Each application goes to the machine with the most spare capacity (`weight`), ties going to the smallest machine key.
  - Stopping an application gives its load back.
  - Removing a machine re-offers its applications to the others.

The machine queue (`HashedPQ`) and the deques (`Deque`) are not part of this model. Each is modelled by its observable behaviour:

- the queue is a map from machine key to machine. `remove()`/`peek()` yield some machine of maximum weight;
- a deque is a sequence with `prepend` at the head, `pop` at the tail and `remove(x)` anywhere.

Random choices become caller-supplied parameters, each with a precondition that keeps it in range:

- `#randomNode()` is `pick(p)` in the constructor, `dests[j]` in `removeNode` and `sources[j]` in `addNode`;
- the random interval length is `step(p)`;
- the random interval index is `picks[j]`.

`consistentHashing.js` is an earlier draft of `consistentHashingWithComments.js`.

- Its `getNode`, `reassignRange`, `removeId`, `#removeNodeHelper`, `removeNode` and `addNode` are the same code, so the same members model both files.
- Its constructor (consistentHashing.js:77-96) has the same loop, but it is broken in ways of its own, listed below. The model's constructor follows consistentHashingWithComments.js:77-98.
- Only `getNodeForKey` (consistentHashing.js:106-110) exists in it alone.

Several lines of the ring drafts would not run as written: one is rejected when the file is parsed, the others throw. The model follows the evident intent:

- the constructor pushes the undefined names `lo`/`hi` into the table (consistentHashingWithComments.js:94). The model pushes the interval just built, `[first, last]`;
- `addNode` calls `this.idManager.addNode(nodes.length)` (consistentHashingWithComments.js:141), which is neither a method nor a bound name. The model registers the new node through `addId` with the current node count;
- `IDManager` writes the undeclared private field `#idToIndexMap` (consistentHashingWithComments.js:57, and consistentHashing.js:57). A private name that is never declared is a syntax error, so neither file parses as written. Everywhere else the drafts read the public `idToIndexMap`; the model has one field, `idToIndex`;
- the static inner classes are reached through `this` (consistentHashingWithComments.js:79-81). A static field is a property of the class, not of an instance, so `this.RangeToNodeMap` is `undefined` and `new` throws. The model builds them directly;
- the constructor of consistentHashing.js (lines 77-96) never creates the table or the id manager. The static fields `idManager` (line 55) and `RangeToNodeMap` are not visible through the instance, so `this.idManager.idToIndexMap` (line 82) and `this.RangeToNodeMap.ranges` (lines 92-93) read a property of `undefined` and throw. The first throws whenever `numNodes >= 1`. `getNodeForKey` of that file reads `this.RangeToNodeMap` too (line 107), so it always throws. The model gives that file the same table and id manager as the annotated one.

Where the code and the design it documents disagree:

- the model follows the code, and the "## Findings" section lists each case;
- `addNode` moves `floor(numRanges / (nodes.length + 1))` intervals, counted after the new node has been pushed. The model follows that count, not a count over the live nodes;
- the constructor comment promises `lo < hi` for every interval. The random length can be 0, so the model proves `lo <= hi`.

## Model

| member | source | states |
|---|---|---|
| RangeTable.TilesUpToAppend | consistentHashingWithComments.js:89-96 | appending `[next, hi]` to a tiling of `[1, next-1]` gives a tiling of `[1, hi]`: one pass of the constructor loop keeps the key space gap-free |
| RangeTable.TilesUpToPartition | consistentHashingWithComments.js:86-97 | when the construction loop stops (the next interval would start at `keyRange+1`), the intervals tile `[1, keyRange]`: first `lo` is 1, each `lo` is the previous `hi`+1, last `hi` is `keyRange`, `lo <= hi` |
| RangeTable.ChainIncreasing | consistentHashingWithComments.js:15-16 | in a gap-free chain of non-empty intervals, any earlier interval ends before any later one starts |
| RangeTable.PartitionIncreasing | consistentHashingWithComments.js:15-16 | a tiling of the key space is strictly increasing (`hi_i < lo_j` for `i < j`), which is what makes binary search valid |
| RangeTable.PartitionCovers | consistentHashingWithComments.js:15-16 | coverage: every key in `[1, keyRange]` lies in some interval |
| RangeTable.ContainingUnique | consistentHashingWithComments.js:15-16 | no overlap: two intervals of an increasing table that contain the same key are the same interval |
| RangeTable.ReassignedAbsent | consistentHashingWithComments.js:51 | reassigning an interval the table does not hold changes no owner |
| RangeTable.Reassigned | consistentHashingWithComments.js:42-44 | the owner list after reassigning one interval: the slot holding exactly that interval takes the new id, every other slot keeps its owner; `ReassignRange` is proved against it and `ReassignedAbsent` covers the -1 path |
| RangeTable.Renamed | consistentHashingWithComments.js:70-71 | the owner list after node id `from` is renumbered to `to`: every entry `from` becomes `to`; `Relabel` is proved against it |
| RangeTable.RangeToNodeMap.constructor | consistentHashingWithComments.js:14-21 | a new table has no intervals and no owners, and satisfies the table invariant |
| RangeTable.RangeToNodeMap.GetNode | consistentHashingWithComments.js:23-36 | when an interval contains `key` (it is unique), returns that interval's owner; when none does, returns -1 (search over `[0, length-1]`); an owner id may itself be -1, because `reassignRange` accepts any id |
| RangeTable.RangeToNodeMap.ReassignRange | consistentHashingWithComments.js:38-52 | reports found iff the exact interval `[lo, hi]` is in the table; only the owner slot of that interval becomes `newNodeId`; the intervals and every other owner are unchanged |
| RangeTable.RangeToNodeMap.Relabel | consistentHashingWithComments.js:130-137 | every owner entry `from` becomes `to`, all others unchanged: the relabelling `removeNode` needs after an id is renumbered |
| RangeTable.GetNodeSearch | consistentHashingWithComments.js:25-34 | the `getNode` loop from a given `lop`/`hip`, with the source's branches: a hit, -1, or a probe past the end (`OutOfBounds`); `GetNodeSearchOverruns` is about it |
| RangeTable.GetNodeAsWritten | consistentHashingWithComments.js:23-36 | `getNode` as written, started with `hip = length`; `GetNodeAsWrittenOverruns` exhibits its overrun |
| RangeTable.ReassignSearch | consistentHashingWithComments.js:40-50 | the `reassignRange` loop from a given `lop`/`hip`, with the source's comparisons; `ReassignSearchOverruns` is about it |
| RangeTable.ReassignRangeAsWritten | consistentHashingWithComments.js:38-52 | `reassignRange` as written, started with `hip = length`; `ReassignRangeAsWrittenOverruns` exhibits its overrun |
| RangeTable.GetNodeSearchOverruns | consistentHashingWithComments.js:24-34 | the as-written search, from any `lop` with `hip = length`, reaches the probe `ranges[length]` when the key is above every interval |
| RangeTable.GetNodeAsWrittenOverruns | consistentHashingWithComments.js:24-35 | as written (`hip = length`), `getNode` of a key above every interval, or of any key on an empty table, reads `ranges[length]` instead of returning -1 |
| RangeTable.ReassignSearchOverruns | consistentHashingWithComments.js:39-50 | the as-written reassignment search, from any `lop` with `hip = length`, reaches `ranges[length]` for an interval beyond the last one |
| RangeTable.ReassignRangeAsWrittenOverruns | consistentHashingWithComments.js:39-51 | as written, `reassignRange` of an interval beyond the last one reads `ranges[length]` instead of returning -1 |
| NodeIds.IdentityMapExtend | consistentHashingWithComments.js:60-62 | registering id `n` at slot `n` turns the identity map on `0..n-1` into the identity map on `0..n` |
| NodeIds.IDManager.constructor | consistentHashingWithComments.js:56-58 | a new id manager maps no id |
| NodeIds.IDManager.AddId | consistentHashingWithComments.js:60-62 | the map gains exactly `nodes.length -> nodes.length` |
| NodeIds.IDManager.RemoveId | consistentHashingWithComments.js:64-74 | freeing the highest id only deletes it; otherwise `rid` points at slot `r`, where the renumbered node will stay, the highest id is deleted, and the removed node takes the highest id while the highest node takes `rid` |
| NodeIds.RemoveIdMapAsWritten | consistentHashingWithComments.js:64-74 | the id map after `removeId` exactly as written, line 69 included; `RemoveIdAsWrittenStale` exhibits the stale entry |
| NodeIds.RemoveIdAsWrittenStale | consistentHashingWithComments.js:64-69 | as written, on a dense registry, removing any id but the highest leaves `rid` pointing at slot `n-1`, which is about to be popped |
| Ring.OwnerIffListed | consistentHashingWithComments.js:17-20 | under the ring invariant, the table owner of interval `i` is `x` iff node `x` lists interval `i` |
| Ring.OthersNotListed | consistentHashingWithComments.js:17-20 | a node lists none of the intervals the table gives to other nodes |
| Ring.SingleOwner | consistentHashingWithComments.js:15-20 | one owner per key: two node-listed intervals containing the same key are the same interval, listed by the same node |
| Ring.PartitionWithin | consistentHashingWithComments.js:86-97 | every interval of a tiling lies inside `[1, keyRange]` |
| Ring.Spliced | consistentHashingWithComments.js:106 | `splice(j, 1)` removes exactly one element: one shorter, the multiset loses `s[j]` once, every other element stays |
| Ring.TracksAppend | consistentHashingWithComments.js:92-95 | appending an interval to a node's list and to the table, owned by that node, keeps table and node lists in step |
| Ring.TransferFromDetached | consistentHashingWithComments.js:104-109 | moving one interval from the detached node to a live node, with the table pointed at the live node, keeps table and lists in step with one pending interval fewer |
| Ring.Moved | consistentHashingWithComments.js:104-109 | a transfer between two nodes keeps the number of nodes and every node id |
| Ring.TransferBetweenNodes | consistentHashingWithComments.js:104-109 | moving one interval between two live nodes, with the table reassigned to the destination's id, keeps "owner of `i` is `x` iff `x` lists `i`" and the multiset of all intervals |
| Ring.SwapPop | consistentHashingWithComments.js:122-127 | the node array after `#removeNodeHelper` is one shorter |
| Ring.RemoveKeepsTracks | consistentHashingWithComments.js:118-128 | after swap-with-last removal and relabelling the highest id to the freed one, the table and lists agree, with the removed node's intervals pending |
| Ring.SwapPopPool | consistentHashingWithComments.js:122-127 | the intervals of the remaining nodes plus those of the removed node are all the intervals there were |
| Ring.SwapPopSlot | consistentHashingWithComments.js:122-127 | which node ends up in each slot after swap-with-last removal |
| Ring.EmptyNodes | consistentHashingWithComments.js:81-85 | builds `numNodes` nodes with ids `0..numNodes-1`, each in its own slot and with no intervals, and the identity id map |
| Ring.CutKeySpace | consistentHashingWithComments.js:86-97 | the construction loop cuts exactly the intervals of `Cut` and so tiles `[1, keyRange]` (terminating because `first` strictly increases); the table gives the `p`-th interval to the node picked on pass `p` (`os[p] == pick(p)`, ids being slots), and that node's list holds it |
| Ring.Cut | consistentHashingWithComments.js:86-97 | the intervals the construction loop cuts with the corrected guard `first <= keyRange`; `CutPartition` and `CutMatchesAsWritten` are about it |
| Ring.CutPass | consistentHashingWithComments.js:90-96 | one pass of the loop keeps `CutSoFar`: the interval `[first, min(keyRange, first + step(p))]` is the next part of `Cut`, and it goes to node `pick(p)` in the table and in that node's list |
| Ring.CutPartition | consistentHashingWithComments.js:86-97 | the corrected loop tiles `[1, keyRange]` for every key range and every choice of lengths, `keyRange == 1` included |
| Ring.CutAgreesPastStart | consistentHashingWithComments.js:89-96 | after the first pass (`last == first - 1`), the source's guard and the corrected one cut the same intervals |
| Ring.CutMatchesAsWritten | consistentHashingWithComments.js:89 | correcting the guard changes only `keyRange == 1`: from two keys on, both loops cut the same intervals; with one key the source cuts none and the corrected loop cuts `[1, 1]` |
| Ring.BuildAsWritten | consistentHashingWithComments.js:86-97 | the intervals the constructor's loop builds with the source's guard `last < keyRange`; `BuildAsWrittenLeavesKeyOne` and `BuildAsWrittenTilesFromTwo` are about it |
| Ring.BuildAsWrittenTiles | consistentHashingWithComments.js:89-96 | continuing the as-written loop from a tiling of `[1, first-1]`, or from the start when `keyRange >= 2`, completes a tiling of `[1, keyRange]` whatever the lengths, zero included |
| Ring.BuildAsWrittenTilesFromTwo | consistentHashingWithComments.js:86-97 | from two keys on, the source's construction loop tiles `[1, keyRange]`: the guard at line 89 goes wrong only for `keyRange == 1` |
| Ring.ConsistentHashing.constructor | consistentHashingWithComments.js:77-98 | a new ring of `numNodes` nodes satisfies the ring invariant (tiling, dense ids, table and lists in step); the table holds exactly the intervals of `Cut`, the `p`-th owned by node `pick(p)` |
| Ring.ConsistentHashing.GetNodeForKey | consistentHashing.js:106-110 | no node (-1) iff the key lies outside `[1, keyRange]`; otherwise the node at the table owner's slot, which lists an interval containing the key |
| Ring.ConsistentHashing.TransferRange | consistentHashingWithComments.js:104-109 | exactly one interval leaves the source list (spliced out) and is appended to the destination's list; the table points that interval, and only it, at the destination's id |
| Ring.ConsistentHashing.RemoveNodeHelper | consistentHashingWithComments.js:118-128 | returns the removed node carrying the highest id; the array is the swap-with-last removal; ids stay dense `0..n-2` and the id map is the identity on them |
| Ring.ConsistentHashing.Detach | consistentHashingWithComments.js:118-131 | the removed node keeps its intervals; the table's entries for the renumbered node are relabelled to the freed id; table and lists agree with the removed node's intervals pending |
| Ring.ConsistentHashing.HandOver | consistentHashingWithComments.js:132-136 | after the transfer loop no interval is pending; only the handed-over intervals change owner; every live node keeps its old list as a prefix and gains only handed-over intervals |
| Ring.ConsistentHashing.RemoveNode | consistentHashingWithComments.js:130-137 | keeps the ring invariant with one node fewer; the intervals are unchanged; owners other than the removed node keep their intervals (the renumbered one under the freed id); every surviving list only gains intervals of the removed node |
| Ring.ConsistentHashing.AddNode | consistentHashingWithComments.js:139-147 | keeps the ring invariant; the new node has id `n` and receives `floor(numRanges / (n + 2))` intervals; the intervals are unchanged; each owner either stays or becomes `n`; each old node loses exactly the intervals taken from it |
| Ring.ConsistentHashing.MoveBetween | consistentHashingWithComments.js:104-109 | one `#transferRange` between two live nodes: the interval moves from source to destination and the table points it at the destination's id |
| Ring.ConsistentHashing.TakeShare | consistentHashingWithComments.js:143-146 | the `addNode` loop: each sampled interval moves from its source node to the new node, and the table follows |
| Ring.BuildAsWrittenLeavesKeyOne | consistentHashingWithComments.js:89 | as written, with `keyRange == 1` the guard `last < keyRange` is false at once: no interval is built and key 1 is not covered |
| Ring.RemoveNodeAsWrittenDangles | consistentHashingWithComments.js:130-137 | as written, the table entries of the renumbered node keep the old highest id `n-1`, which no surviving node carries |
| Ring.RemoveNodeOwnersAsWritten | consistentHashingWithComments.js:130-137 | the owner list after `removeNode` as written: only entries of the removed id are rewritten, with no relabelling of the renumbered id; `RemoveNodeAsWrittenDangles` exhibits the dangling entry |
| Seqs.IndexOf | loadBalancer.js:76 | `indexOf` of a present element: a valid index holding it, with no earlier occurrence |
| Lfru.Without | lfru.js:19 | the deque's `remove(x)`: exactly the other elements remain, each as often as before |
| Lfru.PrependRecent | lfru.js:21-24 | prepending the most recently touched key keeps a bucket in recency order |
| Lfru.TailRecent | lfru.js:19-21 | the head of a recency-ordered bucket is its most recent key, and the rest stays ordered |
| Lfru.PopRecent | lfru.js:62 | popping the tail keeps a bucket in recency order and removes the only copy of the tail |
| Lfru.WithoutRecent | lfru.js:19 | removing a key from a bucket keeps it in recency order |
| Lfru.RecentRestamp | lfru.js:17-31 | restamping a key that is not in a bucket leaves that bucket ordered |
| Lfru.Bumped | lfru.js:17-26 | the buckets after `#updateNode`: the key leaves bucket `f` and is prepended to bucket `f+1`, which is created if missing; `BumpPlaced` and `BumpStamped` are about it |
| Lfru.Raised | lfru.js:27-29 | `lowest` after `#updateNode`: `f+1` when bucket `f` was the lowest and ran empty, otherwise unchanged; `BumpLowest` is about it |
| Lfru.Victim | lfru.js:62 | the key `put` evicts: the tail of bucket `lowest`; `VictimLeastRecent` is about it |
| Lfru.Popped | lfru.js:62 | the buckets after the eviction's `pop`; `EvictPlaced` and `EvictStamped` are about it |
| Lfru.ExactlyOneBucket | lfru.js:17-26 | each stored key sits in exactly one bucket, the one of its frequency |
| Lfru.VictimLeastRecent | lfru.js:59-64 | the tail of bucket `lowest` is stored, has the minimum frequency, and is the least recently touched key of that frequency |
| Lfru.BumpKeepsInv | lfru.js:17-31 | `#updateNode` keeps the cache invariant: size bound, bucket 1 present, keys placed by frequency, buckets in recency order, `lowest` the minimum frequency |
| Lfru.BumpPlaced | lfru.js:17-26 | after a bump the key sits in bucket `freq+1` only, and every other key stays placed |
| Lfru.BumpStamped | lfru.js:17-31 | after a bump, with the key stamped now, every bucket is still in recency order |
| Lfru.BumpLowest | lfru.js:27-29 | after a bump, `lowest` moves up exactly when its bucket ran empty, and stays the minimum frequency |
| Lfru.InsertPlaced | lfru.js:33-38 | a new key at frequency 1, prepended to bucket 1, keeps every key placed by frequency |
| Lfru.InsertStamped | lfru.js:33-38 | a new key stamped now at the head of bucket 1 keeps the buckets in recency order |
| Lfru.InsertKeepsInv | lfru.js:33-38 | `#newNode` below capacity keeps the invariant, with `lowest` 1 |
| Lfru.EvictPlaced | lfru.js:62 | the popped tail is a stored key, and dropping it keeps the other keys placed |
| Lfru.EvictStamped | lfru.js:62 | dropping the popped tail keeps the buckets in recency order |
| Lfru.EvictKeepsCore | lfru.js:59-64 | eviction removes exactly one stored key and keeps placement and recency order |
| Lfru.LFRUCacheD.constructor | lfru.js:5-11 | an empty cache of capacity `cap` with an empty bucket 1 and `lowest` 0, satisfying the invariant |
| Lfru.LFRUCacheD.UpdateNode | lfru.js:17-31 | the key's frequency rises by exactly 1; it leaves bucket `f` and goes to the head of bucket `f+1`; `lowest` moves up iff bucket `f` was lowest and ran empty; the invariant holds |
| Lfru.LFRUCacheD.NewNode | lfru.js:33-38 | the key enters with frequency 1 at the head of bucket 1, `lowest` becomes 1, the invariant holds |
| Lfru.LFRUCacheD.Get | lfru.js:40-48 | an absent key gives -1 (`None`) and changes nothing; a present key gives its stored value, is bumped, and is stamped as the most recently touched key |
| Lfru.LFRUCacheD.Put | lfru.js:50-66 | `cap == 0` changes nothing; a stored key has its value overwritten and is bumped; a new key below capacity enters at frequency 1; at capacity the tail of bucket `lowest` is evicted first, and it is a least frequently used key and the least recently touched among those; every touched key is stamped as the most recent; the size never exceeds `cap` |
| Balancer.BestExists | loadBalancer.js:35-51 | every non-empty queue has a worst-fit machine (maximum weight, smallest key among equals) |
| Balancer.BestUnique | loadBalancer.js:38-42 | the worst-fit machine is unique |
| Balancer.Pick | loadBalancer.js:35-51 | the machine `#pickMachine` chooses is the worst fit |
| Balancer.ReleaseAssign | loadBalancer.js:60-61 | releasing an app just assigned to a machine that did not list it restores the machine exactly |
| Balancer.Assign | loadBalancer.js:60-61 | a machine taking on an app: its weight drops by the app's load and the app is appended; `ReleaseAssign` and `AddedSpec` are about it |
| Balancer.Release | loadBalancer.js:76-77 | a machine after an app stops: the first equal app leaves its list and its load is given back; `ReleaseAssign` and `StoppedSpec` are about it |
| Balancer.Recorded | loadBalancer.js:59 | the recorded app names the machine it is placed on and keeps the offered id and load |
| Balancer.Added | loadBalancer.js:53-69 | the result and state of `addApplication`: none on an empty queue, otherwise the worst-fit machine takes the app if it fits, and nothing changes if not; `AddedSpec` and `AddedConsistent` are about it |
| Balancer.AddedSpec | loadBalancer.js:53-69 | succeeds iff some machine can fit the load; on failure nothing changes; on success the worst-fit machine loses exactly `loadUse` (staying >= 0), lists the app last, the app is recorded, the machine key is returned, and no other machine changes |
| Balancer.AddedConsistent | loadBalancer.js:53-69 | `addApplication` keeps the state consistent: every recorded app is listed by the machine it names |
| Balancer.StoppedConsistent | loadBalancer.js:71-80 | `stopApplication` keeps the state consistent |
| Balancer.Stopped | loadBalancer.js:71-80 | the state after `stopApplication`: no change for an unknown id, otherwise the app is dropped and released by its machine; `StoppedSpec`, `StoppedConsistent` and `AddThenStop` are about it |
| Balancer.StoppedSpec | loadBalancer.js:71-80 | an unknown id changes nothing; a known one leaves `apps`, its machine regains `loadUse` and its list loses the first equal app with the order of the others kept, every other machine is untouched |
| Balancer.AddThenStop | loadBalancer.js:53-80 | adding a fresh app and stopping it restores the whole state, including the machine's weight |
| Balancer.ReofferedConsistent | loadBalancer.js:30-32 | re-offering apps one by one keeps the state consistent and the machine keys unchanged |
| Balancer.Reoffered | loadBalancer.js:30-32 | the re-offers of `removeMachine`: each app in turn goes through `addApplication` with its own id and load; `ReofferedConsistent`, `ReofferedKeepsRecorded`, `ReofferedOnlyOffered`, `ReofferedRecordsOffered` and `ReofferedSparesIdle` are about it |
| Balancer.ReofferedRest | loadBalancer.js:30-32 | after the first app is offered, the rest are re-offered from the new state, are still fresh for it, and at most the first app's id was added |
| Balancer.ReofferedKeepsRecorded | loadBalancer.js:30-32 | assuming `FreshPending` (the offered ids are not recorded and are pairwise distinct), re-offering leaves every app recorded before untouched |
| Balancer.ReofferedOnlyOffered | loadBalancer.js:30-32 | after the re-offers, every recorded id was recorded before or is one of the offered apps |
| Balancer.ReofferedRecordsOffered | loadBalancer.js:30-32 | assuming a consistent state and `FreshPending`, an offered app that ends up recorded is that app with only its machine changed, and that machine exists and lists it; one not recorded was dropped |
| Balancer.ReofferedSparesIdle | loadBalancer.js:30-32 | assuming `FreshPending`, a machine that took none of the offered apps is exactly as it was |
| Balancer.Detached | loadBalancer.js:28-29 | the state once the removed machine has left the queue and none of its apps is recorded (the corrected first step of `removeMachine`) |
| Balancer.Removed | loadBalancer.js:28-33 | the corrected `removeMachine`: detach, then re-offer every app of the removed machine; `RemovedConsistent` and `RemovedFate` are about it |
| Balancer.RemovedConsistent | loadBalancer.js:28-33 | `removeMachine` keeps the state consistent and removes exactly that machine key |
| Balancer.DetachedConsistent | loadBalancer.js:28-29 | taking the machine away together with the records of its apps keeps the state consistent |
| Balancer.DetachedFresh | loadBalancer.js:28-32 | when the removed machine's apps are its own (`OwnApps`: distinct ids, none recorded on another machine), the apps `removeMachine` re-offers meet `FreshPending` |
| Balancer.RemovedFate | loadBalancer.js:28-33 | assuming `OwnApps`, `removeMachine` leaves the apps of other machines untouched; a re-offered app that ends up recorded is that app on a surviving machine that lists it, and one not recorded was dropped; no other id appears; a surviving machine that took none of them is unchanged |
| Balancer.RemoveAsWrittenStale | loadBalancer.js:59 | as written, a re-placed app keeps the removed machine in `onMachine`, and the state is no longer consistent; corrected, it names its new machine |
| Balancer.RemoveAsWrittenKeepsUnplaced | loadBalancer.js:28-33 | as written, an app that finds no machine stays in `apps` naming a machine that no longer exists; corrected, it is dropped |
| Balancer.RecordedAsWritten | loadBalancer.js:59 | the app `addApplication` records as written: a re-offered app is reused with its old `onMachine` |
| Balancer.AddedAsWritten | loadBalancer.js:53-69 | `addApplication` as written, recording `RecordedAsWritten` |
| Balancer.RemovedAsWritten | loadBalancer.js:28-33 | `removeMachine` as written: `apps` is left as it is and every app is re-offered as written; `RemoveAsWrittenStale` and `RemoveAsWrittenKeepsUnplaced` exhibit its two faults |
| Balancer.ReofferedAsWritten | loadBalancer.js:30-32 | the re-offer loop of `removeMachine` as written |
| Balancer.DrainedAppend | loadBalancer.js:38-44 | taking one more equal-weight machine out of the queue extends the drained set and keeps the running smallest key |
| Balancer.Peek | loadBalancer.js:38 | `peek()` is empty iff the queue is; otherwise it names a maximum-weight machine |
| Balancer.Drain | loadBalancer.js:36-44 | the drain loop ends holding the worst-fit machine, having removed exactly the maximum-weight machines |
| Balancer.LoadBalancer.constructor | loadBalancer.js:19-22 | no machines and no apps |
| Balancer.LoadBalancer.AddMachine | loadBalancer.js:24-26 | stores a new machine with weight `cap` and no apps under its key |
| Balancer.LoadBalancer.PickMachine | loadBalancer.js:35-51 | returns null on an empty queue; otherwise removes and returns the worst-fit machine, every other machine going back unchanged |
| Balancer.LoadBalancer.PutBack | loadBalancer.js:45-49 | reinserts every drained machine except the picked one |
| Balancer.LoadBalancer.AddApplication | loadBalancer.js:53-69 | the result and the new state are those of `Added`, whose properties `AddedSpec` states; consistency is kept |
| Balancer.LoadBalancer.StopApplication | loadBalancer.js:71-80 | the new state is `Stopped` of the old one (see `StoppedSpec`); consistency is kept |
| Balancer.LoadBalancer.RemoveMachine | loadBalancer.js:28-33 | the new state is the corrected `Removed`: the machine is gone, its apps are unrecorded and re-offered; consistency is kept |
| Balancer.LoadBalancer.GetApplications | loadBalancer.js:82-84 | the ids of the machine's first `min(10, n)` apps, in placement order |

## Left out

- Balancer.RemovedFate: holds only under `OwnApps`. `addApplication` accepts an id that is already recorded (loadBalancer.js:53-69), so a machine can list two apps with one id, or one recorded under another machine. Re-offering those can overwrite a record. Only consistency (`RemovedConsistent`) is proved for that case.
- Randomness: `Math.random()`, `#randomNode()` and the floating-point interval-length formula (consistentHashingWithComments.js:91, :100-102, :105) are replaced by caller-supplied choices. Each choice has a precondition that keeps it in range.
- `keyToValMap` and `getValueForKey` are not part of this model.
  - They are value storage: the code calls an object as a function.
  - Apart from that, the lookup is `getNode`.
- `consistentHashing.js`'s own `#transferRange` (consistentHashing.js:102-104) is not modelled.
  - Its `splice(k)` has no count, so it deletes every interval from `k` on, and only the first goes to `dest`.
  - The table is not updated.
  - The model uses the one-interval version of consistentHashingWithComments.js:104-109.
- The commented-out `getKeysInNode` is not part of this model.
- `Ring.ConsistentHashing.AddNode` requires every sampled source to be an existing node with an interval left to give.
  - `#randomNode` can also pick the new node itself, which moves an interval from the new node to itself.
  - It can also pick a node with no intervals, and then `range.lo` of `undefined` throws.
  - Neither case is modelled.
- `Ring.ConsistentHashing.RemoveNode`, `Ring.ConsistentHashing.RemoveNodeHelper` and `Ring.ConsistentHashing.Detach` require `id` to be a live id (`0 <= id < n`). On an unknown id the source first writes `idToIndexMap[hid] = undefined` and `idToIndexMap[id] = s` (consistentHashingWithComments.js:67-69) and then throws on `nodes[undefined].id`, leaving the map corrupted; that failing path is not modelled.
- `Ring.ConsistentHashing.RemoveNode` requires the destinations to be surviving nodes. With a single node, `#randomNode` has nothing to pick and the source throws, so that case is excluded.
- `Ring.ConsistentHashing.constructor` needs a node to own key 1 whenever `keyRange >= 1`, because it runs the corrected loop. With `numNodes == 0` it is therefore modelled only for `keyRange < 1`. The source also builds a ring with no nodes for `keyRange == 1`, but only because its guard at line 89 creates no interval (see `Ring.BuildAsWrittenLeavesKeyOne`). For `keyRange > 1` the source throws on the missing node.
- Node records are values in a sequence, not shared objects.
  - The only alias in the source is the detached node that `removeNode` drains. The model holds it as a local value.
- `Lfru`: the source's three fields `map`, `cache` and `lowest` are held in one record `state`, which each operation assigns once.
  - The ghost record `time` (recency stamps) exists only to state the eviction order.
- `Lfru`: deque nodes are identified by key; the key-to-node map makes keys unique.
  - `Deque` itself is not part of this model. It is specified as a sequence: `prepend` at the head, `pop` at the tail, `remove(x)` anywhere.
- `LFRUCachePQ` (lfru.js:71-100) is not part of this model.
  - It is a thin wrapper over the unseen `HashedPQ`.
  - Its `get` reads `obj` outside the block that declares it.
- `Lfru.LFRUCacheD.constructor` takes `cap` as a natural number. A negative capacity, which the source would accept, is not modelled.
- `HashedPQ` is not part of this model. It is specified as a map from machine key to machine.
  - Among machines of equal maximum weight, the order `remove()` yields them in is left open (`Balancer.Peek` picks any).
  - The model proves `#pickMachine` returns the unique worst fit whatever that order.
- `Balancer.LoadBalancer.AddMachine` requires a key not yet in the queue. What `HashedPQ` does with a duplicate key is not shown.
- `Balancer.LoadBalancer.RemoveMachine` and `Balancer.LoadBalancer.GetApplications` require a stored key. On an unknown key the source dereferences `undefined` and throws.
- `Balancer.LoadBalancer.AddApplication` requires a passed-in app to carry the given id and load, which is how `removeMachine` calls it; external callers pass no app.
- Applications are compared as values, not by object identity, so `indexOf` finds the first equal app.
  - Ids are unique within `apps`, so this matters only for apps no longer recorded.
- `splice(indexOf(app), 1)` with an app the machine does not list (index -1) would remove the last app.
  - Under the proved consistency every recorded app is listed by its machine, so the model never reaches that case.
- A stale `onMachine`, which the code as written can leave behind, makes `stopApplication` throw on `undefined`. The corrected `removeMachine` never produces one, so the model has no such state.
- Integers are unbounded. Weights and loads are JavaScript numbers; rounding of very large or fractional values is not modelled.
- Concurrency, persistence and I/O: the code has none.

## Findings

| source | as written | input that shows it | evidently intended | confidence | as-written member | corrected member |
|---|---|---|---|---|---|---|
| consistentHashingWithComments.js:24 | `hip = this.ranges.length` lets the search probe `ranges[length]` | any table, with a key above the last interval (or any key on an empty table) | `hip = length - 1`, returning -1 | not executed | RangeTable.GetNodeAsWrittenOverruns | RangeTable.RangeToNodeMap.GetNode |
| consistentHashingWithComments.js:39 | `hip = this.ranges.length` in `reassignRange` probes `ranges[length]` | an interval `[lo, hi]` with `lo`, `hi` above every stored interval | `hip = length - 1`, returning -1 | not executed | RangeTable.ReassignRangeAsWrittenOverruns | RangeTable.RangeToNodeMap.ReassignRange |
| consistentHashingWithComments.js:89 | loop guard `last < this.keyRange` | `keyRange == 1`: no interval is built, key 1 has no owner | loop while `first <= keyRange`, tiling `[1, keyRange]` | not executed | Ring.BuildAsWrittenLeavesKeyOne | Ring.CutKeySpace |
| consistentHashingWithComments.js:69 | `idToIndexMap[rid] = s` points the surviving id at the slot being popped | 3 dense nodes, `removeId(0, 0, nodes)`: id 0 maps to slot 2, which `#removeNodeHelper` then pops | `idToIndexMap[rid] = r`, the slot the renumbered node moves into | not executed | NodeIds.RemoveIdAsWrittenStale | NodeIds.IDManager.RemoveId |
| consistentHashingWithComments.js:130-137 | the table entries of the renumbered node keep the old highest id | 3 nodes, `removeNode(0)`: intervals of node 2 (renumbered 0) still name id 2, which no node has | relabel the table entries `hid -> rid` | not executed | Ring.RemoveNodeAsWrittenDangles | RangeTable.RangeToNodeMap.Relabel |
| loadBalancer.js:59 | a re-offered app is reused and keeps its old `onMachine` | machines 0 and 1, app 7 on machine 0, `removeMachine(0)`: app 7 goes to machine 1 but names machine 0 | record the app with the machine it is placed on | not executed | Balancer.RemoveAsWrittenStale | Balancer.Recorded |
| loadBalancer.js:28-33 | an app that fails to re-place stays in `this.apps` | machine 1 with no spare capacity, app 7 on machine 0, `removeMachine(0)`: app 7 stays recorded on a removed machine | drop the removed machine's apps before re-offering them | not executed | Balancer.RemoveAsWrittenKeepsUnplaced | Balancer.RemovedConsistent |
