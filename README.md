# geecache in Dafny

A model of the core of geecache, a distributed in-memory cache in the style of
groupcache. The model covers:

- the two eviction stores, LRU and LFU, and the factory that picks one by name;
- the consistent-hash ring that maps a key to the peer owning it;
- the immutable `ByteView` value type;
- the mutex-guarded local cache;
- the `Group` coordinator and the process-wide registry of groups;
- the HTTP pool's peer picking, request routing and responses, and the URL
  its peer getter requests.

Each Go type whose fields change in place is a Dafny `class` with the same
fields:

- `LRUCache`, `LFUCache`, the ring `Map`, `cache`, `Group`, `HttpPool`;
- the `groups` map, as a `Registry` object.

Go's `container/list` lists become `seq` fields. A list's front is the
sequence's first element.

Every state-changing method is specified by a ghost function of the old state:

- `Lru.Added`, `Lfu.Added`;
- `ConsistentHash.Placed`;
- `Groups.Served`;
- `Http.RouteOf`.

The lemmas prove what geecache promises about those functions:

- the structural invariants;
- eviction from the right end, and how much;
- recency and frequency bookkeeping;
- ring ownership;
- the load decision (cache, then peer, then data source);
- the HTTP status of every request path.

The eviction loops, the ring's `Add` loop, the ring's `Get` scan,
`cloneBytes` and the getter table of `Register` are `while` or `for` loops
with invariants.

Panics in the Go code are part of the model, as a `panicked` flag or a
`Panicked` / `Aborted` outcome. The state left at the panic is kept:

- `flush` panics when the list runs dry;
- `Map.Get` panics on an empty ring;
- a nil peer getter panics when called;
- `ServeHTTP` panics on a foreign path.

In a few places the code does not do what its own comments, or the usual
design, lead one to expect. The model follows the code:

- **Ring lookup does not wrap.** The usual consistent-hash design wraps around
  the ring. Here a key hashing past the last virtual node goes to the last
  virtual node, not the first (`ConsistentHash.RingNoWrap`).
- **Existing-key updates do not evict.** The comments at
  `algorithm/lru.go:57` and `algorithm/lfu.go:56` say an update is checked
  for overflowing because of a larger value. But the flush it calls receives
  a negative need, so re-adding a key with a larger value never evicts.
- **LRU byte count drifts upward.** The field comments at
  `algorithm/lru.go:17-18` call `maxBytes` the most memory allowed and
  `nowBytes` the memory in use. Yet re-adding an existing key in LRU adds the
  new size without removing the old one (`Lru.AddedExistingKeyDrifts`).
- **LFU byte count does not change.** Re-adding an existing key in LFU leaves
  the byte count as it was, whatever the sizes. The bytes the buckets hold
  (`Lfu.Total`) still move by the new size minus the old
  (`Lfu.AddedExistingKey`). The count then misses the difference, and later
  additions can take the store past `maxBytes` without evicting anything
  (`Lfu.OverfillExample`: 19 bytes held under a limit of 10).
- **LFU eviction takes from bucket `minFre` only.** Eviction never advances
  `minFre`, so a flush that empties that bucket panics instead of moving on
  (`Lfu.AddedNewKeyPanics`).
- **LFU has no oversize guard.** LRU drops a value larger than `maxBytes`
  (`algorithm/lru.go:50-52`). LFU's matching check is commented out
  (`algorithm/lfu.go:49-52`).

## Model

| member | source | states |
|---|---|---|
| Bytes.ByteView.Len | geecache/byteview.go:8-10 | the length is zero exactly when the view holds no bytes |
| Bytes.ByteView.String | geecache/byteview.go:18-20 | the string has one character per byte, each with that byte's code |
| Bytes.ByteView.ByteSlice | geecache/byteview.go:13-15 | the result is a fresh array holding exactly the view's bytes, so writing to it cannot change the view |
| Bytes.StringRoundTrip | geecache/byteview.go:18-20 | converting a view to a string and back gives the same view |
| Bytes.FromStringRoundTrip | geecache/byteview.go:18-20 | a byte string converted to a view and back to a string is unchanged |
| Bytes.ToBytes | geecache/consistenhash/consistenhash.go:46 | `[]byte(s)` keeps the length, and for a byte string `string` of it gives s back |
| Bytes.CloneBytes | geecache/byteview.go:22-26 | the copy is a fresh array of the same length and contents |
| Entries.FlushPlan | geecache/algorithm/lru.go:81-86 | the flush loop keeps a prefix of the list; it evicts at least one node when need is positive and the list is not empty |
| Entries.FlushPlanStep | geecache/algorithm/lru.go:81-86 | one turn of the loop evicts the back node and lowers need by its length |
| Entries.FlushPanicsIff | geecache/algorithm/lru.go:81-98 | the loop panics exactly when the whole list holds fewer bytes than need |
| Entries.FlushEvictsEnough | geecache/algorithm/lru.go:81-86 | when the loop ends normally, the evicted nodes free at least need bytes |
| Entries.FlushEvictsNoMore | geecache/algorithm/lru.go:81-86 | the loop stops at the first node that reaches need: without the last evicted node the freed bytes fall short |
| Entries.FlushKeepsNoLess | geecache/algorithm/lru.go:81-86 | keeping one more node would leave more than the list's total minus need |
| Entries.NothingToFlush | geecache/algorithm/lru.go:58-60 | with a need of zero or less nothing is evicted and nothing panics |
| Entries.NewKeyFits | geecache/algorithm/lru.go:66-68 | with an exact byte count and a value no larger than maxBytes, the flush before a new key never panics and leaves room for the value |
| Lru.Flushed | geecache/algorithm/lru.go:81-98 | after evicting from the back, the first k nodes are what is left, in order |
| Lru.FlushedNone | geecache/algorithm/lru.go:81-86 | evicting nothing leaves the state unchanged |
| Lru.FlushedStep | geecache/algorithm/lru.go:88-98 | each `removeOldest` takes the state from k+1 kept nodes to k |
| Lru.FlushedGood | geecache/algorithm/lru.go:81-98 | eviction keeps the list/map invariant, only unmaps keys, and keeps the gap between the byte count and the true total |
| Lru.FlushedIndex | geecache/algorithm/lru.go:88-98 | eviction keeps the map equal to the list's keys, with no key twice |
| Lru.FlushedSlack | geecache/algorithm/lru.go:92-93 | eviction lowers the byte count by exactly the evicted bytes |
| Lru.FlushedMap | geecache/algorithm/lru.go:91 | eviction unmaps exactly the keys of the evicted suffix |
| Lru.FlushedBytes | geecache/algorithm/lru.go:92-93 | the byte count drops by the sum of the evicted suffix |
| Lru.FlushedEvicted | geecache/algorithm/lru.go:94-96 | with a callback, the evicted nodes are reported back to front, oldest first; without one, nothing is reported |
| Lru.InsertedGood | geecache/algorithm/lru.go:64-78 | the new-key branch keeps the invariant, whether or not its flush panics |
| Lru.InsertedExact | geecache/algorithm/lru.go:64-78 | with an exact count, a new key fitting maxBytes never panics, keeps the count exact and stays within maxBytes |
| Lru.UpdatedSum | geecache/algorithm/lru.go:54-63 | an update changes the true total by the new size minus the old |
| Lru.UpdatedGood | geecache/algorithm/lru.go:54-63 | an update keeps the invariant and moves the node, with its new value, to the front, with the others in order |
| Lru.TouchedGood | geecache/algorithm/lru.go:34-42 | `Get` keeps the invariant, the map, the byte count and the true total |
| Lru.AddedGood | geecache/algorithm/lru.go:49-79 | `Add` keeps the invariant on every path, including the panicking one |
| Lru.AddedNewKeyExact | geecache/algorithm/lru.go:64-78 | with an exact count, adding a new key never panics, keeps the count exact and stays within maxBytes if the store was |
| Lru.AddedExistingKeyDrifts | geecache/algorithm/lru.go:54-63 | re-adding a key raises the byte count by the new size, so the count overshoots the true total by the old value's size |
| Lru.LRUCache.constructor | geecache/algorithm/lru.go:22-29 | a new store is empty, its count exact, with the given maxBytes and callback |
| Lru.LRUCache.Len | geecache/algorithm/lru.go:100-102 | the list length equals the number of keys mapped |
| Lru.LRUCache.Get | geecache/algorithm/lru.go:34-42 | a hit returns the key's value and moves its node to the front, keeping the others in order; a miss returns nothing and changes nothing |
| Lru.LRUCache.Add | geecache/algorithm/lru.go:49-79 | the new state and panic flag are those of `Added`: an oversized value is dropped, an existing key is updated in front, and a new key is pushed after the flush |
| Lru.LRUCache.Update | geecache/algorithm/lru.go:54-63 | the existing-key branch: move to front, replace the value, add the new size |
| Lru.LRUCache.Insert | geecache/algorithm/lru.go:64-78 | the new-key branch: flush by the flush plan, then push the entry unless the flush panicked |
| Lru.LRUCache.FlushNothing | geecache/algorithm/lru.go:81-86 | a flush with need of zero or less changes nothing |
| Lru.LRUCache.Flush | geecache/algorithm/lru.go:81-86 | the loop evicts the nodes the flush plan names from the back, and panics when the plan does |
| Lru.LRUCache.FlushTurn | geecache/algorithm/lru.go:82-85 | one turn panics exactly on an empty list, and otherwise evicts the back node without changing the plan's outcome |
| Lru.LRUCache.RemoveOldest | geecache/algorithm/lru.go:88-98 | on a non-empty list, the back node is unlinked, unmapped, uncounted and reported, and its length returned; an empty list panics |
| Lfu.Flushed | geecache/algorithm/lfu.go:127-149 | eviction only shortens bucket `minFre` from the back, and leaves `minFre` where it was |
| Lfu.FlushedNone | geecache/algorithm/lfu.go:127-132 | evicting nothing leaves the state unchanged |
| Lfu.FlushedStep | geecache/algorithm/lfu.go:137-149 | each `removeOldest` takes the bucket from k+1 kept nodes to k |
| Lfu.FlushedIndexed | geecache/algorithm/lfu.go:137-149 | eviction keeps the bucket/map invariant |
| Lfu.FlushedOthers | geecache/algorithm/lfu.go:137-149 | eviction leaves every bucket except `minFre` untouched |
| Lfu.FlushedKeys | geecache/algorithm/lfu.go:142 | eviction unmaps exactly the keys of the evicted suffix of bucket `minFre` |
| Lfu.FlushedBytes | geecache/algorithm/lfu.go:143-144 | the byte count drops by the sum of the evicted nodes |
| Lfu.FlushedEvicted | geecache/algorithm/lfu.go:145-147 | with a callback, the evicted nodes are reported oldest first |
| Lfu.LinkedIndexed | geecache/algorithm/lfu.go:108-124 | `addTwoMap` of an unmapped key at frequency ≥ 1 keeps the invariant |
| Lfu.UnlinkedIndexed | geecache/algorithm/lfu.go:86-98 | removing a key's node from its bucket and unmapping it keeps the invariant |
| Lfu.BumpedIndexed | geecache/algorithm/lfu.go:86-102 | `addFre` keeps the invariant |
| Lfu.RelabelledIndexed | geecache/algorithm/lfu.go:65 | replacing an element's value keeps the invariant |
| Lfu.DropIndexed | geecache/algorithm/lfu.go:137-149 | `removeOldest` on a non-empty bucket `minFre` keeps the invariant |
| Lfu.TouchedIndexed | geecache/algorithm/lfu.go:35-41 | `Get` keeps the invariant |
| Lfu.FlushedLinkedIndexed | geecache/algorithm/lfu.go:69-76 | flushing from bucket `minFre` and then linking an unmapped key keeps the invariant |
| Lfu.InsertedIndexed | geecache/algorithm/lfu.go:67-79 | the new-key branch keeps the invariant, whether or not its flush panics |
| Lfu.AddedIndexed | geecache/algorithm/lfu.go:48-80 | `Add` keeps the invariant on every path, including the panicking one |
| Lfu.TouchedHit | geecache/algorithm/lfu.go:35-41 | a hit raises the key's frequency by one, puts its node at the front of the next bucket, removes it from the old bucket, and keeps the key set and byte count |
| Lfu.AddedExistingKey | geecache/algorithm/lfu.go:53-66 | re-adding a key never panics: the new value moves up one frequency to the front of its bucket, with the key set and byte count unchanged, while the bytes the buckets hold move by the new size minus the old |
| Lfu.AddedNewKeyPanics | geecache/algorithm/lfu.go:67-71 | a new key panics exactly when bucket `minFre` holds fewer bytes than the flush needs, and then that bucket is left empty |
| Lfu.AddedNewKey | geecache/algorithm/lfu.go:67-79 | a new key that does not panic is mapped at frequency 1 at the front of bucket 1, `minFre` becomes 1, and the byte count loses the evicted bytes, gains the value's, and stays within maxBytes |
| Lfu.AddedNewKeyExact | geecache/algorithm/lfu.go:67-79 | a new key moves the byte count and the bytes the buckets hold by the same amount, panic or not; without a panic, an exact count leaves the buckets holding at most maxBytes |
| Lfu.TotalPick | geecache/algorithm/lfu.go:12-15 | the bytes held are any one bucket's bytes plus the rest's |
| Lfu.TotalSet | geecache/algorithm/lfu.go:12-15 | replacing one bucket changes the bytes held by the new bucket's bytes minus the old one's |
| Lfu.LinkedTotal | geecache/algorithm/lfu.go:108-124 | `addTwoMap` adds the node's length to the bytes held, as it does to the count |
| Lfu.UnlinkedTotal | geecache/algorithm/lfu.go:91-98 | unlinking a key's element takes its length off the bytes held, as it does off the count |
| Lfu.BumpedTotal | geecache/algorithm/lfu.go:86-102 | `addFre` leaves both the bytes held and the count unchanged |
| Lfu.RelabelledTotal | geecache/algorithm/lfu.go:65 | relabelling moves the bytes held by the new length minus the old and leaves the count alone |
| Lfu.UpdatedTotal | geecache/algorithm/lfu.go:53-66 | the existing-key branch moves the bytes held by the new length minus the old and leaves the count alone |
| Lfu.DropTotal | geecache/algorithm/lfu.go:137-149 | `removeOldest` takes the back node's length off the bytes held, as it does off the count |
| Lfu.FlushedTotal | geecache/algorithm/lfu.go:127-149 | the flush loop takes the evicted nodes' bytes off the bytes held, as it does off the count |
| Lfu.TouchedExact | geecache/algorithm/lfu.go:35-41 | `Get` leaves the bytes held and the count unchanged, so an exact count stays exact |
| Lfu.OverfillExample | geecache/algorithm/lfu.go:48-80 | with maxBytes 10, adding "a" (1 byte), "a" (10 bytes) and "b" (9 bytes) never panics, yet leaves 19 bytes held while the count reads 10 |
| Entries.RemoveSum | geecache/algorithm/lfu.go:97-98 | removing the node a key is mapped to takes its length off the list's bytes |
| Entries.RelabelSum | geecache/algorithm/lfu.go:65 | giving a key's node a new value changes the list's bytes by the new length minus the old |
| Lfu.AddedNewKeyEvicts | geecache/algorithm/lfu.go:69-71 | apart from the new key, the keys left are the old ones minus the evicted suffix of bucket `minFre` |
| Lfu.AddedNewKeyReports | geecache/algorithm/lfu.go:145-147 | with a callback, a new key's flush reports the evicted nodes oldest first |
| Lfu.RelabelledMinFre | geecache/algorithm/lfu.go:65 | relabelling keeps `minFre` the lowest frequency, with a non-empty bucket |
| Lfu.BumpedMinFre | geecache/algorithm/lfu.go:94-96 | `addFre` moves `minFre` up exactly when it empties the minimum bucket, so `minFre` stays the lowest frequency |
| Lfu.TouchedMinFre | geecache/algorithm/lfu.go:35-41 | `Get` keeps `minFre` the lowest frequency |
| Lfu.AddedMinFre | geecache/algorithm/lfu.go:48-80 | an `Add` that does not panic leaves `minFre` the lowest frequency, with a non-empty bucket |
| Lfu.EmptyIff | geecache/algorithm/lfu.go:151-153 | no key is mapped exactly when every bucket is empty |
| Lfu.LFUCache.constructor | geecache/algorithm/lfu.go:21-28 | a new store has no buckets, no keys, `minFre` 0, an exact byte count, and the given maxBytes and callback |
| Lfu.LFUCache.Len | geecache/algorithm/lfu.go:151-153 | the number of keys is zero exactly when every bucket is empty |
| Lfu.LFUCache.Get | geecache/algorithm/lfu.go:35-41 | a hit returns the key's value and bumps its frequency; a miss returns nothing and changes nothing |
| Lfu.LFUCache.Add | geecache/algorithm/lfu.go:48-80 | the new state and panic flag are those of `Added`: an existing key is relabelled and bumped, and a new key is linked at frequency 1 after the flush, with `minFre` set to 1 |
| Lfu.LFUCache.Update | geecache/algorithm/lfu.go:53-66 | the existing-key branch: relabel the element, then `addFre` |
| Lfu.LFUCache.Insert | geecache/algorithm/lfu.go:67-79 | the new-key branch: flush by the plan, then link the key at frequency 1 and set `minFre` to 1 |
| Lfu.LFUCache.AddFre | geecache/algorithm/lfu.go:86-102 | the node moves to the next frequency's bucket and its value is returned |
| Lfu.LFUCache.AddTwoMap | geecache/algorithm/lfu.go:108-124 | the node is pushed to the front of its frequency's bucket (created if missing), mapped and counted |
| Lfu.LFUCache.FlushNothing | geecache/algorithm/lfu.go:127-132 | a flush with need of zero or less changes nothing |
| Lfu.LFUCache.Flush | geecache/algorithm/lfu.go:127-132 | the loop evicts from the back of bucket `minFre` the nodes the plan names, and panics when that bucket runs dry |
| Lfu.LFUCache.FlushTurn | geecache/algorithm/lfu.go:128-131 | one turn panics exactly when bucket `minFre` is empty, and otherwise evicts its back node without changing the plan's outcome |
| Lfu.LFUCache.RemoveOldest | geecache/algorithm/lfu.go:137-149 | the back node of bucket `minFre` is unlinked, unmapped, uncounted and reported, and its length returned; an empty or missing bucket panics |
| Algorithm.PolicyOf | geecache/algorithm/cache.go:12-24 | "LFU" selects the LFU store; "LRU" and every other name select LRU |
| Algorithm.GetKeepsLookups | geecache/algorithm/cache.go:8 | `Get` changes no key's value, on either store, and keeps the invariant |
| Algorithm.GetMissKeeps | geecache/algorithm/cache.go:8 | a miss leaves the store as it was |
| Algorithm.AddThenLookup | geecache/algorithm/cache.go:7 | `Add` keeps the invariant; an oversized value leaves an LRU store unchanged; otherwise an `Add` that does not panic makes the key's value the one added |
| Algorithm.Store.Get | geecache/algorithm/cache.go:8 | returns the value the store holds for the key and leaves the store as after a `Get` |
| Algorithm.Store.Add | geecache/algorithm/cache.go:7 | the store and the panic flag are those `Add` defines for its policy |
| Algorithm.NewCache | geecache/algorithm/cache.go:12-24 | a fresh, empty store of the policy the name selects |
| LocalCache.Cache.constructor | geecache/cache.go:19-24 | the cache holds an empty store of the named policy, with maxBytes and no callback |
| LocalCache.Cache.Add | geecache/cache.go:26-32 | a nil store ignores the call; otherwise the store is updated as `Add` defines |
| LocalCache.Cache.Get | geecache/cache.go:34-45 | `ok` says whether the store holds the key; if so the value is returned, otherwise the zero `ByteView`; a nil store answers not-found |
| ConsistentHash.Itoa | geecache/consistenhash/consistenhash.go:36 | `strconv.Itoa` of a non-negative number is a non-empty string of digits |
| ConsistentHash.ItoaRoundTrip | geecache/consistenhash/consistenhash.go:36 | the decimal string reads back as the same number |
| ConsistentHash.Replicas | geecache/consistenhash/consistenhash.go:33-39 | one peer gives n virtual nodes, the i-th at the hash of `Itoa(i) + peer` |
| ConsistentHash.VirtualsLength | geecache/consistenhash/consistenhash.go:31-40 | `Add` creates one virtual node per peer per replica |
| ConsistentHash.PlaceAt | geecache/consistenhash/consistenhash.go:37 | a hash one of the peer's replicas produces maps to the peer; any other hash keeps its old mapping |
| ConsistentHash.PlacedMaps | geecache/consistenhash/consistenhash.go:31-40 | every new virtual node maps to one of the added peers whose replica produces that hash |
| ConsistentHash.PlacedLastWins | geecache/consistenhash/consistenhash.go:37 | on a hash collision, the last peer added owns the virtual node |
| ConsistentHash.PlacedKeeps | geecache/consistenhash/consistenhash.go:37 | an earlier virtual node stays mapped, to its old peer unless a new replica collides with it |
| ConsistentHash.PlacedCovers | geecache/consistenhash/consistenhash.go:31-42 | after `Add`, every virtual node, old or new, names a peer |
| ConsistentHash.InsertSorted | geecache/consistenhash/consistenhash.go:41 | inserting into a sorted list gives a sorted permutation of it plus the new element |
| ConsistentHash.SortInts | geecache/consistenhash/consistenhash.go:41 | `sort.Ints` returns a sorted permutation |
| ConsistentHash.Scan | geecache/consistenhash/consistenhash.go:47-52 | the scan stops at an index no larger than its bound |
| ConsistentHash.ScanSplits | geecache/consistenhash/consistenhash.go:47-52 | every virtual node before the chosen one is below the key's hash; every one from it on is at or above |
| ConsistentHash.RingCeiling | geecache/consistenhash/consistenhash.go:45-54 | when some virtual node is at or above the key's hash, `Get` picks the smallest such node |
| ConsistentHash.RingNoWrap | geecache/consistenhash/consistenhash.go:45-54 | a hash above every virtual node goes to the last node, not the first |
| ConsistentHash.Map.constructor | geecache/consistenhash/consistenhash.go:19-29 | an empty ring with the given replica count; a nil hash is replaced by CRC-32 |
| ConsistentHash.Map.Add | geecache/consistenhash/consistenhash.go:31-42 | the keys become a sorted permutation of the old keys plus the new virtual nodes, and the map places each replica |
| ConsistentHash.Map.AddPeers | geecache/consistenhash/consistenhash.go:32-40 | the outer loop appends every peer's virtual nodes in order and maps them |
| ConsistentHash.Map.AddReplicas | geecache/consistenhash/consistenhash.go:33-39 | the inner loop appends one peer's replicas and maps each to the peer |
| ConsistentHash.Map.Get | geecache/consistenhash/consistenhash.go:45-54 | an empty ring panics; otherwise the answer is the owner of the chosen virtual node, and the ring is unchanged |
| Groups.LoadedFallsBack | geecache/geecache.go:90-101 | `load` uses the data source exactly when there is no picker, the picker declines, or the picked peer returns an error |
| Groups.LoadedFromPeer | geecache/geecache.go:91-96 | `load` answers from a peer exactly when a picker picks a peer whose getter exists and the peer returns those bytes |
| Groups.ServedEmptyKey | geecache/geecache.go:66-68 | an empty key fails with "key is required" and leaves the cache as it was |
| Groups.ServedHit | geecache/geecache.go:70-73 | on a cache hit, the cached value is returned and nothing the load would do matters |
| Groups.ServedUncached | geecache/geecache.go:90-106 | a peer's answer or a load error is returned without touching the cache |
| Groups.ServedLoaded | geecache/geecache.go:113-122 | bytes from the data source are returned, unless the cache add panics; when they fit, the cache then holds them under the key |
| Groups.CopyView | geecache/geecache.go:119 | the view holds a copy of exactly the data source's bytes |
| Groups.Group.constructor | geecache/geecache.go:42-51 | a new group has its name and getter, no picker, and an empty cache of the named policy |
| Groups.Group.RegisterPeers | geecache/geecache.go:79-85 | the first picker registered is kept; later calls change nothing |
| Groups.Group.Get | geecache/geecache.go:65-76 | the reply and the new cache are those `Served` gives for the old cache and the load decision |
| Groups.Group.Load | geecache/geecache.go:90-106 | the reply and cache are those of finishing the load decision: a peer's bytes are not cached, and the data source's bytes are |
| Groups.Group.GetFromPeer | geecache/geecache.go:125-131 | a nil getter panics; otherwise the peer's bytes come back as a view, or its error with an empty view |
| Groups.Group.GetLocally | geecache/geecache.go:113-122 | a data source error is returned as-is; otherwise a copy of the bytes is cached and returned |
| Groups.Group.PopulateCache | geecache/geecache.go:108-110 | the value is added to the local cache |
| Groups.Registry.constructor | geecache/geecache.go:10-14 | the registry starts with no groups |
| Groups.Registry.NewGroup | geecache/geecache.go:42-56 | a nil getter registers nothing; otherwise a fresh group is registered under its name, replacing any group there |
| Groups.Registry.GetGroup | geecache/geecache.go:58-63 | a group is found exactly when one is registered under the name, and it is that group |
| Http.Split | geecache/http.go:77 | `strings.Split` never returns an empty list |
| Http.JoinSplit | geecache/http.go:77 | joining the parts with "/" gives the string back |
| Http.SplitPieces | geecache/http.go:77 | no part of a split contains "/" |
| Http.SplitJoin | geecache/http.go:77 | splitting slash-free parts joined by "/" gives the parts back |
| Http.SplitAppend | geecache/http.go:77 | a slash-free head followed by "/" splits off as the first part |
| Http.SplitNoSlash | geecache/http.go:77 | a slash-free string splits into itself alone |
| Http.RouteIff | geecache/http.go:72-83 | a path is routed to (group, key) exactly when it is the base path, the group, "/" and the key, with no "/" in either |
| Http.PickNeverSelf | geecache/http.go:59-68 | on a non-empty ring, a peer is picked exactly when the owner is neither "" nor this host, and the getter is present exactly when the owner has one |
| Http.GettersForExactly | geecache/http.go:49-55 | `Register` makes a getter for exactly the urls given, each at url + base path |
| Http.PickAfterRegister | geecache/http.go:45-68 | after `Register`, the picked owner gets its getter when it was in that call's urls, and a nil getter when it was only in an earlier call |
| Http.UrlRoutes | geecache/http.go:108-116 | a getter requests peer + base path + escaped group + "/" + escaped key, and the serving pool routes that path to the escaped group and key names |
| Http.Respond | geecache/http.go:92-99 | a value is written as an octet stream with its bytes, an error becomes status 500 with its message, and a panic aborts |
| Http.HttpPool.constructor | geecache/http.go:36-42 | a pool for this host, with base path "/geecache/", a 50-replica CRC-32 ring, and no getters |
| Http.HttpPool.Register | geecache/http.go:45-56 | the ring gains the urls' virtual nodes, and the getter table is replaced by one for exactly these urls |
| Http.HttpPool.NewGetters | geecache/http.go:49-55 | the loop builds the getter table for the urls |
| Http.HttpPool.PickPeer | geecache/http.go:59-68 | the answer is the pick the ring's owner and the getter table give |
| Http.HttpPool.ServeHTTP | geecache/http.go:71-100 | a foreign path aborts; a malformed one gets 400; an unknown group gets 404; otherwise the group serves the key, with 500 on error, and no other group's cache changes |
| Http.HttpPool.Serve | geecache/http.go:92-96 | the routed group answers as `Group.Get` does, and every other group's cache is unchanged |

## Left out

- Locks: the mutexes of `cache`, `HttpPool` and the `groups` map are not
  modelled. Every call is one atomic step.
- `singleflight`: `load` calls its function directly, once per request.
  Concurrent callers sharing a result are not modelled.
- Network I/O: `http.Get`, the status check and reading the body are one
  `Fetch` function, passed in as a parameter.
- Go's 64-bit `int`: byte counts, `maxBytes`, value lengths and the flush
  need are unbounded integers, so Go's wrap-around is not modelled. It
  matters only at the edges of the range. One example is an LFU store whose
  `maxBytes` lies within a value's length of `math.MinInt64`. There
  `value.Len() - (maxBytes - nowBytes)` wraps to a negative need, so Go
  stores the key without evicting, where `Lfu.Added` panics. Another is an
  LRU count that drifts past 2^63.
- `url.QueryEscape`: an `Escape` function passed in as a parameter.
- URL decoding: `net/http` decodes the request path before `ServeHTTP`
  reads `r.URL.Path`. `Http.RouteOf` receives that decoded path, and the
  decoding itself is not modelled. So in Go, a key holding "/" reaches the
  server as a path with an extra part and gets 400. A key "a b", sent as
  "a+b", is served as the key "a+b", because "+" is not decoded in a path.
- `Getter`: a function passed in as a parameter, modelled as the data
  source's answer per key.
- Logging (`log.Println`, `HttpPool.Log`): no effect on state.
- `randString`: unused by `Add`, so it is left out.
- The server's `main`: left out.
- Go strings: modelled as `seq<char>`. `Bytes.ToBytes` cuts each character
  to its low eight bits (`% 256`); UTF-8 encoding is not modelled.
- The `Value` interface: modelled as the concrete `ByteView`, the only value
  geecache stores.
- `onEvicted`: a `notify` flag plus the list of calls it received. The
  callback's own behaviour is not modelled.
- `Http.HttpPool.ServeHTTP`: the body is the view's bytes. The fresh copy
  that `ByteSlice` returns is not allocated here; `Bytes.ByteView.ByteSlice`
  proves that copy equal to those bytes.
- `PeerPicker`: modelled as the function of its answers at the time it is
  registered. A group does not see a later `Register` on the same pool,
  whereas in Go the group holds the pool itself.
- Panics: `panic` is an outcome, with the state reached before it. Recovery
  by `net/http` is not modelled. `NewGroup`'s "nil Getter" panic is a `None`
  result that registers nothing.
- `ConsistentHash.Crc32`: written out from the IEEE polynomial. No test
  vectors are proved about it.
