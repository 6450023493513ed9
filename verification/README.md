# Verified model of the cache-mod shards

cache-mod keeps five in-process caches. Four of them split their capacity over up to
sixteen shards, each behind its own lock; the fifth, bounded by weight, uses one lock.
This project models what one shard does under its lock, and what any interleaving of
locked steps keeps.

Each cache is described twice. A class with the fields of the program's `Inner` struct
repeats the program's steps, and every method of it is proved against a step function on
plain values (recency sequences, maps, counters). The policy modules then prove, about
those step functions and about whole runs of them, what the caches are for.

| file | contents |
|---|---|
| `Machine.dfy` | the 64-bit integer range, saturating operations, powers of two |
| `Recency.dfy` | recency sequences; the calls of the common interface and their history |
| `Arena.dfy` | the arena-backed doubly-linked list with its key map, shared by three caches |
| `Lru.dfy` | LRU policy, no-Belady theorem, recency order; the LRU shard |
| `Sized.dfy` | the weight-bound store as written and as intended, with the exact conditions under which it stays consistent |
| `Sketch.dfy` | the Count-Min Sketch with saturation and ageing |
| `TinyLfu.dfy` | the admission filter in front of an LRU shard |
| `Lfu.dfy` | the frequency policy and its priority index |
| `Ttl.dfy` | lazy expiry against an eager reference |
| `Sharding.dfy` | shard arithmetic, routing, interleavings of independent shards |
| `ShardedLru.dfy` | sharded LRU runs, `len` under concurrent writers, the sharded cache |

Premises. Hashing is any function of key and seed. The weigher is a function of the
value. Every locked section is one atomic step. Time is a natural number of nanoseconds
read once per call; it never runs backwards within a run. Keys and values are plain values.

## Findings

Four promises fail for the code as written. The code is modelled as it is.

* **Live updates of the weight-bound cache can leave evicted keys mapped**
  (src/sized.rs:263-267). `SizedPolicy.DanglingRun` is a three-call run after which an
  evicted key is still in the key map. `SizedStore.StaleLookup` drives the store through
  it: `get` of that key first panics on an empty slot (the `unreachable!` of
  src/sized.rs:123), and after the next insert answers with another key's value.
  `SizedPolicy.StepAgreesIff` says exactly when a call keeps map and list in agreement,
  for every total and limit, and `SizedPolicy.RunAgreesIff` extends it to whole runs, for
  the code as written and for the intended code, which unmaps every evicted key. The
  intended insert is `SizedStore.Store.InsertIntended`: it differs only in the loop of the
  live-update branch, and for every limit keeps every mapped key on an occupied slot
  holding that key and every listed node mapped. Stale keys do not touch the weights: in
  every reachable state the total is at most `max_weight` and at most the true sum
  (`SizedPolicy.RunStaysBounded`), and it is the true sum when `max_weight` is at most
  half the integer range (`SizedPolicy.RunConserves`).
* **The weight total is lost when an addition saturates**, in a live update
  (src/sized.rs:257-260) and, when `max_weight` is the greatest integer, for a new entry
  (src/sized.rs:275, src/sized.rs:293). `SizedPolicy.SaturatingUpdateLosesWeight` and
  `SizedPolicy.SaturatingInsertLosesWeight` are the runs, `SizedPolicy.StepConservesIff`
  the exact condition for one call and `SizedPolicy.RunConservesIff` for whole runs,
  wherever the key map leads. Eviction makes a lost total true again only by leaving no
  weight at all (`SizedPolicy.LostWeightStaysLost`): never in a live update, but a later
  new entry can, by evicting all that was held (`SizedPolicy.LaterInsertRestoresTotal`),
  as can a remove of the last weight, or a clear. Nothing is lost when `max_weight` is at
  most half the integer range.
* **The LFU clock wraps after 2^64 ticks** (src/lfu.rs:84). Two promises break. One key's
  index entry can overwrite another's: `LfuPolicy.WrappedClockLosesKey` is such a run,
  `LfuPolicy.OverwritesIff` the exact condition for one call, read off the calls and
  replies before it, and `LfuPolicy.RunInverseIff` that for a run of any length. And even
  with the index intact, ties of use count are no longer broken by least recent access:
  `LfuPolicy.WrappedClockBreaksTies` is such a run; the key evicted is the least by use
  count and wrapped stamp (`LfuPolicy.InsertEvictsLeastStamped`), which is the promised
  one exactly when the least used key accessed longest ago has the least stamp
  (`LfuPolicy.EvictsNaiveVictimIff`). The capacity bound does not suffer
  (`LfuPolicy.RunStaysBounded`). Before the wrap all of it holds
  (`LfuPolicy.RunIsFaithful`, `LfuPolicy.InsertEvictsLeastUsed`).
* **An insert turned away by the TinyLFU cache does not leave it unchanged**
  (src/cache.rs:47-53): its entries stay, but the call is counted in the sketch, always
  (`TinyLfuPolicy.TurnedAwayIsCounted`), and that can decide a later admission
  (`TinyLfuPolicy.TurnedAwayThenAdmitted`).

`TtlCache::remove` does not look at the deadline, so it can return an expired value;
`TtlPolicy.RepliesAgreeIff` shows that this is the only reply in which lazy expiry
differs from eager expiry. docs/STABILITY.md contradicts itself on the weight-bound
cache, sharded from 32 bytes in line 173 and unsharded in line 175; the code does not
shard it.

## Model

| member | source | states |
|---|---|---|
| LinkedArena.SlotsConserved | src/lru.rs:85-101 | linked, detached and free slots together account for every slot of the arena |
| LinkedArena.DetachKeepsLinks | src/lru.rs:103-132 | the link updates of unlink turn a well-linked list into the well-linked list without that position, keys and values untouched |
| LinkedArena.AttachKeepsLinks | src/lru.rs:134-148 | the link updates of push_front give a well-linked list with the slot in front |
| LinkedArena.IndexCounts | src/lru.rs:59-67 | the key map holds exactly the listed keys, once each |
| LinkedArena.Arena.Alloc | src/lru.rs:85-93 | takes the slot freed last, or a new one only when none is free; the list is untouched |
| LinkedArena.Arena.Dealloc | src/lru.rs:95-101 | empties a detached slot onto the free list and returns its node; never meets an empty slot |
| LinkedArena.Arena.Unlink | src/lru.rs:103-132 | removes one position from the recency sequence; never meets an empty slot |
| LinkedArena.Arena.PushFront | src/lru.rs:134-148 | puts a detached slot at the front of the recency sequence |
| LinkedArena.Arena.Promote | src/lru.rs:150-155 | moves one position of the recency sequence to the front |
| LinkedArena.Arena.PopTail | src/sized.rs:175-181 | drops the last entry of the sequence and frees its slot; the key map is left to the caller |
| LinkedArena.Arena.EvictLast | src/lru.rs:224-230 | drops the last entry from list and key map together |
| LinkedArena.Arena.Prepend | src/lru.rs:232-239 | stores a new entry at the front and maps its key to the slot used |
| LinkedArena.Arena.StaleSlotsAreFree | src/sized.rs:263-267 | a key left mapped without its node is mapped to a free slot |
| LruPolicy.RunKeepsShape | src/lru.rs:211-241 | in every run keys are distinct and the shard is within capacity |
| LruPolicy.NoBeladyAnomaly | src/lru.rs:204-275 | after any calls a smaller shard's list is an order-preserving subsequence of a larger one's, and every hit in it is the same hit in the larger |
| LruPolicy.StepKeepsDomination | src/lru.rs:204-275 | one call on both shards keeps the subsequence and the size gap that the induction needs |
| LruPolicy.RunIsChronological | src/lru.rs:204-249 | in every run the list is ordered by last access and holds each key's latest inserted value, both read off the calls and replies |
| LruPolicy.InsertEvictsLeastRecent | src/lru.rs:204-241 | a get answers the latest inserted value of a held key; a new key displaces only the key accessed longest ago, and only when the shard is full |
| LruPolicy.StepOnContents | src/lru.rs:204-275 | every call acts and answers as on the map of the shard's contents that first loses the evicted key |
| LruStore.LruShard.Get | src/lru.rs:204-209 | acts and answers as the LRU step; the mapped slot is always occupied |
| LruStore.LruShard.Insert | src/lru.rs:211-241 | acts and answers as the LRU step; the arena grows only to the high-water mark of live entries |
| LruStore.LruShard.Remove | src/lru.rs:243-249 | acts and answers as the LRU step |
| LruStore.LruShard.ContainsKey | src/lru.rs:251-257 | answers membership and changes nothing |
| LruStore.LruShard.Len | src/lru.rs:259-264 | one shard's length is that of its list and within capacity |
| LruStore.LruShard.Clear | src/lru.rs:266-275 | empties list, map, free list and slots |
| LruStore.LruShard.ArenaAccounted | src/lru.rs:85-101 | arena length is live entries plus free slots, equals the high-water mark, and never exceeds the capacity |
| SizedPolicy.FitIsExact | src/sized.rs:263-281 | eviction started on the true sum keeps exactly the longest prefix of the list that leaves room, and ends on its true sum |
| SizedPolicy.FitStaysBounded | src/sized.rs:263-281 | eviction started on at most the true sum ends on at most the true sum and with room, never running out of entries first |
| SizedPolicy.StepStaysBounded | src/sized.rs:230-322 | no call, wherever the key map leads and whatever has saturated, takes the total over the limit or over the true sum |
| SizedPolicy.StepConservesIff | src/sized.rs:257-302 | wherever the key map leads, every call keeps a true total true, an insert exactly when saturation loses nothing |
| SizedPolicy.RunStaysBounded | src/sized.rs:230-322 | in every run, for every limit, stale keys and saturation included, the total is within the limit and at most the true sum |
| SizedPolicy.RunConserves | src/sized.rs:230-322 | in every run, stale keys included, with a limit of at most half the integer range, the total is the true sum within the limit |
| SizedPolicy.UpdateIsExact | src/sized.rs:247-271 | from any state with a true total, a live update leaves the updated entry in front of the longest prefix of the others that still fits, with the true total |
| SizedPolicy.AdmitIsExact | src/sized.rs:274-294 | from any state with a true total, an accepted new entry stands in front of the longest prefix of the old list that leaves room for it, with the true total |
| SizedPolicy.InsertIsExact | src/sized.rs:237-295 | an accepted insert, of a held or a new key, leaves the new entry in front of the longest prefix of the others, in their order, that still fits |
| SizedPolicy.StepOnContents | src/sized.rs:230-322 | every call acts and answers as on the map of the contents that first loses the evicted keys; a rejected insert changes nothing and answers nothing |
| SizedPolicy.RunIsChronological | src/sized.rs:230-295 | in every run the list is ordered by last access and holds each key's latest inserted value with its weight, read off calls and replies; a rejected insert is neither |
| SizedPolicy.InsertEvictsLeastRecent | src/sized.rs:237-295 | after any run, every key an insert evicts was accessed before every other held key it keeps |
| SizedPolicy.UpdateKeepsItsKey | src/sized.rs:257-271 | a live update never evicts the entry it updates, even when the total saturates or has lost weight |
| SizedPolicy.LostWeightStaysLost | src/sized.rs:257-281 | eviction started below the true sum, in either loop, ends on the true sum only when it leaves no weight at all |
| SizedPolicy.UpdateConservesIff | src/sized.rs:257-267 | a live update keeps a true total true exactly when its addition does not saturate |
| SizedPolicy.UpdateAgreesIff | src/sized.rs:247-272 | whatever the total, a live update keeps map and list in agreement exactly when, unless evicted keys are unmapped, it evicts nothing |
| SizedPolicy.AdmitConservesIff | src/sized.rs:275-293 | admitting a new key keeps a true total true exactly when saturation cannot hide part of the projected total |
| SizedPolicy.AdmitAgrees | src/sized.rs:274-294 | whatever the total, admitting a new key keeps map and list in agreement |
| SizedPolicy.StepAgreesIff | src/sized.rs:230-322 | for every total and limit, a call keeps map and list in agreement exactly under a condition on the state before it |
| SizedPolicy.StepSoundIff | src/sized.rs:230-322 | a call keeps map, list and total in agreement exactly when it meets that condition and the one for the total |
| SizedPolicy.RunAgreesIff | src/sized.rs:230-322 | for every limit, map and list agree throughout a run, of the code as written or as intended, exactly when no live update in it evicted a key and left it mapped |
| SizedPolicy.RunConservesIff | src/sized.rs:257-302 | for every limit and wherever the key map leads, the total is true throughout a run exactly when no call in it lost weight to saturation |
| SizedPolicy.RunSoundIff | src/sized.rs:230-322 | a run is sound throughout exactly when every call in it met both conditions |
| SizedPolicy.IntendedRunIsSound | src/sized.rs:237-295 | with evicted keys unmapped, map and list agree after every run, for every limit, and the total is true as well when the limit is at most half the integer range |
| SizedPolicy.DanglingRun | src/sized.rs:263-267 | three calls after which an evicted key is still mapped |
| SizedPolicy.SaturatingUpdateLosesWeight | src/sized.rs:257-260 | two calls after which the total reads zero while the entry has the greatest weight |
| SizedPolicy.SaturatingInsertLosesWeight | src/sized.rs:275-293 | two calls after which two entries of the greatest weight are held under a total that counts one of them |
| SizedPolicy.LaterInsertRestoresTotal | src/sized.rs:257-281 | three calls of which the second loses weight and the third, evicting everything held, makes the total true again |
| SizedStore.Store.EvictTail | src/sized.rs:175-181 | drops the last entry and its weight; the key stays mapped |
| SizedStore.Store.EvictOvershoot | src/sized.rs:263-267 | the loop as written evicts what the policy says and changes no mapping; its break is never met |
| SizedStore.Store.EvictFor | src/sized.rs:275-282 | the loop evicts what the policy says and unmaps exactly that; its break is never met |
| SizedStore.Store.ValidLeadsHome | src/sized.rs:118-125 | where map and list agree, the key map leads every key to where the list holds it, never to an empty slot |
| SizedStore.Store.StaleKeysAreUnreachable | src/sized.rs:118-125 | right after a live update that evicted, every key left mapped without its node leads to an empty slot |
| SizedStore.Store.FollowIsWhere | src/sized.rs:230-235 | the slot a key is mapped to is either empty or a listed one |
| SizedStore.Store.Get | src/sized.rs:230-235 | from every reachable store, panics exactly when the key leads to an empty slot, changing nothing, and else answers the value the key leads to and acts as the policy step there |
| SizedStore.Store.UpdateLive | src/sized.rs:247-272 | the live-update branch as written answers the value replaced and acts as the policy update, from any reachable store where the key leads to a node |
| SizedStore.Store.UpdateIntended | src/sized.rs:247-282 | the live-update branch with the unmapping loop acts as the intended policy update and keeps map, slots and list in agreement |
| SizedStore.Store.InsertNew | src/sized.rs:274-295 | the new-entry branch evicts, unmaps, stores and maps as the policy says; an entry that evicts nothing takes the slot freed last |
| SizedStore.Store.StoreNew | src/sized.rs:284-294 | puts the new entry in front, adds its weight with saturation and maps its key to the slot freed last, if any |
| SizedStore.Store.Insert | src/sized.rs:237-295 | like get for the code as written, answering the value the key led to before an accepted insert; keeps a true total true, and map and list in agreement, each exactly under its condition |
| SizedStore.Store.InsertIntended | src/sized.rs:237-295 | like insert with evicted keys unmapped in both loops; for every limit each mapped key stays on a slot holding it and each listed node mapped |
| SizedStore.Store.Remove | src/sized.rs:297-304 | like get, taking the removed weight off the total; when it panics, the key has been unmapped and nothing else changed |
| SizedStore.Store.TotalWeight | src/sized.rs:219-222 | in every reachable store the reported total is within the limit and at most the true sum, and a true total is reported as such |
| SizedStore.Store.Clear | src/sized.rs:314-322 | leaves a consistent empty store, whatever it was before |
| SizedStore.Store.ArenaAccounted | src/sized.rs:101-116 | arena length is live entries plus free slots and equals the high-water mark, stale keys or not |
| SizedStore.StaleLookup | src/sized.rs:230-235 | on the store left by that run, get of the evicted key panics, and after the next insert answers with another key's value |
| SketchModel.SameCellIff | src/tinylfu.rs:367-371 | two counters coincide exactly when they are of the same row and the keys' hashes with that row's seed fall into the same column |
| SketchModel.BumpIsPointwise | src/tinylfu.rs:340-346 | an increment adds one, saturating, to exactly the key's own four counters |
| SketchModel.EstimateIsLeast | src/tinylfu.rs:328-338 | the estimate is the least of the key's four counters |
| SketchModel.AgeingHalvesEstimates | src/tinylfu.rs:361-365 | ageing halves every estimate, rounding down, so it never makes a key outrank one it did not outrank before |
| SketchModel.CellsAboveExact | src/tinylfu.rs:340-365 | no counter of a key is below an exact counter that saturates and halves with the sketch |
| SketchModel.CellsBelowMass | src/tinylfu.rs:340-365 | no counter is above the sum of ideal real-valued counts of the keys whose hash falls into its column |
| SketchModel.Sandwich | src/tinylfu.rs:328-365 | every estimate lies between the key's exact counter and, in each row, the ideal counts of the keys in its column |
| SketchModel.LoneKeyIsCounted | src/tinylfu.rs:328-371 | in a row where no other touched key shares its column, a key's estimate is bounded by its own count, and is 0 if it was never touched |
| SketchModel.RowMassIsBounded | src/tinylfu.rs:340-365 | samples stay below the window, each row sums to at most window plus samples, and so does every estimate |
| SketchStore.CountMinSketch.constructor | src/tinylfu.rs:315-326 | the width is a power of two, at least 64 and twice the capacity; all counters start at zero |
| SketchStore.CountMinSketch.Estimate | src/tinylfu.rs:328-338 | the loop computes the model's estimate; the out-of-range fallback is never used |
| SketchStore.CountMinSketch.Increment | src/tinylfu.rs:340-352 | the loop bumps the rows, counts the sample and ages at the end of the window |
| SketchStore.CountMinSketch.Age | src/tinylfu.rs:361-365 | halves every counter in place |
| SketchStore.CountMinSketch.Reset | src/tinylfu.rs:354-359 | gives a fresh sketch |
| TinyLfuPolicy.InsertIsGatedLru | src/tinylfu.rs:222-260 | a new key meeting a full shard is admitted exactly when its estimate exceeds the tail's; a turned-away insert changes no entry, any other is the LRU insert, and no insert shrinks the shard |
| TinyLfuPolicy.RunIsGatedLru | src/tinylfu.rs:214-295 | after every run the entries and replies are those of an LRU shard that never saw the inserts turned away |
| TinyLfuPolicy.RunIsChronological | src/tinylfu.rs:214-295 | in every run the list is ordered by last access and holds the latest inserted values, an insert turned away being neither |
| TinyLfuPolicy.StepOnContents | src/tinylfu.rs:214-295 | every call acts and answers as on the map of the contents, up to its eviction or rejection |
| TinyLfuPolicy.TurnedAwayIsCounted | src/tinylfu.rs:222-249 | a turned-away insert never changes an entry and always changes the sketch |
| TinyLfuPolicy.TurnedAwayThenAdmitted | src/tinylfu.rs:222-249 | a run in which a call is turned away once and, because it was counted, admitted when repeated |
| TinyLfuPolicy.RunKeepsShape | src/tinylfu.rs:214-295 | in every run keys are distinct and the shard is within capacity |
| TinyLfuPolicy.SketchOfRun | src/tinylfu.rs:214-295 | in every run the sketch is that of the gets, inserts and clears made, in order |
| TinyLfuPolicy.VictimIsLast | src/tinylfu.rs:235-249 | in a full shard the held key accessed longest ago is the last of the list |
| TinyLfuPolicy.AdmittedIff | src/tinylfu.rs:235-249 | after any run, a new key meeting a full shard replaces the held key accessed longest ago exactly when its estimate in the sketch of all calls is greater; otherwise the held keys stay |
| TinyLfuPolicy.AdmissionComparesCalls | src/tinylfu.rs:214-249 | within one window and without collisions or saturation, admission compares the numbers of gets and inserts made of the two keys |
| TinyLfuPolicy.StrongCandidateIsAdmitted | src/tinylfu.rs:235-249 | after any run, a key whose exact count beats the ideal counts colliding with the victim in some row is admitted |
| TinyLfuPolicy.AdmittedOutweighsVictim | src/tinylfu.rs:235-249 | after any run, an admitted key has colliding counts above the victim's exact count in every row |
| TinyLfuStore.TinyLfuShard.Get | src/tinylfu.rs:214-220 | counts the key, hit or miss, then acts and answers as the policy step |
| TinyLfuStore.TinyLfuShard.Insert | src/tinylfu.rs:222-260 | acts and answers as the policy step; a turned-away insert leaves every field of the arena unchanged |
| TinyLfuStore.TinyLfuShard.Remove | src/tinylfu.rs:262-268 | acts and answers as the policy step and leaves the sketch alone |
| TinyLfuStore.TinyLfuShard.Clear | src/tinylfu.rs:285-295 | empties the shard and resets the sketch |
| TinyLfuStore.TinyLfuShard.ArenaAccounted | src/tinylfu.rs:94-110 | arena length is live entries plus free slots, equals the high-water mark, and never exceeds the capacity |
| LfuPolicy.StepInverseIff | src/lfu.rs:134-189 | one call keeps the priority index the exact inverse of the map exactly when it does not file its key over another's |
| LfuPolicy.StepKeepsStamps | src/lfu.rs:83-86 | until the clock wraps every stamp is new, so nothing is filed over another key |
| LfuPolicy.RunStaysBounded | src/lfu.rs:152-184 | in runs of any length the shard is within capacity, and making room in a full one takes exactly one held key |
| LfuPolicy.RunIsRecorded | src/lfu.rs:134-191 | in runs of any length the clock counts the ticks, and every count, age and value is what the calls and replies say, ages up to the wrap |
| LfuPolicy.OverwritesIff | src/lfu.rs:134-184 | a call files its key over another's exactly when it comes a positive multiple of 2^64 ticks after the latest access to a held key it does not evict and makes the use counts equal |
| LfuPolicy.RunInverseIff | src/lfu.rs:134-191 | in a run of any length the index inverts the map throughout exactly when no call meets that condition |
| LfuPolicy.InverseCounts | src/lfu.rs:62-67 | the index and the map have equal size |
| LfuPolicy.RunIsFaithful | src/lfu.rs:134-215 | in every run before the wrap the index inverts the map, and counts, ages and values are what the calls and replies say |
| LfuPolicy.AccessTickOrders | src/lfu.rs:134-184 | in runs of any length held keys are accessed at ticks in the order of the calls |
| LfuPolicy.InsertEvictsLeastStamped | src/lfu.rs:152-183 | before and after the wrap, while the index inverts the map, a new key drops exactly the held key of fewest uses and, among equals, of the least stamp |
| LfuPolicy.EvictsNaiveVictimIff | src/lfu.rs:152-183 | and that is the key of fewest uses, then oldest access, exactly when the least used key accessed longest ago has the least stamp |
| LfuPolicy.InsertEvictsLeastUsed | src/lfu.rs:152-183 | a new key drops nothing below capacity, and at capacity, before the wrap, exactly the key a naive scan for fewest uses, then oldest access, would choose |
| LfuPolicy.StepOnValues | src/lfu.rs:134-191 | every call acts and answers as on a map that first loses the evicted key |
| LfuPolicy.WrappedClockLosesKey | src/lfu.rs:83-86 | a run of 2^64 + 1 ticks after which a held key is missing from the index |
| LfuPolicy.WrappedClockBreaksTies | src/lfu.rs:83-86 | a run across the wrap with the index intact after which the more recently accessed of two equally used keys is evicted |
| LfuStore.LfuShard.Get | src/lfu.rs:134-150 | acts and answers as the policy step; a miss ticks the clock too |
| LfuStore.LfuShard.Insert | src/lfu.rs:152-184 | acts and answers as the policy step |
| LfuStore.LfuShard.TakeFirst | src/lfu.rs:169-173 | removes the least priority from the index and its key from the map |
| LfuStore.LfuShard.Remove | src/lfu.rs:186-191 | acts and answers as the policy step |
| LfuStore.LfuShard.Len | src/lfu.rs:201-206 | in every reachable shard the length is that of the map and within capacity, and that of an inverse index |
| TtlPolicy.LazyIsEager | src/ttl.rs:154-232 | after every run the unexpired part of the shard equals that of a cache that purges before each call, from the last call on |
| TtlPolicy.EagerEvictsByItsRule | src/ttl.rs:154-181 | after every run, whenever the eager cache evicts, the victim is one its own scan could have picked |
| TtlPolicy.LazyStaysBounded | src/ttl.rs:154-181 | in every run the shard is within capacity, expired entries included |
| TtlPolicy.RepliesAgreeIff | src/ttl.rs:154-232 | every reply is the eager cache's, except exactly when remove meets an expired entry |
| TtlPolicy.ExpiredGoFirst | src/ttl.rs:254-261 | no live entry is evicted while an expired one sits in the shard |
| TtlPolicy.HeldIff | src/ttl.rs:154-232 | after every run a key sits in the shard, with the value and deadline of its latest insertion, exactly when it has since been neither removed, cleared, evicted nor met expired |
| TtlPolicy.RepliesReadHeld | src/ttl.rs:154-232 | every reply says what is held unexpired at the time of the call, and that of remove what is held, expired or not |
| TtlPolicy.InsertAgrees | src/ttl.rs:154-181 | an insert agrees with the eager cache in state and reply, and the eager cache would pick among the same victims |
| TtlPolicy.ExpiredRemoveDiffers | src/ttl.rs:206-209 | two calls after which remove returns an expired value |
| TtlPolicy.DeadlineIsSane | src/ttl.rs:246-252 | a deadline is never in the past and always representable; a span that does not fit becomes 36500 days, or none where those do not fit |
| TtlStore.TtlShard.Get | src/ttl.rs:189-198 | acts and answers as the lazy step |
| TtlStore.TtlShard.InsertInner | src/ttl.rs:154-181 | acts and answers as the lazy step with a victim of soonest deadline |
| TtlStore.TtlShard.FindVictim | src/ttl.rs:254-261 | picks an entry of soonest deadline, none only from an empty map |
| TtlStore.TtlShard.Remove | src/ttl.rs:206-209 | acts and answers as the lazy step, whatever the time |
| TtlStore.TtlShard.ContainsKey | src/ttl.rs:211-222 | acts and answers as the lazy step |
| TtlStore.TtlShard.Len | src/ttl.rs:224-232 | purges one shard and counts what is left |
| Sharding.ShardCount | src/sharding.rs:40-51 | one shard below 32, else the largest power of two within capacity/16 and 16 |
| Sharding.ShardsFillCapacity | src/sharding.rs:53-60 | shards times per-shard capacity is at most the capacity and falls short by less than the shard count |
| Sharding.RouteIsModulo | src/sharding.rs:84-95 | the shard a hash is routed to is the hash modulo the shard count, in bounds for every hash |
| ShardedRuns.RunIsProduct | src/sharding.rs:64-101 | the state after any interleaving is the product of each shard's own run |
| ShardedRuns.ReplyIsLocal | src/sharding.rs:90-95 | a reply depends only on earlier calls to the same shard |
| ShardedRuns.InterleavingsAgree | src/sharding.rs:64-101 | interleavings that agree per shard end in the same state |
| ShardedRuns.StepsCommute | src/sharding.rs:90-95 | calls to different shards commute, in state and replies |
| ShardedLruRuns.ShardIsLruRun | src/lru.rs:204-275 | after any interleaving each shard is the single-shard run of the operations that locked it |
| ShardedLruRuns.KeysStayHome | src/lru.rs:204-275 | in every interleaving each key lives only in its home shard |
| ShardedLruRuns.StepOnUnion | src/lru.rs:204-257 | every keyed call acts on the union of the shards as on one map, up to an eviction local to its shard, and answers as that map |
| ShardedLruRuns.TotalCountsKeys | src/lru.rs:259-264 | the sum of the shard sizes is the number of keys the cache holds |
| ShardedLruRuns.ReachIsWritersRun | src/lru.rs:259-264 | readers do not disturb writers: the shards are those of the writers' interleaving alone |
| ShardedLruRuns.ReachIsBounded | src/lru.rs:259-264 | a len that has visited some shards among running writers has counted at most their number times the per-shard capacity |
| ShardedLruRuns.LenNeverExceedsCapacity | src/lru.rs:259-264 | in every reachable state the shards hold at most the capacity, and every finished len returned at most the capacity |
| ShardedLruRuns.QuietLenIsExact | src/lru.rs:259-264 | with no writer between its visits, len returns the true total |
| ShardedLruStore.LruCache.constructor | src/lru.rs:191-196 | builds the shards empty, with separate state and the per-shard capacity |
| ShardedLruStore.LruCache.HomeIsModulo | src/sharding.rs:90-95 | a key's shard is its hash modulo the shard count |
| ShardedLruStore.LruCache.Get | src/lru.rs:204-209 | locks only the key's home shard and acts and answers as its step |
| ShardedLruStore.LruCache.Insert | src/lru.rs:211-241 | locks only the key's home shard and acts and answers as its step |
| ShardedLruStore.LruCache.Remove | src/lru.rs:243-249 | locks only the key's home shard and acts and answers as its step |
| ShardedLruStore.LruCache.Len | src/lru.rs:259-264 | the loop sums the shards and stays within the capacity |
| ShardedLruStore.LruCache.Clear | src/lru.rs:266-275 | the loop empties every shard |

## Left out

- LfuPolicy.RunIsFaithful: stated for runs in which the clock has not wrapped; past the wrap it is false, and LfuPolicy.RunInverseIff says of every run when the index survives.
- SizedPolicy.IntendedRunIsSound: a true total is stated for a limit of at most half the integer range; for larger limits SizedPolicy.RunConservesIff has the exact condition.
- SketchStore.CountMinSketch.constructor: asks for a capacity of at most 2^60, above which the number of counters is out of the integer range and cannot be allocated.
- TtlStore.TtlShard.InsertInner: the time is a parameter and the victim among equal deadlines is left open, as the iteration order of the hash map is.
- Mutexes and poisoning (src/util.rs): a locked section is one atomic step, and the next call goes on from what a panicking one left.
- Sharded wrappers of the LFU, TTL and TinyLFU caches: ShardedRuns is generic in the shard, and only the LRU cache is composed in full.
- The hash functions and how evenly they spread keys; hit rates and performance.
- Constructors' zero check, `capacity`, `is_empty`, error formatting, feature flags, `Send` and `Sync`.
- Effects and panics of user code in `Clone`, `Eq`, `Hash` and the weigher, and allocation failure.
