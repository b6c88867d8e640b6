# Probed hash table, verified in Dafny

This project models `ProbedHashTable<K, V>`, a hash map kept in one flat
array of slots and resolved by open addressing. Each slot is empty (Java's
`null`) or holds a key/value pair. A key's home bucket is
`|hashCode(key)| mod length`. `find` probes from the home bucket in steps
of `PROBE_OFFSET = 17` until it reaches a slot that is empty or holds the key.

- `set` grows the table first when more than half of it is occupied. It
  then writes the pair where `find` lands.
- `expand` allocates `2 * length + r` slots, where `r` is a random draw
  in `[0, 10)`. It adds one more when that total is a multiple of 17. It then
  re-inserts every old pair through `set`.
- `remove` empties the key's slot and walks the probe sequence to the next
  empty slot. Along the way it queues the pairs whose home bucket is the
  removed key's. It then moves each queued pair back into the previous gap.

The model has five layers:

- `Stride`: the arithmetic of the probe sequence. When 17 does not divide
  the length, the first `length` probes visit every slot exactly once.
- `Slots`: the slot array as a value, `seq<Option<(K, V)>>`. `Locate` is
  the specification of `find`, and `Coherent` says every stored key is
  found at its own slot.
- `Insertion`: `set` and `expand` as functions on slot arrays (`Place`,
  `Rehash`, `Grown`).
- `Deletion`: `remove` as a function on slot arrays (`Scan`, `Relocate`,
  `Removed`).
- `HashTables`: the class itself. It has a mutable `array` of slots and a
  `size` field. Its methods follow the Java loops step by step and are proved
  against the functions above, and so is the iterator.

The class invariant `Valid()` states four things:

- the length is at least 41;
- the length is not a multiple of 17;
- `size` is the number of occupied slots;
- `2 * size <= length + 2`. The table grows before an insertion once it is
  more than half full, so this bound always leaves an empty slot, and so
  `find` terminates.

Coherence is not part of `Valid()`. `remove` repairs only the removed
key's own bucket, so it can leave a key of another bucket unreachable (see
`Deletion.RemoveStrandsOtherBucket`). Each property therefore assumes only
what it uses:

- The properties of `remove` about one key assume that `find` reached that
  key at its slot before the removal (`Slots.FoundAt`).
- Those about a whole bucket assume this for every key of the bucket
  (`Deletion.BucketFound`).
- Only the lookup and insertion properties that speak of every stored key
  assume the whole table is coherent.

## Model

| member | source | states |
|---|---|---|
| Stride.Slot | src/main/java/edu/grinnell/csc207/util/ProbedHashTable.java:499-516 | the `j`-th probe from a home bucket lies inside the table |
| Stride.SlotNext | src/main/java/edu/grinnell/csc207/util/ProbedHashTable.java:516 | the source's step `(g + 17) % length` moves from probe `j` to probe `j + 1` |
| Stride.SlotWrap | src/main/java/edu/grinnell/csc207/util/ProbedHashTable.java:267-276 | after `length` probes the sequence is back at its start |
| Stride.StrideInverse | src/main/java/edu/grinnell/csc207/util/ProbedHashTable.java:458-461 | 17 has an inverse modulo every length that is not a multiple of 17 |
| Stride.SlotInjective | src/main/java/edu/grinnell/csc207/util/ProbedHashTable.java:458-461 | with such a length, two probe steps below the length that reach the same slot are the same step |
| Stride.SlotDistinct | src/main/java/edu/grinnell/csc207/util/ProbedHashTable.java:458-461 | with such a length, distinct probe steps below the length reach distinct slots |
| Stride.SlotCovers | src/main/java/edu/grinnell/csc207/util/ProbedHashTable.java:458-461 | with such a length, every slot is reached within the first `length` probes |
| Slots.Count | src/main/java/edu/grinnell/csc207/util/ProbedHashTable.java:92 | the number of occupied slots (what `size` tracks) is at most the length |
| Slots.Home | src/main/java/edu/grinnell/csc207/util/ProbedHashTable.java:499 | the home bucket `hash mod length` is a slot index |
| Slots.FirstStop | src/main/java/edu/grinnell/csc207/util/ProbedHashTable.java:505-518 | the probe step where `find` stops is empty or holds the key, and no earlier step is either |
| Slots.Locate | src/main/java/edu/grinnell/csc207/util/ProbedHashTable.java:495-521 | the index `find` returns is inside the table |
| Slots.StoredValue | src/main/java/edu/grinnell/csc207/util/ProbedHashTable.java:204-216 | the value `get` returns (and `set` reports as replaced): when `find` terminates, a returned value is stored under the key; in a coherent table there is a value exactly when the key is stored |
| Slots.CountRoom | src/main/java/edu/grinnell/csc207/util/ProbedHashTable.java:315-317 | fewer occupied slots than slots leaves an empty slot |
| Slots.CountUpdate | src/main/java/edu/grinnell/csc207/util/ProbedHashTable.java:262 | overwriting a slot changes the count exactly by the change in that slot's occupancy |
| Slots.CountPrefixBound | src/main/java/edu/grinnell/csc207/util/ProbedHashTable.java:475 | a prefix of the slots holds no more pairs than the whole |
| Slots.EmptySlots | src/main/java/edu/grinnell/csc207/util/ProbedHashTable.java:404 | a new array has the given length and every slot empty |
| Slots.CountEmpty | src/main/java/edu/grinnell/csc207/util/ProbedHashTable.java:404-405 | a new array holds no pairs, so `size` is 0 |
| Slots.LocateStops | src/main/java/edu/grinnell/csc207/util/ProbedHashTable.java:505-518 | when the length is not a multiple of 17 and a slot is empty, `find` stops within `length` probes at a slot that is empty or holds the key |
| Slots.FirstStopIs | src/main/java/edu/grinnell/csc207/util/ProbedHashTable.java:505-518 | the first probe step that is empty or matches is where `find` stops |
| Slots.FirstStopAgree | src/main/java/edu/grinnell/csc207/util/ProbedHashTable.java:505-518 | two arrays that agree on every slot `find` inspects give the same answer |
| Slots.CoherentDistinct | src/main/java/edu/grinnell/csc207/util/ProbedHashTable.java:308-335 | a table where every key is found at its own slot stores no key twice |
| Slots.LookupCorrect | src/main/java/edu/grinnell/csc207/util/ProbedHashTable.java:160-173 | in a coherent table `find` lands on an occupied slot exactly when the key is stored, and that slot holds the key |
| Slots.LookupFindsEntry | src/main/java/edu/grinnell/csc207/util/ProbedHashTable.java:199-218 | in a coherent table `find`'s slot holds `(key, v)` exactly when that pair is stored |
| Insertion.Place | src/main/java/edu/grinnell/csc207/util/ProbedHashTable.java:319-325 | writing the pair where `find` lands keeps the length |
| Insertion.PlaceRoundTrip | src/main/java/edu/grinnell/csc207/util/ProbedHashTable.java:319-325 | get after set: `find` still lands on the written slot, which holds the new pair |
| Insertion.PlaceKeepsFound | src/main/java/edu/grinnell/csc207/util/ProbedHashTable.java:319-325 | setting one key leaves every other reachable key at the same slot with the same pair |
| Insertion.PlaceCoherent | src/main/java/edu/grinnell/csc207/util/ProbedHashTable.java:319-325 | setting a key keeps a coherent table coherent |
| Insertion.PlaceEntries | src/main/java/edu/grinnell/csc207/util/ProbedHashTable.java:319-325 | in a coherent table the stored pairs become those of other keys plus the new pair (replace or add) |
| Insertion.PlaceCount | src/main/java/edu/grinnell/csc207/util/ProbedHashTable.java:320-324 | the count grows by one exactly when `find` landed on an empty slot, and is otherwise unchanged |
| Insertion.PlaceFresh | src/main/java/edu/grinnell/csc207/util/ProbedHashTable.java:319-325 | setting a key a coherent table does not hold adds exactly its pair and one occupied slot, and keeps the table coherent |
| Insertion.NewCapacity | src/main/java/edu/grinnell/csc207/util/ProbedHashTable.java:456-461 | the new length is between `2n` and `2n + 10` and is not a multiple of 17 |
| Insertion.Reinsert | src/main/java/edu/grinnell/csc207/util/ProbedHashTable.java:475-481 | the new array after `expand`'s loop has placed the first `i` old slots has the new length and holds no pair that those slots did not hold |
| Insertion.Rehash | src/main/java/edu/grinnell/csc207/util/ProbedHashTable.java:467-481 | the array `expand` builds has the new length and holds no pair the old array did not hold |
| Insertion.Grown | src/main/java/edu/grinnell/csc207/util/ProbedHashTable.java:315-317 | `set`'s growth step: past half full, the new length is between `2n` and `2n + 10`, not a multiple of 17, and no pair is invented; otherwise the slots are unchanged |
| Insertion.ReinsertCountBound | src/main/java/edu/grinnell/csc207/util/ProbedHashTable.java:475-481 | re-inserting the first `i` old slots yields no more pairs than they hold |
| Insertion.ReinsertStep | src/main/java/edu/grinnell/csc207/util/ProbedHashTable.java:475-481 | during `expand`'s loop the new array stays at most half full, so the `set` it calls never grows again, and each round places one old pair |
| Insertion.ReinsertSpec | src/main/java/edu/grinnell/csc207/util/ProbedHashTable.java:475-481 | re-inserting pairs with distinct keys gives a coherent array with exactly those pairs and the same count |
| Insertion.RehashSpec | src/main/java/edu/grinnell/csc207/util/ProbedHashTable.java:467-481 | `expand` with distinct keys keeps exactly the old pairs and their number, each found by `find` in the new table |
| Insertion.GrownSpec | src/main/java/edu/grinnell/csc207/util/ProbedHashTable.java:315-317 | growth keeps `find` terminating and never adds pairs; the new length is `NewCapacity`; a coherent table keeps its pairs, count and coherence |
| Insertion.SameEntriesSameLookup | src/main/java/edu/grinnell/csc207/util/ProbedHashTable.java:199-218 | two coherent tables that hold the same pairs answer every lookup alike |
| Deletion.FirstEmpty | src/main/java/edu/grinnell/csc207/util/ProbedHashTable.java:267-276 | the scan of `remove` stops at the first empty slot, and every slot before it is occupied |
| Deletion.Scan | src/main/java/edu/grinnell/csc207/util/ProbedHashTable.java:267-276 | every queued index is a slot of the table |
| Deletion.ScanSound | src/main/java/edu/grinnell/csc207/util/ProbedHashTable.java:267-276 | each queued index holds its queued pair, whose home bucket is the removed key's |
| Deletion.ScanStep | src/main/java/edu/grinnell/csc207/util/ProbedHashTable.java:267-276 | one round of the walk queues an occupied slot exactly when its home bucket matches |
| Deletion.ScanStepsSpec | src/main/java/edu/grinnell/csc207/util/ProbedHashTable.java:267-276 | the queue lists, in increasing probe order, exactly the occupied slots before the first empty slot whose home bucket matches |
| Deletion.Relocate | src/main/java/edu/grinnell/csc207/util/ProbedHashTable.java:280-291 | relocation keeps the length |
| Deletion.RelocateGap | src/main/java/edu/grinnell/csc207/util/ProbedHashTable.java:286-287 | the `l`-th gap receives the `l`-th queued pair |
| Deletion.RelocateLast | src/main/java/edu/grinnell/csc207/util/ProbedHashTable.java:291 | the last gap ends up empty |
| Deletion.RelocateElsewhere | src/main/java/edu/grinnell/csc207/util/ProbedHashTable.java:280-291 | a slot that is neither the emptied slot nor queued is untouched |
| Deletion.RelocateAt | src/main/java/edu/grinnell/csc207/util/ProbedHashTable.java:280-291 | the whole effect of the relocation loop, slot by slot |
| Deletion.RelocateCount | src/main/java/edu/grinnell/csc207/util/ProbedHashTable.java:282-292 | relocating occupied slots into the gap lowers the count by the gap's own occupancy, so it is unchanged when the gap is already empty, as it is in `remove` |
| Deletion.Cleared | src/main/java/edu/grinnell/csc207/util/ProbedHashTable.java:262 | emptying `find`'s slot keeps the length |
| Deletion.RemovalQueue | src/main/java/edu/grinnell/csc207/util/ProbedHashTable.java:246-276 | every queued index is in the table, is not the emptied slot, holds its queued pair, and that pair's key has the removed key's home bucket |
| Deletion.Removed | src/main/java/edu/grinnell/csc207/util/ProbedHashTable.java:241-295 | the array after `remove` has the same length |
| Deletion.ChainShape | src/main/java/edu/grinnell/csc207/util/ProbedHashTable.java:254-276 | the walk starts one probe past the removed key's slot, stays inside the first `length` probes of its bucket and ends at an empty slot |
| Deletion.QueueShape | src/main/java/edu/grinnell/csc207/util/ProbedHashTable.java:254-276 | queued pairs sit at increasing, distinct probe steps of the walk, hold pairs of the removed key's bucket, and never include the removed slot |
| Deletion.QueueComplete | src/main/java/edu/grinnell/csc207/util/ProbedHashTable.java:267-276 | every pair of the removed key's bucket met on the walk is queued |
| Deletion.RemovedGap | src/main/java/edu/grinnell/csc207/util/ProbedHashTable.java:282-288 | the `m`-th gap of a removal receives the `m`-th queued pair |
| Deletion.RemovedBeforeChain | src/main/java/edu/grinnell/csc207/util/ProbedHashTable.java:280-291 | the slots the removed key's search passed before reaching it keep their contents |
| Deletion.QueuedStopsLater | src/main/java/edu/grinnell/csc207/util/ProbedHashTable.java:267-276 | when `find` reached a queued key at its slot before, its search stops at exactly that key's probe step of the walk, so after the removed key's slot on the same probe sequence |
| Deletion.QueuedKeysDistinct | src/main/java/edu/grinnell/csc207/util/ProbedHashTable.java:267-276 | two different queued pairs that `find` reached at their slots hold different keys |
| Deletion.MovedPasses | src/main/java/edu/grinnell/csc207/util/ProbedHashTable.java:280-291 | when `find` reached a queued key before, then after `remove` its search passes every probe step before that key's new slot |
| Deletion.MovedStaysFound | src/main/java/edu/grinnell/csc207/util/ProbedHashTable.java:280-288 | a queued key that `find` reached before `remove` is found afterwards at the gap it was moved into |
| Deletion.UnmovedStaysFound | src/main/java/edu/grinnell/csc207/util/ProbedHashTable.java:267-276 | a key of the removed key's bucket that `find` reached before and that `remove` does not move keeps its slot and is still found there |
| Deletion.RemovedLast | src/main/java/edu/grinnell/csc207/util/ProbedHashTable.java:291 | after `remove`, the last gap of the walk is empty |
| Deletion.RemovedElsewhere | src/main/java/edu/grinnell/csc207/util/ProbedHashTable.java:280-291 | after `remove`, a slot that is neither the emptied one nor queued keeps its contents |
| Deletion.KeepsBucketEmptied | src/main/java/edu/grinnell/csc207/util/ProbedHashTable.java:282-288 | the slot `remove` empties is refilled with the first queued pair, and `find` reaches that pair there when it reached it before |
| Deletion.KeepsBucketQueued | src/main/java/edu/grinnell/csc207/util/ProbedHashTable.java:282-288 | a queued slot is refilled with the next queued pair, and `find` reaches that pair there when it reached it before |
| Deletion.RemoveKeepsReached | src/main/java/edu/grinnell/csc207/util/ProbedHashTable.java:241-295 | every other key of the removed key's home bucket that `find` reached before `remove` is reached afterwards, with the same pair |
| Deletion.RemoveKeepsBucketAt | src/main/java/edu/grinnell/csc207/util/ProbedHashTable.java:241-295 | when `find` reached every key of the removed key's home bucket at its slot before `remove`, it reaches every key of that bucket stored afterwards at its slot |
| Deletion.RemoveKeepsBucket | src/main/java/edu/grinnell/csc207/util/ProbedHashTable.java:241-295 | `remove` keeps the removed key's home bucket found: the same for all slots at once |
| Deletion.RemovedCount | src/main/java/edu/grinnell/csc207/util/ProbedHashTable.java:258-292 | `remove` of a stored key leaves one pair fewer, and of an absent key leaves the count unchanged |
| Deletion.RemovedEntryMoved | src/main/java/edu/grinnell/csc207/util/ProbedHashTable.java:282-288 | with distinct keys, a refilled gap holds a queued pair that was stored before and is not the removed one |
| Deletion.RemovedEntryFrom | src/main/java/edu/grinnell/csc207/util/ProbedHashTable.java:241-295 | with distinct keys, every pair left after `remove` was stored before and is not the removed pair |
| Deletion.RemovedEntryTo | src/main/java/edu/grinnell/csc207/util/ProbedHashTable.java:241-295 | with distinct keys, every pair stored before, other than the removed one, is still stored |
| Deletion.RemovedEntries | src/main/java/edu/grinnell/csc207/util/ProbedHashTable.java:241-295 | with distinct keys, `remove` of a stored key loses exactly its pair |
| Deletion.RemovedKeyGone | src/main/java/edu/grinnell/csc207/util/ProbedHashTable.java:241-295 | with distinct keys, after `remove` an empty slot remains and `find` no longer reaches the key |
| Deletion.RemoveSpec | src/main/java/edu/grinnell/csc207/util/ProbedHashTable.java:241-295 | `remove` drops the count by one exactly when the key was found, and changes nothing when it was absent; with distinct keys the key is gone and only its pair is lost |
| Deletion.RemoveStrandsOtherBucket | src/main/java/edu/grinnell/csc207/util/ProbedHashTable.java:267-276 | in a coherent table of 41 slots, removing key 0 moves key 41 out of slot 17, so key 17 (home 17, stored at 34) becomes unreachable |
| Deletion.RemoveResurrectsStale | src/main/java/edu/grinnell/csc207/util/ProbedHashTable.java:241-295 | starting from the same coherent table, whose keys are distinct and where `get(17)` gives 3: after `remove(0)`, `set(17, 9)` (no growth) writes a second copy of key 17 at slot 17, so keys are no longer distinct; `get(17)` gives 9, and `remove(17)` then moves the stale `(17, 3)` back to slot 17, where `get(17)` returns 3 |
| HashTables.Occupied | src/main/java/edu/grinnell/csc207/util/ProbedHashTable.java:366-393 | the pairs an iterator at slot `c` still yields number at most the slots left, and none once `c` is past the end |
| HashTables.OccupiedHolds | src/main/java/edu/grinnell/csc207/util/ProbedHashTable.java:366-393 | an iterator at slot `c` still yields exactly the pairs stored at `c` or later |
| HashTables.OccupiedHas | src/main/java/edu/grinnell/csc207/util/ProbedHashTable.java:381-387 | a pair stored at or after the cursor is yielded |
| HashTables.OccupiedFrom | src/main/java/edu/grinnell/csc207/util/ProbedHashTable.java:381-387 | a yielded pair is stored at or after the cursor |
| HashTables.OccupiedEntries | src/main/java/edu/grinnell/csc207/util/ProbedHashTable.java:366-393 | a full iteration yields exactly the stored pairs |
| HashTables.OccupiedNone | src/main/java/edu/grinnell/csc207/util/ProbedHashTable.java:371-377 | with no occupied slot at or after `c`, nothing is left to yield |
| HashTables.ProbedHashTable.ValidProbeable | src/main/java/edu/grinnell/csc207/util/ProbedHashTable.java:315-317 | in a valid table some slot is empty, so `find` terminates |
| HashTables.ProbedHashTable.constructor | src/main/java/edu/grinnell/csc207/util/ProbedHashTable.java:123-127 | a new table has 41 empty slots and size 0 |
| HashTables.ProbedHashTable.Find | src/main/java/edu/grinnell/csc207/util/ProbedHashTable.java:495-521 | returns `Locate`, a slot that is empty or holds the key |
| HashTables.ProbedHashTable.ContainsKey | src/main/java/edu/grinnell/csc207/util/ProbedHashTable.java:160-173 | false for `null`; otherwise whether `find` lands on an occupied slot, which in a coherent table is exactly key membership |
| HashTables.ProbedHashTable.Get | src/main/java/edu/grinnell/csc207/util/ProbedHashTable.java:199-218 | a `null` key and a key `find` does not reach are errors; otherwise the stored value, whose pair is in the table; in a coherent table it succeeds exactly for stored keys |
| HashTables.ProbedHashTable.Size | src/main/java/edu/grinnell/csc207/util/ProbedHashTable.java:344-346 | returns the number of occupied slots |
| HashTables.ProbedHashTable.Set | src/main/java/edu/grinnell/csc207/util/ProbedHashTable.java:308-335 | a `null` key or value changes nothing; otherwise grows exactly when `2 * size > length`, writes the pair where `find` lands, returns the replaced value and adds one to `size` only for a new key; in a coherent table the table stays coherent and the stored pairs are the others plus the new one |
| HashTables.ProbedHashTable.Expand | src/main/java/edu/grinnell/csc207/util/ProbedHashTable.java:454-483 | the new length is `NewCapacity` and the slots are the old pairs re-inserted in index order; with distinct keys the same pairs and size, each found |
| HashTables.ProbedHashTable.Refill | src/main/java/edu/grinnell/csc207/util/ProbedHashTable.java:475-481 | the copy loop leaves exactly `Rehash` of the old slots and keeps the invariant |
| HashTables.ProbedHashTable.Remove | src/main/java/edu/grinnell/csc207/util/ProbedHashTable.java:241-295 | a `null` key changes nothing; otherwise the slots become `Removed`, the returned value is the stored one, and `size` drops by one exactly when it was found; with distinct keys the key is no longer reached |
| HashTables.ProbedHashTable.ScanBucket | src/main/java/edu/grinnell/csc207/util/ProbedHashTable.java:267-276 | the first loop of `remove` builds exactly the queue `Scan` specifies |
| HashTables.ProbedHashTable.ShiftBucket | src/main/java/edu/grinnell/csc207/util/ProbedHashTable.java:280-291 | the second loop of `remove` leaves exactly `Relocate` of the slots |
| HashTables.ProbedHashTable.Clear | src/main/java/edu/grinnell/csc207/util/ProbedHashTable.java:403-406 | 41 empty slots, size 0, and no key is found |
| HashTables.PairIterator.constructor | src/main/java/edu/grinnell/csc207/util/ProbedHashTable.java:366-369 | a new iterator starts at slot 0 |
| HashTables.PairIterator.HasNext | src/main/java/edu/grinnell/csc207/util/ProbedHashTable.java:371-378 | true exactly when some slot at or after the cursor is occupied |
| HashTables.PairIterator.Next | src/main/java/edu/grinnell/csc207/util/ProbedHashTable.java:381-391 | yields the first remaining pair and moves past it, so the pairs left to yield shrink by exactly that one; `null` when none is left |

## Left out

- Java `null` becomes `Option.None` for keys, values and slots. The
  exception `get` throws becomes `Result.Err`, carrying `LookupError`.
- `hashCode` followed by `Math.abs` becomes a function `hash: K -> nat`
  that is fixed when the table is built. The overflow case of
  `Math.abs(Integer.MIN_VALUE)` is not modelled.
- The random draw in `expand` becomes a `roll < 10` parameter of `Set`
  and `Expand`. The `set` calls inside `expand` pass 0, which is never
  used because those calls never grow the table (`Insertion.ReinsertStep`).
- `LOAD_FACTOR = 0.5` and the comparison `size > length * 0.5` are
  written exactly as `2 * size > length`; no floating point is involved.
- `size` and the array length are unbounded integers. 32-bit overflow of
  `int` is not modelled.
- The reporter, the `REPORT_BASIC_CALLS` flag, `reportBasicCalls`, the
  `ProbedHashTable(Reporter)` constructor and `dump` produce only trace
  output and are not modelled.
- `keys`, `values` and `forEach` only map or visit the iterator's pairs;
  they are not modelled beyond `PairIterator`.
- The `Pair` record becomes a tuple `(K, V)`. The `HashTable` and
  `SimpleMap` interfaces and the `MiscUtils` helper are not part of this
  model.
- `remove` uses a `ConcurrentLinkedQueue`, which becomes a `seq`; the
  table is single-threaded, so no concurrency is modelled.
- The iterator keeps a reference to its table and reads the table's
  current array at each `HasNext` and `Next`, as the anonymous class does.
  No property of a whole iteration (each pair yielded once) is stated for
  a table modified between those calls.
- Deletion: the walk in `remove` has no wraparound test in the code; it
  ends at the first empty slot. The slot it has just emptied lies on the
  same probe sequence, so the walk ends at the latest after `length`
  steps, and `Deletion.Scan` stops there.
- `HashTables.ProbedHashTable.ContainsKey`, `Get` and `Set`: their
  membership and replace-or-add properties hold for coherent tables only.
  `remove` can break coherence for keys of other buckets
  (`Deletion.RemoveStrandsOtherBucket`), so coherence is a hypothesis of
  these clauses and not part of `Valid()`.
- `HashTables.ProbedHashTable.Remove`: its clause that the removed key is
  no longer reached assumes distinct keys, as do `Deletion.RemovedKeyGone`
  and `Deletion.RemoveSpec`. Distinct keys are not an invariant of the
  table (see Findings).
- `HashTables.ProbedHashTable.Expand`: its clause that the pairs and
  `size` are kept assumes distinct keys, for the same reason. Re-inserting
  a table that holds a key twice keeps only the later-indexed copy, so it
  loses a pair and `size` shrinks. The unconditional clauses (the new
  length and `Rehash` of the old slots) describe that case exactly.
- Java's `equals` on keys becomes Dafny's `==`, so `K` must support
  equality. Representing the hash as a function `hash: K -> nat` builds in
  the `hashCode`/`equals` contract: equal keys always get equal hashes. A
  key type that breaks that contract is not modelled.

## Findings

| source | as written | input that shows it | evidently intended | confidence | as-written member | corrected member |
|---|---|---|---|---|---|---|
| src/main/java/edu/grinnell/csc207/util/ProbedHashTable.java:267-276 | the walk of `remove` queues only pairs of the removed key's home bucket, so a pair of another bucket whose search passed the emptied slot is stranded; a later non-growing `set` of that key stores it twice, and a `remove` of it moves the stale pair back | 41 slots holding keys 0, 41 and 17 (hash the identity) at slots 0, 17 and 34, each with its own value, key 17 mapped to 3: `remove(0)`, then `set(17, 9)`, then `remove(17)`, after which `get(17)` returns 3 | a removed key stays removed: after `remove(key)`, `find` no longer reaches `key`, which holds whenever the keys are distinct | not executed | Deletion.RemoveResurrectsStale | Deletion.RemovedKeyGone |
