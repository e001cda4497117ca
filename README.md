# Robin Hood hash map (pkg/rhh)

A verified Dafny model of `pkg/rhh/rhh.go`. That file implements an open-addressing hash map from byte-string keys to values. Collisions are resolved by Robin Hood hashing.

The map keeps two parallel slot arrays.
- `hashes` holds each slot's 64-bit hash; 0 marks an empty slot.
- `elems` holds the slot's key and value.

The map also keeps a count `n`, a power-of-two `capacity`, `mask = capacity - 1`, a `loadFactor` in percent, and `threshold = capacity * loadFactor / 100`.

An insert probes forward from the key's home slot `hash & mask`. When the carried entry has probed farther than a slot's occupant, the two trade places. This keeps every run of displaced entries in order: an occupied slot displaced by `d > 0` follows an occupied slot displaced by at least `d - 1`. Lookups rely on that invariant to stop early.

The model has one file per part of the source.

- `bits.dfy` (module `Bits`): powers of two and the bitwise `&` on naturals. It proves that `x & (m - 1) == x % m` when `m` is a power of two.
- `slots.dfy` (module `Slots`):
  - the slot and key types;
  - `HashKey` and `Dist`;
  - positions on the ring of slots;
  - the table invariant `WellFormed`, stated over the slot sequences: the Robin Hood order, each key's hash stored in its slot, no key in two slots, empty slots zeroed, and the slots representing an abstract map;
  - the lemmas that a single slot write keeps `WellFormed`.
- `probe.dfy` (module `Probe`):
  - `Step` and `ProbeFrom`: the insert loop as a function of the slot sequences;
  - the proof that the loop stops within `capacity` slots and leaves a well-formed table for the updated map.
- `scan.dfy` (module `Scan`): the whole-table scans, as functions of the slot sequences:
  - the entries `grow` reinserts;
  - the keys `Keys` collects;
  - the probe distances `AverageProbeCount` adds up.
- `byteorder.dfy` (module `ByteOrder`): `bytes.Compare` order on keys, and the sort `Keys` applies.
- `hashmap.dfy` (module `Rhh`): the `HashMap` class. Its fields are the source's fields. `hashes` and `elems` are arrays, and a ghost map `contents` holds the abstract contents. Each method updates the fields as the Go method does.

The hash function `xxhash.Sum64` is a parameter `sum64` fixed at construction. The Go `interface{}` value is a type parameter `V`, and a nil value is `None` of `Option<V>`.

## Model

| member | source | states |
|---|---|---|
| Bits.And | pkg/rhh/rhh.go:55 | the bitwise and of two naturals is at most either operand |
| Bits.AndLowMask | pkg/rhh/rhh.go:55 | for a power of two `m`, `a & (m - 1)` is `a % m`, so the masked hash is a slot index |
| Bits.DoubleIsPow2 | pkg/rhh/rhh.go:106 | doubling a power of two gives a power of two |
| Bits.PowersAreSpaced | pkg/rhh/rhh.go:219-224 | a power of two above another is at least twice it, so no power of two is skipped between loop steps |
| Rhh.Pow2 | pkg/rhh/rhh.go:217-226 | `pow2(v)` is a power of two at least 2 and at least `v`, and the least such. It is `v` when `v` is such a power and 2 when `v <= 2`. It is defined exactly up to 2^61, beyond which the source panics |
| Slots.HashKey | pkg/rhh/rhh.go:200-207 | the key hash is never 0, and equals the raw hash whenever that is nonzero |
| Slots.Dist | pkg/rhh/rhh.go:209-215 | the masked distance lies in `[0, capacity)` and is the forward gap from the hash's home slot to `i` |
| Slots.DistAtHome | pkg/rhh/rhh.go:209-215 | a hash stored in its home slot `hash & mask` has distance 0 |
| Slots.NextSlot | pkg/rhh/rhh.go:86 | `(pos + 1) & mask` is the next slot, wrapping from the last to the first |
| Slots.OccupiedUpdate | pkg/rhh/rhh.go:61-63 | writing a slot changes the number of occupied slots by whether it was empty before and after |
| Slots.EmptySlotExists | pkg/rhh/rhh.go:59-64 | a table with fewer entries than slots has an empty slot, where the probe loop can stop |
| Slots.OccupiedNone | pkg/rhh/rhh.go:93-94 | a table of zero hashes has no occupied slot |
| Slots.EmptyTable | pkg/rhh/rhh.go:92-97 | freshly allocated zero slots are a well-formed table for the empty map |
| Slots.RunBefore | pkg/rhh/rhh.go:128 | under the Robin Hood order, the `t` slots before an entry displaced by `d >= t` are occupied, displaced by at least `d - t` |
| Slots.NotFurther | pkg/rhh/rhh.go:126-129 | once the probe meets an empty slot, or a slot displaced less than the distance probed, the key is in no slot |
| Slots.ProbePast | pkg/rhh/rhh.go:130-135 | a probe that passes a slot not holding its key moves one slot on, with every slot passed still not holding it |
| Slots.CarryBound | pkg/rhh/rhh.go:74-87 | while an empty slot exists, the distance an entry is carried stays below `capacity` |
| Slots.PlaceKeepsRobinHood | pkg/rhh/rhh.go:61-62 | writing the carried hash where the probe stopped or swapped keeps the Robin Hood order |
| Slots.WriteSlot | pkg/rhh/rhh.go:62-67 | a slot written with a key's hash and entry keeps every key hashed into its slot and every empty slot zeroed |
| Slots.PlaceInEmpty | pkg/rhh/rhh.go:61-64 | filling an empty slot with the carried entry makes the slots represent the whole map, with keys still unique |
| Slots.SwapCarried | pkg/rhh/rhh.go:74-79 | after a swap the slots represent the map minus the newly carried key, which is a different key from the one placed |
| Slots.Overwrite | pkg/rhh/rhh.go:65-68 | replacing the slot holding `key` updates the represented map at `key` and nothing else |
| Probe.StartProbe | pkg/rhh/rhh.go:55-56 | the probe starts at the key's home slot at distance 0 |
| Probe.StartCarrying | pkg/rhh/rhh.go:61-79 | meeting an empty slot or a less displaced occupant first shows the key is new; from then on the loop carries an entry of the updated map |
| Probe.ProbeOn | pkg/rhh/rhh.go:73-87 | passing an occupied slot that holds another key and is displaced at least as far keeps the search state, one slot nearer an empty slot |
| Probe.CarriedNotStored | pkg/rhh/rhh.go:65 | while an entry is carried its key is in no slot, so after the first swap the overwrite branch cannot fire |
| Probe.Replace | pkg/rhh/rhh.go:65-68 | reaching the slot holding `key` before any swap and overwriting it leaves a well-formed table for the updated map |
| Probe.Fill | pkg/rhh/rhh.go:61-64 | dropping the carried entry into an empty slot leaves a well-formed table |
| Probe.Swap | pkg/rhh/rhh.go:74-83 | swapping with a less displaced occupant carries the occupant at its own distance and keeps the invariant |
| Probe.CarryOn | pkg/rhh/rhh.go:85-87 | moving past an occupant displaced at least as far keeps carrying, one slot nearer an empty slot |
| Probe.Step | pkg/rhh/rhh.go:71-87 | one pass of the loop body yields a cursor in range over a table of the same size |
| Probe.CarryStep | pkg/rhh/rhh.go:71-87 | one loop pass while carrying keeps carrying, leaves the chosen empty slot empty and moves nearer it |
| Probe.CarryingSettles | pkg/rhh/rhh.go:59-88 | the carrying loop stops, filling an empty slot, with a well-formed table for the map it carries for |
| Probe.ProbeStops | pkg/rhh/rhh.go:60-69 | the two exits: a free slot or the slot holding `key`, each leaving a well-formed table for the updated map |
| Probe.ProbingSettles | pkg/rhh/rhh.go:59-88 | the search loop stops, reporting an overwrite exactly when the key was present, with a well-formed table for the updated map |
| Probe.ProbeFrom | pkg/rhh/rhh.go:59-88 | the insert loop run from a cursor for at most `fuel` slots: it writes the carried entry at the first empty slot or the slot holding its key, swapping on the way as `Step` does; a finished run keeps the slot count. `Probe.InsertSettles` proves it finishes with a well-formed table |
| Probe.InsertSettles | pkg/rhh/rhh.go:54-89 | from a well-formed table with a free slot, insert stops within `capacity` slots and leaves a well-formed table for `M[key := val]`; it reports an overwrite exactly when `key` was in `M` |
| Scan.Entries | pkg/rhh/rhh.go:110-116 | the map that reinserting the occupied slots among the first `i`, in index order, builds; it has at most `i` entries. `Scan.EntriesComplete` proves that over a whole table it is the old map |
| Scan.EntriesKeys | pkg/rhh/rhh.go:110-116 | the entries reinserted from the first `i` old slots have exactly the keys of those slots that are occupied |
| Scan.EntriesValues | pkg/rhh/rhh.go:110-116 | each reinserted key gets the value of the one old slot holding it |
| Scan.EntriesSize | pkg/rhh/rhh.go:110-116 | there are as many reinserted entries as occupied old slots |
| Scan.EntriesNext | pkg/rhh/rhh.go:111-115 | the next old slot's key is not yet in the new table, and the new table holds at most `i` entries, so a free slot remains |
| Scan.EntriesComplete | pkg/rhh/rhh.go:110-116 | reinserting every old slot gives back exactly the old map |
| Scan.LiveKeys | pkg/rhh/rhh.go:171-177 | the keys of the slots with a non-nil value, in slot order, at most one per slot. `Scan.LiveKeysOf` proves they are the map's keys with a non-nil value, each once |
| Scan.LiveKeysMembers | pkg/rhh/rhh.go:171-177 | the collected keys are those of slots with a non-nil value |
| Scan.LiveKeysDistinct | pkg/rhh/rhh.go:171-177 | no key is collected twice |
| Scan.NoDuplicatesAppend | pkg/rhh/rhh.go:176 | appending a key that is not yet there keeps the collected keys distinct |
| Scan.LiveKeysOf | pkg/rhh/rhh.go:171-177 | the collected keys are exactly the keys the map sends to a non-nil value, each once |
| Scan.SumDisp | pkg/rhh/rhh.go:158-164 | the running sum of the distances of the occupied slots among the first `i` (`Scan.TotalDisp` over all slots), never negative. `Scan.SumDispBound` bounds it |
| Scan.SumDispBound | pkg/rhh/rhh.go:158-164 | the sum of distances over the occupied slots is at least 0 and at most `(capacity - 1)` times their number |
| ByteOrder.Compare | pkg/rhh/rhh.go:231 | `bytes.Compare` is -1, 0 or 1, and 0 exactly for equal keys |
| ByteOrder.Less | pkg/rhh/rhh.go:231 | `byteSlices.Less` holds exactly when `bytes.Compare` is -1, which is exactly when the swapped comparison is 1, and never for equal keys |
| ByteOrder.CompareFlips | pkg/rhh/rhh.go:231 | swapping the operands negates the comparison |
| ByteOrder.CompareTransitive | pkg/rhh/rhh.go:231 | the order is transitive |
| ByteOrder.LessIsStrictTotalOrder | pkg/rhh/rhh.go:231 | `Less` is irreflexive, total on distinct keys and transitive: a strict total order for the sort |
| ByteOrder.OrderedCons | pkg/rhh/rhh.go:178 | a key no greater than any key of a sorted sequence can be put in front of it |
| ByteOrder.OrderedUniqueIsStrict | pkg/rhh/rhh.go:178 | a sorted sequence without duplicates is strictly increasing |
| ByteOrder.InsertSorted | pkg/rhh/rhh.go:178 | inserting into a sorted sequence keeps it sorted, adds exactly that key, and keeps the keys distinct if the key was new |
| ByteOrder.SortKeys | pkg/rhh/rhh.go:178 | the result is sorted, a permutation of the input, and distinct when the input was |
| Rhh.HashMap.constructor | pkg/rhh/rhh.go:23-30 | a new map is empty and valid, with capacity `pow2(opt.Capacity)` and the given load factor |
| Rhh.HashMap.Alloc | pkg/rhh/rhh.go:91-97 | fresh zeroed slot arrays of the current capacity, with `threshold` and `mask` recomputed and the map empty |
| Rhh.HashMap.Get | pkg/rhh/rhh.go:32-38 | the value stored under `key`, or nil when the key is absent |
| Rhh.HashMap.Put | pkg/rhh/rhh.go:40-52 | `key` now maps to `val` and every other key is unchanged; the count rises by one only for a new key; the capacity doubles exactly when the raised count passes the old threshold, so also on an overwrite; the slot arrays are fresh after a grow and the same arrays otherwise |
| Rhh.PutTwiceThenGet | pkg/rhh/rhh.go:32-52 | putting a key twice and getting it returns the second value, and the key is counted once: an overwrite keeps the count |
| Rhh.HashMap.ThresholdAtMostCapacity | pkg/rhh/rhh.go:95 | with a load factor of at most 100 the threshold never exceeds the capacity |
| Rhh.HashMap.Insert | pkg/rhh/rhh.go:54-89 | given a free slot, insert keeps the table well formed, maps `key` to `val` and changes no other key, and returns true exactly when `key` was present |
| Rhh.HashMap.ProbeSlots | pkg/rhh/rhh.go:55-88 | the loop leaves the slot arrays exactly as `ProbeFrom` computes from the old arrays and returns its overwrite flag |
| Rhh.HashMap.Grow | pkg/rhh/rhh.go:99-117 | capacity doubles and stays a power of two; `threshold` and `mask` are recomputed; the arrays are new; `n` and the contents are unchanged |
| Rhh.HashMap.Reinsert | pkg/rhh/rhh.go:109-116 | the loop of grow leaves a well-formed table holding exactly the entries of the old occupied slots |
| Rhh.HashMap.Index | pkg/rhh/rhh.go:119-137 | returns -1 exactly when `key` is absent; otherwise returns the slot holding `key` and its stored value |
| Rhh.HashMap.Elem | pkg/rhh/rhh.go:139-147 | (nil, nil) past the end and in an empty slot; otherwise a stored key with its value |
| Rhh.HashMap.Len | pkg/rhh/rhh.go:149-150 | `n` is the number of stored keys |
| Rhh.HashMap.Cap | pkg/rhh/rhh.go:152-153 | the capacity, a power of two of at least 2 that equals the slot count |
| Rhh.HashMap.AverageProbeCount | pkg/rhh/rhh.go:155-166 | `1 + (sum of distances over occupied slots) / n`, which lies between 1 and `capacity`; no value when `n == 0` |
| Rhh.HashMap.MeanBound | pkg/rhh/rhh.go:165 | a mean of distances below `capacity`, plus one, lies in `[1, capacity]` |
| Rhh.HashMap.Keys | pkg/rhh/rhh.go:168-180 | the keys with a non-nil value, each once, in strictly increasing byte order |

The invariant `Rhh.HashMap.Valid`, which is `Table()` plus `n == |contents|`, holds before and after every public operation. During `Put`, `Table()` alone holds, because `n` is already raised before the key is inserted.

Notes on the code:
- The code never checks `loadFactor`; the model requires `0 <= loadFactor <= 100` of its callers.
- With `loadFactor == 100` the table can fill completely. The next `Put` then raises `n` past `threshold == capacity` and grows before inserting, so `Insert` always has a free slot. `Put`'s proof covers every load factor in `[0, 100]`.
- The comment on `pow2` says it returns `v` when `v` is a power of two. For `v = 1` it returns 2, because the loop starts at 2.
- `Keys` skips slots whose value is nil, so a key stored with a nil value is not listed.

## Left out

- `xxhash.Sum64` is not part of this model. It is the parameter `sum64`, a fixed function of the key bytes; only `HashKey`'s remapping of 0 to 1 is modelled.
- 64-bit integers are unbounded here. `capacity *= 2` in grow cannot overflow, because Go would reach 2^63 only long after memory runs out. The uint64 casts in `Dist` and at pkg/rhh/rhh.go:86 are exact for slot indices and are modelled as plain arithmetic.
- Rhh.Pow2: the panic for `v > 2^61` is a precondition rather than a modelled crash.
- Rhh.HashMap.constructor: requires `0 <= loadFactor <= 100`. With a larger factor the Go map can fill every slot, and the next insert of a new key loops forever. With a negative factor, Go's truncating division would differ from Dafny's.
- Rhh.HashMap.Elem: requires `i >= 0`; Go panics on a negative index.
- Rhh.HashMap.AverageProbeCount: the float64 division is exact `real` division, with no rounding. The NaN that `0/0` gives for an empty map is `None`.
- Rhh.HashMap.Keys: `sort.Sort` is an insertion sort (`ByteOrder.SortKeys`) with the same result: the unique sorted permutation of the collected keys.
- Slice aliasing is not modelled. Go stores the caller's key slice without copying it, and `Keys` returns those same slices; keys here are immutable `seq<byte>` values.
- The cached `hash` field of a slot's element is copied into the model: it goes stale on a swap, as in the source. Nothing reads it, and the model treats `hashes` as authoritative.
- Probe.ProbeFrom: runs on a `fuel` bound that stops it after `capacity` slots. `Probe.InsertSettles` proves that bound is never reached from a well-formed table with a free slot.
- Concurrency is not modelled; the map is single-threaded.
