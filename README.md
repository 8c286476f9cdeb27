# Segmented concurrent hash map and bit test, modelled in Dafny

This project models two parts of a Go search-engine repository.

**The segmented hash map** (`utils/concurrent_hash_map.go`). A `ConcurrentHashMap` holds a fixed
array of `segmentCount` string-keyed maps. Each key is routed to one segment by
`FarmHash32(key, seed 0) % segmentCount`. `Set`, `Get` and `Delete` touch that one segment only.
`CreateIterator` copies each segment's key list into one row per segment. The iterator's `Next`
walks those rows with a `(rowIndex, colIndex)` cursor. It skips empty rows by recursion, re-reads
each value from the live map, and returns nil once it is exhausted.

In the model the segments are an `array<map<string, Any<T>>>`, where `Any<T>` is Go's `any`
(nil or a boxed value). The class invariant `Valid()` says that every key sits in the segment
routing picks for it. `Contents()` is the union of the segments. It is the single finite map the
whole structure stands for, and every operation is specified against it:

- `Set` is a map update.
- `Delete` is a key removal.
- `Get` is a lookup that yields nil when the key is absent.

The iterator is a class with the two cursor fields. Its ghost field `Remaining` is the rest of the
row-major walk, and its invariant ties that field to the cursor. Each `Next` produces the head of
`Remaining` with its live value and leaves the tail. Right after `CreateIterator`, `Remaining`
lists every key of the map exactly once.

**The bit test** (`playground/bits.go`). `IsBitOne(number, bitPosition)` tests bit
`bitPosition - 1` of a `uint64` with the mask `1 << (bitPosition - 1)`. It panics with
"index out of range" for a position outside 1..64. In the model a `uint64` is a natural number
below 2^64 and `&` is `BitAnd`, defined bit by bit. A panic is the `Panic` alternative of a
`Result`.

Files: `segments.dfy` holds the value-level lemmas (routing, union of segments, flattening of key
rows). `concurrent_hash_map.dfy` holds the two classes. `concurrent_hash_map_scenarios.dfy` holds
clients that mirror the repository's tests. `bits.dfy` holds the bit test.

## Model

| member | source | states |
|---|---|---|
| `Segments.SegmentIndex` | utils/concurrent_hash_map.go:34-37 | the routed segment index is below `segmentCount`, and is the hash itself when the hash is already below it; as a function of key, the fixed seed and the count it is deterministic |
| `ConcurrentMap.ConcurrentHashMap.IndexOf` | utils/concurrent_hash_map.go:34-37 | getSegmentIndex of a map: an index in `[0, segmentCount)` |
| `Segments.RoutedIsOnlyIn` | utils/concurrent_hash_map.go:33-37 | when every key sits in its routed segment, a key occurs in no segment other than its routed one |
| `Segments.RoutedIsDisjoint` | utils/concurrent_hash_map.go:33-37 | when every key sits in its routed segment, no key occurs in two segments |
| `Segments.UnionOfEmpty` | utils/concurrent_hash_map.go:19-31 | segments that are all empty stand for the empty map |
| `Segments.UnionOfLookup` | utils/concurrent_hash_map.go:50-56 | a key held only by segment i is in the union iff it is in segment i, with that segment's value |
| `Segments.UnionOfUpdate` | utils/concurrent_hash_map.go:41-46 | writing a key into its own segment is writing it into the union |
| `Segments.UnionOfRemove` | utils/concurrent_hash_map.go:59-64 | deleting a key from its own segment is deleting it from the union |
| `Segments.SnapshotExactlyOnce` | utils/concurrent_hash_map.go:67-79 | flattening per-segment key rows of disjoint segments gives a duplicate-free walk whose elements are exactly the union's keys and whose length is the union's size |
| `Segments.FlattenFrom` | utils/concurrent_hash_map.go:106-110 | the walk from row r on is row r followed by the walk from row r+1 on (the step that skipping a row takes) |
| `ConcurrentMap.KeysOf` | utils/concurrent_hash_map.go:70 | `maps.Keys`: a row listing every key of the segment exactly once, in an order left open |
| `ConcurrentMap.ConcurrentHashMap.constructor` | utils/concurrent_hash_map.go:19-31 | exactly `segmentCount` segments, all empty, so the map is empty; routing invariant holds |
| `ConcurrentMap.ConcurrentHashMap.Set` | utils/concurrent_hash_map.go:41-46 | the map becomes `old[key := value]`; only the routed segment changes, only at `key`; the routing invariant is kept |
| `ConcurrentMap.ConcurrentHashMap.Get` | utils/concurrent_hash_map.go:50-56 | `found` iff the key is in the map; the value is the mapped one when found and nil otherwise |
| `ConcurrentMap.ConcurrentHashMap.Delete` | utils/concurrent_hash_map.go:59-64 | the map becomes `old - {key}`, unchanged when the key was absent; only the routed segment changes |
| `ConcurrentMap.ConcurrentHashMap.CreateIterator` | utils/concurrent_hash_map.go:67-79 | one row per segment, row i listing exactly segment i's keys once each; the cursor is at the start and the walk visits every key of the map exactly once |
| `ConcurrentMap.ConcurrentHashMapIterator.constructor` | utils/concurrent_hash_map.go:73-78 | the cursor starts at (0, 0), so the remaining walk is the whole row-major flattening |
| `ConcurrentMap.ConcurrentHashMapIterator.Next` | utils/concurrent_hash_map.go:102-120 | yields the next key of the row-major walk with its current `Get` value (nil for a key deleted since the snapshot) and advances past it; empty rows emit nothing; once the walk is empty it yields None and stays there; the cursor stays inside its row and sits at column 0 past the last row; terminates by `len(keys) - rowIndex` |
| `ConcurrentMapScenarios.Drain` | utils/concurrent_hash_map_test.go:144-149 | calling Next until it yields nil produces the remaining keys in order, each with its live value, and leaves the iterator exhausted |
| `ConcurrentMapScenarios.SetThenGet` | utils/concurrent_hash_map.go:41-56 | in a map of 8 segments, after `Set("key1", "value1")`, `Get("key1")` is `("value1", true)` and `Get("key2")` is `(nil, false)` |
| `ConcurrentMapScenarios.SetThenDeleteDigits` | utils/concurrent_hash_map_test.go:120-137 | after setting and then deleting the keys "0".."9", no `Get` of them reports found |
| `ConcurrentMapScenarios.IterateEmpty` | utils/concurrent_hash_map.go:102-110 | over an empty map the first `Next` already yields nil |
| `ConcurrentMapScenarios.DeletedAfterSnapshot` | utils/concurrent_hash_map.go:111-119 | a key deleted after the snapshot is still produced, paired with nil, and the next call yields nil |
| `ConcurrentMapScenarios.NewDigitsMap` | utils/concurrent_hash_map_test.go:141-143 | setting "0".."9" to 0..9 gives a map holding those ten keys, each with its own digit value |
| `ConcurrentMapScenarios.DigitsWalk` | utils/concurrent_hash_map_test.go:140-150 | a duplicate-free walk over the digits map yields each digit entry once and no other entry |
| `ConcurrentMapScenarios.IterateDigits` | utils/concurrent_hash_map_test.go:140-150 | iterating a map holding "0".."9" yields every key exactly once, each with the value it was set to |
| `Bits.IsBitOne` | playground/bits.go:4-9 | panics with "index out of range" iff the position is below 1 or above 64; otherwise true iff `(number / 2^(p-1)) % 2 == 1` |
| `Bits.BitOfBitAnd` | playground/bits.go:8 | `&` as defined here is bitwise AND: a bit of the result is set exactly when that bit is set in both operands |
| `Bits.MaskSelectsBit` | playground/bits.go:8 | `n & (1 << k)` is `2^k` when bit k of n is set and 0 otherwise |
| `Bits.BitIsQuotientParity` | playground/bits.go:8 | bit k of n is `(n / 2^k) % 2` |
| `Bits.BitOfFlipBit` | playground/bits.go:8 | inverting bit j of n changes bit j and no other bit |
| `Bits.IsBitOneIgnoresOtherBits` | playground/bits.go:8 | inverting any bit other than p-1 leaves `IsBitOne(n, p)` unchanged |
| `Bits.IsBitOneDependsOnlyOnItsBit` | playground/bits.go:8 | two numbers that agree on bit p-1 get the same answer from `IsBitOne(_, p)`, whatever their other bits |
| `Bits.IsBitOneSeesItsBit` | playground/bits.go:8 | inverting bit p-1 negates `IsBitOne(n, p)` |
| `Bits.IsBitOneOfZero` | playground/bits.go:8 | no bit of 0 is one, for every valid position |
| `Bits.IsBitOneOfFive` | playground/bits_test.go:12-15 | `IsBitOne(5, 1)` and `IsBitOne(5, 3)` are true, `IsBitOne(5, 2)` is false, positions 0 and 65 panic |

## Left out

- Locks and concurrency: the per-segment `sync.RWMutex` and the goroutine benchmarks are not modelled. Every operation is one sequential step, so no interleaving or race is captured.
- `CreateIterator` takes no lock in the source (utils/concurrent_hash_map.go:69-71). The model follows the code and treats the snapshot as one sequential step.
- FarmHash (`farmhash.Hash32WithSeed`) is a foreign call. The model takes it as a constructor parameter `hash: (string, nat) -> Uint32`, any deterministic function with values below 2^32. On a 64-bit platform the `int(...)` conversion of a `uint32` is non-negative, so `%` needs no signed-modulus modelling. On a 32-bit platform a digest of 2^31 or more would become a negative `int`; that sign behaviour is not modelled.
- The order of `maps.Keys` is not fixed by the source. `KeysOf` promises only a duplicate-free row of exactly the segment's keys.
- `capacity` only presizes the Go maps. It is accepted as a `nat` and has no effect.
- A non-positive `segmentCount` is not validated in the source; Go would panic or divide by zero. `segmentCount > 0` is a precondition of the constructor.
- The `MapIterator` interface adds no behaviour and is not modelled.
- `UpdateBitToOne`, `CountBitOne` and `CountBitOnePlus` are exercised by playground/bits_test.go but are not defined in playground/bits.go, so they are not part of this model.
- `IsBitOne`'s `bitPosition` is a Go `uint`; it is a `nat` here. Its 64-bit width plays no role, since every position above 64 panics.
- The shift `1 << (bitPosition - 1)` is written as `2^(bitPosition - 1)`. It cannot lose bits for positions 1..64, because the largest mask is 2^63.
- Test scenarios use a fresh map of 8 segments. The Go tests share one package-level map, which the benchmarks may also fill; that sharing is not modelled.
