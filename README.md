# Linear-probe hash table, modelled and proved in Dafny

This project models the `hashtable` package of a small Go repository. It covers three parts:

- `LinearProbe`: an open-addressing hash table with linear probing and tombstones. `Delete` sets a record's `expunge` flag rather than clearing its slot. The table doubles and re-inserts every stored record once it is more than half full.
- `LinearHash`: the beginnings of a linear-hashing table. Only its two-tier address function and the split-pointer step do any work.
- The helpers `min`, `max` and `kv`.

Layout:

- `wrappers.dfy` (`Wrappers`): the `Option` type. It stands for Go's `(value, ok)` pairs and nil pointers.
- `probe_spec.dfy` (`ProbeSpec`): the linear-probe table as values.
  - A state is `Probe(slots, count)`.
  - Each operation is a function from the old state to the new one: `Inserted` for `Put`, `Resized` for `resize`, `Find` for `getRecord`, `Lookup` for `Get`, `Deleted` for `Delete`.
  - It also defines the probing invariant `Reachable`: every record can be reached from its home slot by probing forward over non-nil slots only.
- `probe_properties.dfy` (`ProbeProperties`): what those functions guarantee. This covers:
  - the load-factor rule;
  - the three ways `Put` can go;
  - that `Put` and `resize` keep every record reachable;
  - put-then-get;
  - `Delete`'s effect, including deleting the same key twice;
  - how a table that never saw a `Delete` behaves as a map.
- `linear_probe.dfy` (`LinearProbeTable`): the Go type as a Dafny class.
  - It has an array of slots, a record counter and a fixed hasher, and its methods write the array in place.
  - Each method is proved to compute the `ProbeSpec` function for its operation and to keep `Reachable`.
  - `Put` and `resize` are mutually recursive, as in Go. The proof shows that after a `resize` the recursive `Put` always stores in place.
- `linear_hash.dfy` (`LinearHashTable`): the `LinearHash` type. It includes Go's truncating `%` and its `uint64(int)` conversion.
- `misc.dfy` (`Misc`): `min`, `max`, and `kv` together with a model of `fmt.Sprintf("%d")`.
- `scenarios.dfy` (`ProbeScenarios`): the package's test scenarios stated as lemmas over the functional model. Keys `kv(0)…kv(n-1)` are put and then got. Then keys drawn outside that range are deleted, then keys drawn from it with repeats allowed, and every key is got again.
  - It also has a worked four-slot example with a hasher that always returns 0. In it, a key that was deleted and then put again is hidden by its own tombstone.

The code as written has several consequences that the model keeps and proves:

- `Put` does not look for an existing key. In a table without tombstones, putting a stored key again keeps both records (`PutKeepsDuplicates`). In any table, every live record survives a `Put` (`LiveSurvivesPut`); only a tombstone at the key's home slot can be overwritten.
- `getRecord` returns tombstoned records as well. So a second `Delete` of the same key finds it again, returns its value and decrements the counter again.
- `getRecord` stops at the first record with a matching key, even a tombstoned one. A re-put key that lands behind its own tombstone is therefore not found by `Get` (`PutAfterDeleteShadowed`).
- `resize` re-inserts tombstoned records as live ones, because it copies every non-nil slot (`Resized`: the same pairs, no tombstones).
- So the counter can drift from the number of stored records, and then `resize` resets it to that number. Take a hasher that always returns 0 and four slots. Put `a` and `b`, then delete `a` twice: the counter is 0. Put `c`: it overwrites `a`'s tombstone at the home slot, and the counter is 1 with no tombstones left. Put `d` and `e`: four live records, counter 3. Putting a fresh key `f` now resizes and leaves the counter at 5, not 4. That is why `PutGrowsSize` assumes that the counter equals the number of records.

## Model

| member | source | states |
|---|---|---|
| Misc.Min | hashtable/misc.go:5-10 | the result is at most both arguments and equals one of them: `b` when `a > b`, else `a` |
| Misc.Max | hashtable/misc.go:12-17 | the result is at least both arguments and equals one of them: `a` when `a > b`, else `b` |
| Misc.MinPlusMax | hashtable/misc.go:5-17 | `min(a, b) + max(a, b) == a + b` |
| Misc.Decimal | hashtable/misc.go:20 | the `%d` rendering of an int is non-empty and starts with '-' exactly when the number is negative |
| Misc.DecimalRoundTrip | hashtable/misc.go:20 | reading the `%d` rendering back gives the same int, so the rendering is injective |
| Misc.Kv | hashtable/misc.go:19-21 | the value string is `"value "` followed by the key string; the key is the decimal rendering of `i` |
| Misc.KvInjective | hashtable/misc.go:19-21 | different `i` give different keys and different values |
| ProbeSpec.Home | hashtable/linear_probe.go:145-147 | a key's home slot is an index into the table |
| ProbeSpec.ProbeIndex | hashtable/linear_probe.go:70-71 | the probe step `(index + i) % len` is an index into the table |
| ProbeSpec.ShouldResize | hashtable/linear_probe.go:130-132 | `shoudlResize` with load factor 0.5 holds exactly when twice the count exceeds the length |
| ProbeSpec.GrownLength | hashtable/linear_probe.go:136 | `resize` allocates twice the old length |
| ProbeSpec.ProbeDistance | hashtable/linear_probe.go:70-71 | every slot is visited by the forward probe from any home slot, after exactly `Distance` steps |
| ProbeSpec.DistanceProbe | hashtable/linear_probe.go:104-105 | the probe step `(h + d) % n` for `d < n` is undone by `Distance`, so the probe visits each slot once |
| ProbeSpec.Decrement | hashtable/linear_probe.go:123 | `recordCount--` wraps around on uint64: the result is in range and adding one gives back the old count modulo 2^64 |
| ProbeSpec.Nils | hashtable/linear_probe.go:41 | `make([]*record, n)`: n nil slots holding no pairs |
| ProbeSpec.FirstNil | hashtable/linear_probe.go:70-77 | the first probe step from `i` on that reaches a nil slot; every earlier step reaches a non-nil slot; `n` when there is none |
| ProbeSpec.PlaceIndex | hashtable/linear_probe.go:57-77 | the slot `Put` writes is nil, or is the home slot holding a tombstone; every slot probed before it is non-nil; there is none exactly when every slot is non-nil and the home record is live |
| ProbeSpec.TryPlace | hashtable/linear_probe.go:57-77 | storing in place succeeds exactly when `PlaceIndex` finds a slot, and keeps the length |
| ProbeSpec.PutInPlace | hashtable/linear_probe.go:57-78 | the optimistic branch of `Put`, when it succeeds, keeps the length and increments the counter, and it succeeds only if twice the old counter is at most the length |
| ProbeSpec.PlaceFits | hashtable/linear_probe.go:57-77 | in a table at most half full with no tombstones and an exact counter, storing in place succeeds, adds exactly the new pair and keeps the counter exact |
| ProbeSpec.TryPlaceEntries | hashtable/linear_probe.go:57-77 | storing into a table with no tombstones adds exactly one pair and no tombstone |
| ProbeSpec.Reinsert | hashtable/linear_probe.go:137-142 | `resize`'s loop keeps the new table's length, leaves no tombstones, adds the pairs of every non-nil old slot, and counts them |
| ProbeSpec.Resized | hashtable/linear_probe.go:134-143 | `resize` doubles the length, holds exactly the old pairs (tombstoned ones included, now live), and sets the counter to their number |
| ProbeSpec.Inserted | hashtable/linear_probe.go:55-81 | `Put` leaves the table's length as it was or doubles it |
| ProbeSpec.FindFrom | hashtable/linear_probe.go:104-113 | a slot the probe loop returns holds a record with the key |
| ProbeSpec.Find | hashtable/linear_probe.go:94-114 | a slot `getRecord` returns holds a record with the key |
| ProbeSpec.Lookup | hashtable/linear_probe.go:84-92 | `Get` finds nothing when `getRecord` finds nothing; a value it returns comes from a live record holding the key at the slot `getRecord` found |
| ProbeSpec.Deleted | hashtable/linear_probe.go:117-125 | `Delete` keeps the length; it reports found exactly when `getRecord` finds the key; when not found nothing changes; when found it returns that record's value, tombstones that slot, leaves every other slot as it was and decrements the counter with uint64 wrap-around |
| ProbeProperties.PutAfterResizeFits | hashtable/linear_probe.go:79-80 | after `resize` the recursive `Put` always stores in place, so `Put` recurses at most once |
| ProbeProperties.PutAtHome | hashtable/linear_probe.go:57-67 | when no resize is due and the home slot is nil or a tombstone, `Put` writes the live record there and increments the counter |
| ProbeProperties.PutAtProbe | hashtable/linear_probe.go:69-76 | when no resize is due, the home slot holds a live record and probe step `i` (with `1 <= i < len`) is the first nil slot after it, `Put` writes the live record at step `i` and increments the counter |
| ProbeProperties.PutViaResize | hashtable/linear_probe.go:57-80 | when a resize is due, or the probe finds no nil slot, `Put` equals `resize` followed by an in-place `Put` |
| ProbeProperties.TryPlaceReachable | hashtable/linear_probe.go:57-77 | storing in place keeps every record reachable from its home slot |
| ProbeProperties.ReinsertReachable | hashtable/linear_probe.go:137-142 | `resize`'s loop keeps every record of the new table reachable |
| ProbeProperties.ResizedReachable | hashtable/linear_probe.go:134-143 | every record of the resized table is reachable |
| ProbeProperties.PutReachable | hashtable/linear_probe.go:55-81 | `Put` keeps every record reachable from its home slot |
| ProbeProperties.ResizingStep | hashtable/linear_probe.go:137-142 | one iteration of `resize`'s loop skips a nil slot, or puts the record in place, and keeps the loop's target |
| ProbeProperties.FindSameShape | hashtable/linear_probe.go:94-114 | `getRecord` does not look at tombstone flags: tables with the same keys in the same slots give the same answer |
| ProbeProperties.DeleteReachable | hashtable/linear_probe.go:117-125 | `Delete` never clears a slot or changes a key, so every record stays reachable |
| ProbeProperties.FoundIsPresent | hashtable/linear_probe.go:94-114 | `getRecord` finds only keys that are stored |
| ProbeProperties.FindReaches | hashtable/linear_probe.go:104-113 | the probe loop returns the first slot holding the key when all slots before it hold other keys |
| ProbeProperties.FindFromStops | hashtable/linear_probe.go:104-113 | the probe loop stops with a slot when it passes only non-nil slots before meeting one that holds the key |
| ProbeProperties.ReachableFinds | hashtable/linear_probe.go:94-114 | in a reachable table, `getRecord` finds a record for the key of every non-nil slot |
| ProbeProperties.TryPlaceFound | hashtable/linear_probe.go:57-92 | after storing an absent key in place, `Get` returns its value |
| ProbeProperties.PutThenGet | hashtable/linear_probe_test.go:21-48 | for a fixed hasher, after `Put` of an absent key, `Get` returns its value, whether or not the table resized |
| ProbeProperties.PutAddsOneEntry | hashtable/linear_probe.go:55-81 | in a table with no tombstones, `Put` adds exactly the new pair and leaves no tombstone |
| ProbeProperties.PutGrowsSize | hashtable/linear_probe.go:61 | without tombstones and with an exact counter, `Put` increases `Size` by one and keeps it exact |
| ProbeProperties.PutKeepsDuplicates | hashtable/linear_probe.go:57-77 | in a table without tombstones, `Put` of a stored key keeps the old record beside the new one (a tombstoned home record of the key would be overwritten instead) |
| ProbeProperties.LiveSurvivesPut | hashtable/linear_probe.go:57-77 | in any table, a live record's pair is still stored after any `Put`, in place or through a resize |
| ProbeProperties.DeleteAbsent | hashtable/linear_probe.go:117-121 | `Delete` of a key not stored returns not found and changes nothing |
| ProbeProperties.DeleteLive | hashtable/linear_probe.go:117-125 | `Delete` of a key `Get` finds returns its value, tombstones that slot only, decrements the counter, hides the key from `Get` and leaves `Get` of every other key as it was |
| ProbeProperties.DeleteTwice | hashtable/linear_probe.go:99-124 | a second `Delete` of the same key returns the value again and decrements the counter again, and changes no slot |
| ProbeProperties.SameKeySameSlot | hashtable/linear_probe.go:94-114 | when all keys are distinct, two slots holding the same key are the same slot |
| ProbeProperties.CleanLookup | hashtable/linear_probe.go:84-114 | in a reachable table with no tombstones and distinct keys, `Get(k)` returns `v` exactly when the pair `(k, v)` is stored |
| ProbeProperties.AddToCleanTable | hashtable/linear_probe.go:84-114 | adding one pair with a new key to such a table keeps it such a table and leaves `Get` of every other key unchanged |
| ProbeProperties.PutKeepsMap | hashtable/linear_probe.go:55-92 | on such a table, `Put` of a new key behaves as a map insertion: the key maps to its value, other keys are unchanged, and the table stays such a table |
| ProbeProperties.CleanFinds | hashtable/linear_probe.go:94-114 | in a clean table `getRecord` finds every stored key at its own slot |
| ProbeProperties.DeleteStep | hashtable/linear_probe.go:117-125 | one `Delete` on a clean table some of whose keys were already deleted returns what `Get` returned before any delete, and tombstones that key's record and nothing else |
| ProbeProperties.TombstonedLookup | hashtable/linear_probe.go:84-92 | after deletes from a clean table, `Get` misses the deleted keys and returns the old result for every other key |
| ProbeProperties.DeleteAll | hashtable/linear_probe.go:117-125 | a run of `Delete` calls keeps the table's length and gives one result per key |
| ProbeProperties.DeleteAllFrom | hashtable/linear_probe.go:117-125 | a run of `Delete` calls, repeats allowed, tombstones exactly the records of the keys deleted, and each call returns what `Get` returned before the first delete |
| ProbeProperties.DeleteAllThenGet | hashtable/linear_probe_test.go:66-91 | after deleting any keys, repeats allowed, from a clean table, each `Delete` returned the key's value from before the first delete, and `Get` misses exactly the deleted keys and returns the old result for all others |
| ProbeProperties.InsertAllThenGet | hashtable/linear_probe_test.go:21-48 | putting distinct new keys one after another into such a table makes `Get` return each one's value and leaves every other key unchanged |
| LinearProbeTable.NewSlots | hashtable/linear_probe.go:41 | a fresh array of nil slots of the given length |
| LinearProbeTable.LinearProbe.constructor | hashtable/linear_probe.go:39-53 | the table has `size` nil slots, a zero counter and the given hasher, and is valid when `size > 0` |
| LinearProbeTable.LinearProbe.HashFunc | hashtable/linear_probe.go:145-147 | the home slot is an index into the table |
| LinearProbeTable.LinearProbe.ShouldResize | hashtable/linear_probe.go:130-132 | `shoudlResize` holds exactly when twice the counter exceeds the array's length |
| LinearProbeTable.LinearProbe.Size | hashtable/linear_probe.go:127 | `Size` is the record counter |
| LinearProbeTable.LinearProbe.GetRecord | hashtable/linear_probe.go:94-114 | the loop returns exactly what `Find` specifies |
| LinearProbeTable.LinearProbe.Get | hashtable/linear_probe.go:84-92 | returns exactly `Lookup`: the value of a live record `getRecord` finds, otherwise not found |
| LinearProbeTable.LinearProbe.Delete | hashtable/linear_probe.go:117-125 | the new array, counter and result are exactly `Deleted`'s, and the table stays valid |
| LinearProbeTable.LinearProbe.Put | hashtable/linear_probe.go:55-81 | the new array and counter are exactly `Inserted`'s; the array is replaced only by a resize; the table stays valid |
| LinearProbeTable.LinearProbe.Resize | hashtable/linear_probe.go:134-143 | a fresh array holding exactly `Resized`'s slots and counter; the table stays valid |
| LinearHashTable.GoRem | hashtable/linear_hash.go:79 | Go's `%` truncates: for a non-negative dividend the remainder lies in `[0, |b|)`, for a negative dividend it is at most zero |
| LinearHashTable.AsUint64 | hashtable/linear_hash.go:72 | `uint64(x)` leaves values in `[0, 2^64)` unchanged |
| LinearHashTable.Address | hashtable/linear_hash.go:70-76 | hashes below the split pointer get an index below the length; every index is below twice the length; both tiers agree modulo the length |
| LinearHashTable.TiersAgree | hashtable/linear_hash.go:73-75 | a hash taken modulo twice the length, then modulo the length, equals the hash modulo the length |
| LinearHashTable.NextSplit | hashtable/linear_hash.go:79 | `split`'s new pointer: from a non-negative pointer it lies in `[0, abs(bucketCounter))` and moves on by one below the last bucket; from a pointer below -1, Go's `%` leaves it at most zero |
| LinearHashTable.SplitStaysInRange | hashtable/linear_hash.go:78-80 | with a split pointer in `[0, bucketCounter)`, `split` moves it to the next bucket and wraps from the last to 0 |
| LinearHashTable.LinearHash.constructor | hashtable/linear_hash.go:40-50 | `size` is ignored: the table is empty, all counters are zero, and the hasher is the given one |
| LinearHashTable.LinearHash.HashFunc | hashtable/linear_hash.go:70-76 | `hashFunc` on a non-empty table: below the length for hashes under the split pointer, below twice the length otherwise |
| LinearHashTable.LinearHash.Put | hashtable/linear_hash.go:52-56 | computes `hashFunc(key)` and changes nothing |
| LinearHashTable.LinearHash.Get | hashtable/linear_hash.go:59-61 | always not found |
| LinearHashTable.LinearHash.Delete | hashtable/linear_hash.go:64-66 | always `(false, nil)` |
| LinearHashTable.LinearHash.Size | hashtable/linear_hash.go:68 | `Size` is the record counter |
| LinearHashTable.LinearHash.Split | hashtable/linear_hash.go:78-80 | the split pointer becomes `(splitPointer + 1) % bucketCounter` with Go's `%`, stays in range when it was in range, and no other field changes |
| ProbeScenarios.KvPairs | hashtable/linear_probe_test.go:24-25 | the `i`th pair is `kv(i)` |
| ProbeScenarios.KvKeysDistinct | hashtable/linear_probe_test.go:24-25 | the keys `kv(0).key … kv(n-1).key` are pairwise distinct |
| ProbeScenarios.KvPutThenGet | hashtable/linear_probe_test.go:21-48 | after putting `kv(0)…kv(n-1)` into an empty table of any positive size, for any fixed hasher including the constant one, `Get` returns each value, and keys outside the range are not found |
| ProbeScenarios.KvDeleteAbsent | hashtable/linear_probe_test.go:59-64 | deleting a key outside the range returns not found and changes nothing |
| ProbeScenarios.KvDeletePresent | hashtable/linear_probe_test.go:70-72 | deleting a stored key returns its value; afterwards `Get` misses that key and still finds all the others |
| ProbeScenarios.KvKeys | hashtable/linear_probe_test.go:61-70 | the `j`th key is the key of `kv(ns[j])` |
| ProbeScenarios.KvKeysMember | hashtable/linear_probe_test.go:75-82 | a `kv` key is among the drawn keys exactly when its number was drawn |
| ProbeScenarios.KvDeleteRuns | hashtable/linear_probe_test.go:59-73 | the test's two runs of deletes return what `Get` gave before them and tombstone exactly the drawn keys' records |
| ProbeScenarios.KvInsertDeleteGet | hashtable/linear_probe_test.go:50-93 | for a fixed hasher, after putting `kv(0)…kv(n-1)`: deleting keys drawn outside the range reports each absent; deleting keys drawn from `[0, n)`, repeats allowed, returns each one's value every time; afterwards `Get` misses exactly the drawn keys and finds every other key with its value |
| ProbeScenarios.PutAfterDeleteShadowed | hashtable/linear_probe.go:63-77 | with a constant hasher, put "a", put "b", delete "b", put "b" again: the new record goes past the tombstone, and `Get("b")` then misses it because `getRecord` stops at the tombstone |

## Left out

- The default hasher is left out. It is xxhash seeded with `time.Now().UnixNano()`, and the seed is read inside the closure, so every call re-seeds. It is therefore not a function of the key: a `Put` and a later `Get` of the same key usually start from different home slots. A table here takes a fixed `hasher: string -> nat`, and every proof holds for every such fixed hasher.
- The tests at hashtable/linear_probe_test.go:21-31 and 50-93 build their tables with that default hasher. The model covers them only with a fixed hasher in its place. The test at 33-48 uses a constant hasher, and it is an instance of the lemmas as the code is written.
- The hasher's results are natural numbers, not limited to uint64. The proofs hold for all of them, so the uint64 range is covered.
- `LBWithLoadFactor` and the float32 `loadFactor` are left out: the factor is the default 0.5, written as the fraction 1/2. `uint64(float32(n) * 0.5)` and `int(float32(n) * 2)` are computed exactly as `n / 2` and `2 * n`. That equals the float32 result for every length below 2^24, and for any length float32 represents exactly.
- The functional-option closures `LBWithHasher` and `LHWithHasher` become constructor parameters.
- The `fmt.Println` output of both `Put` methods is left out. `LinearHash.Put` returns the index it would print instead.
- Records are held through pointers in Go. Here a slot holds a record value, and `Delete` writes a tombstoned copy into the one slot `getRecord` found. No other reference to a record escapes the package, so nothing observable is lost.
- LinearProbeTable.LinearProbe.Put: the `recordCount++` on a uint64 is not wrapped at 2^64, because `Put` increments only when `shoudlResize` is false, that is when twice the counter is at most the length (`PutInPlace`). Reaching 2^64 that way needs a table of about 2^65 slots. `recordCount--` is wrapped (`Decrement`), and a double delete can wrap it with no records at all.
- LinearProbeTable.LinearProbe.constructor: `size` is a `nat`, so the panic of `make` on a negative size is not modelled. A table is only `Valid` with a positive size. In Go, `NewLinearProbe(0)` builds a table whose first `Put` divides by zero in `hashFunc` and panics, and the model does not follow that path.
- LinearHashTable.LinearHash.HashFunc requires a non-empty table. In Go the table of a new `LinearHash` is always empty, so `hashFunc` (and so `Put`) panics with a division by zero. That panic is not modelled.
- LinearHashTable.LinearHash.Split requires a non-zero bucket counter because Go panics there. The overflow of `splitPointer + 1` at the largest int is not modelled, because `int` here is unbounded.
- The unused `lhRecord` type is not part of this model. `LinearHash` has no `Stats` method, although hashtable/linear_hash_test.go calls one.
- The test and benchmark harnesses are not modelled as programs. Their scenarios appear as lemmas in `ProbeScenarios`, over a table of any size and any fixed hasher rather than the tests' sizes and random keys.
- Concurrency: the package has none.
