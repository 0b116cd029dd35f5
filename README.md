# LRU cache — a Dafny model

This project models the single-threaded least-recently-used cache of the
`lru-cache` repository. The cache is a C# class that keeps two structures:

- a `LinkedList` of key/value records, with the most recently used record at the head;
- a `Dictionary` from each key to the list node that holds it.

Its operations are:

- `Add(key, value)`: evicts the tail first when `Count == maxSize`, then inserts at the head.
- `TryGetValue(key, out value)`: a hit removes the entry and adds it again, so the key becomes most recent.
- `Remove(key)`.
- `ContainsKey(key)`.
- `Count`.
- The indexer. Its getter throws `KeyNotFoundException` on a miss. Its setter calls the private `UpdateValue`, which removes the key and adds it again with the new value.
- The private `RemoveOldest`.

The same class appears three times in the repository. The operations have identical logic; only the constructors differ (see below):

- `src/LruCache/LruCache.cs`
- `src/LRU.Cache/Cache.cs`
- `src/LRU.Cache/LruCache/LruCache.cs`

The model is written once. The table cites `src/LruCache/LruCache.cs`; the other two files correspond member for member, at the lines below (their offsets differ, and `Cache.cs` places `ContainsKey` after `UpdateValue`).

| operation | LruCache/LruCache.cs | LRU.Cache/Cache.cs | LRU.Cache/LruCache/LruCache.cs |
|---|---|---|---|
| Count | 11 | 13 | 12 |
| constructor | 17-22 | 19-24 | 18-23 |
| Add | 25-38 | 33-46 | 31-44 |
| TryGetValue | 41-53 | 54-66 | 52-64 |
| Remove | 56-61 | 73-78 | 71-76 |
| ContainsKey | 64-67 | 115-118 | 83-86 |
| indexer | 69-81 | 80-92 | 88-100 |
| RemoveOldest | 83-87 | 120-124 | 102-106 |
| UpdateValue | 89-98 | 99-108 | 108-117 |

The model has three modules.

- `LruSpec` (`lru_spec.dfy`) describes the cache's contents as a value: a sequence of `Entry(key, value)`, most recently used first.
  - Each operation is a function from the old contents to a `Step`, which carries a `Result` and the new contents.
  - Every exception the C# code can throw is an `Error` value:
    - `DuplicateKey`: `Dictionary.Add` on a key already present.
    - `EmptyList`: `_linkedList.Last.Value` on an empty list. This happens only when `maxSize == 0`.
    - `NullNode`: `LinkedList.Remove(null)` after removing a key that is absent.
    - `KeyNotFound`: the indexer and `UpdateValue`.
  - The module's lemmas state what the cache promises about these functions.
- `LruCacheModel` (`lru_cache.dfy`) is the class itself, with its mutable state:
  - the list, a sequence of `Node` objects;
  - the dictionary, a map from key to `Node`;
  - `maxSize`.

  Its object invariant `Valid()` says four things: the dictionary and the list hold the same keys; no key appears twice; each key maps to the node carrying it; and the size never exceeds a non-negative `maxSize`. Every method is proved against the matching `LruSpec` function applied to the old contents.
- `LruScenarios` (`lru_scenarios.dfy`) restates three of the unit tests in `test/LRU.Tests.Unit/CacheTests.cs` as lemmas over any capacity and any run of fresh keys:
  - the oldest entry is removed when the cache overflows (lines 33-46): `OldestGoneAfterFill`;
  - reading the oldest entry makes the second oldest the one removed (lines 48-72): `ReadingOldestEvictsSecondOldest`;
  - a value set through the indexer is updated and renewed (lines 74-93): `UpdatedEntrySurvivesFill`.

  The other four tests follow from the class's contracts:
  - an added entry is present (lines 20-31): `LruCache.Add` with `LruCache.ContainsKey` and `LruCache.TryGetValue`;
  - in a full cache, `TryGetValue` finds a newly added key with its value, and reports a key never added as missing with the default value (lines 95-108): `LruCache.Add` with `LruSpec.AddPutsFrontAndEvictsTail` and `LruCache.TryGetValue`;
  - a removed entry is gone (lines 110-125): `LruCache.Remove` with `LruSpec.RemoveDeletesOnlyKey`;
  - the indexer throws on a missing key (lines 127-135): `LruCache.Get`.

  The module also has a client of the class that shows a read deciding which entry is evicted.

The model keeps these behaviours of the code exactly as written:

- Add evicts before it checks for a duplicate. So a failed `Add` of a present key in a full cache has already dropped the oldest entry.
- Adding the key that is about to be evicted succeeds.
- A negative `maxSize` gives a cache that never evicts, because `Count` never equals it. This is what `src/LRU.Cache/Cache.cs` does: its constructor (line 23) builds the `Dictionary` without a capacity. The other two copies pass `maxSize` as the initial capacity, and .NET's `Dictionary` throws on a negative one.
- `maxSize == 0` makes every `Add` fail.

## Model

| member | source | states |
|---|---|---|
| LruCacheModel.LruCache.constructor | src/LRU.Cache/Cache.cs:19-24 | a new cache, for any maxSize, is empty, satisfies the invariant and keeps the given maxSize |
| LruCacheModel.LruCache.Count | src/LruCache/LruCache.cs:11 | the dictionary's count equals the number of entries in the list |
| LruCacheModel.LruCache.ContainsKey | src/LruCache/LruCache.cs:64-67 | the dictionary lookup answers true exactly when the list holds an entry with that key |
| LruCacheModel.LruCache.RemoveOldest | src/LruCache/LruCache.cs:83-87 | fails on an empty cache; otherwise the list loses exactly its tail node, the tail's key leaves the dictionary, and the invariant holds |
| LruCacheModel.LruCache.Add | src/LruCache/LruCache.cs:25-38 | the new state and result equal `LruSpec.Add` of the old contents; on success the returned value is the one added, and the dictionary maps the key to the new head node, which carries the key and the value |
| LruCacheModel.LruCache.Remove | src/LruCache/LruCache.cs:56-61 | on a present key, returns its value and unlinks only its node; on an absent key, gives an error and leaves the state unchanged |
| LruCacheModel.LruCache.TryGetValue | src/LruCache/LruCache.cs:41-53 | found exactly when the key is present; returns the stored value, or the default on a miss; the new contents are the old ones with that entry moved to the front, and nothing is evicted |
| LruCacheModel.LruCache.Get | src/LruCache/LruCache.cs:71-79 | returns the stored value, or KeyNotFound on a miss; renews the entry like TryGetValue |
| LruCacheModel.LruCache.UpdateValue | src/LruCache/LruCache.cs:89-98 | KeyNotFound on an absent key; otherwise the entry moves to the front with the new value, and all other entries keep their order |
| LruCacheModel.LruCache.Set | src/LruCache/LruCache.cs:80 | the setter has exactly UpdateValue's effect and result |
| LruCacheModel.IndexedFinds | src/LruCache/LruCache.cs:64-67 | under the invariant, a key is in the dictionary iff some list entry carries it |
| LruCacheModel.IndexedUnlink | src/LruCache/LruCache.cs:58-59 | removing a key from the dictionary and unlinking its node together keep the dictionary and list in step |
| LruCacheModel.IndexedPrepend | src/LruCache/LruCache.cs:34-35 | adding a fresh key with a new node to both the dictionary and the list head keeps them in step |
| LruSpec.HasKeyIff | src/LruCache/LruCache.cs:66 | a key is present iff some position of the list carries it |
| LruSpec.LookupAt | src/LruCache/LruCache.cs:60 | with distinct keys, looking up the key at position i yields the value stored at position i |
| LruSpec.WithoutSpec | src/LruCache/LruCache.cs:58-59 | removing a present key deletes exactly that key and leaves every other key's value unchanged |
| LruSpec.RemoveOldestDropsTail | src/LruCache/LruCache.cs:83-87 | fails exactly on empty contents; otherwise Count drops by one, the tail key is gone, and all other keys keep their values |
| LruSpec.AddSucceedsIff | src/LruCache/LruCache.cs:25-38 | Add succeeds iff maxSize is not 0 and either the key is absent, or the cache is full and the key is the oldest one |
| LruSpec.AddPutsFrontAndEvictsTail | src/LruCache/LruCache.cs:27-35 | a successful Add puts the key at the front with the value and keeps the previous contents, minus the tail when the cache was full |
| LruSpec.AddKeepsOthers | src/LruCache/LruCache.cs:25-38 | after a successful Add, every other key keeps its value, except the evicted oldest key, which is gone |
| LruSpec.AddKeepsInvariant | src/LruCache/LruCache.cs:25-38 | Add keeps keys distinct and never lets Count exceed a non-negative maxSize |
| LruSpec.FailedAddStillEvicts | src/LruCache/LruCache.cs:27-34 | an Add that throws on a duplicate key has still removed the oldest entry when the cache was full |
| LruSpec.AddWithZeroCapacityFails | src/LruCache/LruCache.cs:27-29 | with maxSize 0, every Add fails, because eviction on an empty list throws |
| LruSpec.RemoveDeletesOnlyKey | src/LruCache/LruCache.cs:56-61 | Remove returns the key's value, drops the key, and keeps every other key; an absent key is an error with no change |
| LruSpec.RemoveKeepsOrder | src/LruCache/LruCache.cs:59 | removing the entry at position i leaves the other entries in their order |
| LruSpec.TouchKeepsEntries | src/LruCache/LruCache.cs:49-50 | renewing a key keeps the same set of keys and values and the same Count, with the key now at the front |
| LruSpec.ReAddNeverEvicts | src/LruCache/LruCache.cs:49-50 | removing a present key and adding it back never evicts another entry and always succeeds |
| LruSpec.UpdateValueRenews | src/LruCache/LruCache.cs:89-98 | after UpdateValue the key maps to the new value and is the most recent entry, and all other keys are kept; an absent key gives KeyNotFound |
| LruScenarios.AddAllFresh | test/LRU.Tests.Unit/CacheTests.cs:137-146 | adding a run of fresh keys leaves the run, newest first, followed by the old contents, cut to the first maxSize entries in all |
| LruScenarios.OldestGoneAfterFill | test/LRU.Tests.Unit/CacheTests.cs:33-46 | after maxSize fresh additions, the entry that was oldest is gone |
| LruScenarios.TouchedEntrySurvivesFill | test/LRU.Tests.Unit/CacheTests.cs:48-72 | in a full cache, reading any present key and then adding 1 to maxSize - 1 fresh keys keeps the key read, evicts the entry the read left at the back, and leaves Count == maxSize |
| LruScenarios.ReadingOldestEvictsSecondOldest | test/LRU.Tests.Unit/CacheTests.cs:48-72 | the test's case: reading the oldest entry of a full cache and then adding 1 to maxSize - 1 fresh keys keeps it and evicts the second oldest, with Count == maxSize |
| LruScenarios.ReadingNewerEvictsOldest | test/LRU.Tests.Unit/CacheTests.cs:48-72 | reading any entry but the oldest and then adding 1 to maxSize - 1 fresh keys keeps it and evicts the oldest, with Count == maxSize |
| LruScenarios.UpdatedEntrySurvivesFill | test/LRU.Tests.Unit/CacheTests.cs:74-93 | after the setter updates the oldest entry, the new value survives the next eviction |
| LruScenarios.ReadOldest | src/LruCache/LruCache.cs:41-53 | in a two-entry cache, reading the older key returns its value (10) and makes it the newest |
| LruScenarios.AddEvictsUntouched | src/LruCache/LruCache.cs:25-38 | in a full two-entry cache whose older entry is 2, adding key 3 succeeds, evicts 2, keeps 1 and 3, and leaves Count 2 |
| LruScenarios.TouchDecidesEviction | src/LruCache/LruCache.cs:41-53 | a capacity-2 client run (add 1, add 2, read 1, add 3) reads back 10, adds 3 successfully, and ends with key 1 present and key 2 evicted: the read renewed key 1, so key 2 was the oldest |

## Left out

- The concurrent caches and their linked lists (`ConcurrentLruCache`, `ConcurrentCache`, `ConcurrentLinkedList`) are not part of this model. They are separate types with their own locking, and several of them are empty stubs.
- The internals of .NET's `LinkedList` and `Dictionary` are not modelled: node links, hashing and growth. The list is a sequence of node objects and the dictionary is a map to those nodes. So the model keeps node identity, but not the doubly linked pointers or O(1) costs.
- Exceptions are modelled as `Err` results, and the state at the moment of the throw is kept.
- `default(TValue)` is a constructor parameter, because Dafny has no default value for an arbitrary type.
- LruCacheModel.LruCache.constructor: follows `src/LRU.Cache/Cache.cs`, which accepts any `maxSize`. In `src/LruCache/LruCache.cs` and `src/LRU.Cache/LruCache/LruCache.cs`, `new Dictionary(maxSize)` throws `ArgumentOutOfRangeException` on a negative `maxSize`; that throw is not modelled. The initial capacity is otherwise only a performance hint and is not modelled.
- Null keys are not modelled. Every `Dictionary` call in the source throws `ArgumentNullException` on a null key, and the generic key type `K` has no null value.
- Keys are compared with Dafny's equality, not with a custom `IEqualityComparer`. The tests use `dynamic` keys, and their fill helper builds string keys from `DateTime.Now.Ticks` (test/LRU.Tests.Unit/CacheTests.cs:137-146). The scenario lemmas assume that the keys of each fill are distinct and absent from the cache (`DistinctKeys(es) && Fresh(es, s)`). The clock does not guarantee this: on a repeated tick, the test's own `Add` throws a duplicate-key error.
- Two behaviours often expected of an LRU cache are not in this code, and the model follows the code:
  - Putting an existing key does not replace its value: `Add` of a present key is a `DuplicateKey` error, and the indexer setter is the update path. The one exception is a full cache whose oldest entry holds the key: the eviction removes that entry first, so `Add` succeeds and stores the new value at the front (`AddSucceedsIff`).
  - A capacity of 0 or less is not refused up front: 0 makes every `Add` fail, and a negative capacity is handled as described above.
- The modelled classes take no locks, so concurrent use is not modelled.
