# py-lru-cache: a Dafny model of the LRU cache engine

This project models the engine of `lru_cache.py`, a dictionary-like least-recently-used
cache that can persist itself to a file between runs.

- **Recency store.** `LRUCache._data` is an ordered dictionary whose key order is the recency
  order: the oldest entry comes first and the newest last. The model holds it as
  `data: seq<(K, V)>` with distinct keys. The dictionary primitives the cache uses are pure
  functions in module `Recency`:
  - `Lookup` is `d.get`.
  - `Assign` is `d[k] = v`. It replaces in place or appends.
  - `Remove` is `del d[k]`.
  - `MoveToEnd` is `d.move_to_end`.
  - `Update` is `d.update`.
- **Dirty flag.** `dirty` models `_did_change`. Every write, every read hit, every delete
  attempt and every eviction sets it. Only loading from a file clears it.
- **Trimmer.** `Trim` snapshots the key order. It then evicts the oldest snapshot key until
  the encoded store is strictly below `maxBytes`. Module `Eviction` defines the count it
  computes (`Evict`) and proves that this count is the least number of oldest entries whose
  removal makes the store fit.
- **Persistence.** `PersistentLRUCache` wraps an `LRUCache` (`cache`). The cache file is the
  field `disk`: `None` when the file does not exist, and otherwise the entries read back
  from it. `Load` fills the store from the file. `Save` trims and then writes the store.
- The serializer (pickle) is outside the model. Its byte count is the function
  `encodedSize: seq<(K, V)> -> nat`, given when the cache is created.
- Python exceptions that reach the caller are values of type `Outcomes.Result` or
  `Outcomes.Outcome`. These are `KeyError` from `del`, `IndexError` from trimming, and
  whatever the loader of `get_or_load` raises.

Points of the code's behaviour that the contracts make explicit:

- `save` never clears the dirty flag, so every later `save` writes again
  (lru_cache.py:227-238). Only loading from the file clears it (lru_cache.py:225).
- Trimming stops only when the encoded size is strictly below the budget (`<`, not `<=`)
  (lru_cache.py:146-147).
- When the store is empty and still over budget, trimming raises `IndexError` from
  `sorted_keys.pop(0)` (lru_cache.py:146-148), and `save` propagates it without writing.
- A failed delete still sets the dirty flag, because the flag is set before the deletion
  is attempted (lru_cache.py:104-105).
- Every read hit sets the dirty flag, even when the key is already the newest
  (lru_cache.py:90, 127, 174).
- The persistent cache always has a file name; there is no cache without a backing file
  (lru_cache.py:194-205).

## Model

| member | source | states |
|---|---|---|
| `Recency.Keys` | lru_cache.py:74-76 | the key sequence has one key per entry, each the key of the entry at the same position, oldest first |
| `Recency.Lookup` | lru_cache.py:84 | the lookup misses exactly when the key is not among the store's keys |
| `Recency.Assign` | lru_cache.py:98 | after an assignment the key maps to the new value |
| `Recency.AssignKeys` | lru_cache.py:98 | assignment keeps the key sequence when the key is present and appends the key as the newest when it is absent |
| `Recency.Remove` | lru_cache.py:105 | deletion never lengthens the store and leaves no entry with the deleted key |
| `Recency.MoveToEnd` | lru_cache.py:91 | moving a present key makes it the newest entry, carrying its looked-up value, and leaves no other entry with that key (`Promote` proves the rest: same length, same values, others in order) |
| `Recency.Update` | lru_cache.py:224 | filling a store never shortens it, keeps every key it already had, and adds at most one entry per pair (`UpdateDistinct` and `UpdateFresh` give distinctness and file order) |
| `Recency.LookupAt` | lru_cache.py:84 | with distinct keys, looking up an entry's key yields that entry's value |
| `Recency.LookupAppend` | lru_cache.py:84 | lookup in a concatenation finds the front part's entry first |
| `Recency.RemoveAbsent` | lru_cache.py:105 | deleting an absent key leaves the store unchanged |
| `Recency.RemoveAt` | lru_cache.py:101-105 | with distinct keys, deleting the key at position i removes exactly entry i, keeps the others in order, and shortens the store by one |
| `Recency.RemoveLookup` | lru_cache.py:101-105 | after a deletion the deleted key misses and every other key keeps its value |
| `Recency.RemoveDistinct` | lru_cache.py:105 | deletion keeps the keys distinct |
| `Recency.RemovePresentLength` | lru_cache.py:101-105 | deletion shortens a distinct-key store by one exactly when the key was present |
| `Recency.AssignAbsent` | lru_cache.py:170 | assigning a new key appends it as the newest entry |
| `Recency.RemoveAssign` | lru_cache.py:98-99 | assigning a key and then deleting it gives the same store as deleting it |
| `Recency.AssignLookupOther` | lru_cache.py:98 | assigning one key leaves every other key's value unchanged |
| `Recency.AssignDistinct` | lru_cache.py:98 | assignment keeps the keys distinct |
| `Recency.SetEntry` | lru_cache.py:94-99 | a write gives the old store without the key, then (key, value) as the newest entry; the keys stay distinct; the length grows by one exactly when the key was absent; every other key keeps its value |
| `Recency.Promote` | lru_cache.py:88-92 | a read hit gives a permutation of the store with the same length and distinct keys, every key keeps its value, the key read becomes the newest, and the other entries keep their relative order |
| `Recency.UpdateDistinct` | lru_cache.py:224 | filling a store from file entries keeps its keys distinct |
| `Recency.UpdateFresh` | lru_cache.py:224 | filling a store with entries whose keys are new and distinct appends them in file order; filling the empty store gives back the file's entries |
| `Eviction.Evict` | lru_cache.py:137-154 | the count of oldest entries trimming evicts never exceeds the store's length (`EvictSome`, `EvictNone` and `EvictLeast` characterise it as the least fitting count) |
| `Eviction.EvictSome` | lru_cache.py:137-154 | a successful trim evicts at most the store's length, leaves a suffix strictly below the budget, and every longer suffix was not below it (oldest-first, least count) |
| `Eviction.EvictNone` | lru_cache.py:146-148 | a failing trim means no suffix, not even the empty one, is below the budget |
| `Eviction.EvictLeast` | lru_cache.py:137-154 | conversely, the least fitting suffix length is exactly what trimming evicts |
| `Eviction.EvictAgain` | lru_cache.py:137-154 | after a successful trim, trimming the remaining suffix evicts nothing |
| `LruCache.LRUCache.constructor` | lru_cache.py:49-57 | a new cache is empty and clean and keeps its limits and serializer |
| `LruCache.LRUCache.Contains` | lru_cache.py:70-72 | membership is true exactly when some entry has the key; nothing changes |
| `LruCache.LRUCache.Iterate` | lru_cache.py:74-76 | iteration yields the keys in store order, oldest first; nothing changes |
| `LruCache.LRUCache.Length` | lru_cache.py:78-80 | the length is the number of entries; nothing changes |
| `LruCache.LRUCache.ByteSize` | lru_cache.py:156-161 | the size is the encoded size of the whole store; nothing changes |
| `LruCache.LRUCache.GetItem` | lru_cache.py:82-92 | a hit returns the stored value, moves the key to the end, keeps the entries as a permutation, and sets dirty; a miss returns None and changes neither the entries nor the flag |
| `LruCache.LRUCache.Get` | lru_cache.py:119-129 | the same as GetItem, except that a miss returns the given default |
| `LruCache.LRUCache.SetItem` | lru_cache.py:94-99 | the store becomes the old store without the key, then (key, value) last; the length grows by one exactly when the key was absent; the cache is dirty |
| `LruCache.LRUCache.DelItem` | lru_cache.py:101-105 | dirty is always set; a present key is removed at its position and the others keep their order; an absent key raises KeyError and the entries are unchanged |
| `LruCache.LRUCache.Clear` | lru_cache.py:131-135 | the store is empty and the cache is dirty |
| `LruCache.LRUCache.Trim` | lru_cache.py:137-154 | it returns the least count of oldest entries whose eviction brings the encoded store strictly below the budget; what remains is that suffix; it raises IndexError with an empty store when no suffix fits; dirty is set exactly when something was evicted |
| `LruCache.LRUCache.GetOrLoad` | lru_cache.py:163-176 | the loader's call count grows by one when the key is absent and stays the same on a hit; on a miss the loaded value is appended as the newest entry and dirty is set; a loader error stores nothing and leaves the flag; on a hit the stored value is returned and the key moves to the end |
| `LruCache.PersistentLRUCache.constructor` | lru_cache.py:194-205 | a new persistent cache is clean; it is empty when the file is missing, and it holds the file's entries in file order when the file exists |
| `LruCache.PersistentLRUCache.Load` | lru_cache.py:218-225 | with no file nothing changes; otherwise the file's entries are added in order and the cache becomes clean |
| `LruCache.PersistentLRUCache.Save` | lru_cache.py:227-238 | a clean cache writes nothing and changes nothing; a dirty cache is trimmed, then the file holds exactly the trimmed store in order; dirty stays set; a trim error propagates and nothing is written (`SaveEffect`) |
| `LruCache.PersistentLRUCache.Close` | lru_cache.py:240-241 | closing has exactly the effect of saving (`SaveEffect`) |
| `LruCache.Loader.Call` | lru_cache.py:168 | calling the loader returns its result and counts one more call |
| `Scenarios.OldestFirst` | lru_cache.py:137-154 | with four entries of which only the newest three fit, one trim evicts exactly the oldest entry |
| `Scenarios.TrimTwice` | lru_cache.py:137-154 | a second trim right after a successful one returns 0 |
| `Scenarios.LoadOnce` | lru_cache.py:163-176 | on a cold key the first call returns the loader's result; when that succeeds, a second call returns the same value and the loader has been called exactly once over both calls |
| `Scenarios.Reopen` | lru_cache.py:218-238 | after a successful save of a dirty cache, a cache opened on the written file holds the saved store, with the same keys, values and order, and is clean |
| `Scenarios.OpenMissing` | lru_cache.py:218-221 | opening a cache whose file does not exist gives an empty, clean cache |
| `Scenarios.SaveClean` | lru_cache.py:229-231 | saving a cache with no change since it was loaded leaves the file as it was |

## Left out

- The pickle serializer and its byte counts are outside the model. `encodedSize` is a
  parameter. The model does not capture that the encoding depends on the values' types.
- Pickling failures are not modelled. `trim`, `bytesize` and `save` raise a pickling error
  for a value the serializer cannot encode (lru_cache.py:145, 160, 238). `encodedSize` is
  total, so the model never raises it.
- Reading a corrupt file raises an unpickling error. This is not modelled. A file is either
  absent or holds a sequence of entries.
- Filesystem effects are not modelled: `Path.exists`, `mkdir(parents=True)` and opening the
  file. `disk` stands for the file's contents.
- The process-exit registry (`_caches_to_close_atexit`, `_close_atexit`, `close_on_exit`) is
  left out. It depends on weak references and interpreter shutdown.
- The context-manager methods `__enter__`/`__exit__` are left out. They only call `close`.
- The module-level `open` helper is left out. It is the persistent constructor with default
  limits.
- The memoizing decorator `__call__` is left out. It builds keys with a private library
  helper and then calls `get_or_load`.
- The `keys()`, `values()` and `items()` views are left out. They are live views of the
  dictionary. `Iterate` gives the key order.
- Lazy iteration is not modelled. Python raises when the dictionary changes while it is
  being iterated.
- `maxItems` is stored but no operation enforces it, so nothing about it is proved.
- A loader that itself reads or writes the cache is not modelled. A `Loader` object pairs a
  fixed result `f()` with a call counter. It has no other effects, and every call returns
  the same result.
- Logging, `__repr__`, and the identity-based `__eq__`/`__hash__` are left out.
- Python's `DEFAULT_MAX_ITEMS` is `sys.maxsize`. The model uses the 64-bit value.
