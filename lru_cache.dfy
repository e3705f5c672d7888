/**
  The LRU cache engine: a dictionary-like store whose entry order is its recency order
  (oldest first, newest last), a flag recording whether the contents changed since they
  were loaded, a trimmer that evicts oldest entries until the encoded store fits a byte
  budget, and a persistent variant that loads from and saves to a file.
 */
module LruCache {
  import opened Outcomes
  import opened Recency
  import opened Eviction

  /** Python's `sys.maxsize` on a 64-bit build, the default item cap. */
  const DEFAULT_MAX_ITEMS: int := 0x7FFF_FFFF_FFFF_FFFF
  /** The default byte budget, 1 GiB. */
  const DEFAULT_MAX_BYTESIZE: int := 1024 * 1024 * 1024

  class LRUCache<K(==), V> {
    /** The ordered dictionary: entries oldest first, newest last. */
    var data: seq<(K, V)>
    /** Set by every write and every read hit; cleared only by loading from a file. */
    var dirty: bool
    /** Stored but never enforced by any operation. */
    const maxItems: int
    /** Trimming stops once the encoded store is strictly below this many bytes. */
    const maxBytes: int
    /** The byte length of the serialized store (the serializer is outside the model). */
    const encodedSize: seq<(K, V)> -> nat

    ghost predicate Valid()
      reads this
    {
      DistinctKeys(data)
    }

    constructor (maxItems: int, maxBytes: int, encodedSize: seq<(K, V)> -> nat)
      ensures Valid()
      ensures data == [] && !dirty
      ensures this.maxItems == maxItems && this.maxBytes == maxBytes
      ensures this.encodedSize == encodedSize
    {
      data := [];
      dirty := false;
      this.maxItems := maxItems;
      this.maxBytes := maxBytes;
      this.encodedSize := encodedSize;
    }

    /** `key in cache`: a membership test that neither promotes nor marks the cache dirty. */
    method Contains(key: K) returns (b: bool)
      ensures b <==> exists i :: 0 <= i < |data| && data[i].0 == key
    {
      b := key in Keys(data);
    }

    /** `iter(cache)`: the keys, oldest first, without promoting any of them. */
    method Iterate() returns (keys: seq<K>)
      ensures |keys| == |data|
      ensures forall i :: 0 <= i < |data| ==> keys[i] == data[i].0
    {
      keys := Keys(data);
    }

    /** `len(cache)`: the number of entries. */
    method Length() returns (n: nat)
      ensures n == |data|
    {
      n := |data|;
    }

    /** `cache.bytesize()`: the encoded size of the whole store. */
    method ByteSize() returns (n: nat)
      ensures n == encodedSize(data)
    {
      n := encodedSize(data);
    }

    /**
      `cache[key]`: on a hit, return the stored value, promote the key to newest without
      changing any value, and mark the cache dirty; on a miss, return None and change nothing.
     */
    method GetItem(key: K) returns (r: Option<V>)
      requires Valid()
      modifies this
      ensures Valid()
      ensures r == Lookup(old(data), key)
      ensures r.None? <==> key !in Keys(old(data))
      ensures r.None? ==> data == old(data) && dirty == old(dirty)
      ensures r.Some? ==> data == Remove(old(data), key) + [(key, r.value)] && dirty
      ensures r.Some? ==> multiset(data) == multiset(old(data))
    {
      r := Lookup(data, key);
      if r.Some? {
        dirty := true;
        Promote(data, key);
        data := MoveToEnd(data, key);
      }
    }

    /** `cache.get(key, default)`: as GetItem, with `default` returned on a miss. */
    method Get(key: K, default: V) returns (r: V)
      requires Valid()
      modifies this
      ensures Valid()
      ensures key !in Keys(old(data)) ==> r == default && data == old(data) && dirty == old(dirty)
      ensures key in Keys(old(data)) ==> Lookup(old(data), key) == Some(r) && dirty
      ensures key in Keys(old(data)) ==> data == Remove(old(data), key) + [(key, r)]
      ensures key in Keys(old(data)) ==> multiset(data) == multiset(old(data))
    {
      var found := Lookup(data, key);
      if found.None? {
        r := default;
      } else {
        dirty := true;
        Promote(data, key);
        data := MoveToEnd(data, key);
        r := found.value;
      }
    }

    /**
      `cache[key] = value`: afterwards key maps to value and is the newest entry, every other
      key keeps its value and relative order, the store grows by one exactly when key was
      absent, and the cache is dirty.
     */
    method SetItem(key: K, value: V)
      requires Valid()
      modifies this
      ensures Valid()
      ensures data == Remove(old(data), key) + [(key, value)]
      ensures |data| == if key in Keys(old(data)) then |old(data)| else |old(data)| + 1
      ensures dirty
    {
      dirty := true;
      SetEntry(data, key, value);
      data := Assign(data, key, value);
      data := MoveToEnd(data, key);
    }

    /**
      `del cache[key]`: the cache is marked dirty before the deletion is attempted. A present
      key is removed and the other entries keep their order; an absent key raises KeyError
      and leaves the entries as they were.
     */
    method DelItem(key: K) returns (r: Outcome)
      requires Valid()
      modifies this
      ensures Valid()
      ensures dirty
      ensures r.Pass? <==> key in Keys(old(data))
      ensures r.Fail? ==> r.error == KeyError && data == old(data)
      ensures r.Pass? ==> |data| == |old(data)| - 1
      ensures r.Pass? ==> forall i :: 0 <= i < |old(data)| && old(data)[i].0 == key ==>
                            data == old(data)[..i] + old(data)[i + 1..]
    {
      dirty := true;
      if key !in Keys(data) {
        return Fail(KeyError);
      }
      RemovePresentLength(data, key);
      RemoveDistinct(data, key);
      forall i | 0 <= i < |data| && data[i].0 == key
        ensures Remove(data, key) == data[..i] + data[i + 1..]
      {
        RemoveAt(data, i);
      }
      data := Remove(data, key);
      r := Pass;
    }

    /** `cache.clear()`: empty the store and mark the cache dirty. */
    method Clear()
      requires Valid()
      modifies this
      ensures Valid()
      ensures data == [] && dirty
    {
      dirty := true;
      data := [];
    }

    /**
      `cache.trim()`: snapshot the keys, then, while the encoded store is not strictly below
      the budget, evict the oldest snapshot key. Returns the number evicted; raises IndexError
      when the snapshot runs out while the (now empty) store is still over budget.
     */
    method Trim() returns (r: Result<nat>)
      requires Valid()
      modifies this
      ensures Valid()
      ensures r.Ok? <==> Evict(old(data), encodedSize, maxBytes).Some?
      ensures r.Ok? ==> Evict(old(data), encodedSize, maxBytes) == Some(r.value)
      ensures r.Ok? ==> r.value <= |old(data)| && data == old(data)[r.value..]
      ensures r.Ok? ==> encodedSize(data) < maxBytes
      ensures r.Ok? ==> forall i :: 0 <= i < r.value ==> encodedSize(old(data)[i..]) >= maxBytes
      ensures r.Err? ==> r.error == IndexError && data == []
      ensures r.Err? ==> forall i :: 0 <= i <= |old(data)| ==> encodedSize(old(data)[i..]) >= maxBytes
      ensures dirty == (old(dirty) || |data| < |old(data)|)
    {
      ghost var start := data;
      var sortedKeys := Keys(data);
      var count := 0;
      while true
        invariant count <= |start|
        invariant data == start[count..]
        invariant DistinctKeys(data)
        invariant sortedKeys == Keys(data)
        invariant dirty == (old(dirty) || count > 0)
        invariant Evict(start, encodedSize, maxBytes) == Shift(Evict(data, encodedSize, maxBytes), count)
        decreases |sortedKeys|
      {
        if encodedSize(data) < maxBytes {
          break;
        }
        if sortedKeys == [] {
          EvictNone(start, encodedSize, maxBytes);
          return Err(IndexError);
        }
        var key := sortedKeys[0];
        sortedKeys := sortedKeys[1..];
        dirty := true;
        assert Evict(data, encodedSize, maxBytes) == Shift(Evict(data[1..], encodedSize, maxBytes), 1);
        assert data[1..] == start[count + 1..];
        RemoveOldest(data);
        data := Remove(data, key);
        count := count + 1;
      }
      EvictSome(start, encodedSize, maxBytes, count);
      r := Ok(count);
    }

    /**
      `cache.get_or_load(key, loader)`: on a hit, the loader is not called, the stored value
      is returned and the key promoted; on a miss, the loader is called once and its value
      appended as the newest entry; when the loader raises, nothing is stored and the flag is
      left as it was.
     */
    method GetOrLoad(key: K, loader: Loader<V>) returns (r: Result<V>)
      requires Valid()
      modifies this, loader
      ensures Valid()
      ensures loader.calls == old(loader.calls) + (if key in Keys(old(data)) then 0 else 1)
      ensures key !in Keys(old(data)) ==> r == loader.f()
      ensures key !in Keys(old(data)) && r.Ok? ==> data == old(data) + [(key, r.value)] && dirty
      ensures key !in Keys(old(data)) && r.Err? ==> data == old(data) && dirty == old(dirty)
      ensures key in Keys(old(data)) ==> r.Ok? && Lookup(old(data), key) == Some(r.value) && dirty
      ensures key in Keys(old(data)) ==> data == Remove(old(data), key) + [(key, r.value)]
      ensures key in Keys(old(data)) ==> multiset(data) == multiset(old(data))
    {
      var found := Lookup(data, key);
      if found.None? {
        r := loader.Call();
        if r.Err? {
          return;
        }
        dirty := true;
        AssignAbsent(data, key, r.value);
        AppendNewKey(data, (key, r.value));
        data := Assign(data, key, r.value);
      } else {
        dirty := true;
        Promote(data, key);
        data := MoveToEnd(data, key);
        r := Ok(found.value);
      }
    }
  }

  /**
    The `load_value` callable handed to `get_or_load`. It computes `f()`, a value or the
    error it raises, and counts how often it has been called.
   */
  class Loader<V> {
    const f: () -> Result<V>
    var calls: nat

    constructor (f: () -> Result<V>)
      ensures this.f == f && calls == 0
    {
      this.f := f;
      calls := 0;
    }

    /** Call the loader once. */
    method Call() returns (r: Result<V>)
      modifies this
      ensures r == f() && calls == old(calls) + 1
    {
      calls := calls + 1;
      r := f();
    }
  }

  /**
    What saving does, from the store, flag and file before (`data`, `wasDirty`, `file`) to
    the outcome and the store, flag and file after (`r`, `data'`, `dirty'`, `file'`). A clean
    cache is left alone and nothing is written. A dirty cache is trimmed first, then the
    whole trimmed store is written to the file, in order. The dirty flag is not cleared. An
    IndexError from trimming propagates and nothing is written.
   */
  ghost predicate SaveEffect<K, V>(data: seq<(K, V)>, wasDirty: bool, file: Option<seq<(K, V)>>,
                                   r: Outcome, data': seq<(K, V)>, dirty': bool,
                                   file': Option<seq<(K, V)>>,
                                   encodedSize: seq<(K, V)> -> nat, maxBytes: int)
  {
    if !wasDirty then
      r == Pass && file' == file && data' == data && !dirty'
    else
      dirty' &&
      match Evict(data, encodedSize, maxBytes)
      case Some(n) =>
        r == Pass && n <= |data| && data' == data[n..] && file' == Some(data')
        && encodedSize(data') < maxBytes
      case None =>
        r == Fail(IndexError) && data' == [] && file' == file
  }

  /**
    A cache persisted to a file. The file is `disk`: None when it does not exist, otherwise
    the entries the serializer reads back from it.
   */
  class PersistentLRUCache<K(==), V> {
    const cache: LRUCache<K, V>
    var disk: Option<seq<(K, V)>>

    ghost predicate Valid()
      reads this, cache
    {
      cache.Valid()
    }

    /** Create an empty cache, then load it from the file when the file exists. */
    constructor (disk: Option<seq<(K, V)>>, maxItems: int, maxBytes: int,
                 encodedSize: seq<(K, V)> -> nat)
      ensures Valid() && fresh(cache)
      ensures this.disk == disk && !cache.dirty
      ensures cache.maxItems == maxItems && cache.maxBytes == maxBytes
      ensures cache.encodedSize == encodedSize
      ensures disk.None? ==> cache.data == []
      ensures disk.Some? ==> cache.data == Update([], disk.value)
      ensures disk.Some? && DistinctKeys(disk.value) ==> cache.data == disk.value
    {
      cache := new LRUCache(maxItems, maxBytes, encodedSize);
      this.disk := disk;
      new;
      Load();
      if disk.Some? && DistinctKeys(disk.value) {
        UpdateFresh([], disk.value);
      }
    }

    /**
      `_load`: with no file, do nothing; otherwise add the file's entries to the store in
      file order and mark the cache clean.
     */
    method Load()
      requires Valid()
      modifies cache
      ensures Valid()
      ensures disk.None? ==> cache.data == old(cache.data) && cache.dirty == old(cache.dirty)
      ensures disk.Some? ==> cache.data == Update(old(cache.data), disk.value) && !cache.dirty
    {
      if disk.None? {
        return;
      }
      UpdateDistinct(cache.data, disk.value);
      cache.data := Update(cache.data, disk.value);
      cache.dirty := false;
    }

    /** `save`: see SaveEffect. */
    method Save() returns (r: Outcome)
      requires Valid()
      modifies this, cache
      ensures Valid()
      ensures SaveEffect(old(cache.data), old(cache.dirty), old(disk), r,
                         cache.data, cache.dirty, disk, cache.encodedSize, cache.maxBytes)
    {
      if !cache.dirty {
        return Pass;
      }
      var trimmed := cache.Trim();
      if trimmed.Err? {
        return Fail(trimmed.error);
      }
      disk := Some(cache.data);
      r := Pass;
    }

    /** `close`: the same as `save`. */
    method Close() returns (r: Outcome)
      requires Valid()
      modifies this, cache
      ensures Valid()
      ensures SaveEffect(old(cache.data), old(cache.dirty), old(disk), r,
                         cache.data, cache.dirty, disk, cache.encodedSize, cache.maxBytes)
    {
      r := Save();
    }
  }
}
