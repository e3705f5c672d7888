/**
  Callers of the cache, showing what the contracts of its operations give a client:
  the oldest-first trim, trimming twice, loading once, and reopening what was saved.
 */
module Scenarios {
  import opened Outcomes
  import opened Recency
  import opened Eviction
  import opened LruCache

  /**
    Four entries inserted in the order 1, 2, 3, 4 under a serializer charging 10 bytes per
    entry and a 35-byte budget: all four (40 bytes) are over budget, the newest three
    (30 bytes) fit, so one trim evicts exactly the oldest entry.
   */
  method OldestFirst() returns (r: Result<nat>, keys: seq<int>)
    ensures r == Ok(1)
    ensures keys == [2, 3, 4]
  {
    var c := new LRUCache<int, string>(DEFAULT_MAX_ITEMS, 35, s => 10 * |s|);
    c.SetItem(1, "a");
    RemoveAbsent(c.data, 2);
    c.SetItem(2, "b");
    RemoveAbsent(c.data, 3);
    c.SetItem(3, "c");
    RemoveAbsent(c.data, 4);
    c.SetItem(4, "d");
    assert c.data == [(1, "a"), (2, "b"), (3, "c"), (4, "d")];
    assert c.data[1..] == [(2, "b"), (3, "c"), (4, "d")];
    EvictLeast(c.data, c.encodedSize, c.maxBytes, 1);
    r := c.Trim();
    keys := c.Iterate();
  }

  /** A second trim right after a successful one evicts nothing and changes nothing. */
  method TrimTwice<K(==), V>(c: LRUCache<K, V>) returns (first: Result<nat>, second: Result<nat>)
    requires c.Valid()
    modifies c
    ensures c.Valid()
    ensures first.Ok? ==> second == Ok(0)
  {
    first := c.Trim();
    if first.Ok? {
      ghost var data, dirty := c.data, c.dirty;
      second := c.Trim();
      assert c.data == data && c.dirty == dirty;
    } else {
      second := first;
    }
  }

  /**
    Loading the same cold key twice: the first call runs the loader and stores its value,
    the second returns that value without running the loader again.
   */
  method LoadOnce<K(==), V>(c: LRUCache<K, V>, key: K, loader: Loader<V>)
    returns (first: Result<V>, second: Result<V>)
    requires c.Valid()
    requires key !in Keys(c.data)
    modifies c, loader
    ensures first == loader.f()
    ensures first.Ok? ==> second == first && loader.calls == old(loader.calls) + 1
  {
    first := c.GetOrLoad(key, loader);
    if first.Ok? {
      LookupAppend(old(c.data), [(key, first.value)], key);
      KeysAppend(old(c.data), [(key, first.value)]);
    }
    second := c.GetOrLoad(key, loader);
  }

  /**
    Saving a dirty cache and opening a new cache on the file it wrote gives back the saved
    store: the same keys, values and order, and a clean flag.
   */
  method Reopen<K(==), V>(p: PersistentLRUCache<K, V>) returns (saved: Outcome, q: PersistentLRUCache<K, V>)
    requires p.Valid()
    requires p.cache.dirty
    modifies p, p.cache
    ensures p.Valid()
    ensures saved.Pass? ==> q.cache.data == p.cache.data && !q.cache.dirty
  {
    saved := p.Save();
    q := new PersistentLRUCache(p.disk, p.cache.maxItems, p.cache.maxBytes, p.cache.encodedSize);
  }

  /** Opening a cache whose file does not exist gives an empty, clean cache. */
  method OpenMissing() returns (n: nat, dirty: bool)
    ensures n == 0 && !dirty
  {
    var p := new PersistentLRUCache<int, int>(None, DEFAULT_MAX_ITEMS, DEFAULT_MAX_BYTESIZE, s => |s|);
    n := p.cache.Length();
    dirty := p.cache.dirty;
  }

  /** Saving a cache that has not changed since it was loaded writes nothing. */
  method SaveClean(file: seq<(int, int)>) returns (before: Option<seq<(int, int)>>, after: Option<seq<(int, int)>>)
    ensures after == before
  {
    var p := new PersistentLRUCache<int, int>(Some(file), DEFAULT_MAX_ITEMS, DEFAULT_MAX_BYTESIZE, s => |s|);
    before := p.disk;
    var r := p.Save();
    after := p.disk;
  }
}
