/// The two operations of a block cache, each taken under its lock: what src/metablock.rs and
/// src/fs.rs share. Which entries a full cache drops is left open, so what is proved holds
/// for every eviction policy.
module Cache {
  import opened Bytes

  /// A cache's contents and counters; `lookups` are those made while it was on, since the
  /// last resize.
  datatype CacheState<!K(==), V> = CacheState(capacity: nat, entries: map<K, V>, hits: nat, misses: nat, lookups: nat)

  function Emptied<K(==), V>(capacity: nat): CacheState<K, V> { CacheState(capacity, map[], 0, 0, 0) }

  function Found<K(==), V>(c: CacheState<K, V>, key: K): Option<V> {
    if c.capacity > 0 && key in c.entries then Some(c.entries[key]) else None
  }

  /// A lookup counts as a hit or a miss, unless the cache is off.
  function LookedUp<K(==), V>(c: CacheState<K, V>, key: K): CacheState<K, V> {
    if c.capacity == 0 then c
    else if key in c.entries then c.(hits := c.hits + 1, lookups := c.lookups + 1)
    else c.(misses := c.misses + 1, lookups := c.lookups + 1)
  }

  /// An insert leaves the new entry and whichever others still fit.
  ghost predicate Inserted<K, V>(c: CacheState<K, V>, d: CacheState<K, V>, key: K, value: V) {
    && d == c.(entries := d.entries)
    && if c.capacity == 0 then d.entries == c.entries
       else
         && key in d.entries && d.entries[key] == value && |d.entries| <= d.capacity
         && forall k :: k in d.entries && k != key ==> k in c.entries && d.entries[k] == c.entries[k]
  }
}
