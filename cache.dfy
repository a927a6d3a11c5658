/**
 * The `lru-cache` instance each engine generation keeps at module level
 * (`new LRU({ max: 500 })`), as a string-to-string map updated in place.
 */
module Cache {
  import opened Wrappers

  /** The capacity both generations configure. */
  const MaxEntries := 500

  /** Lookup in a map of cached strings, `None` standing for `undefined`. */
  function Lookup(entries: map<string, string>, key: string): (r: Option<string>)
    ensures r.Some? <==> key in entries
    ensures r.Some? ==> r.value == entries[key]
  {
    if key in entries then Some(entries[key]) else None
  }

  class LruCache {
    /** What the cache currently holds. */
    var entries: map<string, string>
    /** The configured `max`; eviction itself is not modelled. */
    const max: nat

    constructor ()
      ensures entries == map[] && max == MaxEntries
    {
      entries := map[];
      max := MaxEntries;
    }

    /** `cache.get(key)`: the stored value for a present key, `undefined` otherwise. */
    function Get(key: string): (r: Option<string>)
      reads this
      ensures r.Some? <==> key in entries
      ensures r.Some? ==> r.value == entries[key]
    {
      Lookup(entries, key)
    }

    /** `cache.set(key, value)`: the key now maps to the value, nothing else changes. */
    method Set(key: string, value: string)
      modifies this
      ensures entries == old(entries)[key := value]
    {
      entries := entries[key := value];
    }
  }
}
