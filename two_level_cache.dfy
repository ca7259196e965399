/**
 * The part of `ITwoLevelCache` the core uses: the process-local store that
 * `Memory.Get`, `GetLocalStoreOnly`, `Memory.Remove`, `Remove` and
 * `ExpireGroupItems` act on. Each entry remembers the group key it was
 * stored under, so that expiring a group drops exactly its entries.
 */
module TwoLevelCaching {
  import opened Basics

  datatype CacheItem<V> = CacheItem(value: V, group: Option<string>)

  /** The entries of `m` whose group is not `group`. */
  function WithoutGroup<V>(m: map<string, CacheItem<V>>, group: string): (r: map<string, CacheItem<V>>)
    ensures forall k | k in r :: k in m && m[k].group != Some(group) && r[k] == m[k]
    ensures forall k | k in m && m[k].group != Some(group) :: k in r
  {
    map k | k in m && m[k].group != Some(group) :: m[k]
  }

  /** Expiring a group twice is expiring it once. */
  lemma WithoutGroupIdempotent<V>(m: map<string, CacheItem<V>>, group: string)
    ensures WithoutGroup(WithoutGroup(m, group), group) == WithoutGroup(m, group)
  {
  }

  /**
   * Storing an entry and then expiring a group: the entry is dropped when
   * it belongs to the group, and otherwise survives the expiry of the rest.
   */
  lemma WithoutGroupAfterSet<V>(m: map<string, CacheItem<V>>, group: string, key: string, item: CacheItem<V>)
    ensures WithoutGroup(m[key := item], group) ==
      if item.group == Some(group) then WithoutGroup(m, group) - {key} else WithoutGroup(m, group)[key := item]
  {
  }

  /** `after` holds only entries of `before`, unchanged: nothing was created or replaced. */
  ghost predicate Shrunk<V>(before: map<string, CacheItem<V>>, after: map<string, CacheItem<V>>) {
    forall k | k in after :: k in before && after[k] == before[k]
  }

  class TwoLevelCache<V> {
    var entries: map<string, CacheItem<V>>

    constructor ()
      ensures entries == map[]
    {
      entries := map[];
    }

    /** A lookup that never creates: `Get` with a null loader. */
    function TryGet(key: string): (r: Option<V>)
      reads this
      ensures r.Some? <==> key in entries
      ensures r.Some? ==> r.value == entries[key].value
    {
      if key in entries then Some(entries[key].value) else None
    }

    /** Stores the value a loader produced, tagged with its group (none for `Memory`). */
    method Set(key: string, value: V, group: Option<string>)
      modifies this
      ensures entries == old(entries)[key := CacheItem(value, group)]
    {
      entries := entries[key := CacheItem(value, group)];
    }

    /** `Remove` and `Memory.Remove`. */
    method Remove(key: string)
      modifies this
      ensures entries == old(entries) - {key}
    {
      entries := entries - {key};
    }

    /** `ExpireGroupItems`: every entry of the group goes, every other entry stays. */
    method ExpireGroupItems(group: string)
      modifies this
      ensures entries == WithoutGroup(old(entries), group)
    {
      entries := WithoutGroup(entries, group);
    }
  }
}
