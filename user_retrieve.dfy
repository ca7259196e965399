/**
 * `BaseUserRetrieveService`: user definitions looked up by id or by user
 * name through the local store of a two-level cache, under one cache
 * group, with the removal operations that keep that cache consistent.
 */
module UserRetrieve {
  import opened Basics
  import opened Strings
  import opened TwoLevelCaching

  // ---------------------------------------------------------------------
  // Keys and validation
  // ---------------------------------------------------------------------

  const IdKeyPrefix: string := "UserByID_"
  const UsernameKeyPrefix: string := "UserByName_"

  /** `GetIdCacheKey`. */
  function IdCacheKey(id: string): string {
    IdKeyPrefix + id
  }

  /** `GetUsernameCacheKey`: the user name is lowered first. */
  function UsernameCacheKey(username: string): string {
    UsernameKeyPrefix + ToLower(username)
  }

  /** `IsValidUserId` and `IsValidUsername`: neither null nor empty. */
  predicate IsValidUserId(userId: Option<string>) {
    !IsNullOrEmpty(userId)
  }

  predicate IsValidUsername(username: Option<string>) {
    !IsNullOrEmpty(username)
  }

  /** Two ids share a cache entry only when they are the same id. */
  lemma IdCacheKeyInjective(a: string, b: string)
    ensures IdCacheKey(a) == IdCacheKey(b) <==> a == b
  {
    if IdCacheKey(a) == IdCacheKey(b) {
      assert a == IdCacheKey(a)[|IdKeyPrefix|..];
      assert b == IdCacheKey(b)[|IdKeyPrefix|..];
    }
  }

  /** Two user names share a cache entry exactly when they differ only in case. */
  lemma UsernameCacheKeyIgnoresCase(a: string, b: string)
    ensures UsernameCacheKey(a) == UsernameCacheKey(b) <==> EqualsIgnoreCase(a, b)
  {
    LowerEqIffEqualsIgnoreCase(a, b);
    if UsernameCacheKey(a) == UsernameCacheKey(b) {
      assert ToLower(a) == UsernameCacheKey(a)[|UsernameKeyPrefix|..];
      assert ToLower(b) == UsernameCacheKey(b)[|UsernameKeyPrefix|..];
    }
  }

  /** An id key is never a user name key. */
  lemma KeysNeverCollide(id: string, username: string)
    ensures IdCacheKey(id) != UsernameCacheKey(username)
  {
    assert IdCacheKey(id)[6] == 'I' && UsernameCacheKey(username)[6] == 'N';
  }

  // ---------------------------------------------------------------------
  // The service
  // ---------------------------------------------------------------------

  /**
   * A user retrieve service over user definitions of type `U`. `groupKey`
   * is `GetCacheGroupKey()`; `loadById` and `loadByUsername` are the
   * subclass's `LoadById` and `LoadByUsername`, `None` standing for `null`.
   * The cache stores what a loader returned, `null` included.
   */
  class UserRetrieveService<U> {
    const cache: TwoLevelCache<Option<U>>
    const groupKey: string
    const loadById: string -> Option<U>
    const loadByUsername: string -> Option<U>

    constructor (cache: TwoLevelCache<Option<U>>, groupKey: string,
                 loadById: string -> Option<U>, loadByUsername: string -> Option<U>)
      ensures this.cache == cache && this.groupKey == groupKey
      ensures this.loadById == loadById && this.loadByUsername == loadByUsername
    {
      this.cache := cache;
      this.groupKey := groupKey;
      this.loadById := loadById;
      this.loadByUsername := loadByUsername;
    }

    /** The primary constructor: a null cache is rejected. */
    static method Create(cache: TwoLevelCache?<Option<U>>, groupKey: string,
                         loadById: string -> Option<U>, loadByUsername: string -> Option<U>)
      returns (r: Result<UserRetrieveService<U>, string>)
      ensures cache == null ==> r == Err("cache")
      ensures cache != null ==>
        && r.Ok? && fresh(r.value) && r.value.cache == cache && r.value.groupKey == groupKey
        && r.value.loadById == loadById && r.value.loadByUsername == loadByUsername
    {
      if cache == null {
        return Err("cache");
      }
      var s := new UserRetrieveService(cache, groupKey, loadById, loadByUsername);
      r := Ok(s);
    }

    /**
     * Cache-aside under the service's group: a cached value is returned and
     * nothing changes; on a miss the loader runs and its value is stored.
     */
    method GetLocalStoreOnly(key: string, loader: () -> Option<U>) returns (r: Option<U>)
      modifies cache
      ensures key in old(cache.entries) ==> r == old(cache.entries[key].value) && cache.entries == old(cache.entries)
      ensures key !in old(cache.entries) ==>
        r == loader() && cache.entries == old(cache.entries)[key := CacheItem(r, Some(groupKey))]
    {
      var existing := cache.TryGet(key);
      if existing.Some? {
        return existing.value;
      }
      r := loader();
      cache.Set(key, r, Some(groupKey));
    }

    /** `GetCachedById`: the loader runs only on a miss of the id key. */
    method GetCachedById(id: string) returns (r: Option<U>)
      modifies cache
      ensures IdCacheKey(id) in old(cache.entries) ==>
        r == old(cache.entries[IdCacheKey(id)].value) && cache.entries == old(cache.entries)
      ensures IdCacheKey(id) !in old(cache.entries) ==>
        r == loadById(id) && cache.entries == old(cache.entries)[IdCacheKey(id) := CacheItem(r, Some(groupKey))]
    {
      r := GetLocalStoreOnly(IdCacheKey(id), () => loadById(id));
    }

    /** `GetCachedByUsername`: the loader runs only on a miss of the lowered user name key. */
    method GetCachedByUsername(username: string) returns (r: Option<U>)
      modifies cache
      ensures UsernameCacheKey(username) in old(cache.entries) ==>
        r == old(cache.entries[UsernameCacheKey(username)].value) && cache.entries == old(cache.entries)
      ensures UsernameCacheKey(username) !in old(cache.entries) ==>
        && r == loadByUsername(username)
        && cache.entries == old(cache.entries)[UsernameCacheKey(username) := CacheItem(r, Some(groupKey))]
    {
      r := GetLocalStoreOnly(UsernameCacheKey(username), () => loadByUsername(username));
    }

    /** `ById`: an invalid id gives no user and leaves the cache alone. */
    method ById(id: Option<string>) returns (r: Option<U>)
      modifies cache
      ensures !IsValidUserId(id) ==> r == None && cache.entries == old(cache.entries)
      ensures IsValidUserId(id) && IdCacheKey(id.value) in old(cache.entries) ==>
        r == old(cache.entries[IdCacheKey(id.value)].value) && cache.entries == old(cache.entries)
      ensures IsValidUserId(id) && IdCacheKey(id.value) !in old(cache.entries) ==>
        && r == loadById(id.value)
        && cache.entries == old(cache.entries)[IdCacheKey(id.value) := CacheItem(r, Some(groupKey))]
    {
      if !IsValidUserId(id) {
        return None;
      }
      r := GetCachedById(id.value);
    }

    /**
     * `ByUsername`: validated, as in the source, by `IsValidUserId`; an
     * invalid name gives no user and leaves the cache alone.
     */
    method ByUsername(username: Option<string>) returns (r: Option<U>)
      modifies cache
      ensures !IsValidUserId(username) ==> r == None && cache.entries == old(cache.entries)
      ensures IsValidUserId(username) && UsernameCacheKey(username.value) in old(cache.entries) ==>
        r == old(cache.entries[UsernameCacheKey(username.value)].value) && cache.entries == old(cache.entries)
      ensures IsValidUserId(username) && UsernameCacheKey(username.value) !in old(cache.entries) ==>
        && r == loadByUsername(username.value)
        && cache.entries == old(cache.entries)[UsernameCacheKey(username.value) := CacheItem(r, Some(groupKey))]
    {
      if !IsValidUserId(username) {
        return None;
      }
      r := GetCachedByUsername(username.value);
    }

    /** `RemoveAll`: every entry of the service's group goes; no other entry changes. */
    method RemoveAll()
      modifies cache
      ensures cache.entries == WithoutGroup(old(cache.entries), groupKey)
      ensures forall k | k in cache.entries :: cache.entries[k].group != Some(groupKey)
    {
      cache.ExpireGroupItems(groupKey);
    }

    /**
     * `RemoveCachedUser`: removes the key `GetCachedById` uses for a valid
     * id and the key `GetCachedByUsername` uses for a valid user name, and
     * nothing else.
     */
    method RemoveCachedUser(userId: Option<string>, username: Option<string>)
      modifies cache
      ensures cache.entries ==
        old(cache.entries)
          - (if IsValidUserId(userId) then {IdCacheKey(userId.value)} else {})
          - (if IsValidUsername(username) then {UsernameCacheKey(username.value)} else {})
    {
      if IsValidUserId(userId) {
        cache.Remove("UserByID_" + userId.value);
      }
      if IsValidUsername(username) {
        cache.Remove("UserByName_" + ToLower(username.value));
      }
    }
  }

  /**
   * After `RemoveCachedUser`, a valid id or user name misses, so the next
   * lookup runs the loader again; the user name is matched ignoring case.
   */
  lemma RemovedUserMisses<V>(entries: map<string, CacheItem<V>>, userId: Option<string>,
                          username: Option<string>, otherCasing: string)
    requires IsValidUsername(username) && EqualsIgnoreCase(otherCasing, username.value)
    ensures var after := entries
          - (if IsValidUserId(userId) then {IdCacheKey(userId.value)} else {})
          - (if IsValidUsername(username) then {UsernameCacheKey(username.value)} else {});
      && (IsValidUserId(userId) ==> IdCacheKey(userId.value) !in after)
      && UsernameCacheKey(otherCasing) !in after
  {
    UsernameCacheKeyIgnoresCase(otherCasing, username.value);
  }
}
