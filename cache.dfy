/** The time-based cache: a map from keys to byte slices, each stored with
    an expiration instant set to the storing time plus the cache's TTL. An
    entry counts as expired only strictly after its expiration instant.

    Instants and durations are integers (nanoseconds); each operation takes
    the clock reading it would make as a parameter. */
module TtlCache {
  import opened Wrappers

  datatype CacheItem = CacheItem(data: Bytes, expiration: int)

  /** time.Now().After(item.Expiration) */
  predicate Expired(item: CacheItem, now: int)
  {
    now > item.expiration
  }

  /** What a lookup at `now` may return: the data of a live entry. */
  function Lookup(items: map<string, CacheItem>, key: string, now: int): (r: Option<Bytes>)
    ensures r.Some? <==> key in items && now <= items[key].expiration
    ensures r.Some? ==> r.value == items[key].data
  {
    if key in items && !Expired(items[key], now) then Some(items[key].data) else None
  }

  /** The map after a lookup at `now`: an expired entry under `key` is
      deleted, nothing else changes. */
  function AfterGet(items: map<string, CacheItem>, key: string, now: int): (r: map<string, CacheItem>)
    ensures forall k :: k in r <==> k in items && (k != key || !Expired(items[k], now))
    ensures forall k :: k in r ==> r[k] == items[k]
  {
    if key in items && Expired(items[key], now) then items - {key} else items
  }

  /** The map after a sweep at `now`: exactly the live entries, unchanged. */
  function Sweep(items: map<string, CacheItem>, now: int): (r: map<string, CacheItem>)
    ensures forall k :: k in r <==> k in items && !Expired(items[k], now)
    ensures forall k :: k in r ==> r[k] == items[k]
  {
    map k | k in items && !Expired(items[k], now) :: items[k]
  }

  class Cache {
    var items: map<string, CacheItem>
    const ttl: int

    /** New: an empty cache with the given TTL. */
    constructor(ttl: int)
      ensures items == map[] && this.ttl == ttl
    {
      items := map[];
      this.ttl := ttl;
    }

    /** Get at clock reading `now`. A miss is (nil, false) with the map left
        alone; an expired entry is deleted and reported as a miss; a live
        entry's data is returned. */
    method Get(key: string, now: int) returns (data: Bytes, found: bool)
      modifies this
      ensures found <==> Lookup(old(items), key, now).Some?
      ensures found ==> data == old(items)[key].data
      ensures !found ==> data == []
      ensures items == AfterGet(old(items), key, now)
    {
      if key !in items {
        return [], false;
      }
      var item := items[key];
      if Expired(item, now) {
        items := items - {key};
        return [], false;
      }
      return item.data, true;
    }

    /** Set at clock reading `now`: the entry expires at now + ttl. */
    method Set(key: string, data: Bytes, now: int)
      modifies this
      ensures items == old(items)[key := CacheItem(data, now + ttl)]
    {
      items := items[key := CacheItem(data, now + ttl)];
    }

    /** Cleanup at clock reading `now`: every key is visited once, in no
        particular order, and deleted when its entry has expired. */
    method Cleanup(now: int)
      modifies this
      ensures items == Sweep(old(items), now)
    {
      ghost var original := items;
      var keys := items.Keys;
      while keys != {}
        invariant keys <= original.Keys
        invariant forall k :: k in items <==> k in original && (k in keys || !Expired(original[k], now))
        invariant forall k :: k in items ==> items[k] == original[k]
        decreases keys
      {
        var key :| key in keys;
        if Expired(items[key], now) {
          items := items - {key};
        }
        keys := keys - {key};
      }
      assert items.Keys == Sweep(original, now).Keys;
    }
  }

  /** Set(key, data) at `t`, then Get(key) at `later`: the data comes back
      exactly while later <= t + ttl. */
  lemma SetThenGet(items: map<string, CacheItem>, key: string, data: Bytes, t: int, ttl: int, later: int)
    ensures Lookup(items[key := CacheItem(data, t + ttl)], key, later) == if later <= t + ttl then Some(data) else None
  {
  }

  /** Set leaves every other key as it was. */
  lemma SetOthersUnchanged(items: map<string, CacheItem>, key: string, data: Bytes, t: int, ttl: int, other: string, now: int)
    requires other != key
    ensures Lookup(items[key := CacheItem(data, t + ttl)], other, now) == Lookup(items, other, now)
  {
  }

  /** A miss leaves the map unchanged. */
  lemma GetMissingUnchanged(items: map<string, CacheItem>, key: string, now: int)
    requires key !in items
    ensures Lookup(items, key, now) == None && AfterGet(items, key, now) == items
  {
  }

  /** An expired entry is reported as a miss and only its key is removed. */
  lemma GetExpiredRemovesOnlyKey(items: map<string, CacheItem>, key: string, now: int)
    requires key in items && Expired(items[key], now)
    ensures Lookup(items, key, now) == None
    ensures AfterGet(items, key, now) == items - {key}
  {
  }

  /** Neither a lookup's deletion nor a sweep changes what any later lookup
      returns: both only drop entries that stay expired. */
  lemma HousekeepingInvisible(items: map<string, CacheItem>, key: string, now: int, k: string, later: int)
    requires now <= later
    ensures Lookup(AfterGet(items, key, now), k, later) == Lookup(items, k, later)
    ensures Lookup(Sweep(items, now), k, later) == Lookup(items, k, later)
  {
  }

  /** A sweep at a fixed instant is idempotent. */
  lemma SweepIdempotent(items: map<string, CacheItem>, now: int)
    ensures Sweep(Sweep(items, now), now) == Sweep(items, now)
  {
    assert Sweep(Sweep(items, now), now).Keys == Sweep(items, now).Keys;
  }

  /** A sweep never grows the map. */
  lemma SweepShrinks(items: map<string, CacheItem>, now: int)
    ensures Sweep(items, now).Keys <= items.Keys
    ensures |Sweep(items, now)| <= |items|
  {
    var kept := Sweep(items, now).Keys;
    assert kept <= items.Keys;
    SubsetCardinality(kept, items.Keys);
  }

  lemma {:induction false} SubsetCardinality<T>(a: set<T>, b: set<T>)
    requires a <= b
    ensures |a| <= |b|
    decreases |b|
  {
    if b != {} {
      var x :| x in b;
      SubsetCardinality(a - {x}, b - {x});
    }
  }
}
