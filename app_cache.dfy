/**
 * The cache manager of google/app.js: a five-minute lifetime, a
 * `forceRefresh` flag checked before anything is read, a `set` that on a
 * failed write evicts and retries once and swallows a second failure, and a
 * `clearOldest` that skips unparseable items and strips the prefix before
 * calling `clear`.
 */
module AppCache {
  import opened Wrappers
  import opened Storage
  import Text

  /** `get`: with the flag set nothing is read or removed. */
  function GetOutcome(store: Store, forceRefresh: bool, key: string, now: int): (r: ReadResult)
    ensures var k := Prefix + key; r.value.Some? <==> !forceRefresh && k in store && store[k].Entry? && now <= store[k].expires
    ensures r.store == store || r.store == store - {Prefix + key}
    ensures forceRefresh ==> r.store == store
  {
    if forceRefresh then ReadResult(None, store) else Read(store, key, now)
  }

  /** `set`, which never throws: a failed retry leaves the evicted store. */
  function SetStore(store: Store, key: string, data: Json, now: int, custom: Option<int>,
                    firstFits: bool, retryFits: bool, order: seq<string>): (r: Store)
    ensures firstFits || retryFits ==> Prefix + key in r && r[Prefix + key] == Entry(data, now, now + EffectiveDuration(custom, FiveMinutes))
    ensures forall k :: k in r && k != Prefix + key ==> k in store && r[k] == store[k]
    ensures forall k :: k in store && !Text.StartsWith(k, Prefix) ==> k in r
  {
    if firstFits then Written(store, key, data, now, custom, FiveMinutes)
    else
      var evicted := EvictApp(store, order);
      if retryFits then Written(evicted, key, data, now, custom, FiveMinutes) else evicted
  }

  /** The `map`/`filter(Boolean)` of `clearOldest`: unparseable items yield no stamp. */
  method CollectStamps(store: Store, keys: seq<string>) returns (stamps: seq<Stamp>)
    ensures stamps == Stamps(store, keys)
  {
    stamps := [];
    var i := 0;
    while i < |keys|
      invariant 0 <= i <= |keys|
      invariant stamps == Stamps(store, keys[..i])
    {
      assert keys[..i + 1][..i] == keys[..i];
      var k := keys[i];
      if k in store && store[k].Entry? {
        stamps := stamps + [Stamp(k, store[k].timestamp)];
      }
      i := i + 1;
    }
    assert keys[..i] == keys;
  }

  class CacheManager {
    var store: Store
    var forceRefresh: bool
    const cacheDuration: int := FiveMinutes

    constructor(initial: Store)
      ensures store == initial && !forceRefresh
    {
      store := initial;
      forceRefresh := false;
    }

    method Clear(key: string)
      modifies this
      ensures store == old(store) - {Prefix + key}
      ensures forceRefresh == old(forceRefresh)
    {
      store := store - {Prefix + key};
    }

    method ClearAll(order: seq<string>)
      requires Enumerates(order, store.Keys)
      modifies this
      ensures store == ClearedAll(old(store))
      ensures forceRefresh == old(forceRefresh)
    {
      store := RemovePrefixed(store, order);
    }

    method Get(key: string, now: int) returns (r: Option<Json>)
      modifies this
      ensures ReadResult(r, store) == GetOutcome(old(store), old(forceRefresh), key, now)
      ensures forceRefresh == old(forceRefresh)
    {
      if forceRefresh {
        return None;
      }
      var k := Prefix + key;
      if k !in store || store[k].Blank? {
        return None;
      }
      var item := store[k];
      if item.Malformed? || now > item.expires {
        Clear(key);
        return None;
      }
      return Some(item.data);
    }

    /** The `forEach(item => this.clear(item.key.replace(PREFIX, "")))` of `clearOldest`. */
    method ClearEach(oldest: seq<Stamp>)
      modifies this
      ensures store == old(store) - (set s | s in oldest :: Prefix + Text.ReplaceFirst(s.key, Prefix))
      ensures forceRefresh == old(forceRefresh)
    {
      var j := 0;
      while j < |oldest|
        invariant 0 <= j <= |oldest|
        invariant store == old(store) - (set s | s in oldest[..j] :: Prefix + Text.ReplaceFirst(s.key, Prefix))
        invariant forceRefresh == old(forceRefresh)
      {
        assert (set s | s in oldest[..j + 1] :: Prefix + Text.ReplaceFirst(s.key, Prefix))
            == (set s | s in oldest[..j] :: Prefix + Text.ReplaceFirst(s.key, Prefix))
               + {Prefix + Text.ReplaceFirst(oldest[j].key, Prefix)};
        Clear(Text.ReplaceFirst(oldest[j].key, Prefix));
        j := j + 1;
      }
      assert oldest[..j] == oldest;
    }

    method ClearOldest(order: seq<string>)
      requires Enumerates(order, store.Keys)
      modifies this
      ensures store == EvictApp(old(store), order)
      ensures forceRefresh == old(forceRefresh)
    {
      var keys := PrefixedOf(order);
      if |keys| > Capacity {
        var stamps := CollectStamps(store, keys);
        ClearEach(Oldest(stamps));
      }
    }

    /** `set(key, data, customDuration)`; whether the browser accepts each write is given by the flags. */
    method Set(key: string, data: Json, customDuration: Option<int>, now: int,
               firstFits: bool, retryFits: bool, order: seq<string>)
      requires Enumerates(order, store.Keys)
      modifies this
      ensures store == SetStore(old(store), key, data, now, customDuration, firstFits, retryFits, order)
      ensures forceRefresh == old(forceRefresh)
    {
      var cacheData := Entry(data, now, now + EffectiveDuration(customDuration, cacheDuration));
      if firstFits {
        store := store[Prefix + key := cacheData];
        return;
      }
      ClearOldest(order);
      if retryFits {
        store := store[Prefix + key := cacheData];
      }
    }
  }

  /** While the flag is set, `get` returns nothing and removes nothing, whatever the store holds. */
  lemma ForceRefreshFirst(store: Store, key: string, now: int)
    ensures GetOutcome(store, true, key, now) == ReadResult(None, store)
  {
  }

  /**
   * After `set`, whichever write succeeded, a read within the lifetime returns
   * the data; if both writes failed, the only change is the eviction.
   */
  lemma SetThenGet(store: Store, key: string, data: Json, now: int, custom: Option<int>,
                   firstFits: bool, retryFits: bool, order: seq<string>, t: int)
    requires Enumerates(order, store.Keys)
    requires t <= now + EffectiveDuration(custom, FiveMinutes)
    ensures var s := SetStore(store, key, data, now, custom, firstFits, retryFits, order);
      && (firstFits || retryFits ==> GetOutcome(s, false, key, t) == ReadResult(Some(data), s))
      && (!firstFits && !retryFits ==> s == EvictApp(store, order))
  {
    if firstFits {
      ReadAfterWrite(store, key, data, now, custom, FiveMinutes, t);
    } else if retryFits {
      ReadAfterWrite(EvictApp(store, order), key, data, now, custom, FiveMinutes, t);
    }
  }
}
