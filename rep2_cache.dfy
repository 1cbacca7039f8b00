/**
 * The cache manager of rep2/app.js: a ten-minute lifetime, no force-refresh
 * flag and no eviction; a write that does not fit the quota (`fits` false)
 * throws out of `set` and leaves the store as it was.
 */
module Rep2Cache {
  import opened Wrappers
  import opened Storage

  datatype Outcome = Outcome(ok: bool, store: Store)

  function SetOutcome(store: Store, key: string, data: Json, now: int, custom: Option<int>, fits: bool): Outcome {
    if fits then Outcome(true, Written(store, key, data, now, custom, TenMinutes)) else Outcome(false, store)
  }

  class CacheManager {
    var store: Store
    const cacheDuration: int := TenMinutes

    constructor(initial: Store)
      ensures store == initial
    {
      store := initial;
    }

    method Set(key: string, data: Json, customDuration: Option<int>, now: int, fits: bool) returns (ok: bool)
      modifies this
      ensures Outcome(ok, store) == SetOutcome(old(store), key, data, now, customDuration, fits)
    {
      if !fits {
        return false;
      }
      store := store[Prefix + key := Entry(data, now, now + EffectiveDuration(customDuration, cacheDuration))];
      return true;
    }

    method Get(key: string, now: int) returns (r: Option<Json>)
      modifies this
      ensures ReadResult(r, store) == Read(old(store), key, now)
    {
      var k := Prefix + key;
      if k !in store || store[k].Blank? {
        return None;
      }
      var item := store[k];
      if item.Malformed? || now > item.expires {
        Clear(key);
        return None;
      }
      return Some(item.data);
    }

    method Clear(key: string)
      modifies this
      ensures store == old(store) - {Prefix + key}
    {
      store := store - {Prefix + key};
    }

    method ClearAll(order: seq<string>)
      requires Enumerates(order, store.Keys)
      modifies this
      ensures store == ClearedAll(old(store))
    {
      store := RemovePrefixed(store, order);
    }
  }

  /**
   * An entry written without a custom duration is served for ten minutes and
   * no longer: a read at or before `now + 10 min` returns it, a later one
   * removes it.
   */
  lemma TenMinuteLifetime(store: Store, key: string, data: Json, now: int, t: int)
    ensures var s := SetOutcome(store, key, data, now, None, true).store;
      && (t <= now + TenMinutes ==> Read(s, key, t) == ReadResult(Some(data), s))
      && (t > now + TenMinutes ==> Read(s, key, t) == ReadResult(None, s - {Prefix + key}))
  {
    if t <= now + TenMinutes {
      ReadAfterWrite(store, key, data, now, None, TenMinutes, t);
    } else {
      ReadAfterExpiry(store, key, data, now, None, TenMinutes, t);
    }
  }
}
