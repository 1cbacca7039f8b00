/**
 * The cache manager of google/app2.js: a five-minute lifetime, a
 * `forceRefresh` flag consulted after the item is read, a `set` that on a
 * failed write evicts and retries once without catching a second failure,
 * and a `clearOldest` that throws on an unparseable item and removes
 * `PREFIX + key` for keys that already carry the prefix. A write that does
 * not fit the browser's quota is decided by the caller (`fits` flags).
 */
module App2Cache {
  import opened Wrappers
  import opened Storage
  import Sorting
  import Text

  /** Whether a call returned normally (`false`: it threw), and the store it leaves. */
  datatype Outcome = Outcome(ok: bool, store: Store)

  /** `get`: the force-refresh flag is only looked at once the item has been found non-empty. */
  function GetOutcome(store: Store, forceRefresh: bool, key: string, now: int): (r: ReadResult)
    ensures forceRefresh ==> r == ReadResult(None, store)
    ensures !forceRefresh ==> r == Read(store, key, now)
  {
    var k := Prefix + key;
    if k !in store || store[k].Blank? || forceRefresh then ReadResult(None, store) else Read(store, key, now)
  }

  /** `set`: write; on failure evict, then write again, and let a second failure (or a throwing eviction) escape. */
  function SetOutcome(store: Store, key: string, data: Json, now: int, custom: Option<int>,
                      firstFits: bool, retryFits: bool, order: seq<string>): (r: Outcome)
    ensures firstFits ==> r.ok
    ensures r.ok ==> Prefix + key in r.store && r.store[Prefix + key] == Entry(data, now, now + EffectiveDuration(custom, FiveMinutes))
    ensures forall k :: k in r.store && k != Prefix + key ==> k in store && r.store[k] == store[k]
    ensures forall k :: k in store && !Text.StartsWith(k, Prefix) ==> k in r.store
  {
    if firstFits then Outcome(true, Written(store, key, data, now, custom, FiveMinutes))
    else match EvictApp2(store, order)
      case None => Outcome(false, store)
      case Some(evicted) =>
        if retryFits then Outcome(true, Written(evicted, key, data, now, custom, FiveMinutes))
        else Outcome(false, evicted)
  }

  /** The `keys.map(key => ({key, timestamp: JSON.parse(...).timestamp}))` of `clearOldest`, which throws on a bad item. */
  method ParseStamps(store: Store, keys: seq<string>) returns (stamps: Option<seq<Stamp>>)
    ensures stamps == if AllEntries(store, keys) then Some(Stamps(store, keys)) else None
  {
    var acc: seq<Stamp> := [];
    var i := 0;
    while i < |keys|
      invariant 0 <= i <= |keys|
      invariant acc == Stamps(store, keys[..i])
      invariant AllEntries(store, keys[..i])
    {
      assert keys[..i + 1][..i] == keys[..i];
      var k := keys[i];
      if !(k in store && store[k].Entry?) {
        return None;
      }
      acc := acc + [Stamp(k, store[k].timestamp)];
      i := i + 1;
    }
    assert keys[..i] == keys;
    return Some(acc);
  }

  class CacheManager {
    /** The browser's `localStorage`, as far as this manager reads and writes it. */
    var store: Store
    var forceRefresh: bool
    const cacheDuration: int := FiveMinutes

    constructor(initial: Store)
      ensures store == initial && !forceRefresh
    {
      store := initial;
      forceRefresh := false;
    }

    method Clear(key: string)
      modifies this
      ensures store == old(store) - {Prefix + key}
      ensures forceRefresh == old(forceRefresh)
    {
      store := store - {Prefix + key};
    }

    method ClearAll(order: seq<string>)
      requires Enumerates(order, store.Keys)
      modifies this
      ensures store == ClearedAll(old(store))
      ensures forceRefresh == old(forceRefresh)
    {
      store := RemovePrefixed(store, order);
    }

    method Get(key: string, now: int) returns (r: Option<Json>)
      modifies this
      ensures ReadResult(r, store) == GetOutcome(old(store), old(forceRefresh), key, now)
      ensures forceRefresh == old(forceRefresh)
    {
      var k := Prefix + key;
      if k !in store || store[k].Blank? || forceRefresh {
        return None;
      }
      var item := store[k];
      if item.Malformed? {
        Clear(key);
        return None;
      }
      if now > item.expires {
        Clear(key);
        return None;
      }
      return Some(item.data);
    }

    /** The `forEach(item => this.clear(item.key))` of `clearOldest`. */
    method ClearEach(oldest: seq<Stamp>)
      modifies this
      ensures store == old(store) - (set s | s in oldest :: Prefix + s.key)
      ensures forceRefresh == old(forceRefresh)
    {
      var j := 0;
      while j < |oldest|
        invariant 0 <= j <= |oldest|
        invariant store == old(store) - (set s | s in oldest[..j] :: Prefix + s.key)
        invariant forceRefresh == old(forceRefresh)
      {
        assert (set s | s in oldest[..j + 1] :: Prefix + s.key)
            == (set s | s in oldest[..j] :: Prefix + s.key) + {Prefix + oldest[j].key};
        Clear(oldest[j].key);
        j := j + 1;
      }
      assert oldest[..j] == oldest;
    }

    /** `clearOldest`; `ok` is false where `JSON.parse` throws on an item. */
    method ClearOldest(order: seq<string>) returns (ok: bool)
      requires Enumerates(order, store.Keys)
      modifies this
      ensures ok == EvictApp2(old(store), order).Some?
      ensures store == if ok then EvictApp2(old(store), order).value else old(store)
      ensures forceRefresh == old(forceRefresh)
    {
      var keys := PrefixedOf(order);
      if |keys| <= Capacity {
        return true;
      }
      var stamps := ParseStamps(store, keys);
      if stamps.None? {
        return false;
      }
      ClearEach(Oldest(stamps.value));
      return true;
    }

    /** `set(key, data, customDuration)`; `ok` is false where the call throws. */
    method Set(key: string, data: Json, customDuration: Option<int>, now: int,
               firstFits: bool, retryFits: bool, order: seq<string>) returns (ok: bool)
      requires Enumerates(order, store.Keys)
      modifies this
      ensures Outcome(ok, store) == SetOutcome(old(store), key, data, now, customDuration, firstFits, retryFits, order)
      ensures forceRefresh == old(forceRefresh)
    {
      var cacheData := Entry(data, now, now + EffectiveDuration(customDuration, cacheDuration));
      if firstFits {
        store := store[Prefix + key := cacheData];
        return true;
      }
      var cleared := ClearOldest(order);
      if !cleared {
        return false;
      }
      if retryFits {
        store := store[Prefix + key := cacheData];
        return true;
      }
      return false;
    }
  }

  /** While the flag is set, `get` returns nothing and leaves the store alone. */
  lemma ForceRefreshHides(store: Store, key: string, now: int)
    ensures GetOutcome(store, true, key, now) == ReadResult(None, store)
  {
  }

  /** A successful `set` followed, within the lifetime and without the flag, by `get` returns the data. */
  lemma SetThenGet(store: Store, key: string, data: Json, now: int, custom: Option<int>,
                   firstFits: bool, retryFits: bool, order: seq<string>, t: int)
    requires t <= now + EffectiveDuration(custom, FiveMinutes)
    requires SetOutcome(store, key, data, now, custom, firstFits, retryFits, order).ok
    ensures var s := SetOutcome(store, key, data, now, custom, firstFits, retryFits, order).store;
      GetOutcome(s, false, key, t) == ReadResult(Some(data), s)
  {
    var s := SetOutcome(store, key, data, now, custom, firstFits, retryFits, order).store;
    if firstFits {
      ReadAfterWrite(store, key, data, now, custom, FiveMinutes, t);
    } else {
      ReadAfterWrite(EvictApp2(store, order).value, key, data, now, custom, FiveMinutes, t);
    }
  }

  /**
   * The retry after a failed write runs on an unchanged store whenever no
   * key carries the prefix twice: the eviction frees nothing.
   */
  lemma RetryOnUnchangedStore(store: Store, key: string, data: Json, now: int, custom: Option<int>,
                              retryFits: bool, order: seq<string>)
    requires forall k :: k in store ==> !Text.StartsWith(k, Prefix + Prefix)
    ensures var r := SetOutcome(store, key, data, now, custom, false, retryFits, order);
      r.store == store || r.store == Written(store, key, data, now, custom, FiveMinutes)
  {
    EvictApp2RemovesNothing(store, order);
  }

  /**
   * A write that does not fit the unchanged store does not fit the retry
   * either: the call throws, and the store is as it was.
   */
  lemma UnfitWriteThrows(store: Store, key: string, data: Json, now: int, custom: Option<int>, order: seq<string>)
    requires forall k :: k in store ==> !Text.StartsWith(k, Prefix + Prefix)
    ensures var r := SetOutcome(store, key, data, now, custom, false, false, order);
      !r.ok && r.store == store
  {
    EvictApp2RemovesNothing(store, order);
  }
}
