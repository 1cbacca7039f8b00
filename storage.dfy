/**
 * The browser's `localStorage` as the cache managers see it, and the rules
 * they share. A stored value is either a record the managers wrote
 * (`{data, timestamp, expires}` once parsed), a string that does not parse,
 * or the empty string, which a read treats like a missing item. Times are
 * integer milliseconds passed in by the caller. The enumeration order of
 * `Object.keys(localStorage)` is chosen by the browser and is a parameter.
 */
module Storage {
  import opened Wrappers
  import Sorting
  import Text

  /** The JSON values a cache entry can carry. */
  datatype Json =
    | JNull
    | JBool(b: bool)
    | JNumber(n: int)
    | JString(s: string)
    | JArray(items: seq<Json>)
    | JObject(fields: seq<(string, Json)>)

  /** JavaScript truthiness of a parsed value: `null`, `false`, `0` and `""` are falsy. */
  predicate Truthy(j: Json) {
    match j
    case JNull => false
    case JBool(b) => b
    case JNumber(n) => n != 0
    case JString(s) => s != []
    case _ => true
  }

  datatype Stored = Entry(data: Json, timestamp: int, expires: int) | Malformed | Blank

  type Store = map<string, Stored>

  const Prefix: string := "smart_evaluator_"
  const FiveMinutes: int := 5 * 60 * 1000
  const TenMinutes: int := 10 * 60 * 1000
  /** More prefixed items than this make `clearOldest` evict. */
  const Capacity: nat := 50
  /** How many items one eviction removes at most. */
  const EvictCount: nat := 10

  /** `customDuration || CACHE_DURATION`: a missing or zero duration falls back to the default. */
  function EffectiveDuration(custom: Option<int>, default: int): int {
    if custom.None? || custom.value == 0 then default else custom.value
  }

  /** The item `set` writes: the data, stamped now, expiring after the effective duration. */
  function Written(store: Store, key: string, data: Json, now: int, custom: Option<int>, default: int): Store {
    store[Prefix + key := Entry(data, now, now + EffectiveDuration(custom, default))]
  }

  datatype ReadResult = ReadResult(value: Option<Json>, store: Store)

  /**
   * The read the three managers share once any force-refresh check has
   * passed: nothing for a missing or empty item; the data of a live entry;
   * an expired or unparseable item is removed and reads as nothing.
   */
  function Read(store: Store, key: string, now: int): (r: ReadResult)
    ensures var k := Prefix + key; r.value.Some? <==> k in store && store[k].Entry? && now <= store[k].expires
    ensures var k := Prefix + key; r.value.Some? ==> r.value.value == store[k].data && r.store == store
    ensures var k := Prefix + key; r.value.None? ==> r.store == if k in store && !store[k].Blank? then store - {k} else store
  {
    var k := Prefix + key;
    if k !in store then ReadResult(None, store)
    else match store[k]
      case Blank => ReadResult(None, store)
      case Malformed => ReadResult(None, store - {k})
      case Entry(data, _, expires) =>
        if now > expires then ReadResult(None, store - {k}) else ReadResult(Some(data), store)
  }

  /** What `clearAll` leaves: every item without the prefix. */
  function ClearedAll(store: Store): Store {
    map k | k in store && !Text.StartsWith(k, Prefix) :: store[k]
  }

  /** `order` lists every key of the store exactly once. */
  ghost predicate Enumerates(order: seq<string>, keys: set<string>) {
    && (forall i, j :: 0 <= i < j < |order| ==> order[i] != order[j])
    && (forall k :: k in order <==> k in keys)
  }

  /** `Object.keys(localStorage).filter(key => key.startsWith(PREFIX))`. */
  function PrefixedKeys(order: seq<string>): seq<string> {
    if order == [] then []
    else
      var k := order[|order| - 1];
      PrefixedKeys(order[..|order| - 1]) + (if Text.StartsWith(k, Prefix) then [k] else [])
  }

  datatype Stamp = Stamp(key: string, timestamp: int)

  function StampTime(s: Stamp): real {
    s.timestamp as real
  }

  function StampKey(s: Stamp): string {
    s.key
  }

  /** The keys paired with their timestamps, unparseable and empty items skipped (`filter(Boolean)`). */
  function Stamps(store: Store, keys: seq<string>): seq<Stamp> {
    if keys == [] then []
    else
      var k := keys[|keys| - 1];
      Stamps(store, keys[..|keys| - 1]) + (if k in store && store[k].Entry? then [Stamp(k, store[k].timestamp)] else [])
  }

  /** Every listed key holds a parseable entry (otherwise `JSON.parse` throws). */
  predicate AllEntries(store: Store, keys: seq<string>) {
    forall i :: 0 <= i < |keys| ==> keys[i] in store && store[keys[i]].Entry?
  }

  /** The first ten of the stamps in ascending timestamp order, ties kept in key order. */
  function Oldest(stamps: seq<Stamp>): seq<Stamp> {
    var sorted := Sorting.SortBy(stamps, StampTime);
    sorted[..if |sorted| < EvictCount then |sorted| else EvictCount]
  }

  /** google/app.js `clearOldest`: removes `PREFIX + key.replace(PREFIX, "")` for each of the oldest. */
  function EvictApp(store: Store, order: seq<string>): (r: Store)
    ensures forall k :: k in r ==> k in store && r[k] == store[k]
    ensures forall k :: k in store && !Text.StartsWith(k, Prefix) ==> k in r
    ensures |PrefixedKeys(order)| <= Capacity ==> r == store
  {
    var keys := PrefixedKeys(order);
    if |keys| <= Capacity then store
    else store - (set s | s in Oldest(Stamps(store, keys)) :: Prefix + Text.ReplaceFirst(s.key, Prefix))
  }

  /**
   * google/app2.js `clearOldest`, as written: an unparseable item makes it
   * throw (`None`) before anything is removed, and it removes
   * `PREFIX + key` for keys that already carry the prefix.
   */
  function EvictApp2(store: Store, order: seq<string>): (r: Option<Store>)
    ensures r.None? <==> |PrefixedKeys(order)| > Capacity && !AllEntries(store, PrefixedKeys(order))
    ensures r.Some? ==> forall k :: k in r.value ==> k in store && r.value[k] == store[k]
    ensures r.Some? ==> forall k :: k in store && !Text.StartsWith(k, Prefix) ==> k in r.value
    ensures |PrefixedKeys(order)| <= Capacity ==> r == Some(store)
  {
    var keys := PrefixedKeys(order);
    if |keys| <= Capacity then Some(store)
    else if !AllEntries(store, keys) then None
    else Some(store - (set s | s in Oldest(Stamps(store, keys)) :: Prefix + s.key))
  }

  // ----- reads and writes -----

  /** A read within the lifetime of what `set` wrote returns the data and changes nothing. */
  lemma ReadAfterWrite(store: Store, key: string, data: Json, now: int, custom: Option<int>, default: int, t: int)
    requires t <= now + EffectiveDuration(custom, default)
    ensures var w := Written(store, key, data, now, custom, default);
      Read(w, key, t) == ReadResult(Some(data), w)
  {
  }

  /** A read after the lifetime returns nothing and removes the item. */
  lemma ReadAfterExpiry(store: Store, key: string, data: Json, now: int, custom: Option<int>, default: int, t: int)
    requires t > now + EffectiveDuration(custom, default)
    ensures var w := Written(store, key, data, now, custom, default);
      Read(w, key, t) == ReadResult(None, w - {Prefix + key})
  {
  }

  /** A zero or missing custom duration means the default lifetime. */
  lemma DefaultLifetime(store: Store, key: string, data: Json, now: int, default: int)
    ensures Written(store, key, data, now, None, default) == Written(store, key, data, now, Some(0), default)
    ensures Written(store, key, data, now, None, default)[Prefix + key].expires == now + default
  {
  }

  /** Writing one key leaves every other item as it was. */
  lemma WriteFrame(store: Store, key: string, data: Json, now: int, custom: Option<int>, default: int, other: string)
    requires other != Prefix + key
    ensures var w := Written(store, key, data, now, custom, default);
      (other in w <==> other in store) && (other in store ==> w[other] == store[other])
  {
  }

  /** `clearAll` removes exactly the prefixed items; the others keep their values. */
  lemma ClearedAllFacts(store: Store)
    ensures forall k :: k in ClearedAll(store) <==> k in store && !Text.StartsWith(k, Prefix)
    ensures forall k :: k in ClearedAll(store) ==> ClearedAll(store)[k] == store[k]
    ensures forall key :: Read(ClearedAll(store), key, 0).value == None
  {
    forall key ensures Read(ClearedAll(store), key, 0).value == None {
      assert Text.StartsWith(Prefix + key, Prefix);
    }
  }

  // ----- eviction -----

  lemma {:induction false} PrefixedKeysFacts(order: seq<string>)
    ensures forall k :: k in PrefixedKeys(order) <==> k in order && Text.StartsWith(k, Prefix)
    ensures (forall i, j :: 0 <= i < j < |order| ==> order[i] != order[j]) ==>
      forall i, j :: 0 <= i < j < |PrefixedKeys(order)| ==> PrefixedKeys(order)[i] != PrefixedKeys(order)[j]
  {
    if order != [] {
      var init := order[..|order| - 1];
      PrefixedKeysFacts(init);
      assert order == init + [order[|order| - 1]];
    }
  }

  lemma {:induction false} StampsFacts(store: Store, keys: seq<string>)
    ensures forall s :: s in Stamps(store, keys) ==>
      s.key in keys && s.key in store && store[s.key].Entry? && s.timestamp == store[s.key].timestamp
    ensures forall k :: k in keys && k in store && store[k].Entry? ==> Stamp(k, store[k].timestamp) in Stamps(store, keys)
    ensures AllEntries(store, keys) ==> |Stamps(store, keys)| == |keys|
    ensures (forall i, j :: 0 <= i < j < |keys| ==> keys[i] != keys[j]) ==> Sorting.DistinctBy(Stamps(store, keys), StampKey)
  {
    if keys != [] {
      var init := keys[..|keys| - 1];
      assert keys == init + [keys[|keys| - 1]];
      assert forall k :: k in init ==> k in keys;
      assert AllEntries(store, keys) ==> AllEntries(store, init);
      StampsFacts(store, init);
    }
  }

  lemma {:induction false} DistinctKeysCount(s: seq<Stamp>)
    requires Sorting.DistinctBy(s, StampKey)
    ensures |set x | x in s :: x.key| == |s|
  {
    if s != [] {
      var init := s[..|s| - 1];
      var last := s[|s| - 1];
      assert Sorting.DistinctBy(init, StampKey);
      DistinctKeysCount(init);
      assert s == init + [last];
      assert (set x | x in s :: x.key) == (set x | x in init :: x.key) + {last.key};
      assert last.key !in (set x | x in init :: x.key);
    }
  }

  /** The keys the oldest stamps name, in a store enumerated by `order`. */
  ghost function OldestKeys(store: Store, order: seq<string>): set<string> {
    set s | s in Oldest(Stamps(store, PrefixedKeys(order))) :: s.key
  }

  /** How many items an eviction removes: ten, or every parseable prefixed item when there are fewer. */
  function EvictedCount(parseable: nat): nat {
    if parseable < EvictCount then parseable else EvictCount
  }

  /** What taking the ten oldest stamps guarantees, whatever store they came from. */
  lemma OldestFacts(stamps: seq<Stamp>)
    ensures forall s :: s in Oldest(stamps) ==> s in stamps
    ensures |Oldest(stamps)| == EvictedCount(|stamps|)
    ensures Sorting.DistinctBy(stamps, StampKey) ==> Sorting.DistinctBy(Oldest(stamps), StampKey)
    ensures forall x, o :: x in stamps && x !in Oldest(stamps) && o in Oldest(stamps) ==> o.timestamp <= x.timestamp
  {
    var sorted := Sorting.SortBy(stamps, StampTime);
    var m := if |sorted| < EvictCount then |sorted| else EvictCount;
    Sorting.SortByFacts(stamps, StampTime);
    assert Oldest(stamps) == sorted[..m];
    forall s | s in Oldest(stamps) ensures s in stamps {
      assert s in multiset(sorted);
    }
    if Sorting.DistinctBy(stamps, StampKey) {
      Sorting.SortByDistinct(stamps, StampTime, StampKey);
    }
    forall x, o | x in stamps && x !in Oldest(stamps) && o in Oldest(stamps) ensures o.timestamp <= x.timestamp {
      assert x in multiset(sorted);
      var j :| 0 <= j < |sorted| && sorted[j] == x;
      var i :| 0 <= i < m && sorted[i] == o;
      assert StampTime(sorted[i]) <= StampTime(sorted[j]);
    }
  }

  lemma StripPrefix(k: string)
    requires Text.StartsWith(k, Prefix)
    ensures Prefix + Text.ReplaceFirst(k, Prefix) == k
  {
    assert k == Prefix + k[|Prefix|..];
    Text.ReplaceFirstPrefix(Prefix, k[|Prefix|..]);
  }

  /**
   * google/app.js `clearOldest`: with at most 50 prefixed items nothing
   * changes; otherwise exactly the ten (or all, if fewer) parseable
   * prefixed items with the smallest timestamps are removed, no unparseable
   * one, and every other item keeps its value.
   */
  lemma EvictAppFacts(store: Store, order: seq<string>)
    requires Enumerates(order, store.Keys)
    ensures |PrefixedKeys(order)| <= Capacity ==> EvictApp(store, order) == store
    ensures |PrefixedKeys(order)| > Capacity ==>
      var gone := OldestKeys(store, order);
      && EvictApp(store, order) == store - gone
      && |gone| == EvictedCount(|Stamps(store, PrefixedKeys(order))|)
      && (forall k :: k in gone ==> k in store && Text.StartsWith(k, Prefix) && store[k].Entry?)
      && (forall k, g :: k in store && k !in gone && Text.StartsWith(k, Prefix) && store[k].Entry? && g in gone ==>
            store[g].timestamp <= store[k].timestamp)
  {
    var keys := PrefixedKeys(order);
    if |keys| > Capacity {
      var stamps := Stamps(store, keys);
      var oldest := Oldest(stamps);
      var gone := OldestKeys(store, order);
      PrefixedKeysFacts(order);
      StampsFacts(store, keys);
      OldestFacts(stamps);
      DistinctKeysCount(oldest);
      forall s | s in oldest ensures Prefix + Text.ReplaceFirst(s.key, Prefix) == s.key {
        StripPrefix(s.key);
      }
      assert (set s | s in oldest :: Prefix + Text.ReplaceFirst(s.key, Prefix)) == gone;
      forall k, g | k in store && k !in gone && Text.StartsWith(k, Prefix) && store[k].Entry? && g in gone
        ensures store[g].timestamp <= store[k].timestamp
      {
        var sk := Stamp(k, store[k].timestamp);
        assert sk in stamps;
        assert sk !in oldest;
        var sg :| sg in oldest && sg.key == g;
      }
    }
  }

  lemma PrefixTwice(k: string)
    requires Text.StartsWith(k, Prefix)
    ensures Text.StartsWith(Prefix + k, Prefix + Prefix)
  {
    assert (Prefix + k)[..|Prefix + Prefix|] == Prefix + k[..|Prefix|];
  }

  lemma RemoveAbsent(store: Store, gone: set<string>)
    requires forall k :: k in gone ==> k !in store
    ensures store - gone == store
  {
  }

  /**
   * google/app2.js `clearOldest` as written: when no key carries the prefix
   * twice, it never removes anything (it either throws or leaves the store).
   */
  lemma EvictApp2RemovesNothing(store: Store, order: seq<string>)
    requires forall k :: k in store ==> !Text.StartsWith(k, Prefix + Prefix)
    ensures EvictApp2(store, order) == None || EvictApp2(store, order) == Some(store)
  {
    var keys := PrefixedKeys(order);
    if |keys| > Capacity && AllEntries(store, keys) {
      var gone := set s | s in Oldest(Stamps(store, keys)) :: Prefix + s.key;
      OldestFacts(Stamps(store, keys));
      StampsFacts(store, keys);
      PrefixedKeysFacts(order);
      forall k | k in gone ensures k !in store {
        var s :| s in Oldest(Stamps(store, keys)) && k == Prefix + s.key;
        PrefixTwice(s.key);
      }
      RemoveAbsent(store, gone);
    }
  }

  /**
   * The two copies side by side on a full cache of parseable items: the
   * copy in google/app.js frees ten items where the one in google/app2.js
   * frees none.
   */
  lemma EvictionCopiesDiffer(store: Store, order: seq<string>)
    requires Enumerates(order, store.Keys)
    requires |PrefixedKeys(order)| > Capacity
    requires AllEntries(store, PrefixedKeys(order))
    requires forall k :: k in store ==> !Text.StartsWith(k, Prefix + Prefix)
    ensures EvictApp2(store, order) == Some(store)
    ensures |EvictApp(store, order)| == |store| - EvictCount
  {
    EvictApp2RemovesNothing(store, order);
    EvictAppFacts(store, order);
    StampsFacts(store, PrefixedKeys(order));
    var gone := OldestKeys(store, order);
    assert gone <= store.Keys;
    assert (store - gone).Keys == store.Keys - gone;
  }

  // ----- the loops the three managers share -----

  /** `Object.keys(localStorage).filter(key => key.startsWith(PREFIX))`. */
  method PrefixedOf(order: seq<string>) returns (keys: seq<string>)
    ensures keys == PrefixedKeys(order)
  {
    keys := [];
    var i := 0;
    while i < |order|
      invariant 0 <= i <= |order|
      invariant keys == PrefixedKeys(order[..i])
    {
      assert order[..i + 1][..i] == order[..i];
      if Prefix <= order[i] {
        keys := keys + [order[i]];
      }
      i := i + 1;
    }
    assert order[..i] == order;
  }

  /** The `clearAll` loop: every prefixed key the enumeration lists is removed. */
  method RemovePrefixed(store0: Store, order: seq<string>) returns (store: Store)
    requires Enumerates(order, store0.Keys)
    ensures store == ClearedAll(store0)
  {
    store := store0;
    var i := 0;
    while i < |order|
      invariant 0 <= i <= |order|
      invariant store.Keys == set k | k in store0 && !(k in order[..i] && Text.StartsWith(k, Prefix))
      invariant forall k :: k in store ==> store[k] == store0[k]
    {
      if Prefix <= order[i] {
        store := store - {order[i]};
      }
      assert forall k :: k in order[..i + 1] <==> k in order[..i] || k == order[i];
      i := i + 1;
    }
    assert order[..i] == order;
    assert store.Keys == ClearedAll(store0).Keys;
  }
}
