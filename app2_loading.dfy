/**
 * The read-through loads of google/app2.js (`loadGroups`, `loadStudents`):
 * the cache is consulted first, and only a miss (a falsy cached value)
 * queries the database and caches the answer under `groups_data` or
 * `students_data`. The query's answer is a parameter (`None` where it
 * throws); the collections are kept as the JSON the cache holds.
 */
module App2Loading {
  import opened Wrappers
  import opened Storage
  import opened App2Cache

  datatype Loaded = Loaded(value: Json, store: Store)

  const GroupsKey: string := "groups_data"
  const StudentsKey: string := "students_data"

  /** The catch block of `loadGroups`: a second `get`, whose truthy value replaces the groups. */
  function Reread(store: Store, forceRefresh: bool, current: Json, now: int): Loaded {
    var c := GetOutcome(store, forceRefresh, GroupsKey, now);
    if c.value.Some? && Truthy(c.value.value) then Loaded(c.value.value, c.store) else Loaded(current, c.store)
  }

  /** The store a cache miss leaves before any write: the first `get` may have dropped a stale item. */
  function AfterFirstGet(store: Store, forceRefresh: bool, key: string, now: int): Store {
    GetOutcome(store, forceRefresh, key, now).store
  }

  function GroupsLoaded(store: Store, forceRefresh: bool, groups: Json, remote: Option<Json>, now: int,
                        firstFits: bool, retryFits: bool, order: seq<string>): (r: Loaded)
    ensures forall k :: k in r.store && k != Prefix + GroupsKey ==> k in store && r.store[k] == store[k]
    ensures forceRefresh && remote.Some? && firstFits ==> r.value == remote.value
    ensures forceRefresh && remote.None? ==> r == Loaded(groups, store)
  {
    var c := GetOutcome(store, forceRefresh, GroupsKey, now);
    if c.value.Some? && Truthy(c.value.value) then Loaded(c.value.value, c.store)
    else if remote.None? then Reread(c.store, forceRefresh, groups, now)
    else
      var w := SetOutcome(c.store, GroupsKey, remote.value, now, None, firstFits, retryFits, order);
      if w.ok then Loaded(remote.value, w.store) else Reread(w.store, forceRefresh, remote.value, now)
  }

  /** As `loadGroups`, except that its catch block only reports the error. */
  function StudentsLoaded(store: Store, forceRefresh: bool, students: Json, remote: Option<Json>, now: int,
                          firstFits: bool, retryFits: bool, order: seq<string>): (r: Loaded)
    ensures forall k :: k in r.store && k != Prefix + StudentsKey ==> k in store && r.store[k] == store[k]
    ensures forceRefresh && remote.Some? ==> r.value == remote.value
    ensures forceRefresh && remote.None? ==> r == Loaded(students, store)
  {
    var c := GetOutcome(store, forceRefresh, StudentsKey, now);
    if c.value.Some? && Truthy(c.value.value) then Loaded(c.value.value, c.store)
    else if remote.None? then Loaded(students, c.store)
    else
      var w := SetOutcome(c.store, StudentsKey, remote.value, now, None, firstFits, retryFits, order);
      Loaded(remote.value, w.store)
  }

  class Loader {
    const cache: CacheManager
    var groups: Json
    var students: Json

    constructor(cache: CacheManager)
      ensures this.cache == cache && groups == JArray([]) && students == JArray([])
    {
      this.cache := cache;
      groups := JArray([]);
      students := JArray([]);
    }

    method LoadGroups(remote: Option<Json>, now: int, firstFits: bool, retryFits: bool, order: seq<string>)
      requires Enumerates(order, AfterFirstGet(cache.store, cache.forceRefresh, GroupsKey, now).Keys)
      modifies this, cache
      ensures Loaded(groups, cache.store)
           == GroupsLoaded(old(cache.store), old(cache.forceRefresh), old(groups), remote, now, firstFits, retryFits, order)
      ensures students == old(students) && cache.forceRefresh == old(cache.forceRefresh)
    {
      var cached := cache.Get(GroupsKey, now);
      if cached.Some? && Truthy(cached.value) {
        groups := cached.value;
        return;
      }
      if remote.None? {
        var again := cache.Get(GroupsKey, now);
        if again.Some? && Truthy(again.value) {
          groups := again.value;
        }
        return;
      }
      groups := remote.value;
      var ok := cache.Set(GroupsKey, remote.value, None, now, firstFits, retryFits, order);
      if !ok {
        var again := cache.Get(GroupsKey, now);
        if again.Some? && Truthy(again.value) {
          groups := again.value;
        }
      }
    }

    method LoadStudents(remote: Option<Json>, now: int, firstFits: bool, retryFits: bool, order: seq<string>)
      requires Enumerates(order, AfterFirstGet(cache.store, cache.forceRefresh, StudentsKey, now).Keys)
      modifies this, cache
      ensures Loaded(students, cache.store)
           == StudentsLoaded(old(cache.store), old(cache.forceRefresh), old(students), remote, now, firstFits, retryFits, order)
      ensures groups == old(groups) && cache.forceRefresh == old(cache.forceRefresh)
    {
      var cached := cache.Get(StudentsKey, now);
      if cached.Some? && Truthy(cached.value) {
        students := cached.value;
        return;
      }
      if remote.None? {
        return;
      }
      students := remote.value;
      var _ := cache.Set(StudentsKey, remote.value, None, now, firstFits, retryFits, order);
    }
  }

  /** A cache hit does not depend on what the database would answer: no query is made. */
  lemma GroupsHitIgnoresRemote(store: Store, forceRefresh: bool, groups: Json, r1: Option<Json>, r2: Option<Json>, now: int,
                               firstFits: bool, retryFits: bool, order: seq<string>)
    requires var c := GetOutcome(store, forceRefresh, GroupsKey, now); c.value.Some? && Truthy(c.value.value)
    ensures GroupsLoaded(store, forceRefresh, groups, r1, now, firstFits, retryFits, order)
         == GroupsLoaded(store, forceRefresh, groups, r2, now, firstFits, retryFits, order)
    ensures GroupsLoaded(store, forceRefresh, groups, r1, now, firstFits, retryFits, order).store == store
  {
  }

  /** A miss answered by the database, written without a quota failure, is served by the next read. */
  lemma GroupsMissIsCached(store: Store, forceRefresh: bool, groups: Json, d: Json, now: int,
                           retryFits: bool, order: seq<string>, t: int)
    requires var c := GetOutcome(store, forceRefresh, GroupsKey, now); !(c.value.Some? && Truthy(c.value.value))
    requires t <= now + FiveMinutes
    ensures var l := GroupsLoaded(store, forceRefresh, groups, Some(d), now, true, retryFits, order);
      && l.value == d
      && GetOutcome(l.store, false, GroupsKey, t).value == Some(d)
  {
    var c := GetOutcome(store, forceRefresh, GroupsKey, now);
    SetThenGet(c.store, GroupsKey, d, now, None, true, retryFits, order, t);
  }
}
