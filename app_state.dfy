/**
 * The state updates of google/app.js: the read-through `fetchData`, the
 * in-memory side of `addGroup`, `deleteGroup` and `deleteAdmin`, the
 * private-page guard of `navigateTo` and the `getFriendlyError` mapping.
 * Database calls are parameters: the document id the database assigns
 * (`None` where the call throws), whether the user confirmed the delete
 * dialog, and whether the remote delete succeeded. `localeCompare` is an
 * arbitrary collation key on names.
 */
module AppState {
  import opened Wrappers
  import opened Domain
  import opened Storage
  import AppCache
  import Seqs
  import Sorting
  import Text

  const PublicPages: seq<string> := ["dashboard", "all-students", "group-policy", "export", "student-ranking", "group-analysis"]
  const PrivatePages: seq<string> := ["groups", "members", "group-members", "tasks", "evaluation", "admin-management"]

  datatype Fetched = Fetched(value: Option<Json>, store: Store)

  /** `fetchData(collection)`: a truthy cached value, else the database's answer, cached under `<collection>_data`. */
  function FetchOutcome(store: Store, forceRefresh: bool, collection: string, remote: Option<Json>, now: int,
                        firstFits: bool, retryFits: bool, order: seq<string>): Fetched
  {
    var key := collection + "_data";
    var c := AppCache.GetOutcome(store, forceRefresh, key, now);
    if c.value.Some? && Truthy(c.value.value) then Fetched(c.value, c.store)
    else if remote.None? then Fetched(None, c.store)
    else Fetched(remote, AppCache.SetStore(c.store, key, remote.value, now, None, firstFits, retryFits, order))
  }

  function NameKey(collation: string -> real): Group -> real {
    (g: Group) => collation(g.name)
  }

  /** The groups after `addGroup` succeeded: the new group pushed, then all sorted by name (stably). */
  function GroupsAfterAdd(groups: seq<Group>, g: Group, collation: string -> real): seq<Group> {
    Sorting.SortBy(groups + [g], NameKey(collation))
  }

  function WithoutGroup(groups: seq<Group>, id: string): seq<Group> {
    Seqs.Filter(groups, (g: Group) => g.id != id)
  }

  function WithoutMembers(students: seq<Student>, id: string): seq<Student> {
    Seqs.Filter(students, (s: Student) => s.groupId != id)
  }

  function WithoutAdmin(admins: seq<Admin>, id: string): seq<Admin> {
    Seqs.Filter(admins, (a: Admin) => a.id != id)
  }

  /** `navigateTo`'s guard: an empty page id, or a private page without a signed-in user, goes nowhere. */
  predicate MayNavigate(pageId: string, signedIn: bool)
    ensures pageId in PrivatePages ==> (MayNavigate(pageId, signedIn) <==> signedIn)
    ensures pageId in PublicPages ==> MayNavigate(pageId, signedIn)
    ensures signedIn ==> (MayNavigate(pageId, signedIn) <==> pageId != "")
  {
    pageId != "" && (signedIn || pageId !in PrivatePages)
  }

  const WrongCredentials: string := "ভুল ইমেইল বা পাসওয়ার্ড।"
  const EmailInUse: string := "এই ইমেইলটি ইতিমধ্যে ব্যবহৃত হয়েছে।"

  /** `getFriendlyError`: both sign-in failures read the same; an unknown code shows the raw message. */
  function FriendlyError(code: string, message: string): (r: string)
    ensures code == "auth/user-not-found" || code == "auth/wrong-password" ==> r == WrongCredentials
    ensures code == "auth/email-already-in-use" ==> r == EmailInUse
    ensures code !in {"auth/user-not-found", "auth/wrong-password", "auth/email-already-in-use"} ==> r == message
  {
    if code == "auth/user-not-found" || code == "auth/wrong-password" then WrongCredentials
    else if code == "auth/email-already-in-use" then EmailInUse
    else message
  }

  class Evaluator {
    const cache: AppCache.CacheManager
    var groups: seq<Group>
    var students: seq<Student>
    var admins: seq<Admin>
    /** The signed-in user's uid. */
    var currentUser: Option<string>
    /** `window.location.hash`. */
    var hash: string

    constructor(cache: AppCache.CacheManager)
      ensures this.cache == cache && groups == [] && students == [] && admins == []
      ensures currentUser == None && hash == ""
    {
      this.cache := cache;
      groups, students, admins := [], [], [];
      currentUser := None;
      hash := "";
    }

    /** `fetchData`; `r` is `None` where the query throws. */
    method FetchData(collection: string, remote: Option<Json>, now: int, firstFits: bool, retryFits: bool, order: seq<string>)
      returns (r: Option<Json>)
      requires Enumerates(order, AppCache.GetOutcome(cache.store, cache.forceRefresh, collection + "_data", now).store.Keys)
      modifies cache
      ensures Fetched(r, cache.store)
           == FetchOutcome(old(cache.store), old(cache.forceRefresh), collection, remote, now, firstFits, retryFits, order)
      ensures cache.forceRefresh == old(cache.forceRefresh)
    {
      var cacheKey := collection + "_data";
      var cached := cache.Get(cacheKey, now);
      if cached.Some? && Truthy(cached.value) {
        return cached;
      }
      if remote.None? {
        return None;
      }
      cache.Set(cacheKey, remote.value, None, now, firstFits, retryFits, order);
      return remote;
    }

    /** `addGroup(input)`; `newId` is the id the database assigns, `None` where `add` throws. */
    method AddGroup(input: string, newId: Option<string>, collation: string -> real)
      modifies this, cache
      ensures var name := Text.Trim(input);
        if name == [] || newId.None? then
          groups == old(groups) && cache.store == old(cache.store)
        else
          && groups == GroupsAfterAdd(old(groups), Group(newId.value, name), collation)
          && cache.store == old(cache.store) - {Prefix + "groups_data"}
      ensures students == old(students) && admins == old(admins) && currentUser == old(currentUser) && hash == old(hash)
      ensures cache.forceRefresh == old(cache.forceRefresh)
    {
      var name := Text.Trim(input);
      if name == [] || newId.None? {
        return;
      }
      AddNamed(Group(newId.value, name), collation);
    }

    /** The part of `addGroup` after the name was found non-empty and the database gave the group its id. */
    method AddNamed(newGroup: Group, collation: string -> real)
      modifies this, cache
      ensures groups == GroupsAfterAdd(old(groups), newGroup, collation)
      ensures cache.store == old(cache.store) - {Prefix + "groups_data"}
      ensures students == old(students) && admins == old(admins) && currentUser == old(currentUser) && hash == old(hash)
      ensures cache.forceRefresh == old(cache.forceRefresh)
    {
      groups := groups + [newGroup];
      groups := Sorting.SortBy(groups, NameKey(collation));
      cache.Clear("groups_data");
    }

    /** `deleteGroup(id)` after the dialog; the in-memory cascade runs once the batch has committed. */
    method DeleteGroup(id: string, confirmed: bool, committed: bool)
      modifies this, cache
      ensures if confirmed && committed then
          && groups == WithoutGroup(old(groups), id)
          && students == WithoutMembers(old(students), id)
          && cache.store == old(cache.store) - {Prefix + "groups_data", Prefix + "students_data"}
        else
          groups == old(groups) && students == old(students) && cache.store == old(cache.store)
      ensures admins == old(admins) && currentUser == old(currentUser) && hash == old(hash)
      ensures cache.forceRefresh == old(cache.forceRefresh)
    {
      if !confirmed || !committed {
        return;
      }
      groups := WithoutGroup(groups, id);
      students := WithoutMembers(students, id);
      cache.Clear("groups_data");
      cache.Clear("students_data");
    }

    /**
     * `deleteAdmin(adminId)`: refused for the signed-in user's own id;
     * otherwise, after the dialog and the remote delete, the admin leaves
     * the list. With nobody signed in nothing changes.
     */
    method DeleteAdmin(adminId: string, confirmed: bool, deleted: bool) returns (refused: bool)
      modifies this, cache
      ensures refused <==> currentUser == Some(adminId)
      ensures if currentUser.Some? && !refused && confirmed && deleted then
          admins == WithoutAdmin(old(admins), adminId) && cache.store == old(cache.store) - {Prefix + "admins_data"}
        else
          admins == old(admins) && cache.store == old(cache.store)
      ensures groups == old(groups) && students == old(students) && currentUser == old(currentUser) && hash == old(hash)
      ensures cache.forceRefresh == old(cache.forceRefresh)
    {
      if currentUser.None? {
        return false;
      }
      if adminId == currentUser.value {
        return true;
      }
      refused := false;
      if !confirmed || !deleted {
        return;
      }
      admins := WithoutAdmin(admins, adminId);
      cache.Clear("admins_data");
    }

    /** `navigateTo(pageId)`: the hash moves to the page unless the guard stops it. */
    method NavigateTo(pageId: string)
      modifies this
      ensures hash == if MayNavigate(pageId, old(currentUser).Some?) then pageId else old(hash)
      ensures groups == old(groups) && students == old(students) && admins == old(admins) && currentUser == old(currentUser)
    {
      if pageId == [] {
        return;
      }
      if currentUser.None? && pageId in PrivatePages {
        return;
      }
      hash := pageId;
    }
  }

  // ----- what the updates promise -----

  /** A hit does not depend on the database's answer (no query is made) and changes nothing. */
  lemma FetchHitIgnoresRemote(store: Store, forceRefresh: bool, collection: string, r1: Option<Json>, r2: Option<Json>,
                              now: int, firstFits: bool, retryFits: bool, order: seq<string>)
    requires var c := AppCache.GetOutcome(store, forceRefresh, collection + "_data", now); c.value.Some? && Truthy(c.value.value)
    ensures FetchOutcome(store, forceRefresh, collection, r1, now, firstFits, retryFits, order)
         == FetchOutcome(store, forceRefresh, collection, r2, now, firstFits, retryFits, order)
    ensures FetchOutcome(store, forceRefresh, collection, r1, now, firstFits, retryFits, order).store == store
  {
  }

  /** A miss returns the database's answer and, when a write fits, caches it under `<collection>_data`. */
  lemma FetchMissCaches(store: Store, forceRefresh: bool, collection: string, d: Json, now: int,
                        firstFits: bool, retryFits: bool, order: seq<string>, t: int)
    requires var c := AppCache.GetOutcome(store, forceRefresh, collection + "_data", now); !(c.value.Some? && Truthy(c.value.value))
    requires Enumerates(order, AppCache.GetOutcome(store, forceRefresh, collection + "_data", now).store.Keys)
    requires firstFits || retryFits
    requires t <= now + FiveMinutes
    ensures var f := FetchOutcome(store, forceRefresh, collection, Some(d), now, firstFits, retryFits, order);
      && f.value == Some(d)
      && AppCache.GetOutcome(f.store, false, collection + "_data", t).value == Some(d)
  {
    var c := AppCache.GetOutcome(store, forceRefresh, collection + "_data", now);
    AppCache.SetThenGet(c.store, collection + "_data", d, now, None, firstFits, retryFits, order, t);
  }

  /** The new group is in the list, nothing else was added or lost, and the list is in name order. */
  lemma AddGroupFacts(groups: seq<Group>, g: Group, collation: string -> real)
    ensures multiset(GroupsAfterAdd(groups, g, collation)) == multiset(groups) + multiset{g}
    ensures Sorting.SortedBy(GroupsAfterAdd(groups, g, collation), NameKey(collation))
  {
    Sorting.SortByFacts(groups + [g], NameKey(collation));
  }

  /**
   * After the cascade no group has the id and no student belongs to it;
   * every other group and student is kept, in order.
   */
  lemma DeleteGroupFacts(groups: seq<Group>, students: seq<Student>, id: string)
    ensures forall g :: g in WithoutGroup(groups, id) <==> g in groups && g.id != id
    ensures forall s :: s in WithoutMembers(students, id) <==> s in students && s.groupId != id
    ensures Seqs.IsSubsequence(WithoutGroup(groups, id), groups)
    ensures Seqs.IsSubsequence(WithoutMembers(students, id), students)
  {
    Seqs.FilterFacts(groups, (g: Group) => g.id != id);
    Seqs.FilterFacts(students, (s: Student) => s.groupId != id);
  }

  /** Only the deleted admin leaves the list; the others keep their order. */
  lemma DeleteAdminFacts(admins: seq<Admin>, id: string)
    ensures forall a :: a in WithoutAdmin(admins, id) <==> a in admins && a.id != id
    ensures Seqs.IsSubsequence(WithoutAdmin(admins, id), admins)
  {
    Seqs.FilterFacts(admins, (a: Admin) => a.id != id);
  }
}
