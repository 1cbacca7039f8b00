/**
 * The tab settings and navigation guards of google/app2.js: which pages are
 * public and which need a signed-in user (`state.tabSettings` and the
 * `PUBLIC_PAGES`/`PRIVATE_PAGES` arrays), the checkbox handler
 * `handleTabSettingChange`, the button visibility rule of
 * `updateNavigationVisibility`, and the two guards at the head of
 * `handleNavigation`. The admin type of the signed-in user, which
 * `getUserAdminData` looks up, is a parameter.
 */
module Navigation {
  import Seqs

  const DefaultPublicTabs: seq<string> := ["dashboard", "all-students", "group-policy", "export", "student-ranking", "group-analysis"]
  const DefaultPrivateTabs: seq<string> := ["groups", "members", "group-members", "tasks", "evaluation", "admin-management"]
  const AdminManagement: string := "admin-management"
  const SuperAdmin: string := "super-admin"

  /** Which column of the settings dialog a checkbox sits in. */
  datatype TabKind = Public | Private

  /** `state.tabSettings`. */
  datatype TabLists = TabLists(publicTabs: seq<string>, privateTabs: seq<string>)

  /** `tabs.filter(p => p !== page)`. */
  function Without(tabs: seq<string>, page: string): (r: seq<string>)
    ensures forall p :: p in r <==> p in tabs && p != page
    ensures Seqs.IsSubsequence(r, tabs)
  {
    Seqs.FilterFacts(tabs, (p: string) => p != page);
    Seqs.Filter(tabs, (p: string) => p != page)
  }

  /** `if (!tabs.includes(page)) tabs.push(page)`. */
  function Added(tabs: seq<string>, page: string): seq<string> {
    if page in tabs then tabs else tabs + [page]
  }

  /** The settings after one checkbox of column `kind` for `page` changed to `isChecked`. */
  function Changed(tabs: TabLists, page: string, kind: TabKind, isChecked: bool): (r: TabLists)
    ensures isChecked && kind == Public ==> page in r.publicTabs && page !in r.privateTabs
    ensures isChecked && kind == Private ==> page in r.privateTabs && page !in r.publicTabs
    ensures !isChecked && kind == Public ==> page !in r.publicTabs && r.privateTabs == tabs.privateTabs
    ensures !isChecked && kind == Private ==> page !in r.privateTabs && r.publicTabs == tabs.publicTabs
    ensures forall p :: p != page ==> (p in r.publicTabs <==> p in tabs.publicTabs) && (p in r.privateTabs <==> p in tabs.privateTabs)
  {
    match kind
    case Public =>
      if isChecked then TabLists(Added(tabs.publicTabs, page), Without(tabs.privateTabs, page))
      else TabLists(Without(tabs.publicTabs, page), tabs.privateTabs)
    case Private =>
      if isChecked then TabLists(Without(tabs.publicTabs, page), Added(tabs.privateTabs, page))
      else TabLists(tabs.publicTabs, Without(tabs.privateTabs, page))
  }

  /** No page listed twice in one list, and none in both. */
  ghost predicate WellFormed(tabs: TabLists) {
    Seqs.NoDuplicates(tabs.publicTabs) && Seqs.NoDuplicates(tabs.privateTabs)
    && forall p :: p in tabs.publicTabs ==> p !in tabs.privateTabs
  }

  /** The multiplicity of `page` in `tabs`. */
  function Occurrences(tabs: seq<string>, page: string): nat {
    multiset(tabs)[page]
  }

  // ---------------------------------------------------------------------------
  // What a checkbox change does
  // ---------------------------------------------------------------------------

  /** A list without duplicates holds each of its pages once. */
  lemma {:induction false} OnceIfListed(tabs: seq<string>, page: string)
    requires Seqs.NoDuplicates(tabs) && page in tabs
    ensures Occurrences(tabs, page) == 1
    decreases |tabs|
  {
    assert tabs == [tabs[0]] + tabs[1..];
    if tabs[0] == page {
      assert page !in tabs[1..] by {
        assert forall k :: 0 < k < |tabs| ==> tabs[k] != tabs[0];
      }
    } else {
      assert Seqs.NoDuplicates(tabs[1..]) by {
        assert forall i, j :: 0 <= i < j < |tabs[1..]| ==> tabs[1..][i] == tabs[i + 1] && tabs[1..][j] == tabs[j + 1];
      }
      OnceIfListed(tabs[1..], page);
    }
  }

  /** Adding a page to a list without duplicates leaves it there exactly once and keeps the list free of duplicates. */
  lemma AddedOnce(tabs: seq<string>, page: string)
    requires Seqs.NoDuplicates(tabs)
    ensures Occurrences(Added(tabs, page), page) == 1 && Seqs.NoDuplicates(Added(tabs, page))
    ensures forall p :: p in Added(tabs, page) <==> p in tabs || p == page
  {
    var r := Added(tabs, page);
    if page !in tabs {
      assert forall i :: 0 <= i < |tabs| ==> r[i] == tabs[i] && r[i] in tabs;
    }
    OnceIfListed(r, page);
  }

  /** Removing keeps a list free of duplicates. */
  lemma WithoutKeepsDistinct(tabs: seq<string>, page: string)
    requires Seqs.NoDuplicates(tabs)
    ensures Seqs.NoDuplicates(Without(tabs, page))
  {
    Seqs.SubsequenceDistinct(Without(tabs, page), tabs);
  }

  /**
   * Checking a page as public leaves it in the public list exactly once and
   * drops it from the private list; the other pages keep their membership.
   */
  lemma CheckPublic(tabs: TabLists, page: string)
    requires Seqs.NoDuplicates(tabs.publicTabs)
    ensures var r := Changed(tabs, page, Public, true);
      Occurrences(r.publicTabs, page) == 1 && page !in r.privateTabs
      && forall p :: p != page ==> (p in r.publicTabs <==> p in tabs.publicTabs) && (p in r.privateTabs <==> p in tabs.privateTabs)
  {
    AddedOnce(tabs.publicTabs, page);
  }

  /** The same for the private column. */
  lemma CheckPrivate(tabs: TabLists, page: string)
    requires Seqs.NoDuplicates(tabs.privateTabs)
    ensures var r := Changed(tabs, page, Private, true);
      Occurrences(r.privateTabs, page) == 1 && page !in r.publicTabs
      && forall p :: p != page ==> (p in r.publicTabs <==> p in tabs.publicTabs) && (p in r.privateTabs <==> p in tabs.privateTabs)
  {
    AddedOnce(tabs.privateTabs, page);
  }

  /** Unchecking a public page removes only that page from the public list, keeping the others in order; the private list stays. */
  lemma UncheckPublic(tabs: TabLists, page: string)
    ensures var r := Changed(tabs, page, Public, false);
      page !in r.publicTabs && r.privateTabs == tabs.privateTabs && Seqs.IsSubsequence(r.publicTabs, tabs.publicTabs)
      && forall p :: p != page ==> (p in r.publicTabs <==> p in tabs.publicTabs)
  {
  }

  /** The same for the private column. */
  lemma UncheckPrivate(tabs: TabLists, page: string)
    ensures var r := Changed(tabs, page, Private, false);
      page !in r.privateTabs && r.publicTabs == tabs.publicTabs && Seqs.IsSubsequence(r.privateTabs, tabs.privateTabs)
      && forall p :: p != page ==> (p in r.privateTabs <==> p in tabs.privateTabs)
  {
  }

  /** Every change keeps the lists free of duplicates and apart. */
  lemma ChangeKeepsWellFormed(tabs: TabLists, page: string, kind: TabKind, isChecked: bool)
    requires WellFormed(tabs)
    ensures WellFormed(Changed(tabs, page, kind, isChecked))
  {
    WithoutKeepsDistinct(tabs.publicTabs, page);
    WithoutKeepsDistinct(tabs.privateTabs, page);
    AddedOnce(tabs.publicTabs, page);
    AddedOnce(tabs.privateTabs, page);
  }

  /** The shipped settings are well formed. */
  lemma DefaultsWellFormed()
    ensures WellFormed(TabLists(DefaultPublicTabs, DefaultPrivateTabs))
  {
    DefaultsDistinct();
    DefaultsApart();
  }

  lemma DefaultsDistinct()
    ensures Seqs.NoDuplicates(DefaultPublicTabs) && Seqs.NoDuplicates(DefaultPrivateTabs)
  {
  }

  lemma DefaultsApart()
    ensures forall p :: p in DefaultPublicTabs ==> p !in DefaultPrivateTabs
  {
  }

  // ---------------------------------------------------------------------------
  // Visibility and the navigation guards
  // ---------------------------------------------------------------------------

  /** `updateNavigationVisibility`'s rule for one button: a public page, or a private one with a user signed in. */
  predicate Visible(publicPages: seq<string>, privatePages: seq<string>, signedIn: bool, pageId: string)
    ensures !signedIn ==> (Visible(publicPages, privatePages, signedIn, pageId) <==> pageId in publicPages)
    ensures signedIn ==> (Visible(publicPages, privatePages, signedIn, pageId) <==> pageId in publicPages + privatePages)
  {
    pageId in publicPages || (pageId in privatePages && signedIn)
  }

  /** How `handleNavigation` ends. */
  datatype NavOutcome = LoginRequired | SuperAdminRequired | Opened

  /**
   * The guards of `handleNavigation`: a private page needs a user; the admin
   * page, once a user is signed in, needs a super admin. `adminType` is the
   * type `getUserAdminData` reports for the user and is read only then.
   */
  function NavigationOutcome(privatePages: seq<string>, signedIn: bool, adminType: string, pageId: string): (r: NavOutcome)
    ensures r == LoginRequired <==> !signedIn && pageId in privatePages
    ensures r == SuperAdminRequired <==> signedIn && pageId == AdminManagement && adminType != SuperAdmin
  {
    if !signedIn && pageId in privatePages then LoginRequired
    else if pageId == AdminManagement && signedIn && adminType != SuperAdmin then SuperAdminRequired
    else Opened
  }

  /** Only the admin page with a user signed in consults the user's admin type. */
  lemma AdminTypeReadOnlyForAdminPage(privatePages: seq<string>, signedIn: bool, a1: string, a2: string, pageId: string)
    requires !(signedIn && pageId == AdminManagement)
    ensures NavigationOutcome(privatePages, signedIn, a1, pageId) == NavigationOutcome(privatePages, signedIn, a2, pageId)
  {
  }

  /**
   * With well-formed settings, a visible button leads to its page, except
   * the admin page for a user who is not a super admin; and a page a
   * visitor without a user reaches is not private.
   */
  lemma VisibleButtonsOpen(tabs: TabLists, signedIn: bool, adminType: string, pageId: string)
    requires WellFormed(tabs)
    ensures Visible(tabs.publicTabs, tabs.privateTabs, signedIn, pageId) && !(pageId == AdminManagement && signedIn && adminType != SuperAdmin)
      ==> NavigationOutcome(tabs.privateTabs, signedIn, adminType, pageId) == Opened
    ensures !signedIn && NavigationOutcome(tabs.privateTabs, signedIn, adminType, pageId) == Opened ==> pageId !in tabs.privateTabs
  {
  }

  /** Without settings kept apart a public button can lead to the login refusal. */
  lemma OverlapRefusesVisibleButton()
    ensures var tabs := TabLists(["export"], ["export"]);
      Visible(tabs.publicTabs, tabs.privateTabs, false, "export")
      && NavigationOutcome(tabs.privateTabs, false, "", "export") == LoginRequired
  {
  }

  // ---------------------------------------------------------------------------
  // The evaluator's navigation state
  // ---------------------------------------------------------------------------

  class Navigator {
    /** `state.tabSettings`. */
    var tabs: TabLists
    /** `PUBLIC_PAGES` and `PRIVATE_PAGES`. */
    var publicPages: seq<string>
    var privatePages: seq<string>
    /** Whether `currentUser` is set. */
    var signedIn: bool
    /** The page shown. */
    var activePage: string

    constructor()
      ensures tabs == TabLists(DefaultPublicTabs, DefaultPrivateTabs)
      ensures publicPages == DefaultPublicTabs && privatePages == DefaultPrivateTabs
      ensures !signedIn && activePage == "dashboard"
    {
      tabs := TabLists(DefaultPublicTabs, DefaultPrivateTabs);
      publicPages := DefaultPublicTabs;
      privatePages := DefaultPrivateTabs;
      signedIn := false;
      activePage := "dashboard";
    }

    /** `handleTabSettingChange`: update the settings, then point the page arrays at them. */
    method HandleTabSettingChange(page: string, kind: TabKind, isChecked: bool)
      modifies this
      ensures tabs == Changed(old(tabs), page, kind, isChecked)
      ensures publicPages == tabs.publicTabs && privatePages == tabs.privateTabs
      ensures signedIn == old(signedIn) && activePage == old(activePage)
    {
      var publicTabs := tabs.publicTabs;
      var privateTabs := tabs.privateTabs;
      if kind == Public {
        if isChecked {
          privateTabs := Without(privateTabs, page);
          if page !in publicTabs {
            publicTabs := publicTabs + [page];
          }
        } else {
          publicTabs := Without(publicTabs, page);
        }
      } else {
        if isChecked {
          publicTabs := Without(publicTabs, page);
          if page !in privateTabs {
            privateTabs := privateTabs + [page];
          }
        } else {
          privateTabs := Without(privateTabs, page);
        }
      }
      tabs := TabLists(publicTabs, privateTabs);
      publicPages := tabs.publicTabs;
      privatePages := tabs.privateTabs;
    }

    /** `updateNavigationVisibility` over the buttons' page ids: whether each is displayed. */
    method UpdateNavigationVisibility(navPages: seq<string>) returns (display: seq<bool>)
      ensures |display| == |navPages|
      ensures forall i :: 0 <= i < |navPages| ==> display[i] == Visible(publicPages, privatePages, signedIn, navPages[i])
    {
      display := [];
      for i := 0 to |navPages|
        invariant |display| == i
        invariant forall k :: 0 <= k < i ==> display[k] == Visible(publicPages, privatePages, signedIn, navPages[k])
      {
        var pageId := navPages[i];
        if pageId in publicPages {
          display := display + [true];
        } else if pageId in privatePages && signedIn {
          display := display + [true];
        } else {
          display := display + [false];
        }
      }
    }

    /** `handleNavigation`: the page opens unless a guard refuses it. */
    method HandleNavigation(pageId: string, adminType: string) returns (outcome: NavOutcome)
      modifies this
      ensures outcome == NavigationOutcome(privatePages, signedIn, adminType, pageId)
      ensures activePage == if outcome == Opened then pageId else old(activePage)
      ensures tabs == old(tabs) && publicPages == old(publicPages) && privatePages == old(privatePages)
      ensures signedIn == old(signedIn)
    {
      if !signedIn && pageId in privatePages {
        return LoginRequired;
      }
      if pageId == AdminManagement && signedIn {
        if adminType != SuperAdmin {
          return SuperAdminRequired;
        }
      }
      activePage := pageId;
      return Opened;
    }
  }
}
