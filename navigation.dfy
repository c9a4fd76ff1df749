/**
 * The page navigation controller: exactly one page section is shown at a
 * time, the nav triggers mirror which one, and the URL hash names it.
 */
module Navigation {
  import opened Wrappers
  import opened Text
  import opened BrowserHistory

  /** A page section: its `id`, its `hidden` flag and its `is-active` class. */
  datatype Page = Page(id: string, hidden: bool, active: bool)

  /**
   * A nav trigger: its `data-nav` target, whether its role is "tab", its
   * `aria-selected` attribute (absent until first written), its `tabIndex`
   * and its `is-active` class.
   */
  datatype NavTrigger = NavTrigger(target: string, isTab: bool, ariaSelected: Option<string>, tabIndex: int, active: bool)

  const MissingIdError := "Each page section must have an id."

  /** The page `initNavigation` falls back to when its caller names none. */
  const DefaultPage := "home"

  /** `replace(/^#/, "")`: a leading '#' is always removed, and only that one. */
  function StripHash(hash: string): (raw: string)
    ensures hash != [] && hash[0] == '#' ==> raw == hash[1..]
    ensures hash == [] || hash[0] != '#' ==> raw == hash
  {
    if hash != [] && hash[0] == '#' then hash[1..] else hash
  }

  /** `getHashPageId`: the hash without its '#', trimmed, if that is not empty. */
  function GetHashPageId(loc: Location): (pageId: Option<string>)
    ensures pageId.None? <==> AllSpace(StripHash(loc.hash))
    ensures pageId.Some? ==> pageId.value == Trim(StripHash(loc.hash)) && pageId.value != "" && IsTrimmed(pageId.value)
  {
    var raw := Trim(StripHash(loc.hash));
    if raw == "" then None else Some(raw)
  }

  /**
   * The URL after `url.hash = "#" + pageId`: the hash getter gives "" for an
   * empty fragment and "#" followed by the fragment otherwise. The query is
   * kept.
   */
  function WithHash(loc: Location, pageId: string): (next: Location)
    ensures next.person == loc.person
    ensures next.hash == if pageId == "" then "" else "#" + pageId
  {
    loc.(hash := if pageId == "" then "" else "#" + pageId)
  }

  /** The hash `setActivePage` writes reads back as the page id written. */
  lemma HashRoundTrip(loc: Location, pageId: string)
    requires pageId != "" && IsTrimmed(pageId)
    ensures GetHashPageId(WithHash(loc, pageId)) == Some(pageId)
  {
    var hash := WithHash(loc, pageId).hash;
    assert StripHash(hash) == pageId;
    TrimIdempotent(pageId);
  }

  /** `pageExists`: `some` over the pages, true when one of them has this id. */
  predicate PageExists(pages: seq<Page>, pageId: string): (found: bool)
    ensures found <==> exists k :: 0 <= k < |pages| && pages[k].id == pageId
  {
    if pages == [] then false
    else if pages[0].id == pageId then true
    else
      var found := PageExists(pages[1..], pageId);
      assert found ==> exists k :: 0 <= k < |pages| && pages[k].id == pageId by {
        if found {
          var k :| 0 <= k < |pages[1..]| && pages[1..][k].id == pageId;
          assert pages[k + 1].id == pageId;
        }
      }
      assert (exists k :: 0 <= k < |pages| && pages[k].id == pageId) ==> found by {
        if exists k :: 0 <= k < |pages| && pages[k].id == pageId {
          var k :| 0 <= k < |pages| && pages[k].id == pageId;
          assert pages[1..][k - 1].id == pageId;
        }
      }
      found
  }

  /** A page as the first loop of `setActivePage` leaves it. */
  function ActivatePage(page: Page, pageId: string): (next: Page)
    ensures next.id == page.id
    ensures next.active == (page.id == pageId) && next.hidden == !next.active
  {
    page.(active := page.id == pageId, hidden := page.id != pageId)
  }

  /** A nav trigger as the second loop of `setActivePage` leaves it. */
  function ActivateNav(nav: NavTrigger, pageId: string): (next: NavTrigger)
    ensures next.target == nav.target && next.isTab == nav.isTab
    ensures next.active == (nav.target == pageId)
    ensures nav.isTab ==> next.ariaSelected == Some(if next.active then "true" else "false")
    ensures nav.isTab ==> next.tabIndex == if next.active then 0 else -1
    ensures !nav.isTab ==> next.ariaSelected == nav.ariaSelected && next.tabIndex == nav.tabIndex
  {
    var isActive := nav.target == pageId;
    if nav.isTab then
      nav.(ariaSelected := Some(if isActive then "true" else "false"), tabIndex := if isActive then 0 else -1, active := isActive)
    else nav.(active := isActive)
  }

  function ActivatedPages(pages: seq<Page>, pageId: string): (next: seq<Page>)
    ensures |next| == |pages|
    ensures forall k :: 0 <= k < |pages| ==> next[k] == ActivatePage(pages[k], pageId)
  {
    seq(|pages|, k requires 0 <= k < |pages| => ActivatePage(pages[k], pageId))
  }

  function ActivatedNavs(navs: seq<NavTrigger>, pageId: string): (next: seq<NavTrigger>)
    ensures |next| == |navs|
    ensures forall k :: 0 <= k < |navs| ==> next[k] == ActivateNav(navs[k], pageId)
  {
    seq(|navs|, k requires 0 <= k < |navs| => ActivateNav(navs[k], pageId))
  }

  predicate UniqueIds(pages: seq<Page>) {
    forall i, j :: 0 <= i < j < |pages| ==> pages[i].id != pages[j].id
  }

  /**
   * After activation a page is visible exactly when its id is the page id:
   * with unique ids at most one page is visible, and exactly one when the id
   * exists.
   */
  lemma OneVisiblePage(pages: seq<Page>, pageId: string)
    ensures forall k :: 0 <= k < |pages| ==> (!ActivatedPages(pages, pageId)[k].hidden <==> pages[k].id == pageId)
    ensures UniqueIds(pages) ==> forall i, j ::
      0 <= i < |pages| && 0 <= j < |pages| && !ActivatedPages(pages, pageId)[i].hidden && !ActivatedPages(pages, pageId)[j].hidden ==> i == j
    ensures PageExists(pages, pageId) <==> exists k :: 0 <= k < |pages| && !ActivatedPages(pages, pageId)[k].hidden
  {
    var next := ActivatedPages(pages, pageId);
    if PageExists(pages, pageId) {
      var k :| 0 <= k < |pages| && pages[k].id == pageId;
      assert !next[k].hidden;
    }
  }

  /** Activating the same page twice leaves what activating it once does. */
  lemma ActivateIdempotent(pages: seq<Page>, navs: seq<NavTrigger>, pageId: string)
    ensures ActivatedPages(ActivatedPages(pages, pageId), pageId) == ActivatedPages(pages, pageId)
    ensures ActivatedNavs(ActivatedNavs(navs, pageId), pageId) == ActivatedNavs(navs, pageId)
  {
  }

  /** Activation depends on the page id alone, not on which page was shown before. */
  lemma ActivateForgetsPrevious(pages: seq<Page>, navs: seq<NavTrigger>, first: string, pageId: string)
    ensures ActivatedPages(ActivatedPages(pages, first), pageId) == ActivatedPages(pages, pageId)
    ensures ActivatedNavs(ActivatedNavs(navs, first), pageId) == ActivatedNavs(navs, pageId)
  {
  }

  /** The page and nav state of the document, and the window's history, as `initNavigation` uses them. */
  class NavigationController {
    const history: History
    var pages: seq<Page>
    var navs: seq<NavTrigger>
    /** Whether the click and `hashchange` handlers have been registered. */
    var listening: bool

    ghost predicate Valid()
      reads this, history
    {
      history.Valid()
    }

    constructor (history: History, pages: seq<Page>, navs: seq<NavTrigger>)
      requires history.Valid()
      ensures Valid() && this.history == history
      ensures this.pages == pages && this.navs == navs && !listening
    {
      this.history := history;
      this.pages := pages;
      this.navs := navs;
      listening := false;
    }

    /**
     * `setActivePage`: every page is shown exactly when its id is `pageId`,
     * every nav trigger is marked exactly when it targets `pageId`, and when
     * `updateHash` the hash is rewritten by replacing the current history
     * entry.
     */
    method SetActivePage(pageId: string, updateHash: bool)
      requires Valid()
      modifies this, history
      ensures Valid() && listening == old(listening)
      ensures pages == ActivatedPages(old(pages), pageId)
      ensures navs == ActivatedNavs(old(navs), pageId)
      ensures updateHash ==>
        history.entries == old(history.entries)[old(history.index) := WithHash(old(history.Current()), pageId)]
      ensures !updateHash ==> history.entries == old(history.entries)
      ensures history.index == old(history.index) && |history.entries| == old(|history.entries|)
      ensures updateHash && pageId != "" && IsTrimmed(pageId) ==> GetHashPageId(history.Current()) == Some(pageId)
    {
      ghost var before := pages;
      for i := 0 to |pages|
        modifies this
        invariant listening == old(listening) && navs == old(navs)
        invariant |pages| == |before|
        invariant forall k :: 0 <= k < i ==> pages[k] == ActivatePage(before[k], pageId)
        invariant forall k :: i <= k < |pages| ==> pages[k] == before[k]
      {
        var isActive := pages[i].id == pageId;
        pages := pages[i := pages[i].(active := isActive, hidden := !isActive)];
      }

      ghost var navsBefore := navs;
      for i := 0 to |navs|
        modifies this
        invariant listening == old(listening) && pages == ActivatedPages(old(pages), pageId)
        invariant |navs| == |navsBefore|
        invariant forall k :: 0 <= k < i ==> navs[k] == ActivateNav(navsBefore[k], pageId)
        invariant forall k :: i <= k < |navs| ==> navs[k] == navsBefore[k]
      {
        var el := navs[i];
        var isActive := el.target == pageId;
        if el.isTab {
          el := el.(ariaSelected := Some(if isActive then "true" else "false"), tabIndex := if isActive then 0 else -1);
        }
        navs := navs[i := el.(active := isActive)];
      }

      if updateHash {
        history.ReplaceState(WithHash(history.Current(), pageId));
        if pageId != "" && IsTrimmed(pageId) {
          HashRoundTrip(old(history.Current()), pageId);
        }
      }
    }

    /**
     * `initNavigation`: nothing happens without pages; a page without an id
     * stops it with an error before any handler is registered; otherwise the
     * handlers are registered and the page the hash names is shown, or else
     * `defaultPage`, whose id is then written into the hash.
     */
    method Init(defaultPage: string) returns (failure: Option<string>)
      requires Valid() && !listening
      modifies this, history
      ensures Valid()
      ensures old(pages) == [] ==>
        && failure.None? && !listening && pages == old(pages) && navs == old(navs)
        && history.entries == old(history.entries) && history.index == old(history.index)
      ensures old(pages) != [] && (exists k :: 0 <= k < |old(pages)| && old(pages)[k].id == "") ==>
        && failure == Some(MissingIdError) && !listening && pages == old(pages) && navs == old(navs)
        && history.entries == old(history.entries) && history.index == old(history.index)
      ensures old(pages) != [] && (forall k :: 0 <= k < |old(pages)| ==> old(pages)[k].id != "") ==>
        && failure.None? && listening
        && var initial := GetHashPageId(old(history.Current()));
        if initial.Some? && PageExists(old(pages), initial.value) then
          && pages == ActivatedPages(old(pages), initial.value) && navs == ActivatedNavs(old(navs), initial.value)
          && history.entries == old(history.entries) && history.index == old(history.index)
        else
          && pages == ActivatedPages(old(pages), defaultPage) && navs == ActivatedNavs(old(navs), defaultPage)
          && history.entries == old(history.entries)[old(history.index) := WithHash(old(history.Current()), defaultPage)]
          && history.index == old(history.index)
    {
      if |pages| == 0 {
        return None;
      }
      for i := 0 to |pages|
        invariant forall k :: 0 <= k < i ==> pages[k].id != ""
      {
        if pages[i].id == "" {
          return Some(MissingIdError);
        }
      }
      listening := true;

      var initial := GetHashPageId(history.Current());
      if initial.Some? && PageExists(pages, initial.value) {
        SetActivePage(initial.value, false);
        return None;
      }
      SetActivePage(defaultPage, true);
      return None;
    }

    /**
     * `initNavigation()` called without options: the fallback page is
     * `DefaultPage`, and when the hash names no existing page the hash is
     * rewritten so that it reads back as that page. Otherwise it behaves
     * as `Init` does.
     */
    method InitDefault() returns (failure: Option<string>)
      requires Valid() && !listening
      modifies this, history
      ensures Valid()
      ensures old(pages) == [] ==>
        && failure.None? && !listening && pages == old(pages) && navs == old(navs)
        && history.entries == old(history.entries) && history.index == old(history.index)
      ensures old(pages) != [] && (exists k :: 0 <= k < |old(pages)| && old(pages)[k].id == "") ==>
        && failure == Some(MissingIdError) && !listening && pages == old(pages) && navs == old(navs)
        && history.entries == old(history.entries) && history.index == old(history.index)
      ensures old(pages) != [] && (forall k :: 0 <= k < |old(pages)| ==> old(pages)[k].id != "") ==>
        && failure.None? && listening
        && var initial := GetHashPageId(old(history.Current()));
        if initial.Some? && PageExists(old(pages), initial.value) then
          && pages == ActivatedPages(old(pages), initial.value) && navs == ActivatedNavs(old(navs), initial.value)
          && history.entries == old(history.entries) && history.index == old(history.index)
        else
          && pages == ActivatedPages(old(pages), DefaultPage) && navs == ActivatedNavs(old(navs), DefaultPage)
          && history.entries == old(history.entries)[old(history.index) := WithHash(old(history.Current()), DefaultPage)]
          && history.index == old(history.index)
          && GetHashPageId(history.Current()) == Some(DefaultPage)
    {
      ghost var start := history.Current();
      failure := Init(DefaultPage);
      assert IsTrimmed(DefaultPage) by {
        assert !IsSpace(DefaultPage[0]) && !IsSpace(DefaultPage[|DefaultPage| - 1]);
      }
      HashRoundTrip(start, DefaultPage);
    }

    /**
     * The click handler of the `k`-th nav trigger: an empty or unknown
     * target is ignored; otherwise that page is shown and the hash written.
     */
    method OnNavClick(k: nat)
      requires Valid()
      modifies this, history
      ensures Valid() && listening == old(listening)
      ensures
        if old(listening) && k < |old(navs)| && old(navs)[k].target != "" && PageExists(old(pages), old(navs)[k].target) then
          var target := old(navs)[k].target;
          && pages == ActivatedPages(old(pages), target) && navs == ActivatedNavs(old(navs), target)
          && history.entries == old(history.entries)[old(history.index) := WithHash(old(history.Current()), target)]
          && history.index == old(history.index)
        else
          && pages == old(pages) && navs == old(navs)
          && history.entries == old(history.entries) && history.index == old(history.index)
    {
      if !listening || k >= |navs| {
        return;
      }
      var target := navs[k].target;
      if target == "" || !PageExists(pages, target) {
        return;
      }
      SetActivePage(target, true);
    }

    /**
     * The `hashchange` handler: a hash naming an existing page shows it
     * without touching the history; any other hash is ignored.
     */
    method OnHashChange()
      requires Valid()
      modifies this, history
      ensures Valid() && listening == old(listening)
      ensures history.entries == old(history.entries) && history.index == old(history.index)
      ensures
        var pageId := GetHashPageId(old(history.Current()));
        if old(listening) && pageId.Some? && PageExists(old(pages), pageId.value) then
          pages == ActivatedPages(old(pages), pageId.value) && navs == ActivatedNavs(old(navs), pageId.value)
        else
          pages == old(pages) && navs == old(navs)
    {
      if !listening {
        return;
      }
      var pageId := GetHashPageId(history.Current());
      if pageId.None? || !PageExists(pages, pageId.value) {
        return;
      }
      SetActivePage(pageId.value, false);
    }
  }

  /**
   * Once the navigation has started on pages with unique ids and the hash
   * names one of them or the default page exists, exactly one page is shown.
   */
  lemma StartsWithOnePage(pages: seq<Page>, pageId: string)
    requires UniqueIds(pages) && PageExists(pages, pageId)
    ensures exists k :: 0 <= k < |pages| && !ActivatedPages(pages, pageId)[k].hidden
    ensures forall i, j ::
      (0 <= i < |pages| && 0 <= j < |pages| &&
       !ActivatedPages(pages, pageId)[i].hidden && !ActivatedPages(pages, pageId)[j].hidden) ==> i == j
  {
    OneVisiblePage(pages, pageId);
  }
}
