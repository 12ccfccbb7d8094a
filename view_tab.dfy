/** The view-tab store: the open tabs, the active tab and the navigations it asks the router for. */
module ViewTab {
  import opened Wrappers

  /** `IViewTab` */
  datatype Tab = Tab(name: string, fullPath: string, title: string, icon: Option<string>)

  /** No two tabs share a full path. */
  predicate UniquePaths(tabs: seq<Tab>) {
    forall i, j :: 0 <= i < j < |tabs| ==> tabs[i].fullPath != tabs[j].fullPath
  }

  /** Some tab has this full path (`tabs.some(t => t.fullPath === path)`). */
  predicate HasPath(tabs: seq<Tab>, path: string) {
    exists i :: 0 <= i < |tabs| && tabs[i].fullPath == path
  }

  /** `tabs.findIndex(t => t.fullPath === path)` */
  function FindIndex(tabs: seq<Tab>, path: string): (i: int)
    ensures -1 <= i < |tabs|
    ensures i >= 0 ==> tabs[i].fullPath == path && forall k :: 0 <= k < i ==> tabs[k].fullPath != path
    ensures i == -1 <==> !HasPath(tabs, path)
  {
    if tabs == [] then -1
    else if tabs[0].fullPath == path then 0
    else
      var k := FindIndex(tabs[1..], path);
      if k == -1 then
        assert forall j :: 1 <= j < |tabs| ==> tabs[j] == tabs[1..][j - 1];
        -1
      else k + 1
  }

  /** Appending a tab whose path is new keeps the paths unique. */
  lemma AppendUnique(tabs: seq<Tab>, tab: Tab)
    requires UniquePaths(tabs) && !HasPath(tabs, tab.fullPath)
    ensures UniquePaths(tabs + [tab])
  {
    var r := tabs + [tab];
    forall a, b | 0 <= a < b < |r|
      ensures r[a].fullPath != r[b].fullPath
    {
      if b == |tabs| {
        assert r[a] == tabs[a];
      }
    }
  }

  /** Taking one tab out keeps the paths unique, and no tab with its path is left. */
  lemma RemoveUnique(tabs: seq<Tab>, i: int)
    requires UniquePaths(tabs) && 0 <= i < |tabs|
    ensures UniquePaths(tabs[..i] + tabs[i + 1..])
    ensures !HasPath(tabs[..i] + tabs[i + 1..], tabs[i].fullPath)
  {
    var r := tabs[..i] + tabs[i + 1..];
    forall a | 0 <= a < |r|
      ensures r[a] == tabs[if a < i then a else a + 1]
    {
    }
    forall a, b | 0 <= a < b < |r|
      ensures r[a].fullPath != r[b].fullPath
    {
      assert r[a] == tabs[if a < i then a else a + 1];
      assert r[b] == tabs[if b < i then b else b + 1];
    }
  }

  /** The tabs left once the tab with the path, if any, is taken out. */
  function Remaining(tabs: seq<Tab>, path: string): seq<Tab> {
    var i := FindIndex(tabs, path);
    if i >= 0 then tabs[..i] + tabs[i + 1..] else tabs
  }

  /** The last tab of a non-empty list. */
  function Last(tabs: seq<Tab>): Tab
    requires tabs != []
  {
    tabs[|tabs| - 1]
  }

  /** `activeTab.value?.fullPath === path` */
  predicate IsActive(active: Option<Tab>, path: string) {
    active.Some? && active.value.fullPath == path
  }

  /** Removing a path keeps the others unique and leaves no tab with that path; an absent path changes nothing. */
  lemma RemainingFacts(tabs: seq<Tab>, path: string)
    requires UniquePaths(tabs)
    ensures UniquePaths(Remaining(tabs, path)) && !HasPath(Remaining(tabs, path), path)
    ensures !HasPath(tabs, path) ==> Remaining(tabs, path) == tabs
    ensures |Remaining(tabs, path)| == if HasPath(tabs, path) then |tabs| - 1 else |tabs|
    ensures forall k :: 0 <= k < |tabs| && tabs[k].fullPath != path ==> tabs[k] in Remaining(tabs, path)
  {
    var i := FindIndex(tabs, path);
    if i >= 0 {
      RemoveUnique(tabs, i);
      var r := Remaining(tabs, path);
      forall k | 0 <= k < |tabs| && tabs[k].fullPath != path
        ensures tabs[k] in r
      {
        if k < i {
          assert r[k] == tabs[k];
        } else {
          assert r[k - 1] == tabs[k];
        }
      }
    }
  }

  /**
   * The store. `route` is the router's current full path, handed in by the caller;
   * `pushes` records every `router.push` target in order.
   */
  class ViewTabStore {
    var tabs: seq<Tab>
    var activeTab: Option<Tab>
    var pushes: seq<string>

    predicate Valid()
      reads this
    {
      UniquePaths(tabs)
    }

    constructor ()
      ensures Valid() && tabs == [] && activeTab == None && pushes == []
    {
      tabs := [];
      activeTab := None;
      pushes := [];
    }

    /** `setActive`: makes the tab active and navigates to it unless the router is already there. */
    method SetActive(tab: Tab, route: string)
      modifies this
      ensures activeTab == Some(tab) && tabs == old(tabs)
      ensures pushes == if route != tab.fullPath then old(pushes) + [tab.fullPath] else old(pushes)
    {
      activeTab := Some(tab);
      if route != tab.fullPath {
        pushes := pushes + [tab.fullPath];
      }
    }

    /** `addTab`: activates the tab when asked, and appends it unless a tab has its path. */
    method AddTab(tab: Tab, isActive: bool, route: string)
      requires Valid()
      modifies this
      ensures Valid() && HasPath(tabs, tab.fullPath)
      ensures tabs == if HasPath(old(tabs), tab.fullPath) then old(tabs) else old(tabs) + [tab]
      ensures activeTab == if isActive then Some(tab) else old(activeTab)
      ensures pushes == if isActive && route != tab.fullPath then old(pushes) + [tab.fullPath] else old(pushes)
    {
      if isActive {
        SetActive(tab, route);
      }
      if !HasPath(tabs, tab.fullPath) {
        AppendUnique(tabs, tab);
        tabs := tabs + [tab];
        assert tabs[|tabs| - 1] == tab;
      }
    }

    /**
     * `removeTab`: takes out the tab with the path; when it was the active one, the last
     * remaining tab becomes active, or, with none left, the router goes to `/`.
     */
    method RemoveTab(fullPath: string, route: string)
      requires Valid()
      modifies this
      ensures Valid() && !HasPath(tabs, fullPath)
      ensures tabs == Remaining(old(tabs), fullPath)
      ensures !(HasPath(old(tabs), fullPath) && IsActive(old(activeTab), fullPath)) ==>
        activeTab == old(activeTab) && pushes == old(pushes)
      ensures HasPath(old(tabs), fullPath) && IsActive(old(activeTab), fullPath) && tabs != [] ==>
        activeTab == Some(Last(tabs)) &&
        pushes == old(pushes) + (if route != Last(tabs).fullPath then [Last(tabs).fullPath] else [])
      ensures HasPath(old(tabs), fullPath) && IsActive(old(activeTab), fullPath) && tabs == [] ==>
        activeTab == old(activeTab) && pushes == old(pushes) + ["/"]
    {
      RemainingFacts(tabs, fullPath);
      var index := FindIndex(tabs, fullPath);
      if index > -1 {
        tabs := tabs[..index] + tabs[index + 1..];
        if activeTab.Some? && activeTab.value.fullPath == fullPath {
          if |tabs| > 0 {
            SetActive(tabs[|tabs| - 1], route);
          } else {
            pushes := pushes + ["/"];
          }
        }
      }
    }
  }
}
