/**
 * The browser store's state, as far as the bindings read it. The browser
 * store, its reducers and its selectors are not part of this model; `FindTab`
 * and `SelectedTab` are the assumed lookups (first tab with the id, and the
 * tab whose id is `selectedTabId`).
 */
module BrowserStates {
  import opened Wrappers

  type TabId = string

  /** A tab session; `isPrivate` stands for `content.private`. */
  datatype TabSessionState = TabSessionState(id: TabId, isPrivate: bool)

  datatype BrowserState = BrowserState(tabs: seq<TabSessionState>, selectedTabId: Option<TabId>) {

    /** `findTab(id)`: the first tab with the given id, if any. */
    function FindTab(id: TabId): (r: Option<TabSessionState>)
      ensures r.Some? <==> exists i :: 0 <= i < |tabs| && tabs[i].id == id
      ensures r.Some? ==> r.value.id == id && r.value in tabs
    {
      FindIn(tabs, id)
    }

    /** `selectedTab`: the tab whose id is `selectedTabId`, if there is one. */
    function SelectedTab(): (r: Option<TabSessionState>)
      ensures r.Some? <==> selectedTabId.Some? && FindTab(selectedTabId.value).Some?
      ensures r.Some? ==> r.value in tabs && selectedTabId == Some(r.value.id)
    {
      match selectedTabId
      case None => None
      case Some(id) => FindTab(id)
    }
  }

  /** The projection `{ it.selectedTabId }` that both bindings and the change-detection middleware key on. */
  function SelectedTabIdOf(state: BrowserState): Option<TabId>
  {
    state.selectedTabId
  }

  /** Linear search for the first tab with the given id. */
  function FindIn(tabs: seq<TabSessionState>, id: TabId): (r: Option<TabSessionState>)
    ensures r.Some? <==> exists i :: 0 <= i < |tabs| && tabs[i].id == id
    ensures r.Some? ==> exists i :: 0 <= i < |tabs| && tabs[i] == r.value && r.value.id == id &&
                          forall j :: 0 <= j < i ==> tabs[j].id != id
    decreases |tabs|
  {
    if tabs == [] then None
    else if tabs[0].id == id then Some(tabs[0])
    else
      var r := FindIn(tabs[1..], id);
      assert r.Some? ==> exists i :: 0 <= i < |tabs[1..]| && tabs[1..][i] == r.value && r.value.id == id &&
                           forall j :: 0 <= j < i ==> tabs[1..][j].id != id;
      r
  }

  /**
   * Actions of the browser store. Only the tab-list restore action is told
   * apart; every other action is `OtherBrowserAction`.
   */
  datatype BrowserAction = RestoreAction | OtherBrowserAction(name: string)
}
