/**
 * The binding in `components/appstate/bindings`: it follows the browser
 * store's selected tab and dispatches `SelectedTabChanged` into the
 * application store, guarded against re-observations after a lifecycle
 * re-subscription and against the tab list's automatic fallback selection.
 */
module AppStateBindings {
  import opened Wrappers
  import opened BrowsingModes
  import opened BrowserStates
  import opened SelectedTabInfos
  import opened AppStates
  import opened Flows

  /** `selectedTabInfo?.id` */
  function CachedId(cached: Option<SelectedTabInfo>): Option<TabId>
  {
    match cached
    case None => None
    case Some(info) => Some(info.id)
  }

  /** `selectedTabInfo?.mode` */
  function CachedMode(cached: Option<SelectedTabInfo>): Option<BrowsingMode>
  {
    match cached
    case None => None
    case Some(info) => Some(info.mode)
  }

  /** `tabs.any(p)` */
  predicate Any(tabs: seq<TabSessionState>, p: TabSessionState -> bool)
  {
    exists i :: 0 <= i < |tabs| && p(tabs[i])
  }

  /** `BrowsingMode.fromBoolean(selectedTab?.content?.private ?: false)` */
  function NewMode(state: BrowserState): BrowsingMode
  {
    BrowsingMode.FromBoolean(
      match state.SelectedTab()
      case None => false
      case Some(tab) => tab.isPrivate)
  }

  /**
   * `newTabIntentionallySelected`, as written: the predicate handed to
   * `tabs.any` does not look at the tab it is given; it compares the cached
   * mode with the mode of the newly selected tab.
   */
  predicate NewTabIntentionallySelected(state: BrowserState, cached: Option<SelectedTabInfo>)
  {
    var newMode := NewMode(state);
    var anyTabInOldMode := Any(state.tabs, (_: TabSessionState) => CachedMode(cached) == Some(newMode));
    var anyOtherTabs := |state.tabs| > 1;
    anyTabInOldMode && anyOtherTabs
  }

  /** The reaction of `onState` to one delivered browser state, given the application state it reads. */
  function React(state: BrowserState, app: AppState): Option<AppAction>
  {
    match state.SelectedTab()
    case None => None
    case Some(tab) =>
      if CachedId(app.selectedTabInfo) != Some(tab.id) && NewTabIntentionallySelected(state, app.selectedTabInfo)
      then Some(SelectedTabChanged(tab))
      else None
  }

  /** `tabs.any` with a predicate that ignores its argument holds iff there is a tab and the predicate's value holds. */
  lemma AnyIgnoringTab(tabs: seq<TabSessionState>, b: bool)
    ensures Any(tabs, (_: TabSessionState) => b) <==> |tabs| > 0 && b
  {
    if |tabs| > 0 && b {
      assert ((_: TabSessionState) => b)(tabs[0]);
    }
  }

  /**
   * What the guard reduces to: more than one tab, a cached value, and the
   * cached mode equal to the mode of the newly selected tab. No tab of the
   * list is inspected.
   */
  lemma IntentionalSelectionReduced(state: BrowserState, cached: Option<SelectedTabInfo>)
    ensures NewTabIntentionallySelected(state, cached) <==>
              |state.tabs| > 1 && cached.Some? && cached.value.mode == NewMode(state)
  {
    AnyIgnoringTab(state.tabs, CachedMode(cached) == Some(NewMode(state)));
  }

  /** The guard does not depend on which tabs there are, only on how many there are and on the selected one. */
  lemma IntentionalSelectionIgnoresOtherTabs(s1: BrowserState, s2: BrowserState, cached: Option<SelectedTabInfo>)
    requires |s1.tabs| == |s2.tabs|
    requires s1.SelectedTab() == s2.SelectedTab()
    ensures NewTabIntentionallySelected(s1, cached) == NewTabIntentionallySelected(s2, cached)
  {
    IntentionalSelectionReduced(s1, cached);
    IntentionalSelectionReduced(s2, cached);
  }

  /**
   * When one delivered state leads to a dispatch: a selected tab exists, the
   * cached id is present and differs from it, the cached mode is the mode of
   * that tab, and there is more than one tab. The action is
   * `SelectedTabChanged` of that tab.
   */
  lemma ReactDispatchesIff(state: BrowserState, app: AppState)
    ensures React(state, app).Some? <==>
              state.SelectedTab().Some? && app.selectedTabInfo.Some? &&
              app.selectedTabInfo.value.id != state.SelectedTab().value.id &&
              app.selectedTabInfo.value.mode == BrowsingMode.FromBoolean(state.SelectedTab().value.isPrivate) &&
              |state.tabs| > 1
    ensures React(state, app).Some? ==>
              React(state, app) == Some(SelectedTabChanged(state.SelectedTab().value))
  {
    IntentionalSelectionReduced(state, app.selectedTabInfo);
  }

  /** No selected tab (no id, or an id not in the tab list): nothing is dispatched. */
  lemma NoSelectedTabNoDispatch(state: BrowserState, app: AppState)
    requires state.selectedTabId.None? || state.FindTab(state.selectedTabId.value).None?
    ensures React(state, app) == None
  {
  }

  /** A cached id equal to the selected tab's id means nothing is dispatched, whatever mode is cached. */
  lemma SameIdNoDispatch(state: BrowserState, app: AppState)
    requires state.SelectedTab().Some? && app.selectedTabInfo.Some?
    requires app.selectedTabInfo.value.id == state.SelectedTab().value.id
    ensures React(state, app) == None
  {
  }

  /**
   * Re-observation is idempotent: once the cache records the selected tab's
   * id, delivering the same browser state again dispatches nothing.
   */
  lemma ReobservationIdempotent(state: BrowserState, app: AppState, m: BrowsingMode)
    requires state.SelectedTab().Some?
    ensures React(state, app.(selectedTabInfo := Some(SelectedTabInfo(state.SelectedTab().value.id, m)))) == None
  {
  }

  /** With one tab or none the guard is false, so nothing is dispatched. */
  lemma FewTabsNoDispatch(state: BrowserState, app: AppState)
    requires |state.tabs| <= 1
    ensures !NewTabIntentionallySelected(state, app.selectedTabInfo)
    ensures React(state, app) == None
  {
  }

  /** No cached `selectedTabInfo`: the id test passes, but `null == newMode` is false, so nothing is dispatched. */
  lemma NoCacheNoDispatch(state: BrowserState, app: AppState)
    requires app.selectedTabInfo.None?
    ensures state.SelectedTab().Some? ==> CachedId(app.selectedTabInfo) != Some(state.SelectedTab().value.id)
    ensures React(state, app) == None
  {
    IntentionalSelectionReduced(state, app.selectedTabInfo);
  }

  /**
   * Switching modes by selection, under the code as written: tabs A
   * (normal) and B (private), cache {A, Normal}, B selected. The cached mode
   * differs from B's mode, so no `SelectedTabChanged` is dispatched.
   */
  lemma ModeSwitchingSelectionNotDispatched()
    ensures var a := TabSessionState("A", false);
            var b := TabSessionState("B", true);
            var state := BrowserState([a, b], Some("B"));
            var app := AppState(Normal, Some("A"), Some(SelectedTabInfo("A", Normal)));
            React(state, app) == None
  {
    var a := TabSessionState("A", false);
    var b := TabSessionState("B", true);
    var state := BrowserState([a, b], Some("B"));
    assert state.SelectedTab() == Some(b);
    IntentionalSelectionReduced(state, Some(SelectedTabInfo("A", Normal)));
  }

  /** Selecting another tab of the cached mode among several tabs is dispatched. */
  lemma SameModeSelectionDispatched()
    ensures var a := TabSessionState("A", false);
            var b := TabSessionState("B", false);
            var state := BrowserState([a, b], Some("B"));
            var app := AppState(Normal, Some("A"), Some(SelectedTabInfo("A", Normal)));
            React(state, app) == Some(SelectedTabChanged(b))
  {
    var a := TabSessionState("A", false);
    var b := TabSessionState("B", false);
    var state := BrowserState([a, b], Some("B"));
    assert state.SelectedTab() == Some(b);
    IntentionalSelectionReduced(state, Some(SelectedTabInfo("A", Normal)));
  }

  /**
   * The automatic fallback selection: B (private) was closed, the tab
   * list selected A, the cache still says {B, Private}. One tab: nothing is
   * dispatched.
   */
  lemma FallbackSelectionNotDispatched()
    ensures var a := TabSessionState("A", false);
            var state := BrowserState([a], Some("A"));
            var app := AppState(Private, Some("B"), Some(SelectedTabInfo("B", Private)));
            React(state, app) == None
  {
  }

  lemma DispatchedTabsAreSelected(delivered: seq<BrowserState>, observed: seq<AppState>, a: AppAction)
    requires |observed| == |delivered|
    requires a in Reactions(React, delivered, observed)
    ensures a.SelectedTabChanged?
    ensures exists i :: 0 <= i < |delivered| && delivered[i].SelectedTab() == Some(a.tab)
  {
    ReactionsMembers(React, delivered, observed, a);
    var i :| 0 <= i < |delivered| && React(delivered[i], observed[i]) == Some(a);
    ReactDispatchesIff(delivered[i], observed[i]);
  }

  /** If the application store never caches a `selectedTabInfo`, a whole run dispatches nothing. */
  lemma {:induction false} NoCacheRunNoDispatch(delivered: seq<BrowserState>, observed: seq<AppState>)
    requires |observed| == |delivered|
    requires forall i :: 0 <= i < |observed| ==> observed[i].selectedTabInfo.None?
    ensures Reactions(React, delivered, observed) == []
    decreases |delivered|
  {
    if delivered != [] {
      var n := |delivered| - 1;
      NoCacheRunNoDispatch(delivered[..n], observed[..n]);
      NoCacheNoDispatch(delivered[n], observed[n]);
    }
  }

  /**
   * Only the first state of a run with one `selectedTabId` is reacted to:
   * a run `r` following states `p` that end with a different id is
   * delivered once, as `r[0]`, so a later state of the run (one with more
   * tabs, say) is never checked by the guard.
   */
  lemma SelectionRunReactsOnce(p: seq<BrowserState>, r: seq<BrowserState>, t: seq<BrowserState>,
                               observed: seq<AppState>)
    requires r != [] && forall i :: 0 <= i < |r| ==> r[i].selectedTabId == r[0].selectedTabId
    requires p == [] || p[|p| - 1].selectedTabId != r[0].selectedTabId
    requires |observed| == |DistinctBy(SelectedTabIdOf, p + r + t)|
    ensures var before := DistinctBy(SelectedTabIdOf, p);
            var after := DistinctFrom(SelectedTabIdOf, Some(r[0].selectedTabId), t);
            var m := |before|;
            DistinctBy(SelectedTabIdOf, p + r + t) == before + [r[0]] + after &&
            Reactions(React, DistinctBy(SelectedTabIdOf, p + r + t), observed) ==
              Reactions(React, before, observed[..m]) + OptionToSeq(React(r[0], observed[m])) +
              Reactions(React, after, observed[m + 1..])
  {
    RunReactedOnce(SelectedTabIdOf, React, p, r, t, observed);
  }

  /**
   * `onState`: filter the browser states by `selectedTabId`, then react to
   * each delivered state in order. `observed[i]` is the application store's
   * state when the i-th delivered state is reacted to.
   */
  method OnState(states: seq<BrowserState>, observed: seq<AppState>) returns (log: seq<AppAction>)
    requires |observed| == |DistinctBy(SelectedTabIdOf, states)|
    ensures log == Reactions(React, DistinctBy(SelectedTabIdOf, states), observed)
    ensures |log| <= |DistinctBy(SelectedTabIdOf, states)|
    ensures forall a :: a in log ==>
              a.SelectedTabChanged? && exists s :: s in states && s.SelectedTab() == Some(a.tab)
    ensures (forall i :: 0 <= i < |observed| ==> observed[i].selectedTabInfo.None?) ==> log == []
  {
    var delivered := DistinctBy(SelectedTabIdOf, states);
    log := Collect(React, delivered, observed);
    ReactionsBound(React, delivered, observed);
    forall a | a in log
      ensures a.SelectedTabChanged? && exists s :: s in states && s.SelectedTab() == Some(a.tab)
    {
      DispatchedTabsAreSelected(delivered, observed, a);
      var i :| 0 <= i < |delivered| && delivered[i].SelectedTab() == Some(a.tab);
      DistinctSubsequence(SelectedTabIdOf, states);
      SubsequenceMembers(delivered, states, delivered[i]);
    }
    if forall i :: 0 <= i < |observed| ==> observed[i].selectedTabInfo.None? {
      NoCacheRunNoDispatch(delivered, observed);
    }
  }
}
