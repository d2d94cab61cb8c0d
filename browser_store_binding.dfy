/**
 * The binding and the change-detection middleware in `bindings`: both keep
 * the application store's selected tab in step with the browser store's.
 */
module Bindings {
  import opened Wrappers
  import opened BrowserStates
  import opened AppStates
  import opened Flows

  // ---------------------------------------------------------------------
  // BrowserStoreBinding
  // ---------------------------------------------------------------------

  /** The reaction of `onState` to one delivered browser state, given the application state it reads. */
  function React(state: BrowserState, app: AppState): Option<AppAction>
  {
    match state.SelectedTab()
    case None => None
    case Some(tab) =>
      if app.selectedTabId != Some(tab.id) then Some(SelectedTabChanged(tab)) else None
  }

  /**
   * One delivered state leads to a dispatch iff it has a selected tab whose
   * id is not the application store's `selectedTabId`; the action carries
   * that tab.
   */
  lemma ReactDispatchesIff(state: BrowserState, app: AppState)
    ensures React(state, app).Some? <==>
              state.SelectedTab().Some? && app.selectedTabId != Some(state.SelectedTab().value.id)
    ensures React(state, app).Some? ==>
              React(state, app) == Some(SelectedTabChanged(state.SelectedTab().value)) &&
              state.selectedTabId == Some(state.SelectedTab().value.id)
  {
  }

  /**
   * `onState`: filter by `selectedTabId`, then react to each delivered state
   * in order. `observed[i]` is the application store's state when the i-th
   * delivered state is reacted to.
   */
  method OnState(states: seq<BrowserState>, observed: seq<AppState>) returns (log: seq<AppAction>)
    requires |observed| == |DistinctBy(SelectedTabIdOf, states)|
    ensures log == Reactions(React, DistinctBy(SelectedTabIdOf, states), observed)
    ensures |log| <= |DistinctBy(SelectedTabIdOf, states)|
    ensures forall a :: a in log ==>
              a.SelectedTabChanged? && exists s :: s in states && s.SelectedTab() == Some(a.tab)
  {
    var delivered := DistinctBy(SelectedTabIdOf, states);
    log := Collect(React, delivered, observed);
    ReactionsBound(React, delivered, observed);
    forall a | a in log
      ensures a.SelectedTabChanged? && exists s :: s in states && s.SelectedTab() == Some(a.tab)
    {
      ReactionsMembers(React, delivered, observed, a);
      var i :| 0 <= i < |delivered| && React(delivered[i], observed[i]) == Some(a);
      DistinctSubsequence(SelectedTabIdOf, states);
      SubsequenceMembers(delivered, states, delivered[i]);
    }
  }

  /**
   * The binding reacts only when `selectedTabId` changes: a run `r` of
   * browser states with one `selectedTabId`, following states `p` that end
   * with a different one, is delivered once, as its first state, and causes
   * exactly the one reaction to that state.
   */
  lemma UnchangedSelectionDeliveredOnce(p: seq<BrowserState>, r: seq<BrowserState>, t: seq<BrowserState>,
                                        observed: seq<AppState>)
    requires r != [] && forall i :: 0 <= i < |r| ==> r[i].selectedTabId == r[0].selectedTabId
    requires p == [] || p[|p| - 1].selectedTabId != r[0].selectedTabId
    requires |observed| == |DistinctBy(SelectedTabIdOf, p + r + t)|
    ensures var before := DistinctBy(SelectedTabIdOf, p);
            var after := DistinctFrom(SelectedTabIdOf, Some(r[0].selectedTabId), t);
            var m := |before|;
            DistinctBy(SelectedTabIdOf, p + r + t) == before + [r[0]] + after &&
            Reactions(React, DistinctBy(SelectedTabIdOf, p + r + t), observed) ==
              Reactions(React, before, observed[..m]) + OptionToSeq(React(r[0], observed[m])) +
              Reactions(React, after, observed[m + 1..])
  {
    RunReactedOnce(SelectedTabIdOf, React, p, r, t, observed);
  }

  // ---------------------------------------------------------------------
  // SelectedTabChangeMiddleware
  // ---------------------------------------------------------------------

  /**
   * The `onChange` callback: a restore never dispatches; otherwise the post
   * selection is looked up in the post state and, if found, dispatched as
   * `SelectedTabChanged`. The pre selection and pre state are not read.
   */
  function OnChange(action: BrowserAction, pre: Option<TabId>, post: Option<TabId>,
                    preState: BrowserState, postState: BrowserState): Option<AppAction>
  {
    match action
    case RestoreAction => None
    case OtherBrowserAction(_) =>
      match post
      case None => None
      case Some(id) =>
        match postState.FindTab(id)
        case None => None
        case Some(tab) => Some(SelectedTabChanged(tab))
  }

  /**
   * The change-detection wrapper, whose definition is not part of this
   * model: it projects the state before and after the action with the
   * selector `selectedTabId` and calls `onChange` only when they differ.
   */
  function ChangeDetection(action: BrowserAction, preState: BrowserState, postState: BrowserState): Option<AppAction>
  {
    var pre := SelectedTabIdOf(preState);
    var post := SelectedTabIdOf(postState);
    if pre != post then OnChange(action, pre, post, preState, postState) else None
  }

  /** A tab-list restore never leads to a dispatch. */
  lemma RestoreNeverDispatches(preState: BrowserState, postState: BrowserState)
    ensures ChangeDetection(RestoreAction, preState, postState) == None
  {
  }

  /**
   * `onChange` dispatches iff the action is not a restore, there is a post
   * selection and the post state has a tab with that id; the action carries
   * that tab, taken from the post state.
   */
  lemma OnChangeDispatchesIff(action: BrowserAction, pre: Option<TabId>, post: Option<TabId>,
                              preState: BrowserState, postState: BrowserState)
    ensures OnChange(action, pre, post, preState, postState).Some? <==>
              action != RestoreAction && post.Some? && postState.FindTab(post.value).Some?
    ensures OnChange(action, pre, post, preState, postState).Some? ==>
              var a := OnChange(action, pre, post, preState, postState).value;
              a.SelectedTabChanged? && a.tab.id == post.value && a.tab in postState.tabs &&
              Some(a.tab) == postState.FindTab(post.value)
  {
  }

  /** The outcome of `onChange` depends only on the action, the post selection and the post state. */
  lemma OnChangeIgnoresPre(action: BrowserAction, pre1: Option<TabId>, pre2: Option<TabId>, post: Option<TabId>,
                           preState1: BrowserState, preState2: BrowserState, postState: BrowserState)
    ensures OnChange(action, pre1, post, preState1, postState) == OnChange(action, pre2, post, preState2, postState)
  {
  }

  /**
   * The middleware as a whole: it dispatches iff the selected id changed,
   * the action is not a restore and the new id names a tab of the post
   * state; the tab dispatched is that tab.
   */
  lemma ChangeDetectionDispatchesIff(action: BrowserAction, preState: BrowserState, postState: BrowserState)
    ensures ChangeDetection(action, preState, postState).Some? <==>
              preState.selectedTabId != postState.selectedTabId && action != RestoreAction &&
              postState.SelectedTab().Some?
    ensures ChangeDetection(action, preState, postState).Some? ==>
              ChangeDetection(action, preState, postState) == Some(SelectedTabChanged(postState.SelectedTab().value))
  {
    OnChangeDispatchesIff(action, preState.selectedTabId, postState.selectedTabId, preState, postState);
  }
}
