/**
 * The parts of the application store's state and actions that the bindings
 * and the middleware read or issue. The application store's reducer is not
 * part of this model.
 */
module AppStates {
  import opened Wrappers
  import opened BrowsingModes
  import opened BrowserStates
  import opened SelectedTabInfos

  datatype AppState = AppState(
    mode: BrowsingMode,
    selectedTabId: Option<TabId>,
    selectedTabInfo: Option<SelectedTabInfo>)

  /** Application actions: only the variants used here are told apart. */
  datatype AppAction =
    | Init
    | ModeChange(mode: BrowsingMode)
    | SelectedTabChanged(tab: TabSessionState)
    | OtherAppAction(name: string)
}
