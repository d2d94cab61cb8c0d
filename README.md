# Tab-selection and browsing-mode sync policy of Fenix, in Dafny

This project models the policy layer of the Fenix browser that keeps the
application store (`AppStore`) in step with the browser store
(`BrowserStore`), and that mirrors the browsing mode (normal or private) to
the persisted settings and to the window's secure flag:

- the two `BrowserStoreBinding`s, which follow the browser store's
  `selectedTabId` and dispatch `SelectedTabChanged(tab)` into the
  application store. The newer one (`components/appstate/bindings`) has a
  guard against lifecycle re-observations and the tab list's automatic
  fallback selection (`newTabIntentionallySelected`);
- `SelectedTabChangeMiddleware`, whose `onChange` decides, from the action
  and the state after it, whether to dispatch `SelectedTabChanged`;
- `PrivateBrowsingBinding`, which sets the theme to each new mode and adds
  or clears `FLAG_SECURE` on the window;
- `PrivateBrowsingModeMiddleware`, which writes every `ModeChange` to
  `settings.lastKnownMode` and, on `Init`, dispatches `ModeChange` of the
  stored mode;
- `SelectedTabInfo`, the immutable `(id, mode)` value the guard reads.

Structure (one module per file):

| file | module | what |
|---|---|---|
| wrappers.dfy | `Wrappers` | `Option`, standing for Kotlin's nullable types |
| flows.dfy | `Flows` | `distinctUntilChangedBy` as `DistinctBy`; the collector `Collect` and its specification `Reactions` |
| browsing_mode.dfy | `BrowsingModes` | `BrowsingMode` and `fromBoolean` |
| browser_state.dfy | `BrowserStates` | tabs, `BrowserState`, `findTab`, `selectedTab`, `BrowserAction` |
| selected_tab_info.dfy | `SelectedTabInfos` | `SelectedTabInfo` and its data-class laws |
| app_state.dfy | `AppStates` | the parts of `AppState` and `AppAction` in use |
| settings.dfy | `Utils` | `Settings` as a class with the two fields in use |
| appstate_browser_store_binding.dfy | `AppStateBindings` | the newer binding |
| browser_store_binding.dfy | `Bindings` | the older binding and `SelectedTabChangeMiddleware` |
| private_browsing_binding.dfy | `PrivateBrowsingBindings` | `PrivateBrowsingBinding` as a class |
| private_browsing_mode_middleware.dfy | `PrivateBrowsingModeMiddlewares` | `PrivateBrowsingModeMiddleware` as a class |

How the model is put together:

- Each binding filters its input stream with `DistinctBy` and reacts to every
  delivered value in order. Each reaction runs to completion before the next
  one starts.
- What a reaction reads from the application store (`appStore.state`) is an
  input: `observed[i]` is that store's state when the i-th delivered value is
  handled. The application store's reducer is not part of the model, so
  nothing here says what that store holds after a dispatch.
- What `PrivateBrowsingBinding` reads from `allowScreenshotsInPrivateMode` is
  also an input, one value per reaction.
- The theme manager and the window become the fields `currentTheme` and
  `secureFlag`.
- Each class keeps an ordered log (`effects`, `trace`). The log records what
  the class did to its collaborators, so ordering claims can be stated: the
  theme is set before the window is touched; an action reaches `next` before
  any side effect.

## Behaviour as written

`newTabIntentionallySelected` is modelled as the code has it. The name
`anyTabInOldMode` reads as "some tab is in the cached mode". The lambda
handed to `tabs.any` ignores its argument, though: it compares the cached
mode with the mode of the newly selected tab.
`AppStateBindings.IntentionalSelectionReduced` proves what the guard reduces
to: more than one tab, a cached `selectedTabInfo`, and a cached mode equal to
the new tab's mode.

As a result, the binding dispatches only when the selection stays within one
mode. Switching to a tab of the other mode does not dispatch:
`ModeSwitchingSelectionNotDispatched` proves this for tabs A (normal) and
B (private), cache `{A, Normal}` and B selected. The code's TODO comment
(lines 40-49) says the heuristic is known to be incomplete. The model
follows the code and does not correct it.

## Model

| member | source | states |
|---|---|---|
| `Flows.DistinctBy` | fenix/app/src/main/java/org/mozilla/fenix/components/appstate/bindings/BrowserStoreBinding.kt:28 | definition of `distinctUntilChangedBy` (also fenix/app/src/main/java/org/mozilla/fenix/bindings/BrowserStoreBinding.kt:31 and fenix/app/src/main/java/org/mozilla/fenix/PrivateBrowsingBinding.kt:23), through `DistinctFrom`; specified by `DistinctKeepsFirst`, `DistinctChangesEveryStep`, `DistinctSubsequence`, `DistinctKeepsLastKey`, `DistinctRun`, `DistinctOfChanging` and `DistinctIdempotent` |
| `Flows.DistinctKeepsFirst` | fenix/app/src/main/java/org/mozilla/fenix/components/appstate/bindings/BrowserStoreBinding.kt:28 | the first value of the stream is always delivered (a fresh subscription always reacts once) |
| `Flows.DistinctChangesEveryStep` | fenix/app/src/main/java/org/mozilla/fenix/components/appstate/bindings/BrowserStoreBinding.kt:28 | no two neighbouring delivered values have equal keys |
| `Flows.DistinctSubsequence` | fenix/app/src/main/java/org/mozilla/fenix/bindings/BrowserStoreBinding.kt:31 | the filter only drops values: its output is a subsequence of its input |
| `Flows.DistinctKeepsLastKey` | fenix/app/src/main/java/org/mozilla/fenix/PrivateBrowsingBinding.kt:23 | the last delivered value has the key of the last value emitted, so the latest key is never lost |
| `Flows.DistinctFromAppend` | fenix/app/src/main/java/org/mozilla/fenix/components/appstate/bindings/BrowserStoreBinding.kt:28 | filtering `p + t` is filtering `p`, then filtering `t` from the key of the last value of `p`; the state `KeyAfter(p)` it resumes from is the key of the last value delivered from `p` (`KeyAfterIsLastDelivered`) |
| `Flows.KeyAfterIsLastDelivered` | fenix/app/src/main/java/org/mozilla/fenix/components/appstate/bindings/BrowserStoreBinding.kt:28 | the filter's state after a prefix is the key of the last value it delivered, or its initial state when it delivered nothing: dropped values never change it |
| `Flows.DistinctFromSkipsRun` | fenix/app/src/main/java/org/mozilla/fenix/PrivateBrowsingBinding.kt:23 | a run of values with the key last delivered is dropped entirely, whatever follows it |
| `Flows.RunDeliversHead` | fenix/app/src/main/java/org/mozilla/fenix/PrivateBrowsingBinding.kt:23 | a run whose key differs from the last delivered one contributes exactly its first value |
| `Flows.DistinctRun` | fenix/app/src/main/java/org/mozilla/fenix/PrivateBrowsingBinding.kt:23 | for any stream `p + r + t` with `r` a run of one key: the run is delivered once, as its first value, when the value before it has another key (or there is none), and not at all when it continues that key |
| `Flows.DistinctOfChanging` | fenix/app/src/main/java/org/mozilla/fenix/components/appstate/bindings/BrowserStoreBinding.kt:28 | a stream whose key changes at every step passes unchanged |
| `Flows.DistinctIdempotent` | fenix/app/src/main/java/org/mozilla/fenix/components/appstate/bindings/BrowserStoreBinding.kt:28 | filtering twice equals filtering once |
| `Flows.ReactionsAppend` | fenix/app/src/main/java/org/mozilla/fenix/components/appstate/bindings/BrowserStoreBinding.kt:29-37 | reacting to `a + b` dispatches what reacting to `a` dispatches, then what reacting to `b` does |
| `Flows.ReactionsBound` | fenix/app/src/main/java/org/mozilla/fenix/components/appstate/bindings/BrowserStoreBinding.kt:29-37 | at most one dispatch per delivered value |
| `Flows.ReactionsMembers` | fenix/app/src/main/java/org/mozilla/fenix/components/appstate/bindings/BrowserStoreBinding.kt:29-37 | an action is in the dispatch log iff the reaction to some delivered value chose it |
| `Flows.RunReactedOnce` | fenix/app/src/main/java/org/mozilla/fenix/components/appstate/bindings/BrowserStoreBinding.kt:28-37 | for any key and reaction: a run of one key after a different key (or at the start) causes exactly one reaction, to its first value, and the log splits around it |
| `Flows.Collect` | fenix/app/src/main/java/org/mozilla/fenix/components/appstate/bindings/BrowserStoreBinding.kt:29-37 | the collect loop's log is the in-order concatenation of each delivered value's reaction |
| `BrowsingModes.BrowsingMode.FromBoolean` | fenix/app/src/main/java/org/mozilla/fenix/components/appstate/bindings/BrowserStoreBinding.kt:51 | the mode derived from a private flag is private iff the flag is set |
| `BrowserStates.SelectedTabIdOf` | fenix/app/src/main/java/org/mozilla/fenix/bindings/BrowserStoreBinding.kt:47 | definition of the selector `state.selectedTabId`, the key of both bindings' filters and of the change detection |
| `BrowserStates.BrowserState.FindTab` | fenix/app/src/main/java/org/mozilla/fenix/bindings/BrowserStoreBinding.kt:55 | `findTab(id)` finds a tab iff one has that id; the tab found has that id and is in the tab list |
| `BrowserStates.BrowserState.SelectedTab` | fenix/app/src/main/java/org/mozilla/fenix/components/appstate/bindings/BrowserStoreBinding.kt:30 | `selectedTab` exists iff `selectedTabId` is set and names a tab; it is in the tab list and carries that id |
| `AppStateBindings.NewTabIntentionallySelected` | fenix/app/src/main/java/org/mozilla/fenix/components/appstate/bindings/BrowserStoreBinding.kt:50-55 | definition of `newTabIntentionallySelected` as written; reduced by `IntentionalSelectionReduced` |
| `AppStateBindings.React` | fenix/app/src/main/java/org/mozilla/fenix/components/appstate/bindings/BrowserStoreBinding.kt:30-36 | definition of one reaction of the new binding; specified by `ReactDispatchesIff` and the no-dispatch lemmas below |
| `AppStateBindings.AnyIgnoringTab` | fenix/app/src/main/java/org/mozilla/fenix/components/appstate/bindings/BrowserStoreBinding.kt:52 | `tabs.any` with a predicate that ignores its argument holds iff the list is nonempty and the predicate's value holds |
| `AppStateBindings.IntentionalSelectionReduced` | fenix/app/src/main/java/org/mozilla/fenix/components/appstate/bindings/BrowserStoreBinding.kt:50-55 | the guard holds iff there is more than one tab and the cached mode is present and equals the new tab's mode |
| `AppStateBindings.IntentionalSelectionIgnoresOtherTabs` | fenix/app/src/main/java/org/mozilla/fenix/components/appstate/bindings/BrowserStoreBinding.kt:52 | the guard depends only on the tab count and the selected tab, not on the other tabs' contents |
| `AppStateBindings.ReactDispatchesIff` | fenix/app/src/main/java/org/mozilla/fenix/components/appstate/bindings/BrowserStoreBinding.kt:30-35 | one state leads to a dispatch iff a selected tab exists, the cached id is present and differs, the cached mode is that tab's mode and there are two or more tabs; the action is `SelectedTabChanged` of that tab |
| `AppStateBindings.NoSelectedTabNoDispatch` | fenix/app/src/main/java/org/mozilla/fenix/components/appstate/bindings/BrowserStoreBinding.kt:30 | no selected tab id, or an id not in the list: nothing is dispatched |
| `AppStateBindings.SameIdNoDispatch` | fenix/app/src/main/java/org/mozilla/fenix/components/appstate/bindings/BrowserStoreBinding.kt:31-33 | a cached id equal to the selected tab's id means no dispatch, whatever mode is cached |
| `AppStateBindings.ReobservationIdempotent` | fenix/app/src/main/java/org/mozilla/fenix/components/appstate/bindings/BrowserStoreBinding.kt:31-33 | once the cache holds the selected tab's id, re-delivering the same state dispatches nothing |
| `AppStateBindings.FewTabsNoDispatch` | fenix/app/src/main/java/org/mozilla/fenix/components/appstate/bindings/BrowserStoreBinding.kt:53-54 | with one tab or none the guard is false and nothing is dispatched |
| `AppStateBindings.NoCacheNoDispatch` | fenix/app/src/main/java/org/mozilla/fenix/components/appstate/bindings/BrowserStoreBinding.kt:33-52 | with no cached `selectedTabInfo` the id test passes but nothing is dispatched |
| `AppStateBindings.ModeSwitchingSelectionNotDispatched` | fenix/app/src/main/java/org/mozilla/fenix/components/appstate/bindings/BrowserStoreBinding.kt:50-55 | selecting a private tab while a normal tab is cached, with two tabs, is not dispatched |
| `AppStateBindings.SameModeSelectionDispatched` | fenix/app/src/main/java/org/mozilla/fenix/components/appstate/bindings/BrowserStoreBinding.kt:30-34 | selecting another tab of the cached mode among two tabs dispatches `SelectedTabChanged` of it |
| `AppStateBindings.FallbackSelectionNotDispatched` | fenix/app/src/main/java/org/mozilla/fenix/components/appstate/bindings/BrowserStoreBinding.kt:53-54 | the automatic fallback to the only remaining tab is not dispatched |
| `AppStateBindings.DispatchedTabsAreSelected` | fenix/app/src/main/java/org/mozilla/fenix/components/appstate/bindings/BrowserStoreBinding.kt:30-34 | every dispatched action is `SelectedTabChanged` of the selected tab of some delivered state |
| `AppStateBindings.NoCacheRunNoDispatch` | fenix/app/src/main/java/org/mozilla/fenix/components/appstate/bindings/BrowserStoreBinding.kt:29-37 | if the application store never caches a `selectedTabInfo`, a whole run dispatches nothing |
| `AppStateBindings.SelectionRunReactsOnce` | fenix/app/src/main/java/org/mozilla/fenix/components/appstate/bindings/BrowserStoreBinding.kt:28-37 | anywhere in the stream, a run of states with one `selectedTabId` that follows a different id (or starts the stream) is reacted to once, on its first state; later states of the run never reach the guard |
| `AppStateBindings.OnState` | fenix/app/src/main/java/org/mozilla/fenix/components/appstate/bindings/BrowserStoreBinding.kt:26-38 | the log is the reactions to the states filtered by `selectedTabId`; at most one per delivered state; each is `SelectedTabChanged` of a selected tab of an input state; nothing when no `selectedTabInfo` is ever cached |
| `Bindings.React` | fenix/app/src/main/java/org/mozilla/fenix/bindings/BrowserStoreBinding.kt:33-39 | definition of one reaction of the old binding; specified by `ReactDispatchesIff` |
| `Bindings.ReactDispatchesIff` | fenix/app/src/main/java/org/mozilla/fenix/bindings/BrowserStoreBinding.kt:33-37 | one state leads to a dispatch iff a selected tab exists and the app's `selectedTabId` is not its id; the action carries that tab |
| `Bindings.OnState` | fenix/app/src/main/java/org/mozilla/fenix/bindings/BrowserStoreBinding.kt:29-41 | the log is the reactions to the states filtered by `selectedTabId`; at most one per delivered state; each is `SelectedTabChanged` of a selected tab of an input state |
| `Bindings.UnchangedSelectionDeliveredOnce` | fenix/app/src/main/java/org/mozilla/fenix/bindings/BrowserStoreBinding.kt:31-40 | anywhere in the stream, a run of states with one `selectedTabId` that follows a different id (or starts the stream) is delivered once, as its first state, and its only reaction is the one to that state |
| `Bindings.OnChange` | fenix/app/src/main/java/org/mozilla/fenix/bindings/BrowserStoreBinding.kt:48-63 | definition of the `onChange` callback, parameters in the order `(action, pre, post, preState, postState)`; specified by `OnChangeDispatchesIff` and `OnChangeIgnoresPre` |
| `Bindings.ChangeDetection` | fenix/app/src/main/java/org/mozilla/fenix/bindings/BrowserStoreBinding.kt:44-47 | the assumed base class: `onChange` is called only when the selector values differ; specified by `ChangeDetectionDispatchesIff` and `RestoreNeverDispatches` |
| `Bindings.RestoreNeverDispatches` | fenix/app/src/main/java/org/mozilla/fenix/bindings/BrowserStoreBinding.kt:52 | a `RestoreAction` never leads to a dispatch |
| `Bindings.OnChangeDispatchesIff` | fenix/app/src/main/java/org/mozilla/fenix/bindings/BrowserStoreBinding.kt:51-62 | `onChange` dispatches iff the action is not a restore, the post selection is set and names a tab of the post state; the dispatched tab is that tab |
| `Bindings.OnChangeIgnoresPre` | fenix/app/src/main/java/org/mozilla/fenix/bindings/BrowserStoreBinding.kt:48 | the `onChange` outcome does not depend on the pre selection or the pre state |
| `Bindings.ChangeDetectionDispatchesIff` | fenix/app/src/main/java/org/mozilla/fenix/bindings/BrowserStoreBinding.kt:44-63 | with the selector `selectedTabId`, the middleware dispatches iff the id changed, the action is not a restore and the new id names a tab; it dispatches that tab |
| `SelectedTabInfos.SelectedTabInfo.Copy` | fenix/app/src/main/java/org/mozilla/fenix/components/appstate/home/SelectedTabInfo.kt:5 | `copy` gives a value with exactly the given (or kept) id and mode |
| `SelectedTabInfos.SelectedTabInfo.Component1` | fenix/app/src/main/java/org/mozilla/fenix/components/appstate/home/SelectedTabInfo.kt:5 | definition of `component1()`; specified by `DestructuringLaws` |
| `SelectedTabInfos.SelectedTabInfo.Component2` | fenix/app/src/main/java/org/mozilla/fenix/components/appstate/home/SelectedTabInfo.kt:5 | definition of `component2()`; specified by `DestructuringLaws` |
| `SelectedTabInfos.EqualityIsStructural` | fenix/app/src/main/java/org/mozilla/fenix/components/appstate/home/SelectedTabInfo.kt:5 | two values are equal iff their ids and modes are equal |
| `SelectedTabInfos.CopyLaws` | fenix/app/src/main/java/org/mozilla/fenix/components/appstate/home/SelectedTabInfo.kt:5 | `copy(mode = m)` keeps the id and sets the mode; `copy()` is the original |
| `SelectedTabInfos.DestructuringLaws` | fenix/app/src/main/java/org/mozilla/fenix/components/appstate/home/SelectedTabInfo.kt:5 | destructuring `SelectedTabInfo(a, b)` gives `a` and `b` |
| `PrivateBrowsingBindings.ModeOf` | fenix/app/src/main/java/org/mozilla/fenix/PrivateBrowsingBinding.kt:23 | definition of the selector `it.mode`, the key of the binding's filter; used by `UnchangedModeReactsOnce` and `OnState` |
| `PrivateBrowsingBindings.PrivacyEffects` | fenix/app/src/main/java/org/mozilla/fenix/PrivateBrowsingBinding.kt:29-39 | definition of what `setWindowPrivacy` does, as effects; specified by `PrivacyFlag` and `SettingReadOnlyWhenPrivate` |
| `PrivateBrowsingBindings.ReactionEffects` | fenix/app/src/main/java/org/mozilla/fenix/PrivateBrowsingBinding.kt:24-25 | definition of one reaction: the theme, then `setWindowPrivacy`; specified by `ReactionFlag`, `ThemeBeforeWindow` and `SettingReadOnlyWhenPrivate` |
| `PrivateBrowsingBindings.PrivacyFlag` | fenix/app/src/main/java/org/mozilla/fenix/PrivateBrowsingBinding.kt:29-40 | a non-private mode clears the flag; private mode without permission sets it; private mode with permission leaves it |
| `PrivateBrowsingBindings.ReactionFlag` | fenix/app/src/main/java/org/mozilla/fenix/PrivateBrowsingBinding.kt:23-26 | setting the theme does not touch the flag, so a reaction does to it what `setWindowPrivacy` does |
| `PrivateBrowsingBindings.RunStep` | fenix/app/src/main/java/org/mozilla/fenix/PrivateBrowsingBinding.kt:23-26 | the flag after one more reaction at the end of a run, in terms of the flag before it |
| `PrivateBrowsingBindings.ThemeBeforeWindow` | fenix/app/src/main/java/org/mozilla/fenix/PrivateBrowsingBinding.kt:24-25 | each reaction sets the theme first, and only once |
| `PrivateBrowsingBindings.SettingReadOnlyWhenPrivate` | fenix/app/src/main/java/org/mozilla/fenix/PrivateBrowsingBinding.kt:30-38 | the setting is read iff the mode is private; a non-private reaction does not depend on it |
| `PrivateBrowsingBindings.FlagAfterRun` | fenix/app/src/main/java/org/mozilla/fenix/PrivateBrowsingBinding.kt:22-40 | after a run, the flag is set iff some reaction entered private mode without permission and only private-mode reactions followed; or it was set initially and every reaction was private |
| `PrivateBrowsingBindings.LastModeDecidesFlag` | fenix/app/src/main/java/org/mozilla/fenix/PrivateBrowsingBinding.kt:22-40 | ending in a non-private mode leaves the flag cleared; ending in private mode without permission leaves it set |
| `PrivateBrowsingBindings.AllEffectsAppend` | fenix/app/src/main/java/org/mozilla/fenix/PrivateBrowsingBinding.kt:23-26 | the effects of reacting to `a + b` are those of reacting to `a`, then those of reacting to `b` |
| `PrivateBrowsingBindings.UnchangedModeReactsOnce` | fenix/app/src/main/java/org/mozilla/fenix/PrivateBrowsingBinding.kt:23-26 | anywhere in the stream, a run of states with one mode that follows a different mode (or starts the stream) is delivered once, and contributes exactly one reaction, to that mode |
| `PrivateBrowsingBindings.PrivateBrowsingBinding.SetWindowPrivacy` | fenix/app/src/main/java/org/mozilla/fenix/PrivateBrowsingBinding.kt:29-40 | appends the read and the add or clear to the log; clears the flag for a non-private mode, sets it for private without permission, leaves it for private with permission |
| `PrivateBrowsingBindings.PrivateBrowsingBinding.React` | fenix/app/src/main/java/org/mozilla/fenix/PrivateBrowsingBinding.kt:23-26 | the theme becomes the mode; the log grows by the theme change and then the window privacy effects; the flag is updated by them |
| `PrivateBrowsingBindings.PrivateBrowsingBinding.ReactAll` | fenix/app/src/main/java/org/mozilla/fenix/PrivateBrowsingBinding.kt:23-26 | the collect loop: the log and the flag are those of the reactions to the delivered states, in order; the theme ends as the last delivered mode |
| `PrivateBrowsingBindings.PrivateBrowsingBinding.OnState` | fenix/app/src/main/java/org/mozilla/fenix/PrivateBrowsingBinding.kt:22-27 | the log and the flag are those of the reactions to the states filtered by mode; the theme ends as the last input state's mode |
| `PrivateBrowsingModeMiddlewares.InvokeEffects` | fenix/app/src/main/java/org/mozilla/fenix/PrivateBrowsingModeMiddleware.kt:21-35 | definition of what one `invoke` does, as effects in order; specified by `InvokeLaws` |
| `PrivateBrowsingModeMiddlewares.StoredAfter` | fenix/app/src/main/java/org/mozilla/fenix/PrivateBrowsingModeMiddleware.kt:29-32 | definition of the stored mode after one action; specified by `InvokeLaws`, `StoredIsLastModeChange` and `ModeChangeIdempotent` |
| `PrivateBrowsingModeMiddlewares.InvokeLaws` | fenix/app/src/main/java/org/mozilla/fenix/PrivateBrowsingModeMiddleware.kt:21-34 | the action goes to `next` first and once; `Init` dispatches `ModeChange` of the stored mode without writing; `ModeChange(m)` writes `m` without dispatching; other actions do neither |
| `PrivateBrowsingModeMiddlewares.NeverVetoes` | fenix/app/src/main/java/org/mozilla/fenix/PrivateBrowsingModeMiddleware.kt:21 | over any run, `next` receives exactly the actions handled, in order |
| `PrivateBrowsingModeMiddlewares.StoredIsLastModeChange` | fenix/app/src/main/java/org/mozilla/fenix/PrivateBrowsingModeMiddleware.kt:29-32 | the setting holds the mode of the last `ModeChange` handled, or its initial value |
| `PrivateBrowsingModeMiddlewares.InitRestoresLastMode` | fenix/app/src/main/java/org/mozilla/fenix/PrivateBrowsingModeMiddleware.kt:23-32 | an `Init` after any history adds exactly one dispatch, `ModeChange` of the last mode that history changed to |
| `PrivateBrowsingModeMiddlewares.ModeChangeThenInit` | fenix/app/src/main/java/org/mozilla/fenix/PrivateBrowsingModeMiddleware.kt:24-32 | `ModeChange(m)` then `Init` dispatches exactly `ModeChange(m)` |
| `PrivateBrowsingModeMiddlewares.InitDispatchIsFixedPoint` | fenix/app/src/main/java/org/mozilla/fenix/PrivateBrowsingModeMiddleware.kt:25-31 | feeding the `ModeChange` that `Init` dispatches back through the middleware leaves the setting unchanged |
| `PrivateBrowsingModeMiddlewares.ModeChangeIdempotent` | fenix/app/src/main/java/org/mozilla/fenix/PrivateBrowsingModeMiddleware.kt:29-32 | `ModeChange(m)` twice leaves the setting as once, and dispatches nothing |
| `PrivateBrowsingModeMiddlewares.PrivateBrowsingModeMiddleware.Invoke` | fenix/app/src/main/java/org/mozilla/fenix/PrivateBrowsingModeMiddleware.kt:16-36 | the trace grows by exactly the effects of handling the action; the stored mode is updated only by `ModeChange`; the screenshot setting is untouched |

## Left out

- Latest-wins cancellation (`collectLatest`), `Dispatchers.IO`, `withContext` and `scope.launch`. Each reaction or launched block runs to completion, in order. Two consequences follow. A reaction cancelled by a newer state is not modelled. Neither is the short window in which private mode is shown before the secure flag is added.
- The `AbstractBinding` start/stop lifecycle and the flow subscription: only filter-then-react is modelled. The stream a binding sees is a finite sequence.
- The stores themselves, their reducers and the middleware chain: the model does not say what a store holds after a dispatch. A dispatched action is only recorded. An action the middleware dispatches is not run back through the chain, except where a lemma (`InitDispatchIsFixedPoint`) feeds it back by hand.
- `ChangeDetectionMiddleware` (definition not shown; assumed:) the function `ChangeDetection`, which calls `onChange` only when the selections before and after differ.
- `BrowsingMode.fromBoolean`, `findTab` and `selectedTab` (definition not shown; assumed:) `true` ↦ Private, a first-match lookup by id, and the lookup of `selectedTabId`.
- Android types: `Window`/`FLAG_SECURE` and `ThemeManager` become fields; `retrieveWindow()` always returns the same window.
- Settings storage (definition not shown; assumed:) reads and writes always succeed, and nothing here falls back to a default mode.
- Tab content other than the private flag.
- The `Log.i` calls in `bindings/BrowserStoreBinding.kt`: debug output only.
- `HistoryInteractor.kt`: its methods only delegate to a history controller or record telemetry.
