/**
 * `PrivateBrowsingModeMiddleware`: mirrors the application store's browsing
 * mode into `settings.lastKnownMode` and restores it at start-up. Each block
 * the middleware launches on its background scope is taken to run to
 * completion, in order, right after the action it belongs to.
 */
module PrivateBrowsingModeMiddlewares {
  import opened BrowsingModes
  import opened AppStates
  import opened Utils

  /** What the middleware does, in order: hand an action to `next`, dispatch one through the context, write the setting. */
  datatype Effect = Forwarded(action: AppAction) | Dispatched(action: AppAction) | Persisted(mode: BrowsingMode)

  /** `settings.lastKnownMode` after the middleware handled `action`, starting from `stored`. */
  function StoredAfter(stored: BrowsingMode, action: AppAction): BrowsingMode
  {
    match action
    case ModeChange(m) => m
    case _ => stored
  }

  /** What handling `action` does when `settings.lastKnownMode` is `stored`. */
  function InvokeEffects(stored: BrowsingMode, action: AppAction): seq<Effect>
  {
    [Forwarded(action)] +
    match action
    case Init => [Dispatched(ModeChange(stored))]
    case ModeChange(m) => [Persisted(m)]
    case _ => []
  }

  /** The setting after a sequence of actions, handled in order. */
  function StoredAfterAll(stored: BrowsingMode, actions: seq<AppAction>): BrowsingMode
    decreases |actions|
  {
    if actions == [] then stored else StoredAfterAll(StoredAfter(stored, actions[0]), actions[1..])
  }

  /** The effects of a sequence of actions, handled in order. */
  function EffectsAll(stored: BrowsingMode, actions: seq<AppAction>): seq<Effect>
    decreases |actions|
  {
    if actions == [] then []
    else InvokeEffects(stored, actions[0]) + EffectsAll(StoredAfter(stored, actions[0]), actions[1..])
  }

  /** The actions handed to `next`, in order. */
  function ForwardedActions(effects: seq<Effect>): seq<AppAction>
    decreases |effects|
  {
    if effects == [] then []
    else (if effects[0].Forwarded? then [effects[0].action] else []) + ForwardedActions(effects[1..])
  }

  /** The actions dispatched through the context, in order. */
  function DispatchedActions(effects: seq<Effect>): seq<AppAction>
    decreases |effects|
  {
    if effects == [] then []
    else (if effects[0].Dispatched? then [effects[0].action] else []) + DispatchedActions(effects[1..])
  }

  lemma {:induction false} ForwardedAppend(e1: seq<Effect>, e2: seq<Effect>)
    ensures ForwardedActions(e1 + e2) == ForwardedActions(e1) + ForwardedActions(e2)
    decreases |e1|
  {
    if e1 == [] {
      assert e1 + e2 == e2;
    } else {
      var head := if e1[0].Forwarded? then [e1[0].action] else [];
      assert (e1 + e2)[0] == e1[0] && (e1 + e2)[1..] == e1[1..] + e2;
      ForwardedAppend(e1[1..], e2);
      assert ForwardedActions(e1) == head + ForwardedActions(e1[1..]);
      assert ForwardedActions(e1 + e2) == head + (ForwardedActions(e1[1..]) + ForwardedActions(e2));
    }
  }

  lemma {:induction false} DispatchedAppend(e1: seq<Effect>, e2: seq<Effect>)
    ensures DispatchedActions(e1 + e2) == DispatchedActions(e1) + DispatchedActions(e2)
    decreases |e1|
  {
    if e1 == [] {
      assert e1 + e2 == e2;
    } else {
      var head := if e1[0].Dispatched? then [e1[0].action] else [];
      assert (e1 + e2)[0] == e1[0] && (e1 + e2)[1..] == e1[1..] + e2;
      DispatchedAppend(e1[1..], e2);
      assert DispatchedActions(e1) == head + DispatchedActions(e1[1..]);
      assert DispatchedActions(e1 + e2) == head + (DispatchedActions(e1[1..]) + DispatchedActions(e2));
    }
  }

  /**
   * Handling one action: it is handed to `next` first and exactly once,
   * unchanged; `Init` then dispatches `ModeChange` of the stored mode and
   * leaves the setting alone; `ModeChange(m)` writes `m` and dispatches
   * nothing; any other action does neither.
   */
  lemma InvokeLaws(stored: BrowsingMode, action: AppAction)
    ensures InvokeEffects(stored, action)[0] == Forwarded(action)
    ensures ForwardedActions(InvokeEffects(stored, action)) == [action]
    ensures action == Init ==>
              StoredAfter(stored, action) == stored &&
              DispatchedActions(InvokeEffects(stored, action)) == [ModeChange(stored)] &&
              forall e :: e in InvokeEffects(stored, action) ==> !e.Persisted?
    ensures action.ModeChange? ==>
              StoredAfter(stored, action) == action.mode &&
              DispatchedActions(InvokeEffects(stored, action)) == []
    ensures action != Init && !action.ModeChange? ==>
              StoredAfter(stored, action) == stored && InvokeEffects(stored, action) == [Forwarded(action)]
  {
    var e := InvokeEffects(stored, action);
    match action
    case Init =>
      assert e == [Forwarded(Init), Dispatched(ModeChange(stored))];
      assert e[1..] == [Dispatched(ModeChange(stored))] && e[1..][1..] == [];
      assert ForwardedActions(e[1..]) == [] + ForwardedActions(e[1..][1..]);
      assert ForwardedActions(e) == [Init] + ForwardedActions(e[1..]);
      assert DispatchedActions(e[1..]) == [ModeChange(stored)] + DispatchedActions(e[1..][1..]);
      assert DispatchedActions(e) == [] + DispatchedActions(e[1..]);
    case ModeChange(m) =>
      assert e == [Forwarded(action), Persisted(m)];
      assert e[1..] == [Persisted(m)] && e[1..][1..] == [];
      assert ForwardedActions(e[1..]) == [] + ForwardedActions(e[1..][1..]);
      assert ForwardedActions(e) == [action] + ForwardedActions(e[1..]);
      assert DispatchedActions(e[1..]) == [] + DispatchedActions(e[1..][1..]);
      assert DispatchedActions(e) == [] + DispatchedActions(e[1..]);
    case _ =>
      assert e == [Forwarded(action)] && e[1..] == [];
  }

  /** The middleware never vetoes: over any run, `next` receives exactly the actions handled, in order. */
  lemma {:induction false} NeverVetoes(stored: BrowsingMode, actions: seq<AppAction>)
    ensures ForwardedActions(EffectsAll(stored, actions)) == actions
    decreases |actions|
  {
    if actions != [] {
      InvokeLaws(stored, actions[0]);
      NeverVetoes(StoredAfter(stored, actions[0]), actions[1..]);
      ForwardedAppend(InvokeEffects(stored, actions[0]), EffectsAll(StoredAfter(stored, actions[0]), actions[1..]));
      assert actions == [actions[0]] + actions[1..];
    }
  }

  /** The mode of the last `ModeChange` in `actions`, or `stored` when there is none. */
  function LastModeChange(stored: BrowsingMode, actions: seq<AppAction>): BrowsingMode
    decreases |actions|
  {
    if actions == [] then stored
    else if actions[|actions| - 1].ModeChange? then actions[|actions| - 1].mode
    else LastModeChange(stored, actions[..|actions| - 1])
  }

  lemma {:induction false} StoredAfterAllSnoc(stored: BrowsingMode, actions: seq<AppAction>, a: AppAction)
    ensures StoredAfterAll(stored, actions + [a]) == StoredAfter(StoredAfterAll(stored, actions), a)
    decreases |actions|
  {
    if actions == [] {
      assert (actions + [a])[1..] == [];
    } else {
      assert (actions + [a])[1..] == actions[1..] + [a];
      StoredAfterAllSnoc(StoredAfter(stored, actions[0]), actions[1..], a);
    }
  }

  /** The setting always holds the mode of the last `ModeChange` handled (or its initial value). */
  lemma {:induction false} StoredIsLastModeChange(stored: BrowsingMode, actions: seq<AppAction>)
    ensures StoredAfterAll(stored, actions) == LastModeChange(stored, actions)
    decreases |actions|
  {
    if actions != [] {
      var n := |actions| - 1;
      assert actions == actions[..n] + [actions[n]];
      StoredAfterAllSnoc(stored, actions[..n], actions[n]);
      StoredIsLastModeChange(stored, actions[..n]);
    }
  }

  lemma {:induction false} EffectsAllSnoc(stored: BrowsingMode, actions: seq<AppAction>, a: AppAction)
    ensures EffectsAll(stored, actions + [a]) ==
              EffectsAll(stored, actions) + InvokeEffects(StoredAfterAll(stored, actions), a)
    decreases |actions|
  {
    if actions == [] {
      assert (actions + [a])[1..] == [];
      assert InvokeEffects(stored, a) + [] == InvokeEffects(stored, a);
    } else {
      assert (actions + [a])[1..] == actions[1..] + [a];
      EffectsAllSnoc(StoredAfter(stored, actions[0]), actions[1..], a);
    }
  }

  /**
   * Round trip: an `Init` after any history dispatches exactly one action,
   * `ModeChange` of the last mode that history changed to.
   */
  lemma InitRestoresLastMode(stored: BrowsingMode, history: seq<AppAction>)
    ensures DispatchedActions(EffectsAll(stored, history + [Init])) ==
              DispatchedActions(EffectsAll(stored, history)) + [ModeChange(LastModeChange(stored, history))]
  {
    EffectsAllSnoc(stored, history, Init);
    StoredIsLastModeChange(stored, history);
    DispatchedAppend(EffectsAll(stored, history), InvokeEffects(StoredAfterAll(stored, history), Init));
    InvokeLaws(StoredAfterAll(stored, history), Init);
  }

  /** `ModeChange(m)` followed by `Init` dispatches `ModeChange(m)`. */
  lemma ModeChangeThenInit(stored: BrowsingMode, m: BrowsingMode)
    ensures DispatchedActions(EffectsAll(stored, [ModeChange(m), Init])) == [ModeChange(m)]
  {
    InitRestoresLastMode(stored, [ModeChange(m)]);
    InvokeLaws(stored, ModeChange(m));
    assert [ModeChange(m)][1..] == [];
    assert EffectsAll(stored, [ModeChange(m)]) == InvokeEffects(stored, ModeChange(m)) + [];
  }

  /** Fixed point: feeding the `ModeChange` that `Init` dispatches back through the middleware leaves the setting as it was. */
  lemma InitDispatchIsFixedPoint(stored: BrowsingMode)
    ensures var dispatched := DispatchedActions(InvokeEffects(stored, Init));
            |dispatched| == 1 &&
            StoredAfterAll(stored, [Init] + dispatched) == stored
  {
    InvokeLaws(stored, Init);
    var run := [Init] + [ModeChange(stored)];
    assert run[1..] == [ModeChange(stored)] && run[1..][1..] == [];
    assert StoredAfterAll(stored, run) == StoredAfterAll(stored, run[1..]);
    assert StoredAfterAll(stored, run[1..]) == StoredAfterAll(stored, []);
  }

  /** `ModeChange(m)` handled twice leaves the setting as handling it once, and dispatches nothing either way. */
  lemma ModeChangeIdempotent(stored: BrowsingMode, m: BrowsingMode)
    ensures StoredAfterAll(stored, [ModeChange(m), ModeChange(m)]) == StoredAfterAll(stored, [ModeChange(m)])
    ensures DispatchedActions(EffectsAll(stored, [ModeChange(m), ModeChange(m)])) == []
  {
    var a := ModeChange(m);
    assert [a, a][1..] == [a] && [a][1..] == [];
    InvokeLaws(stored, a);
    InvokeLaws(m, a);
    assert EffectsAll(stored, [a, a]) == InvokeEffects(stored, a) + EffectsAll(m, [a]);
    assert EffectsAll(m, [a]) == InvokeEffects(m, a) + EffectsAll(m, []);
    DispatchedAppend(InvokeEffects(stored, a), EffectsAll(m, [a]));
    DispatchedAppend(InvokeEffects(m, a), []);
  }

  class PrivateBrowsingModeMiddleware {
    const settings: Settings
    /** What the middleware has done so far, in order. */
    var trace: seq<Effect>

    constructor (settings: Settings)
      ensures this.settings == settings && trace == []
    {
      this.settings := settings;
      trace := [];
    }

    /** `invoke(context, next, action)` */
    method Invoke(action: AppAction)
      modifies this, settings
      ensures trace == old(trace) + InvokeEffects(old(settings.lastKnownMode), action)
      ensures settings.lastKnownMode == StoredAfter(old(settings.lastKnownMode), action)
      ensures settings.allowScreenshotsInPrivateMode == old(settings.allowScreenshotsInPrivateMode)
    {
      trace := trace + [Forwarded(action)];
      match action {
        case Init =>
          var mode := settings.lastKnownMode;
          trace := trace + [Dispatched(ModeChange(mode))];
        case ModeChange(m) =>
          settings.lastKnownMode := m;
          trace := trace + [Persisted(m)];
        case _ =>
      }
    }
  }
}
