/**
 * `PrivateBrowsingBinding`: follows the application store's browsing mode,
 * sets the theme to it and adds or clears the window's secure flag
 * (FLAG_SECURE, which blocks screenshots). The theme manager and the window
 * are the fields `currentTheme` and `secureFlag`; `effects` records, in
 * order, what each reaction did to them and when it read the setting.
 */
module PrivateBrowsingBindings {
  import opened BrowsingModes
  import opened AppStates
  import opened Wrappers
  import opened Flows

  datatype WindowEffect = SetTheme(mode: BrowsingMode) | ReadAllowScreenshots | AddSecureFlag | ClearSecureFlag

  /** The key `{ it.mode }` the binding filters on. */
  function ModeOf(state: AppState): BrowsingMode
  {
    state.mode
  }

  /**
   * What `setWindowPrivacy(mode)` does, given that reading
   * `allowScreenshotsInPrivateMode` returns `allowScreenshots`.
   */
  function PrivacyEffects(mode: BrowsingMode, allowScreenshots: bool): seq<WindowEffect>
  {
    if mode == Private then
      [ReadAllowScreenshots] + (if !allowScreenshots then [AddSecureFlag] else [])
    else
      [ClearSecureFlag]
  }

  /** One reaction: the theme first, then the window privacy. */
  function ReactionEffects(mode: BrowsingMode, allowScreenshots: bool): seq<WindowEffect>
  {
    [SetTheme(mode)] + PrivacyEffects(mode, allowScreenshots)
  }

  /** The reactions to a sequence of delivered states, in order. */
  function AllEffects(delivered: seq<AppState>, allowScreenshots: seq<bool>): seq<WindowEffect>
    requires |allowScreenshots| == |delivered|
    decreases |delivered|
  {
    if delivered == [] then []
    else
      var n := |delivered| - 1;
      AllEffects(delivered[..n], allowScreenshots[..n]) + ReactionEffects(delivered[n].mode, allowScreenshots[n])
  }

  /** What one effect does to the window's secure flag. */
  function ApplyEffect(secure: bool, e: WindowEffect): bool
  {
    match e
    case AddSecureFlag => true
    case ClearSecureFlag => false
    case _ => secure
  }

  /** The window's secure flag after a sequence of effects, applied in order. */
  function FlagAfter(secure: bool, effects: seq<WindowEffect>): bool
    decreases |effects|
  {
    if effects == [] then secure else FlagAfter(ApplyEffect(secure, effects[0]), effects[1..])
  }

  lemma {:induction false} FlagAfterAppend(secure: bool, e1: seq<WindowEffect>, e2: seq<WindowEffect>)
    ensures FlagAfter(secure, e1 + e2) == FlagAfter(FlagAfter(secure, e1), e2)
    decreases |e1|
  {
    if e1 == [] {
      assert e1 + e2 == e2;
    } else {
      assert (e1 + e2)[1..] == e1[1..] + e2;
      FlagAfterAppend(ApplyEffect(secure, e1[0]), e1[1..], e2);
    }
  }

  /**
   * One `setWindowPrivacy`'s effect on the flag: a non-private mode clears
   * it; private mode without screenshot permission sets it; private mode
   * with permission leaves it as it was.
   */
  lemma PrivacyFlag(secure: bool, mode: BrowsingMode, allowScreenshots: bool)
    ensures FlagAfter(secure, PrivacyEffects(mode, allowScreenshots)) ==
              if mode != Private then false else if !allowScreenshots then true else secure
  {
    var e := PrivacyEffects(mode, allowScreenshots);
    if mode == Private && !allowScreenshots {
      assert e == [ReadAllowScreenshots, AddSecureFlag];
      assert FlagAfter(secure, e) == FlagAfter(secure, [AddSecureFlag]);
    } else if mode == Private {
      assert e == [ReadAllowScreenshots];
      assert e[1..] == [];
    } else {
      assert e == [ClearSecureFlag];
      assert e[1..] == [];
    }
  }

  /** A whole reaction does to the flag what its `setWindowPrivacy` does: setting the theme does not touch it. */
  lemma ReactionFlag(secure: bool, mode: BrowsingMode, allowScreenshots: bool)
    ensures FlagAfter(secure, ReactionEffects(mode, allowScreenshots)) ==
              if mode != Private then false else if !allowScreenshots then true else secure
  {
    assert ReactionEffects(mode, allowScreenshots)[1..] == PrivacyEffects(mode, allowScreenshots);
    PrivacyFlag(secure, mode, allowScreenshots);
  }

  /** The flag after one more reaction at the end of a run. */
  lemma RunStep(secure: bool, delivered: seq<AppState>, allowScreenshots: seq<bool>)
    requires |allowScreenshots| == |delivered| && delivered != []
    ensures var n := |delivered| - 1;
            var prev := FlagAfter(secure, AllEffects(delivered[..n], allowScreenshots[..n]));
            FlagAfter(secure, AllEffects(delivered, allowScreenshots)) ==
              if delivered[n].mode != Private then false else if !allowScreenshots[n] then true else prev
  {
    var n := |delivered| - 1;
    var prefix := AllEffects(delivered[..n], allowScreenshots[..n]);
    FlagAfterAppend(secure, prefix, ReactionEffects(delivered[n].mode, allowScreenshots[n]));
    ReactionFlag(FlagAfter(secure, prefix), delivered[n].mode, allowScreenshots[n]);
  }

  /** The theme is set before the window is touched, and only once per reaction. */
  lemma ThemeBeforeWindow(mode: BrowsingMode, allowScreenshots: bool)
    ensures ReactionEffects(mode, allowScreenshots)[0] == SetTheme(mode)
    ensures forall k :: 0 < k < |ReactionEffects(mode, allowScreenshots)| ==>
              !ReactionEffects(mode, allowScreenshots)[k].SetTheme?
  {
  }

  /** The setting is read iff the mode is private; leaving private mode does not consult it. */
  lemma SettingReadOnlyWhenPrivate(mode: BrowsingMode, allowScreenshots: bool, other: bool)
    ensures ReadAllowScreenshots in ReactionEffects(mode, allowScreenshots) <==> mode == Private
    ensures mode != Private ==> ReactionEffects(mode, allowScreenshots) == ReactionEffects(mode, other)
  {
  }

  /** Every state delivered after index `i` is in private mode. */
  predicate PrivateAfter(delivered: seq<AppState>, i: int)
  {
    forall j :: 0 <= j < |delivered| && i < j ==> delivered[j].mode == Private
  }

  /** The i-th reaction entered private mode without screenshot permission. */
  predicate SecuredAt(delivered: seq<AppState>, allowScreenshots: seq<bool>, i: int)
    requires |allowScreenshots| == |delivered|
  {
    0 <= i < |delivered| && delivered[i].mode == Private && !allowScreenshots[i]
  }

  /**
   * When the flag ends up set: some reaction secured the window and only
   * private-mode reactions followed it, or the flag was set at the start and
   * only private-mode reactions happened.
   */
  predicate SecureAfterRun(secure: bool, delivered: seq<AppState>, allowScreenshots: seq<bool>)
    requires |allowScreenshots| == |delivered|
  {
    (exists i :: 0 <= i < |delivered| && SecuredAt(delivered, allowScreenshots, i) && PrivateAfter(delivered, i)) ||
    (secure && PrivateAfter(delivered, -1))
  }

  lemma PrivateAfterSnoc(delivered: seq<AppState>, i: int)
    requires delivered != [] && i < |delivered| - 1
    ensures PrivateAfter(delivered, i) <==>
              PrivateAfter(delivered[..|delivered| - 1], i) && delivered[|delivered| - 1].mode == Private
  {
    var n := |delivered| - 1;
    if PrivateAfter(delivered[..n], i) && delivered[n].mode == Private {
      forall j | 0 <= j < |delivered| && i < j ensures delivered[j].mode == Private {
        if j < n { assert delivered[..n][j] == delivered[j]; }
      }
    }
  }

  /** Appending a private-mode reaction with permission keeps the characterisation as it was. */
  lemma SecureAfterRunKept(secure: bool, delivered: seq<AppState>, allowScreenshots: seq<bool>)
    requires |allowScreenshots| == |delivered| && delivered != []
    requires delivered[|delivered| - 1].mode == Private && allowScreenshots[|delivered| - 1]
    ensures var n := |delivered| - 1;
            SecureAfterRun(secure, delivered, allowScreenshots) <==>
              SecureAfterRun(secure, delivered[..n], allowScreenshots[..n])
  {
    var n := |delivered| - 1;
    var d', a' := delivered[..n], allowScreenshots[..n];
    PrivateAfterSnoc(delivered, -1);
    if exists i :: 0 <= i < |delivered| && SecuredAt(delivered, allowScreenshots, i) && PrivateAfter(delivered, i) {
      var i :| 0 <= i < |delivered| && SecuredAt(delivered, allowScreenshots, i) && PrivateAfter(delivered, i);
      assert i != n;
      PrivateAfterSnoc(delivered, i);
      assert d'[i] == delivered[i] && a'[i] == allowScreenshots[i];
      assert SecuredAt(d', a', i);
    }
    if exists i :: 0 <= i < n && SecuredAt(d', a', i) && PrivateAfter(d', i) {
      var i :| 0 <= i < n && SecuredAt(d', a', i) && PrivateAfter(d', i);
      PrivateAfterSnoc(delivered, i);
      assert d'[i] == delivered[i] && a'[i] == allowScreenshots[i];
      assert SecuredAt(delivered, allowScreenshots, i);
    }
  }

  /** Appending a non-private reaction makes the characterisation false. */
  lemma SecureAfterRunCleared(secure: bool, delivered: seq<AppState>, allowScreenshots: seq<bool>)
    requires |allowScreenshots| == |delivered| && delivered != []
    requires delivered[|delivered| - 1].mode != Private
    ensures !SecureAfterRun(secure, delivered, allowScreenshots)
  {
    var n := |delivered| - 1;
    assert !PrivateAfter(delivered, -1);
    forall i | SecuredAt(delivered, allowScreenshots, i) ensures !PrivateAfter(delivered, i) {
      assert i < n;
    }
  }

  /** The flag after a run of reactions is set exactly when `SecureAfterRun` holds. */
  lemma {:induction false} FlagAfterRun(secure: bool, delivered: seq<AppState>, allowScreenshots: seq<bool>)
    requires |allowScreenshots| == |delivered|
    ensures FlagAfter(secure, AllEffects(delivered, allowScreenshots)) <==>
              SecureAfterRun(secure, delivered, allowScreenshots)
    decreases |delivered|
  {
    if delivered == [] {
      assert PrivateAfter(delivered, -1);
    } else {
      var n := |delivered| - 1;
      RunStep(secure, delivered, allowScreenshots);
      if delivered[n].mode != Private {
        SecureAfterRunCleared(secure, delivered, allowScreenshots);
      } else if !allowScreenshots[n] {
        assert SecuredAt(delivered, allowScreenshots, n) && PrivateAfter(delivered, n);
      } else {
        FlagAfterRun(secure, delivered[..n], allowScreenshots[..n]);
        SecureAfterRunKept(secure, delivered, allowScreenshots);
      }
    }
  }

  /**
   * The last reaction decides: after a run of reactions the flag follows
   * the last delivered mode. Ending in a non-private mode leaves it cleared; ending
   * in private mode without permission leaves it set.
   */
  lemma LastModeDecidesFlag(secure: bool, delivered: seq<AppState>, allowScreenshots: seq<bool>)
    requires |allowScreenshots| == |delivered| && delivered != []
    ensures var n := |delivered| - 1;
            var flag := FlagAfter(secure, AllEffects(delivered, allowScreenshots));
            (delivered[n].mode != Private ==> !flag) &&
            (delivered[n].mode == Private && !allowScreenshots[n] ==> flag)
  {
    RunStep(secure, delivered, allowScreenshots);
  }

  /** The reactions to the first `i + 1` states extend those to the first `i` by one reaction. */
  lemma AllEffectsPrefixStep(delivered: seq<AppState>, allowScreenshots: seq<bool>, i: nat)
    requires |allowScreenshots| == |delivered| && i < |delivered|
    ensures AllEffects(delivered[..i + 1], allowScreenshots[..i + 1]) ==
              AllEffects(delivered[..i], allowScreenshots[..i]) + ReactionEffects(delivered[i].mode, allowScreenshots[i])
  {
    assert delivered[..i + 1][..i] == delivered[..i];
    assert allowScreenshots[..i + 1][..i] == allowScreenshots[..i];
  }

  /** Reacting to `a + b` is reacting to `a`, then to `b`. */
  lemma {:induction false} AllEffectsAppend(a: seq<AppState>, b: seq<AppState>, oa: seq<bool>, ob: seq<bool>)
    requires |oa| == |a| && |ob| == |b|
    ensures AllEffects(a + b, oa + ob) == AllEffects(a, oa) + AllEffects(b, ob)
    decreases |b|
  {
    if b == [] {
      assert a + b == a && oa + ob == oa;
    } else {
      var n := |b| - 1;
      var x, y, z := AllEffects(a, oa), AllEffects(b[..n], ob[..n]), ReactionEffects(b[n].mode, ob[n]);
      assert AllEffects(a + b, oa + ob) == (x + y) + z by {
        AllEffectsAppend(a, b[..n], oa, ob[..n]);
        AllEffectsAppendLast(a, b, oa, ob);
      }
      assert AllEffects(b, ob) == y + z;
      assert (x + y) + z == x + (y + z);
    }
  }

  lemma AllEffectsAppendLast(a: seq<AppState>, b: seq<AppState>, oa: seq<bool>, ob: seq<bool>)
    requires |oa| == |a| && |ob| == |b| && b != []
    ensures var n := |b| - 1;
            AllEffects(a + b, oa + ob) ==
              AllEffects(a + b[..n], oa + ob[..n]) + ReactionEffects(b[n].mode, ob[n])
  {
    var n := |b| - 1;
    var m := |a| + n;
    assert (a + b)[..m] == a + b[..n] && (oa + ob)[..m] == oa + ob[..n];
    assert (a + b)[m] == b[n] && (oa + ob)[m] == ob[n];
  }

  /** Reacting to one state is that state's reaction. */
  lemma AllEffectsSingle(s: AppState, allowScreenshots: bool)
    ensures AllEffects([s], [allowScreenshots]) == ReactionEffects(s.mode, allowScreenshots)
  {
    assert [s][..0] == [] && [allowScreenshots][..0] == [];
  }

  /**
   * Repeated states with one mode cause exactly one reaction: a run `r` of
   * states with one mode, following states `p` that end in a different
   * mode, contributes the single reaction to its first state's mode.
   */
  lemma UnchangedModeReactsOnce(p: seq<AppState>, r: seq<AppState>, t: seq<AppState>, allowScreenshots: seq<bool>)
    requires r != [] && forall i :: 0 <= i < |r| ==> r[i].mode == r[0].mode
    requires p == [] || p[|p| - 1].mode != r[0].mode
    requires |allowScreenshots| == |DistinctBy(ModeOf, p + r + t)|
    ensures var before := DistinctBy(ModeOf, p);
            var after := DistinctFrom(ModeOf, Some(r[0].mode), t);
            var m := |before|;
            DistinctBy(ModeOf, p + r + t) == before + [r[0]] + after &&
            AllEffects(DistinctBy(ModeOf, p + r + t), allowScreenshots) ==
              AllEffects(before, allowScreenshots[..m]) + ReactionEffects(r[0].mode, allowScreenshots[m]) +
              AllEffects(after, allowScreenshots[m + 1..])
  {
    var delivered := DistinctBy(ModeOf, p + r + t);
    var before := DistinctBy(ModeOf, p);
    var after := DistinctFrom(ModeOf, Some(r[0].mode), t);
    var m := |before|;
    assert delivered == before + [r[0]] + after by {
      DistinctRun(ModeOf, p, r, t);
    }
    var allow := allowScreenshots;
    var x, y, z := allow[..m], [allow[m]], allow[m + 1..];
    assert allow == x + y + z;
    assert AllEffects(delivered, allow) ==
             AllEffects(before, x) + ReactionEffects(r[0].mode, allow[m]) + AllEffects(after, z) by {
      AllEffectsAppend(before + [r[0]], after, x + y, z);
      AllEffectsAppend(before, [r[0]], x, y);
      AllEffectsSingle(r[0], allow[m]);
    }
  }

  class PrivateBrowsingBinding {
    /** `themeManager.currentTheme` */
    var currentTheme: BrowsingMode
    /** whether the window carries FLAG_SECURE */
    var secureFlag: bool
    /** the theme, window and settings accesses so far, in order */
    var effects: seq<WindowEffect>

    constructor (theme: BrowsingMode, secure: bool)
      ensures currentTheme == theme && secureFlag == secure && effects == []
    {
      currentTheme := theme;
      secureFlag := secure;
      effects := [];
    }

    /**
     * `setWindowPrivacy`; `allowScreenshots` is what the background read of
     * `allowScreenshotsInPrivateMode` returns, used only in private mode.
     */
    method SetWindowPrivacy(mode: BrowsingMode, allowScreenshots: bool)
      modifies this`secureFlag, this`effects
      ensures effects == old(effects) + PrivacyEffects(mode, allowScreenshots)
      ensures secureFlag == FlagAfter(old(secureFlag), PrivacyEffects(mode, allowScreenshots))
      ensures mode != Private ==> !secureFlag
      ensures mode == Private && !allowScreenshots ==> secureFlag
      ensures mode == Private && allowScreenshots ==> secureFlag == old(secureFlag)
    {
      if mode == Private {
        effects := effects + [ReadAllowScreenshots];
        if !allowScreenshots {
          secureFlag := true;
          effects := effects + [AddSecureFlag];
        }
      } else {
        secureFlag := false;
        effects := effects + [ClearSecureFlag];
      }
      PrivacyFlag(old(secureFlag), mode, allowScreenshots);
    }

    /** The body of the collector: set the theme, then the window privacy. */
    method React(mode: BrowsingMode, allowScreenshots: bool)
      modifies this
      ensures currentTheme == mode
      ensures effects == old(effects) + ReactionEffects(mode, allowScreenshots)
      ensures secureFlag == FlagAfter(old(secureFlag), ReactionEffects(mode, allowScreenshots))
    {
      currentTheme := mode;
      effects := effects + [SetTheme(mode)];
      SetWindowPrivacy(mode, allowScreenshots);
      ReactionFlag(old(secureFlag), mode, allowScreenshots);
    }

    /** Reacts to `delivered[i]`, extending the reactions to the states before it by one. */
    method ReactNext(delivered: seq<AppState>, allowScreenshots: seq<bool>, i: nat,
                     ghost effects0: seq<WindowEffect>, ghost secure0: bool)
      requires |allowScreenshots| == |delivered| && i < |delivered|
      requires effects == effects0 + AllEffects(delivered[..i], allowScreenshots[..i])
      requires secureFlag == FlagAfter(secure0, AllEffects(delivered[..i], allowScreenshots[..i]))
      modifies this
      ensures effects == effects0 + AllEffects(delivered[..i + 1], allowScreenshots[..i + 1])
      ensures secureFlag == FlagAfter(secure0, AllEffects(delivered[..i + 1], allowScreenshots[..i + 1]))
      ensures currentTheme == delivered[i].mode
    {
      ghost var prefix := AllEffects(delivered[..i], allowScreenshots[..i]);
      ghost var step := ReactionEffects(delivered[i].mode, allowScreenshots[i]);
      React(delivered[i].mode, allowScreenshots[i]);
      AllEffectsPrefixStep(delivered, allowScreenshots, i);
      FlagAfterAppend(secure0, prefix, step);
    }

    /**
     * The collector over the delivered states: for each, in order, set the
     * theme and the window privacy. `allowScreenshots[i]` is the setting as
     * read by the i-th reaction.
     */
    method ReactAll(delivered: seq<AppState>, allowScreenshots: seq<bool>)
      requires |allowScreenshots| == |delivered|
      modifies this
      ensures effects == old(effects) + AllEffects(delivered, allowScreenshots)
      ensures secureFlag == FlagAfter(old(secureFlag), AllEffects(delivered, allowScreenshots))
      ensures currentTheme == if delivered == [] then old(currentTheme) else delivered[|delivered| - 1].mode
    {
      var i := 0;
      while i < |delivered|
        invariant 0 <= i <= |delivered|
        invariant effects == old(effects) + AllEffects(delivered[..i], allowScreenshots[..i])
        invariant secureFlag == FlagAfter(old(secureFlag), AllEffects(delivered[..i], allowScreenshots[..i]))
        invariant currentTheme == if i == 0 then old(currentTheme) else delivered[i - 1].mode
      {
        ReactNext(delivered, allowScreenshots, i, old(effects), old(secureFlag));
        i := i + 1;
      }
      assert delivered[..i] == delivered && allowScreenshots[..i] == allowScreenshots;
    }

    /**
     * `onState`: filter the application states by mode, then react to each
     * delivered state. `allowScreenshots[i]` is the setting as read by the
     * i-th reaction.
     */
    method OnState(states: seq<AppState>, allowScreenshots: seq<bool>)
      requires |allowScreenshots| == |DistinctBy(ModeOf, states)|
      modifies this
      ensures var delivered := DistinctBy(ModeOf, states);
              effects == old(effects) + AllEffects(delivered, allowScreenshots) &&
              secureFlag == FlagAfter(old(secureFlag), AllEffects(delivered, allowScreenshots)) &&
              currentTheme == if delivered == [] then old(currentTheme) else delivered[|delivered| - 1].mode
      ensures states != [] ==> currentTheme == states[|states| - 1].mode
    {
      ReactAll(DistinctBy(ModeOf, states), allowScreenshots);
      if states != [] {
        DistinctKeepsLastKey(ModeOf, states);
      }
    }
  }
}
