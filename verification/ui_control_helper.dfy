/**
 * UIControlHelper: the window-flag edits and the lock state of the kiosk-style
 * "disallow status-bar swipe" mode. The WindowManager.LayoutParams flag values
 * are Android's and are parameters here; the window, overlay view, broadcast
 * receiver and insets controller are reduced to the fields the helper keeps and
 * to whether each framework call returns normally.
 */
module UIControlHelper {
  import opened JavaLang

  // ---------------------------------------------------------------------------
  // Window flags
  // ---------------------------------------------------------------------------

  /** The WindowManager.LayoutParams.FLAG_* constants the helper touches. */
  datatype LayoutFlags = LayoutFlags(
    layoutInScreen: bv32,
    layoutNoLimits: bv32,
    notTouchModal: bv32,
    notFocusable: bv32,
    secure: bv32,
    notTouchable: bv32,
    fullscreen: bv32,
    keepScreenOn: bv32,
    dismissKeyguard: bv32,
    showWhenLocked: bv32,
    turnScreenOn: bv32)

  /** The flags controlWindowFlags(true) clears. */
  function InteractionMask(f: LayoutFlags): bv32 {
    f.layoutInScreen | f.layoutNoLimits | f.notTouchModal | f.notFocusable
      | f.secure | f.notTouchable | f.fullscreen
  }

  /** The flags controlWindowFlags(false) sets. */
  function RestrictiveMask(f: LayoutFlags): bv32 {
    f.layoutInScreen | f.layoutNoLimits | f.notTouchModal | f.secure | f.fullscreen
  }

  /** The flags disableAppExit(true) sets and disableAppExit(false) clears. */
  function ExitPreventionMask(f: LayoutFlags): bv32 {
    f.keepScreenOn | f.dismissKeyguard | f.showWhenLocked | f.turnScreenOn | f.fullscreen
  }

  /** The flags word after controlWindowFlags(true): the seven flags off, every other bit kept. */
  function AllowInteraction(w: bv32, f: LayoutFlags): (r: bv32)
    ensures r & InteractionMask(f) == 0
    ensures r & !InteractionMask(f) == w & !InteractionMask(f)
  {
    w & !InteractionMask(f)
  }

  /** The flags word after controlWindowFlags(false): the five flags on, every other bit kept. */
  function Restrict(w: bv32, f: LayoutFlags): (r: bv32)
    ensures r & RestrictiveMask(f) == RestrictiveMask(f)
    ensures r & !RestrictiveMask(f) == w & !RestrictiveMask(f)
  {
    w | RestrictiveMask(f)
  }

  /** The flags word after disableAppExit(true). */
  function PreventExit(w: bv32, f: LayoutFlags): (r: bv32)
    ensures r & ExitPreventionMask(f) == ExitPreventionMask(f)
    ensures r & !ExitPreventionMask(f) == w & !ExitPreventionMask(f)
  {
    w | ExitPreventionMask(f)
  }

  /** The flags word after disableAppExit(false). */
  function AllowExit(w: bv32, f: LayoutFlags): (r: bv32)
    ensures r & ExitPreventionMask(f) == 0
    ensures r & !ExitPreventionMask(f) == w & !ExitPreventionMask(f)
  {
    w & !ExitPreventionMask(f)
  }

  /**
   * Android's flags are distinct single bits, so a flag outside the restrictive
   * five shares no bit with their union.
   */
  predicate SeparateFromRestrictive(f: LayoutFlags, x: bv32) {
    RestrictiveMask(f) & x == 0
  }

  /** Restricting never turns on NOT_FOCUSABLE or NOT_TOUCHABLE: those two bits keep their old value. */
  lemma RestrictLeavesFocusAndTouch(w: bv32, f: LayoutFlags)
    requires SeparateFromRestrictive(f, f.notFocusable) && SeparateFromRestrictive(f, f.notTouchable)
    ensures Restrict(w, f) & f.notFocusable == w & f.notFocusable
    ensures Restrict(w, f) & f.notTouchable == w & f.notTouchable
  {
    RestrictKeepsSeparateFlag(w, f, f.notFocusable);
    RestrictKeepsSeparateFlag(w, f, f.notTouchable);
  }

  lemma RestrictKeepsSeparateFlag(w: bv32, f: LayoutFlags, x: bv32)
    requires SeparateFromRestrictive(f, x)
    ensures Restrict(w, f) & x == w & x
  {
    SetOutsideBitsKeeps(w, RestrictiveMask(f), x);
  }

  /** Setting the bits of m leaves every bit of x that m does not share as it was. */
  lemma SetOutsideBitsKeeps(w: bv32, m: bv32, x: bv32)
    requires m & x == 0
    ensures (w | m) & x == w & x
  {
  }

  /** Every flag the restrictive edit sets is one the permissive edit clears: allowing undoes restricting. */
  lemma AllowAfterRestrict(w: bv32, f: LayoutFlags)
    ensures AllowInteraction(Restrict(w, f), f) == AllowInteraction(w, f)
  {
    assert RestrictiveMask(f) & !InteractionMask(f) == 0;
  }

  /** disableAppExit(false) after disableAppExit(true) restores a word that had none of the five flags. */
  lemma AllowExitUndoesPreventExit(w: bv32, f: LayoutFlags)
    requires w & ExitPreventionMask(f) == 0
    ensures AllowExit(PreventExit(w, f), f) == w
  {
  }

  // ---------------------------------------------------------------------------
  // Overlay, key receiver and lock flag
  // ---------------------------------------------------------------------------

  /** Which of mOverlayView / mSystemKeyReceiver are non-null, and mIsLocked. */
  datatype LockResources = LockResources(overlay: bool, keyReceiver: bool, locked: bool)

  const Released := LockResources(false, false, false)

  /**
   * setEnhancedStatusBarSwipeAllowed(false): add the overlay (kept if present,
   * otherwise present exactly when adding succeeds), register the receiver (the
   * field is assigned before registering), then set the lock flag. A failing
   * first registration throws out of the method before the flag is set.
   */
  function Lock(s: LockResources, addSucceeds: bool, registrationThrows: bool): (r: LockResources)
    ensures r.keyReceiver
    ensures r.overlay <==> s.overlay || addSucceeds
    ensures r.locked <==> !LockThrows(s, registrationThrows) || s.locked
  {
    LockResources(
      s.overlay || addSucceeds,
      true,
      if LockThrows(s, registrationThrows) then s.locked else true)
  }

  /** The registration exception escapes only when no receiver was registered before. */
  predicate LockThrows(s: LockResources, registrationThrows: bool) {
    !s.keyReceiver && registrationThrows
  }

  /** setEnhancedStatusBarSwipeAllowed(true): everything released, whatever the removals threw. */
  function Unlock(s: LockResources): (r: LockResources)
    ensures !r.overlay && !r.keyReceiver && !r.locked
  {
    Released
  }

  /** Locking a fully locked state changes nothing: adding and registering are idempotent. */
  lemma LockIdempotent(s: LockResources, addSucceeds: bool, registrationThrows: bool)
    requires s.overlay && s.keyReceiver && s.locked
    ensures Lock(s, addSucceeds, registrationThrows) == s
  {
  }

  /** Unless the first registration throws, locking ends locked; unlocking then returns to the released state. */
  lemma LockThenUnlock(s: LockResources, addSucceeds: bool)
    ensures Lock(s, addSucceeds, false).locked
    ensures Unlock(Lock(s, addSucceeds, false)) == Released
  {
  }

  /** The three WindowInsetsController.BEHAVIOR_* constants, distinct as switch labels must be. */
  datatype BarsBehaviors = BarsBehaviors(showBarsByTouch: Int32, showTransientBarsBySwipe: Int32, showBarsBySwipe: Int32)

  predicate DistinctBehaviors(b: BarsBehaviors) {
    b.showBarsByTouch != b.showTransientBarsBySwipe
      && b.showBarsByTouch != b.showBarsBySwipe
      && b.showTransientBarsBySwipe != b.showBarsBySwipe
  }

  const NotSupported: string := "Not supported on this API level"
  const UnknownBehaviorPrefix: string := "Unknown behavior: "

  /**
   * getCurrentSystemBarsBehavior. `controllerBehavior` is the controller's
   * behaviour, None when the controller is null; before Android 11 (`apiAtLeastR`
   * false) the controller is not consulted.
   */
  function GetCurrentSystemBarsBehavior(apiAtLeastR: bool, controllerBehavior: Option<Int32>, b: BarsBehaviors)
    : (text: string)
    requires DistinctBehaviors(b)
    ensures !apiAtLeastR || controllerBehavior.None? ==> text == NotSupported
    ensures apiAtLeastR && controllerBehavior.Some? ==>
      (text == "BEHAVIOR_SHOW_BARS_BY_TOUCH" <==> controllerBehavior.value == b.showBarsByTouch)
      && (text == "BEHAVIOR_SHOW_TRANSIENT_BARS_BY_SWIPE" <==> controllerBehavior.value == b.showTransientBarsBySwipe)
      && (text == "BEHAVIOR_SHOW_BARS_BY_SWIPE" <==> controllerBehavior.value == b.showBarsBySwipe)
  {
    if apiAtLeastR && controllerBehavior.Some? then
      var n := controllerBehavior.value;
      if n == b.showBarsByTouch then "BEHAVIOR_SHOW_BARS_BY_TOUCH"
      else if n == b.showTransientBarsBySwipe then "BEHAVIOR_SHOW_TRANSIENT_BARS_BY_SWIPE"
      else if n == b.showBarsBySwipe then "BEHAVIOR_SHOW_BARS_BY_SWIPE"
      else
        var unknown := UnknownBehaviorPrefix + IntToDecimal(n);
        assert unknown[0] == 'U';
        unknown
    else NotSupported
  }

  /** Any other value is reported with its number, which can be read back from the text. */
  lemma UnknownBehaviorText(n: Int32, b: BarsBehaviors)
    requires DistinctBehaviors(b)
    requires n != b.showBarsByTouch && n != b.showTransientBarsBySwipe && n != b.showBarsBySwipe
    ensures var text := GetCurrentSystemBarsBehavior(true, Some(n), b);
      && text[..|UnknownBehaviorPrefix|] == UnknownBehaviorPrefix
      && ParseInt(text[|UnknownBehaviorPrefix|..]) == Some(n)
  {
    var text := GetCurrentSystemBarsBehavior(true, Some(n), b);
    assert text[|UnknownBehaviorPrefix|..] == IntToDecimal(n);
    ParseIntOfDecimal(n);
  }

  /**
   * The helper's mutable state: the flags of the activity window's LayoutParams,
   * whether mOverlayView, mOverlayParams and mSystemKeyReceiver are non-null,
   * and mIsLocked.
   */
  class UIControlHelper {
    const flags: LayoutFlags
    var windowFlags: bv32
    var overlayView: bool
    var overlayParams: bool
    var systemKeyReceiver: bool
    var isLockedFlag: bool

    /** The overlay view and its parameters are set and cleared together. */
    ghost predicate Valid()
      reads this
    {
      overlayView == overlayParams
    }

    function Resources(): LockResources
      reads this
    {
      LockResources(overlayView, systemKeyReceiver, isLockedFlag)
    }

    /** isLocked. */
    function IsLocked(): bool
      reads this
    {
      isLockedFlag
    }

    constructor (flags: LayoutFlags, windowFlags: bv32)
      ensures Valid() && this.flags == flags && this.windowFlags == windowFlags
      ensures Resources() == Released
    {
      this.flags := flags;
      this.windowFlags := windowFlags;
      overlayView, overlayParams, systemKeyReceiver, isLockedFlag := false, false, false, false;
    }

    /** controlWindowFlags: seven `&= ~FLAG` edits, or five `|= FLAG` edits, then setAttributes. */
    method ControlWindowFlags(allowed: bool)
      modifies this`windowFlags
      ensures windowFlags == if allowed then AllowInteraction(old(windowFlags), flags)
                                       else Restrict(old(windowFlags), flags)
    {
      var params := windowFlags;
      if allowed {
        params := params & !flags.layoutInScreen;
        params := params & !flags.layoutNoLimits;
        params := params & !flags.notTouchModal;
        params := params & !flags.notFocusable;
        params := params & !flags.secure;
        params := params & !flags.notTouchable;
        params := params & !flags.fullscreen;
      } else {
        params := params | flags.layoutInScreen;
        params := params | flags.layoutNoLimits;
        params := params | flags.notTouchModal;
        params := params | flags.secure;
        params := params | flags.fullscreen;
      }
      windowFlags := params;
    }

    /** The window-flag part of disableAppExit. */
    method DisableAppExit(disable: bool)
      modifies this`windowFlags
      ensures windowFlags == if disable then PreventExit(old(windowFlags), flags)
                                       else AllowExit(old(windowFlags), flags)
    {
      var params := windowFlags;
      if disable {
        params := params | flags.keepScreenOn;
        params := params | flags.dismissKeyguard;
        params := params | flags.showWhenLocked;
        params := params | flags.turnScreenOn;
        params := params | flags.fullscreen;
      } else {
        params := params & !flags.keepScreenOn;
        params := params & !flags.dismissKeyguard;
        params := params & !flags.showWhenLocked;
        params := params & !flags.turnScreenOn;
        params := params & !flags.fullscreen;
      }
      windowFlags := params;
    }

    /**
     * addSystemOverlay: nothing when an overlay exists; otherwise create the view
     * and its parameters and add them, and on any exception null both again.
     */
    method AddSystemOverlay(addSucceeds: bool)
      requires Valid()
      modifies this`overlayView, this`overlayParams
      ensures Valid()
      ensures old(overlayView) ==> overlayView && overlayParams
      ensures !old(overlayView) ==> overlayView == addSucceeds
    {
      if overlayView {
        return;
      }
      overlayView := true;
      overlayParams := true;
      if !addSucceeds {
        overlayView := false;
        overlayParams := false;
      }
    }

    /** removeSystemOverlay: when both are set, remove the view; the finally block nulls both. */
    method RemoveSystemOverlay(removalThrows: bool)
      requires Valid()
      modifies this`overlayView, this`overlayParams
      ensures Valid() && !overlayView && !overlayParams
    {
      if overlayView && overlayParams {
        overlayView := false;
        overlayParams := false;
      }
    }

    /**
     * registerSystemKeyReceiver: nothing when a receiver exists; otherwise the
     * field is assigned and then registered. A registration exception is not
     * caught here; `threw` reports it, with the field already set.
     */
    method RegisterSystemKeyReceiver(registrationThrows: bool) returns (threw: bool)
      modifies this`systemKeyReceiver
      ensures systemKeyReceiver
      ensures threw <==> !old(systemKeyReceiver) && registrationThrows
    {
      if systemKeyReceiver {
        return false;
      }
      systemKeyReceiver := true;
      threw := registrationThrows;
    }

    /** unregisterSystemKeyReceiver: the finally block nulls the field whatever unregistering threw. */
    method UnregisterSystemKeyReceiver(unregistrationThrows: bool)
      modifies this`systemKeyReceiver
      ensures !systemKeyReceiver
    {
      if systemKeyReceiver {
        systemKeyReceiver := false;
      }
    }

    /**
     * setEnhancedStatusBarSwipeAllowed. Disallowing adds the overlay, registers the
     * receiver and sets the lock flag; allowing removes, unregisters and clears it.
     * `threw` is the registration exception escaping to the caller.
     */
    method SetEnhancedStatusBarSwipeAllowed(
      allowed: bool, addSucceeds: bool, registrationThrows: bool, removalThrows: bool, unregistrationThrows: bool)
      returns (threw: bool)
      requires Valid()
      modifies this`overlayView, this`overlayParams, this`systemKeyReceiver, this`isLockedFlag
      ensures Valid()
      ensures allowed ==> Resources() == Unlock(old(Resources())) && !threw && !IsLocked()
      ensures !allowed ==> Resources() == Lock(old(Resources()), addSucceeds, registrationThrows)
      ensures !allowed ==> threw == LockThrows(old(Resources()), registrationThrows)
    {
      threw := false;
      if !allowed {
        AddSystemOverlay(addSucceeds);
        threw := RegisterSystemKeyReceiver(registrationThrows);
        if threw {
          return;
        }
        isLockedFlag := true;
      } else {
        RemoveSystemOverlay(removalThrows);
        UnregisterSystemKeyReceiver(unregistrationThrows);
        isLockedFlag := false;
      }
    }
  }
}
