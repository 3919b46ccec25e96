/**
 * The fade life cycle of the earlier popup implementation. Its fade-in and
 * fade-out handlers perform the same transitions as the current one; it has
 * no property-change listener and no `restartFadeOutProcess`: its mouse-exit
 * listener schedules the fade-out directly, with the display time captured
 * when the listener was attached and without consulting the shell's disposal.
 */
module LegacyToastPopupImpl {
  import opened Wrappers
  import opened Fade
  import opened ToastPopupImpl

  /** The mouse leaves a control of the popup: with a fade-out handler, the fade-out is scheduled after the display time. */
  function AfterLegacyMouseExit(t: Timing, s: FadeState): (r: FadeState)
    ensures ValidState(t, s) ==> ValidState(t, r)
    ensures Listening(s) && HasFadeOut(t, s) ==> r.fadeOutTimer == Some(t.displayTime)
    ensures r.(fadeOutTimer := s.fadeOutTimer) == s
  {
    if Listening(s) && HasFadeOut(t, s) then s.(fadeOutTimer := TimerExec(t.displayTime)) else s
  }

  /**
   * Because listeners only receive events while the shell is alive, the
   * missing disposal check makes no difference: the earlier mouse-exit
   * listener and the current one (through `restartFadeOutProcess`) always
   * leave the same state.
   */
  lemma LegacyMouseExitAgrees(t: Timing, s: FadeState)
    ensures AfterLegacyMouseExit(t, s) == AfterMouseExit(t, s)
  {
  }

  /** Everything that can happen to a popup of the earlier implementation. */
  datatype LegacyEvent =
    | FadeInTimerFires
    | FadeOutTimerFires
    | MouseEnters
    | MouseExits
    | Closes

  /** The event of the current implementation that a legacy event corresponds to. */
  function Current(e: LegacyEvent): (c: Event)
    ensures c != ContentChanges
  {
    match e
    case FadeInTimerFires => Event.FadeInTimerFires
    case FadeOutTimerFires => Event.FadeOutTimerFires
    case MouseEnters => Event.MouseEnters
    case MouseExits => Event.MouseExits
    case Closes => Event.Closes
  }

  function LegacyStep(t: Timing, s: FadeState, e: LegacyEvent): (r: FadeState)
    requires ValidState(t, s) && Enabled(s, Current(e))
    ensures ValidState(t, r)
  {
    match e
    case FadeInTimerFires => AfterFadeInTimer(t, s)
    case FadeOutTimerFires => AfterFadeOutTimer(t, s)
    case MouseEnters => AfterMouseEnter(t, s)
    case MouseExits => AfterLegacyMouseExit(t, s)
    case Closes => AfterClose(s)
  }

  /** The state after a sequence of events; an event that cannot happen in the current state is skipped. */
  function LegacyRun(t: Timing, s: FadeState, es: seq<LegacyEvent>): (r: FadeState)
    requires ValidState(t, s)
    ensures ValidState(t, r)
    decreases |es|
  {
    if es == [] then s
    else LegacyRun(t, if Enabled(s, Current(es[0])) then LegacyStep(t, s, es[0]) else s, es[1..])
  }

  /** The lifted event sequence of the current implementation. */
  function CurrentAll(es: seq<LegacyEvent>): (cs: seq<Event>)
    ensures |cs| == |es|
    ensures forall i :: 0 <= i < |es| ==> cs[i] == Current(es[i])
    ensures ContentChanges !in cs
  {
    if es == [] then [] else [Current(es[0])] + CurrentAll(es[1..])
  }

  /**
   * The two implementations agree on every sequence of events the earlier one
   * can receive: its run is the current run of the corresponding events, so
   * everything proved about the current fade life cycle holds for it too.
   */
  lemma {:induction false} LegacyRunAgrees(t: Timing, s: FadeState, es: seq<LegacyEvent>)
    requires ValidState(t, s)
    ensures LegacyRun(t, s, es) == Run(t, s, CurrentAll(es))
    decreases |es|
  {
    if es != [] {
      var cs := CurrentAll(es);
      assert cs[0] == Current(es[0]);
      assert cs[1..] == CurrentAll(es[1..]);
      var next := if Enabled(s, Current(es[0])) then LegacyStep(t, s, es[0]) else s;
      if Enabled(s, Current(es[0])) {
        LegacyMouseExitAgrees(t, s);
        assert next == Step(t, s, cs[0]);
      }
      LegacyRunAgrees(t, next, es[1..]);
    }
  }

  /** A popup of the earlier implementation. */
  class LegacyToastPopup {
    const toast: Timing
    var alpha: int
    var visible: bool
    var disposed: bool
    var shown: bool
    var starting: bool
    var fadeInTimer: Option<int>
    var fadeOutTimer: Option<int>

    function Snapshot(): FadeState
      reads this
    {
      FadeState(alpha, visible, disposed, shown, starting, fadeInTimer, fadeOutTimer)
    }

    predicate Valid()
      reads this
    {
      ValidState(toast, Snapshot())
    }

    constructor (t: Timing)
      ensures toast == t
      ensures Snapshot() == Created
      ensures Valid()
    {
      toast := t;
      alpha := 255;
      visible := false;
      disposed := false;
      shown := false;
      starting := true;
      fadeInTimer := None;
      fadeOutTimer := None;
    }

    /** The fade-in handler's `run`. */
    method FadeInRun()
      requires ReadyToRun(toast, Snapshot())
      modifies this
      ensures Valid()
      ensures Snapshot() == AfterFadeIn(toast, old(Snapshot()))
    {
      if disposed {
        return;
      }
      if starting {
        starting := false;
        alpha := 0;
        visible := true;
      }
      var cur := alpha + FadeStep(toast.transparency, toast.fadeInSteps);
      if cur > toast.transparency {
        alpha := toast.transparency;
        if FadeOutEnabled(toast) {
          fadeOutTimer := TimerExec(toast.displayTime);
        }
        return;
      }
      alpha := cur;
      fadeInTimer := TimerExec(JavaDiv(toast.fadeInTime, AtLeastOne(toast.fadeInSteps)));
    }

    /** `show`: creates a fade-in handler and runs it at once. */
    method Show()
      requires Valid() && !shown
      modifies this
      ensures Valid()
      ensures Snapshot() == AfterShow(toast, old(Snapshot()))
    {
      shown := true;
      FadeInRun();
    }

    method FadeInTimerFires()
      requires Valid() && fadeInTimer.Some?
      modifies this
      ensures Valid()
      ensures Snapshot() == AfterFadeInTimer(toast, old(Snapshot()))
    {
      fadeInTimer := None;
      FadeInRun();
    }

    /** The pending fade-out tick is due; `closed` tells whether it disposed the shell. */
    method FadeOutTimerFires() returns (closed: bool)
      requires Valid() && fadeOutTimer.Some?
      modifies this
      ensures Valid()
      ensures Snapshot() == AfterFadeOutTimer(toast, old(Snapshot()))
      ensures closed <==> !old(disposed) && disposed
    {
      fadeOutTimer := None;
      if disposed {
        return false;
      }
      var cur := alpha - FadeStep(toast.transparency, toast.fadeOutSteps);
      if cur <= 0 {
        alpha := 0;
        disposed := true;
        return true;
      }
      alpha := cur;
      fadeOutTimer := TimerExec(JavaDiv(toast.fadeOutTime, AtLeastOne(toast.fadeOutSteps)));
      return false;
    }

    method MouseEnter()
      requires Valid()
      modifies this
      ensures Valid()
      ensures Snapshot() == AfterMouseEnter(toast, old(Snapshot()))
    {
      if Listening(Snapshot()) && HasFadeOut(toast, Snapshot()) {
        if alpha != toast.transparency {
          alpha := toast.transparency;
        }
        fadeOutTimer := TimerExec(-1);
      }
    }

    method MouseExit()
      requires Valid()
      modifies this
      ensures Valid()
      ensures Snapshot() == AfterLegacyMouseExit(toast, old(Snapshot()))
    {
      if Listening(Snapshot()) && HasFadeOut(toast, Snapshot()) {
        fadeOutTimer := TimerExec(toast.displayTime);
      }
    }

    method Close() returns (closed: bool)
      requires Valid()
      modifies this
      ensures Valid()
      ensures Snapshot() == AfterClose(old(Snapshot()))
      ensures closed <==> !old(disposed)
    {
      closed := !disposed;
      disposed := true;
    }
  }
}
