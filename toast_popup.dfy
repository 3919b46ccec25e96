/**
 * The fade life cycle of a toast popup: showing it, the fade-in timer that
 * raises the opacity step by step, the fade-out timer that lowers it and
 * finally disposes the popup, the mouse hovering that holds the popup at full
 * opacity, content changes that restart the display countdown, and closing.
 *
 * The popup's state is first given as a value (`FadeState`) with one
 * transition function per event; the class `ToastPopup` holds the same state
 * in fields and each of its methods is proved to perform that transition.
 */
module ToastPopupImpl {
  import opened Wrappers
  import opened Fade

  /**
   * The mutable state of a popup and its fade handlers: the shell's opacity,
   * visibility and disposal, whether `show` created the fade-in handler, the
   * handler's `starting` flag, and the pending delay of each handler's timer
   * (None: not scheduled).
   */
  datatype FadeState = FadeState(
    alpha: int,
    visible: bool,
    disposed: bool,
    shown: bool,
    starting: bool,
    fadeInTimer: Option<int>,
    fadeOutTimer: Option<int>)

  /** A freshly created popup: fully opaque (the shell's default alpha), hidden, nothing scheduled. */
  const Created := FadeState(255, false, false, false, true, None, None)

  /** The fade-in handler creates a fade-out handler only for a non-sticky toast with a positive display time. */
  predicate FadeOutEnabled(t: Timing) {
    !t.sticky && t.displayTime > 0
  }

  /** The fade-out handler exists: the fade-in handler was created and it created one. */
  predicate HasFadeOut(t: Timing, s: FadeState) {
    s.shown && FadeOutEnabled(t)
  }

  /** The mouse listeners are attached (by the first fade-in tick) and the shell is alive to receive events. */
  predicate Listening(s: FadeState) {
    !s.disposed && !s.starting
  }

  /**
   * What holds of every reachable state: nothing is scheduled before the first
   * fade-in tick; the shell becomes visible exactly at that tick; a handler
   * still `starting` after `show` means the popup was already disposed; only a
   * popup with a fade-out handler can have a fade-out pending; and once fading
   * the opacity stays within [0, transparency].
   */
  predicate ValidState(t: Timing, s: FadeState) {
    && (!s.shown ==> s.starting && s.fadeInTimer.None? && s.fadeOutTimer.None?)
    && (s.starting ==> s.fadeInTimer.None? && s.fadeOutTimer.None? && !s.visible)
    && (!s.starting ==> s.visible)
    && (s.shown && s.starting ==> s.disposed)
    && (!FadeOutEnabled(t) ==> s.fadeOutTimer.None?)
    && (!s.starting && t.transparency >= 0 ==> 0 <= s.alpha <= t.transparency)
  }

  /** The fade-in handler may run: in a reachable state, or just after `show` created it. */
  predicate ReadyToRun(t: Timing, s: FadeState) {
    s.shown && (ValidState(t, s) || ValidState(t, s.(shown := false)))
  }

  lemma CreatedIsValid(t: Timing)
    ensures ValidState(t, Created)
    ensures !Listening(Created) && !HasFadeOut(t, Created)
  {
  }

  /** The delay after which a rising fade-in tick schedules the next one: `fadeInTime / max(fadeInSteps, 1)`. */
  function FadeInDelay(t: Timing): int {
    JavaDiv(t.fadeInTime, AtLeastOne(t.fadeInSteps))
  }

  /** The delay after which a falling fade-out tick schedules the next one: `fadeOutTime / max(fadeOutSteps, 1)`. */
  function FadeOutDelay(t: Timing): int {
    JavaDiv(t.fadeOutTime, AtLeastOne(t.fadeOutSteps))
  }

  /**
   * The fade-in handler's `run`: nothing on a disposed shell; on the first
   * tick the shell turns visible at opacity 0; then one fade-in tick; a
   * rising tick schedules the next fade-in tick, the clamping tick schedules
   * the fade-out after the display time (when there is a fade-out handler).
   */
  function AfterFadeIn(t: Timing, s: FadeState): (r: FadeState)
    requires s.shown
    ensures ReadyToRun(t, s) ==> ValidState(t, r)
    ensures s.disposed ==> r == s
    ensures !s.disposed ==> r.visible && !r.starting && !r.disposed && r.shown
    ensures !s.disposed ==>
      var tick := FadeInTick(if s.starting then 0 else s.alpha, t.transparency, t.fadeInSteps);
      && r.alpha == tick.alpha
      && (tick.Continue? ==> r.fadeInTimer == TimerExec(FadeInDelay(t)) && r.fadeOutTimer == s.fadeOutTimer)
      && (tick.Finish? ==> r.fadeInTimer == s.fadeInTimer)
      && (tick.Finish? ==> r.fadeOutTimer == (if FadeOutEnabled(t) then Some(t.displayTime) else s.fadeOutTimer))
  {
    if s.disposed then s
    else
      var base := if s.starting then 0 else s.alpha;
      var lit := s.(starting := false, visible := true, alpha := base);
      match FadeInTick(base, t.transparency, t.fadeInSteps)
      case Finish(a) =>
        lit.(alpha := a, fadeOutTimer := if HasFadeOut(t, s) then TimerExec(t.displayTime) else s.fadeOutTimer)
      case Continue(a) =>
        lit.(alpha := a, fadeInTimer := TimerExec(FadeInDelay(t)))
  }

  /** `show`: creates the fade-in handler and runs its first tick at once. */
  function AfterShow(t: Timing, s: FadeState): (r: FadeState)
    requires !s.shown
    ensures ValidState(t, s) ==> ValidState(t, r)
    ensures r.shown
  {
    AfterFadeIn(t, s.(shown := true))
  }

  /** The fade-in timer fires: its pending entry is consumed and the handler runs. */
  function AfterFadeInTimer(t: Timing, s: FadeState): (r: FadeState)
    requires ValidState(t, s) && s.fadeInTimer.Some?
    ensures ValidState(t, r)
  {
    AfterFadeIn(t, s.(fadeInTimer := None))
  }

  /**
   * The fade-out handler's `run`: nothing on a disposed shell; otherwise one
   * fade-out tick; a tick that reaches zero sets opacity 0 and disposes the
   * shell, any other tick schedules the next one.
   */
  function AfterFadeOut(t: Timing, s: FadeState): (r: FadeState)
    requires HasFadeOut(t, s)
    ensures ValidState(t, s) ==> ValidState(t, r)
    ensures s.disposed ==> r == s
    ensures !s.disposed ==>
      var tick := FadeOutTick(s.alpha, t.transparency, t.fadeOutSteps);
      && r.alpha == tick.alpha
      && r.shown == s.shown && r.starting == s.starting && r.visible == s.visible && r.fadeInTimer == s.fadeInTimer
      && (r.disposed <==> tick.Finish?)
      && r.fadeOutTimer == (if tick.Finish? then s.fadeOutTimer else TimerExec(FadeOutDelay(t)))
  {
    if s.disposed then s
    else
      match FadeOutTick(s.alpha, t.transparency, t.fadeOutSteps)
      case Finish(a) => s.(alpha := a, disposed := true)
      case Continue(a) => s.(alpha := a, fadeOutTimer := TimerExec(FadeOutDelay(t)))
  }

  /** The fade-out timer fires: its pending entry is consumed and the handler runs. */
  function AfterFadeOutTimer(t: Timing, s: FadeState): (r: FadeState)
    requires ValidState(t, s) && s.fadeOutTimer.Some?
    ensures ValidState(t, r)
  {
    AfterFadeOut(t, s.(fadeOutTimer := None))
  }

  /**
   * The mouse enters a control of the popup: with a fade-out handler the
   * opacity is restored to the transparency and the pending fade-out is
   * cancelled; otherwise, or before the listeners exist, nothing happens.
   */
  function AfterMouseEnter(t: Timing, s: FadeState): (r: FadeState)
    ensures ValidState(t, s) ==> ValidState(t, r)
    ensures Listening(s) && HasFadeOut(t, s) ==> r == s.(alpha := t.transparency, fadeOutTimer := None)
    ensures !(Listening(s) && HasFadeOut(t, s)) ==> r == s
  {
    if Listening(s) && HasFadeOut(t, s) then s.(alpha := t.transparency, fadeOutTimer := TimerExec(-1)) else s
  }

  /**
   * `restartFadeOutProcess`: on a live shell with a fade-out handler the
   * fade-out is (re)scheduled after the full display time, replacing any
   * pending fade-out.
   */
  function AfterRestartFadeOut(t: Timing, s: FadeState): (r: FadeState)
    ensures ValidState(t, s) ==> ValidState(t, r)
    ensures !s.disposed && HasFadeOut(t, s) ==> r == s.(fadeOutTimer := Some(t.displayTime))
    ensures !(!s.disposed && HasFadeOut(t, s)) ==> r == s
  {
    if s.disposed then s
    else if HasFadeOut(t, s) then s.(fadeOutTimer := TimerExec(t.displayTime))
    else s
  }

  /** The mouse leaves a control of the popup: the fade-out process is restarted. */
  function AfterMouseExit(t: Timing, s: FadeState): (r: FadeState)
    ensures ValidState(t, s) ==> ValidState(t, r)
    ensures Listening(s) ==> r == AfterRestartFadeOut(t, s)
    ensures !Listening(s) ==> r == s
  {
    if Listening(s) then AfterRestartFadeOut(t, s) else s
  }

  /** A property of the toast changed (title, message, details, icon): the fade-out process is restarted. */
  function AfterContentChange(t: Timing, s: FadeState): (r: FadeState)
    ensures ValidState(t, s) ==> ValidState(t, r)
    ensures s.shown ==> r == AfterRestartFadeOut(t, s)
    ensures !s.shown ==> r == s
  {
    if s.shown then AfterRestartFadeOut(t, s) else s
  }

  /** `close`: disposes a live shell; on a disposed shell nothing changes. */
  function AfterClose(s: FadeState): (r: FadeState)
    ensures r.disposed
    ensures !s.disposed ==> r == s.(disposed := true)
    ensures s.disposed ==> r == s
  {
    s.(disposed := true)
  }

  /** Everything that can happen to a shown popup. */
  datatype Event =
    | FadeInTimerFires
    | FadeOutTimerFires
    | MouseEnters
    | MouseExits
    | ContentChanges
    | Closes

  /** A timer event can only happen while that timer is pending; every other event can always happen. */
  predicate Enabled(s: FadeState, e: Event) {
    match e
    case FadeInTimerFires => s.fadeInTimer.Some?
    case FadeOutTimerFires => s.fadeOutTimer.Some?
    case _ => true
  }

  function Step(t: Timing, s: FadeState, e: Event): (r: FadeState)
    requires ValidState(t, s) && Enabled(s, e)
    ensures ValidState(t, r)
  {
    match e
    case FadeInTimerFires => AfterFadeInTimer(t, s)
    case FadeOutTimerFires => AfterFadeOutTimer(t, s)
    case MouseEnters => AfterMouseEnter(t, s)
    case MouseExits => AfterMouseExit(t, s)
    case ContentChanges => AfterContentChange(t, s)
    case Closes => AfterClose(s)
  }

  /** The state after a sequence of events; an event that cannot happen in the current state is skipped. */
  function Run(t: Timing, s: FadeState, es: seq<Event>): (r: FadeState)
    requires ValidState(t, s)
    ensures ValidState(t, r)
    ensures s.shown ==> r.shown
    decreases |es|
  {
    if es == [] then s
    else
      var next := if Enabled(s, es[0]) then Step(t, s, es[0]) else s;
      assert s.shown ==> next.shown;
      Run(t, next, es[1..])
  }

  /**
   * Whatever happens, a popup whose fade-out is disabled (sticky, or no
   * positive display time) is disposed only by an explicit close.
   */
  lemma {:induction false} OnlyCloseDisposesWithoutFadeOut(t: Timing, s: FadeState, es: seq<Event>)
    requires ValidState(t, s)
    requires !FadeOutEnabled(t)
    requires !s.disposed
    requires Closes !in es
    ensures !Run(t, s, es).disposed
    decreases |es|
  {
    if es != [] {
      var next := if Enabled(s, es[0]) then Step(t, s, es[0]) else s;
      assert !next.disposed;
      OnlyCloseDisposesWithoutFadeOut(t, next, es[1..]);
    }
  }

  /** Disposal is final: after it no event changes the opacity or revives the shell. */
  lemma {:induction false} DisposedIsFinal(t: Timing, s: FadeState, es: seq<Event>)
    requires ValidState(t, s)
    requires s.disposed
    ensures Run(t, s, es).disposed
    ensures Run(t, s, es).alpha == s.alpha
    ensures Run(t, s, es).visible == s.visible
    decreases |es|
  {
    if es != [] {
      var next := if Enabled(s, es[0]) then Step(t, s, es[0]) else s;
      assert next.disposed && next.alpha == s.alpha && next.visible == s.visible;
      DisposedIsFinal(t, next, es[1..]);
    }
  }

  /** The fade-in timer fired n times in a row (stopping early once it is no longer pending). */
  function FadeInTimerFiresTimes(t: Timing, s: FadeState, n: nat): (r: FadeState)
    requires ValidState(t, s)
    ensures ValidState(t, r)
    decreases n
  {
    if n == 0 || s.fadeInTimer.None? then s else FadeInTimerFiresTimes(t, AfterFadeInTimer(t, s), n - 1)
  }

  /** The fade-out timer fired n times in a row (stopping early once it is no longer pending). */
  function FadeOutTimerFiresTimes(t: Timing, s: FadeState, n: nat): (r: FadeState)
    requires ValidState(t, s)
    ensures ValidState(t, r)
    decreases n
  {
    if n == 0 || s.fadeOutTimer.None? then s else FadeOutTimerFiresTimes(t, AfterFadeOutTimer(t, s), n - 1)
  }

  /** One due fade-in run on a popup that is already fading in performs one fade-in tick. */
  lemma FadeInRunStep(t: Timing, s: FadeState)
    requires ValidState(t, s) && t.fadeInTime >= 0
    requires !s.disposed && !s.starting && s.fadeInTimer.Some?
    ensures var tick := FadeInTick(s.alpha, t.transparency, t.fadeInSteps);
      var r := AfterFadeInTimer(t, s);
      && ValidState(t, r) && r.alpha == tick.alpha && !r.disposed && !r.starting
      && (r.fadeInTimer.Some? <==> tick.Continue?)
      && (tick.Continue? ==> r.fadeOutTimer == s.fadeOutTimer)
      && (tick.Finish? ==> r.fadeOutTimer == (if FadeOutEnabled(t) then Some(t.displayTime) else s.fadeOutTimer))
  {
    assert FadeInDelay(t) >= 0;
  }

  /** One due fade-out run on a live popup performs one fade-out tick. */
  lemma FadeOutRunStep(t: Timing, s: FadeState)
    requires ValidState(t, s) && t.fadeOutTime >= 0
    requires !s.disposed && s.fadeOutTimer.Some?
    ensures var tick := FadeOutTick(s.alpha, t.transparency, t.fadeOutSteps);
      var r := AfterFadeOutTimer(t, s);
      && ValidState(t, r) && r.alpha == tick.alpha
      && (r.disposed <==> tick.Finish?)
      && (r.fadeOutTimer.Some? <==> tick.Continue?)
  {
    assert FadeOutDelay(t) >= 0;
  }

  /**
   * Left alone, a fading-in popup runs through exactly the opacities of the
   * fade-in trace from its current opacity: after k + 1 ticks the opacity is
   * the trace's k-th element, the fade-in stays scheduled until the trace is
   * used up, and the fade-out schedule is untouched until the clamping tick,
   * which schedules it after the display time.
   */
  lemma {:induction false} FadeInFollowsTrace(t: Timing, s: FadeState, k: nat)
    requires ValidState(t, s)
    requires t.transparency > 0 && t.fadeInTime >= 0
    requires !s.disposed && !s.starting && s.fadeInTimer.Some?
    ensures var tr := FadeInTrace(s.alpha, t.transparency, t.fadeInSteps);
      var r := FadeInTimerFiresTimes(t, s, k + 1);
      k < |tr| ==>
        && r.alpha == tr[k]
        && !r.disposed
        && (r.fadeInTimer.Some? <==> k + 1 < |tr|)
        && (k + 1 < |tr| ==> r.fadeOutTimer == s.fadeOutTimer)
        && (k + 1 == |tr| ==> r.fadeOutTimer == (if FadeOutEnabled(t) then Some(t.displayTime) else s.fadeOutTimer))
    decreases k
  {
    var tr := FadeInTrace(s.alpha, t.transparency, t.fadeInSteps);
    var s1 := AfterFadeInTimer(t, s);
    FadeInRunStep(t, s);
    assert FadeInTimerFiresTimes(t, s, k + 1) == FadeInTimerFiresTimes(t, s1, k);
    if k == 0 {
      assert FadeInTimerFiresTimes(t, s1, 0) == s1;
    }
    match FadeInTick(s.alpha, t.transparency, t.fadeInSteps)
    case Finish(a) =>
      assert tr == [a];
    case Continue(a) =>
      assert tr == [a] + FadeInTrace(a, t.transparency, t.fadeInSteps);
      if k > 0 {
        FadeInFollowsTrace(t, s1, k - 1);
      }
  }

  /**
   * Left alone, a fading-out popup runs through exactly the opacities of the
   * fade-out trace from its current opacity, and it is disposed exactly at the
   * last one.
   */
  lemma {:induction false} FadeOutFollowsTrace(t: Timing, s: FadeState, k: nat)
    requires ValidState(t, s)
    requires t.transparency > 0 && t.fadeOutTime >= 0
    requires !s.disposed && s.fadeOutTimer.Some? && s.alpha >= 0
    ensures var tr := FadeOutTrace(s.alpha, t.transparency, t.fadeOutSteps);
      var r := FadeOutTimerFiresTimes(t, s, k + 1);
      k < |tr| ==>
        && r.alpha == tr[k]
        && (r.disposed <==> k + 1 == |tr|)
        && (r.fadeOutTimer.Some? <==> k + 1 < |tr|)
    decreases k
  {
    var tr := FadeOutTrace(s.alpha, t.transparency, t.fadeOutSteps);
    var s1 := AfterFadeOutTimer(t, s);
    FadeOutRunStep(t, s);
    assert FadeOutTimerFiresTimes(t, s, k + 1) == FadeOutTimerFiresTimes(t, s1, k);
    if k == 0 {
      assert FadeOutTimerFiresTimes(t, s1, 0) == s1;
    }
    match FadeOutTick(s.alpha, t.transparency, t.fadeOutSteps)
    case Finish(a) =>
      assert tr == [a];
    case Continue(a) =>
      assert tr == [a] + FadeOutTrace(a, t.transparency, t.fadeOutSteps);
      if k > 0 {
        FadeOutFollowsTrace(t, s1, k - 1);
      }
  }

  /**
   * The whole fade-in of an undisturbed popup: `show` performs the first tick
   * of the trace from opacity 0, and at most max(fadeInSteps, 1) further
   * ticks reach the full transparency, stop the fade-in and, for a popup with
   * a fade-out, schedule the fade-out after the display time.
   */
  lemma ShowFadesInCompletely(t: Timing)
    requires t.transparency > 0 && t.fadeInTime >= 0
    ensures var s0 := AfterShow(t, Created);
      var tr := FadeInTrace(0, t.transparency, t.fadeInSteps);
      var r := FadeInTimerFiresTimes(t, s0, |tr| - 1);
      && |tr| - 1 <= AtLeastOne(t.fadeInSteps)
      && s0.alpha == tr[0]
      && r.alpha == t.transparency
      && r.fadeInTimer.None?
      && r.fadeOutTimer == (if FadeOutEnabled(t) then Some(t.displayTime) else None)
  {
    CreatedIsValid(t);
    FadesTerminate(t.transparency, t.fadeInSteps, t.fadeOutSteps);
    FadeInTraceRises(0, t.transparency, t.fadeInSteps);
    var s0 := AfterShow(t, Created);
    var tr := FadeInTrace(0, t.transparency, t.fadeInSteps);
    match FadeInTick(0, t.transparency, t.fadeInSteps)
    case Finish(a) =>
      assert FadeInTimerFiresTimes(t, s0, 0) == s0;
    case Continue(a) =>
      assert tr == [a] + FadeInTrace(a, t.transparency, t.fadeInSteps);
      FadeInFollowsTrace(t, s0, |tr| - 2);
  }

  /**
   * The whole fade-out of an undisturbed popup at full opacity: at most
   * max(fadeOutSteps, 1) ticks bring it to opacity 0 and dispose it.
   */
  lemma FullFadeOutDisposes(t: Timing, s: FadeState)
    requires ValidState(t, s)
    requires t.transparency > 0 && t.fadeOutTime >= 0
    requires !s.disposed && s.fadeOutTimer.Some? && s.alpha == t.transparency
    ensures var tr := FadeOutTrace(s.alpha, t.transparency, t.fadeOutSteps);
      var r := FadeOutTimerFiresTimes(t, s, |tr|);
      && |tr| <= AtLeastOne(t.fadeOutSteps)
      && r.disposed && r.alpha == 0
  {
    FadesTerminate(t.transparency, t.fadeInSteps, t.fadeOutSteps);
    FadeOutTraceFalls(s.alpha, t.transparency, t.fadeOutSteps);
    var tr := FadeOutTrace(s.alpha, t.transparency, t.fadeOutSteps);
    FadeOutFollowsTrace(t, s, |tr| - 1);
  }

  /** Hovering holds the popup: after the mouse enters, it is at full opacity with no fade-out pending. */
  lemma HoverHoldsPopup(t: Timing, s: FadeState)
    requires ValidState(t, s) && Listening(s) && HasFadeOut(t, s)
    ensures AfterMouseEnter(t, s).alpha == t.transparency
    ensures AfterMouseEnter(t, s).fadeOutTimer.None?
    ensures AfterMouseExit(t, AfterMouseEnter(t, s)).fadeOutTimer == Some(t.displayTime)
  {
  }

  /**
   * A toast popup: the shell's opacity, visibility and disposal, and the fade
   * handlers' state. The toast's timing attributes are fixed for its lifetime.
   */
  class ToastPopup {
    const toast: Timing
    var alpha: int
    var visible: bool
    var disposed: bool
    var shown: bool
    var starting: bool
    var fadeInTimer: Option<int>
    var fadeOutTimer: Option<int>

    /** The fields as a value. */
    function Snapshot(): FadeState
      reads this
    {
      FadeState(alpha, visible, disposed, shown, starting, fadeInTimer, fadeOutTimer)
    }

    predicate Valid()
      reads this
    {
      ValidState(toast, Snapshot())
    }

    constructor (t: Timing)
      ensures toast == t
      ensures Snapshot() == Created
      ensures Valid()
    {
      toast := t;
      alpha := 255;
      visible := false;
      disposed := false;
      shown := false;
      starting := true;
      fadeInTimer := None;
      fadeOutTimer := None;
    }

    /** The fade-in handler's `run`. */
    method FadeInRun()
      requires ReadyToRun(toast, Snapshot())
      modifies this
      ensures Valid()
      ensures Snapshot() == AfterFadeIn(toast, old(Snapshot()))
    {
      if disposed {
        return;
      }
      if starting {
        starting := false;
        alpha := 0;
        visible := true;
      }
      var cur := alpha + FadeStep(toast.transparency, toast.fadeInSteps);
      if cur > toast.transparency {
        alpha := toast.transparency;
        if FadeOutEnabled(toast) {
          fadeOutTimer := TimerExec(toast.displayTime);
        }
        return;
      }
      alpha := cur;
      fadeInTimer := TimerExec(JavaDiv(toast.fadeInTime, AtLeastOne(toast.fadeInSteps)));
    }

    /** `show`: creates the fade-in handler and runs it at once. */
    method Show()
      requires Valid() && !shown
      modifies this
      ensures Valid()
      ensures Snapshot() == AfterShow(toast, old(Snapshot()))
    {
      shown := true;
      FadeInRun();
    }

    /** The pending fade-in tick is due. */
    method FadeInTimerFires()
      requires Valid() && fadeInTimer.Some?
      modifies this
      ensures Valid()
      ensures Snapshot() == AfterFadeInTimer(toast, old(Snapshot()))
    {
      fadeInTimer := None;
      FadeInRun();
    }

    /**
     * The pending fade-out tick is due. `closed` tells whether this tick
     * disposed the shell, which notifies the close callback registered by `show`.
     */
    method FadeOutTimerFires() returns (closed: bool)
      requires Valid() && fadeOutTimer.Some?
      modifies this
      ensures Valid()
      ensures Snapshot() == AfterFadeOutTimer(toast, old(Snapshot()))
      ensures closed <==> !old(disposed) && disposed
    {
      fadeOutTimer := None;
      if disposed {
        return false;
      }
      var cur := alpha - FadeStep(toast.transparency, toast.fadeOutSteps);
      if cur <= 0 {
        alpha := 0;
        disposed := true;
        return true;
      }
      alpha := cur;
      fadeOutTimer := TimerExec(JavaDiv(toast.fadeOutTime, AtLeastOne(toast.fadeOutSteps)));
      return false;
    }

    method MouseEnter()
      requires Valid()
      modifies this
      ensures Valid()
      ensures Snapshot() == AfterMouseEnter(toast, old(Snapshot()))
    {
      if Listening(Snapshot()) && HasFadeOut(toast, Snapshot()) {
        if alpha != toast.transparency {
          alpha := toast.transparency;
        }
        fadeOutTimer := TimerExec(-1);
      }
    }

    method RestartFadeOutProcess()
      requires Valid()
      modifies this
      ensures Valid()
      ensures Snapshot() == AfterRestartFadeOut(toast, old(Snapshot()))
    {
      if disposed {
        return;
      }
      if HasFadeOut(toast, Snapshot()) {
        fadeOutTimer := TimerExec(toast.displayTime);
      }
    }

    method MouseExit()
      requires Valid()
      modifies this
      ensures Valid()
      ensures Snapshot() == AfterMouseExit(toast, old(Snapshot()))
    {
      if Listening(Snapshot()) {
        RestartFadeOutProcess();
      }
    }

    /** The toast's property-change listener. */
    method ContentChanged()
      requires Valid()
      modifies this
      ensures Valid()
      ensures Snapshot() == AfterContentChange(toast, old(Snapshot()))
    {
      if shown {
        RestartFadeOutProcess();
      }
    }

    /** `close`; `closed` tells whether the shell was disposed by this call. */
    method Close() returns (closed: bool)
      requires Valid()
      modifies this
      ensures Valid()
      ensures Snapshot() == AfterClose(old(Snapshot()))
      ensures closed <==> !old(disposed)
    {
      closed := !disposed;
      disposed := true;
    }
  }
}
