/**
 * The integer arithmetic of the fade animation, shared by both popup
 * implementations: the per-tick opacity step, the outcome of one fade-in and
 * one fade-out tick, the timer facility, and the sequence of opacities a fade
 * runs through, with its monotonicity and its length.
 */
module Fade {
  import opened Wrappers

  /** The timing attributes of a toast (all immutable once the toast is built). */
  datatype Timing = Timing(
    sticky: bool,
    transparency: int,
    displayTime: int,
    fadeInTime: int,
    fadeInSteps: int,
    fadeOutTime: int,
    fadeOutSteps: int)

  /** The builder defaults of a toast. */
  const DefaultTiming := Timing(false, 255, 5000, 200, 8, 600, 24)

  /** `Math.max(steps, 1)`: the step count floored at 1. */
  function AtLeastOne(steps: int): (r: int)
    ensures r >= 1 && r >= steps
    ensures steps >= 1 ==> r == steps
  {
    if steps >= 1 then steps else 1
  }

  /** `Math.ceil(a * 1.0 / b)` for a positive divisor: the least integer q with q * b >= a. */
  function CeilDiv(a: int, b: int): (q: int)
    requires b >= 1
    ensures q * b >= a
    ensures (q - 1) * b < a
  {
    var q := (a + b - 1) / b;
    assert q * b + (a + b - 1) % b == a + b - 1;
    q
  }

  /** Java's `a / b` for a positive divisor: truncation toward zero. */
  function JavaDiv(a: int, b: int): (q: int)
    requires b >= 1
    ensures a >= 0 ==> q >= 0 && 0 <= a - q * b < b
    ensures a < 0 ==> q <= 0 && -b < a - q * b <= 0
  {
    if a >= 0 then a / b else -((-a) / b)
  }

  /** The opacity change of one tick: `ceil(transparency / max(steps, 1))`. */
  function FadeStep(transparency: int, steps: int): (s: int)
    ensures transparency > 0 ==> s >= 1
    ensures transparency >= 0 ==> s >= 0
    ensures s * AtLeastOne(steps) >= transparency
  {
    CeilDiv(transparency, AtLeastOne(steps))
  }

  /** SWT's `timerExec(delay, runnable)`: a negative delay cancels, any other replaces the pending delay. */
  function TimerExec(delay: int): (pending: Option<int>)
    ensures pending.None? <==> delay < 0
    ensures pending.Some? ==> pending.value == delay
  {
    if delay < 0 then None else Some(delay)
  }

  /** The outcome of one tick: the fade goes on with a new opacity, or it ends at a final opacity. */
  datatype Tick = Continue(alpha: int) | Finish(alpha: int)

  /**
   * One fade-in tick from opacity `cur`: the step is added, and once the sum
   * exceeds the transparency the fade ends clamped to the transparency.
   */
  function FadeInTick(cur: int, transparency: int, steps: int): (t: Tick)
    ensures t.Finish? <==> cur + FadeStep(transparency, steps) > transparency
    ensures t.Finish? ==> t.alpha == transparency
    ensures t.Continue? ==> t.alpha == cur + FadeStep(transparency, steps) && t.alpha <= transparency
  {
    var next := cur + FadeStep(transparency, steps);
    if next > transparency then Finish(transparency) else Continue(next)
  }

  /**
   * One fade-out tick from opacity `cur`: the step is subtracted, and once the
   * difference reaches zero or below the fade ends at opacity 0.
   */
  function FadeOutTick(cur: int, transparency: int, steps: int): (t: Tick)
    ensures t.Finish? <==> cur - FadeStep(transparency, steps) <= 0
    ensures t.Finish? ==> t.alpha == 0
    ensures t.Continue? ==> t.alpha == cur - FadeStep(transparency, steps) && t.alpha > 0
  {
    var next := cur - FadeStep(transparency, steps);
    if next <= 0 then Finish(0) else Continue(next)
  }

  /** A fade-in tick never lowers the opacity, and from [0, transparency] it stays there. */
  lemma FadeInTickBounds(cur: int, transparency: int, steps: int)
    requires 0 <= cur <= transparency
    ensures cur <= FadeInTick(cur, transparency, steps).alpha <= transparency
  {
  }

  /** A fade-out tick never raises the opacity, and from [0, transparency] it stays there. */
  lemma FadeOutTickBounds(cur: int, transparency: int, steps: int)
    requires 0 <= cur <= transparency
    ensures 0 <= FadeOutTick(cur, transparency, steps).alpha <= cur
  {
  }

  /** The opacities after each fade-in tick from `cur` until the clamping tick (inclusive). */
  function FadeInTrace(cur: int, transparency: int, steps: int): seq<int>
    requires transparency > 0
    decreases transparency - cur
  {
    match FadeInTick(cur, transparency, steps)
    case Finish(a) => [a]
    case Continue(a) => [a] + FadeInTrace(a, transparency, steps)
  }

  /** The opacities after each fade-out tick from `cur` until the disposing tick (inclusive). */
  function FadeOutTrace(cur: int, transparency: int, steps: int): seq<int>
    requires transparency > 0
    decreases cur
  {
    match FadeOutTick(cur, transparency, steps)
    case Finish(a) => [a]
    case Continue(a) => [a] + FadeOutTrace(a, transparency, steps)
  }

  /**
   * Fade-in monotonicity: from [0, transparency] every opacity of the trace
   * lies between the start and the transparency, the trace never decreases,
   * and it ends exactly at the transparency.
   */
  lemma {:induction false} FadeInTraceRises(cur: int, transparency: int, steps: int)
    requires 0 <= cur <= transparency
    requires transparency > 0
    ensures var tr := FadeInTrace(cur, transparency, steps);
      && |tr| >= 1 && tr[|tr| - 1] == transparency
      && (forall i :: 0 <= i < |tr| ==> cur <= tr[i] <= transparency)
      && (forall i, j :: 0 <= i < j < |tr| ==> tr[i] <= tr[j])
    decreases transparency - cur
  {
    match FadeInTick(cur, transparency, steps)
    case Finish(a) =>
    case Continue(a) =>
      FadeInTraceRises(a, transparency, steps);
  }

  /**
   * Fade-out monotonicity: from a positive opacity every opacity of the trace
   * lies in [0, start], the trace never increases, and it ends exactly at 0.
   */
  lemma {:induction false} FadeOutTraceFalls(cur: int, transparency: int, steps: int)
    requires 0 <= cur
    requires transparency > 0
    ensures var tr := FadeOutTrace(cur, transparency, steps);
      && |tr| >= 1 && tr[|tr| - 1] == 0
      && (forall i :: 0 <= i < |tr| ==> 0 <= tr[i] <= cur)
      && (forall i, j :: 0 <= i < j < |tr| ==> tr[i] >= tr[j])
    decreases cur
  {
    match FadeOutTick(cur, transparency, steps)
    case Finish(a) =>
    case Continue(a) =>
      FadeOutTraceFalls(a, transparency, steps);
  }

  /** When n steps from `cur` overshoot the transparency, the fade-in ends within n ticks. */
  lemma {:induction false} FadeInTraceAtMost(cur: int, transparency: int, steps: int, n: nat)
    requires transparency > 0
    requires cur <= transparency
    requires cur + n * FadeStep(transparency, steps) > transparency
    ensures |FadeInTrace(cur, transparency, steps)| <= n
    decreases n
  {
    assert n != 0;
    match FadeInTick(cur, transparency, steps)
    case Finish(a) =>
    case Continue(a) =>
      assert a + (n - 1) * FadeStep(transparency, steps) == cur + n * FadeStep(transparency, steps);
      FadeInTraceAtMost(a, transparency, steps, n - 1);
  }

  /** When n steps from `cur` reach zero or below, the fade-out ends within n ticks. */
  lemma {:induction false} FadeOutTraceAtMost(cur: int, transparency: int, steps: int, n: nat)
    requires transparency > 0
    requires cur > 0
    requires cur - n * FadeStep(transparency, steps) <= 0
    ensures |FadeOutTrace(cur, transparency, steps)| <= n
    decreases n
  {
    match FadeOutTick(cur, transparency, steps)
    case Finish(a) =>
      assert n != 0;
    case Continue(a) =>
      assert a - (n - 1) * FadeStep(transparency, steps) == cur - n * FadeStep(transparency, steps);
      FadeOutTraceAtMost(a, transparency, steps, n - 1);
  }

  /**
   * With a positive transparency the fade-in from opacity 0 reaches the clamp
   * after at most max(steps, 1) + 1 ticks, and the fade-out from the full
   * transparency disposes after at most max(steps, 1) ticks.
   */
  lemma FadesTerminate(transparency: int, fadeInSteps: int, fadeOutSteps: int)
    requires transparency > 0
    ensures |FadeInTrace(0, transparency, fadeInSteps)| <= AtLeastOne(fadeInSteps) + 1
    ensures |FadeOutTrace(transparency, transparency, fadeOutSteps)| <= AtLeastOne(fadeOutSteps)
  {
    var mIn, sIn := AtLeastOne(fadeInSteps), FadeStep(transparency, fadeInSteps);
    assert (mIn + 1) * sIn == sIn * mIn + sIn;
    FadeInTraceAtMost(0, transparency, fadeInSteps, mIn + 1);
    var mOut, sOut := AtLeastOne(fadeOutSteps), FadeStep(transparency, fadeOutSteps);
    assert mOut * sOut == sOut * mOut;
    FadeOutTraceAtMost(transparency, transparency, fadeOutSteps, mOut);
  }

  /**
   * With the default timing the fade-in takes 8 ticks (7 rising ones and a
   * clamping one), and the fade-out 24 ticks, the last of which reaches 0.
   */
  lemma DefaultTimingScenario()
    ensures FadeStep(DefaultTiming.transparency, DefaultTiming.fadeInSteps) == 32
    ensures FadeStep(DefaultTiming.transparency, DefaultTiming.fadeOutSteps) == 11
    ensures JavaDiv(DefaultTiming.fadeInTime, AtLeastOne(DefaultTiming.fadeInSteps)) == 25
    ensures JavaDiv(DefaultTiming.fadeOutTime, AtLeastOne(DefaultTiming.fadeOutSteps)) == 25
    ensures FadeInTrace(0, 255, 8) == [32, 64, 96, 128, 160, 192, 224, 255]
    ensures var tr := FadeOutTrace(255, 255, 24);
      && |tr| == 24 && tr[23] == 0
      && forall i :: 0 <= i < 23 ==> tr[i] == 244 - 11 * i
  {
    DefaultFadeOutTrace();
  }

  /** Opacities falling from `cur` by `s` each tick while they stay positive, then 0. */
  function Ramp(cur: int, s: int): seq<int>
    requires s >= 1
    decreases cur
  {
    if cur - s <= 0 then [0] else [cur - s] + Ramp(cur - s, s)
  }

  /** A fade-out is the ramp of its step: each tick lowers the opacity by one step until it reaches 0. */
  lemma {:induction false} FadeOutTraceIsRamp(cur: int, transparency: int, steps: int)
    requires transparency > 0
    ensures FadeOutTrace(cur, transparency, steps) == Ramp(cur, FadeStep(transparency, steps))
    decreases cur
  {
    var s := FadeStep(transparency, steps);
    if cur - s > 0 {
      FadeOutTraceIsRamp(cur - s, transparency, steps);
    }
  }

  /** The ramp from a positive opacity has ceil(cur / s) elements. */
  lemma {:induction false} RampLength(cur: int, s: int)
    requires cur > 0 && s >= 1
    ensures (|Ramp(cur, s)| - 1) * s < cur <= |Ramp(cur, s)| * s
    decreases cur
  {
    if cur - s > 0 {
      RampLength(cur - s, s);
      var n := |Ramp(cur - s, s)|;
      assert |Ramp(cur, s)| == n + 1;
      assert (n + 1 - 1) * s == (n - 1) * s + s && (n + 1) * s == n * s + s;
    }
  }

  /** The ramp ends at 0, and its i-th value, all but the last, is cur - (i + 1) * s. */
  lemma {:induction false} RampValues(cur: int, s: int)
    requires s >= 1
    ensures var r := Ramp(cur, s);
      && |r| >= 1 && r[|r| - 1] == 0
      && forall i :: 0 <= i < |r| - 1 ==> r[i] == cur - (i + 1) * s
    decreases cur
  {
    var r := Ramp(cur, s);
    if cur - s > 0 {
      var rest := Ramp(cur - s, s);
      RampValues(cur - s, s);
      assert r == [cur - s] + rest;
      forall i | 0 < i < |r| - 1
        ensures r[i] == cur - (i + 1) * s
      {
        assert r[i] == rest[i - 1] == (cur - s) - ((i - 1) + 1) * s;
        assert (i + 1) * s == i * s + s;
      }
    }
  }

  /** The ramp from 255 in steps of 11 has 24 values. */
  lemma RampFrom255By11Length()
    ensures |Ramp(255, 11)| == 24
  {
    RampLength(255, 11);
    TwentyFourTicks(|Ramp(255, 11)|);
  }

  /** The ramp from 255 in steps of 11: 23 falling values, then 0. */
  lemma RampFrom255By11()
    ensures var r := Ramp(255, 11);
      && |r| == 24 && r[23] == 0
      && forall i :: 0 <= i < 23 ==> r[i] == 244 - 11 * i
  {
    RampFrom255By11Length();
    RampValues(255, 11);
  }

  /** ceil(255 / 11) is 24. */
  lemma TwentyFourTicks(n: int)
    requires (n - 1) * 11 < 255 <= n * 11
    ensures n == 24
  {
  }

  /** The default fade-out: 23 falling steps of 11 from 255, then the disposing tick at 0. */
  lemma DefaultFadeOutTrace()
    ensures var tr := FadeOutTrace(255, 255, 24);
      && |tr| == 24 && tr[23] == 0
      && forall i :: 0 <= i < 23 ==> tr[i] == 244 - 11 * i
  {
    FadeOutTraceIsRamp(255, 255, 24);
    assert FadeStep(255, 24) == 11;
    RampFrom255By11();
  }
}
