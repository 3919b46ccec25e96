# Toaster — a verified model of toast placement and fading

Toaster shows desktop notifications ("toasts") that pop up in one of the four
screen corners, fade in, stay for a display time, and fade out. This project
models the program's core in Dafny and proves properties of that model:

- **Placement and scheduling** (`ToastManager`). A registry keeps the occupied
  rectangles of each corner, the visible popups, and a queue of pending
  requests. A new popup is placed at its corner's anchor. From there a probe
  moves one pixel at a time along the vertical axis until the rectangle
  overlaps nothing in that corner. While requests are queued, new ones are
  appended. When a popup closes, its rectangle is released and only the head
  of the queue is retried. The model is the class
  `ToastManagerModel.ToastManager`, whose methods change its fields. The probe
  is also specified by the function `Geometry.Search`.
- **Fading** (the `FadeInHandler` and `FadeOutHandler` of both popup
  implementations). Opacity is an integer. It rises and falls in steps of
  `ceil(transparency / max(steps, 1))`, driven by the toolkit's timers. Hovering
  holds the popup; mouse exit and content changes restart the countdown.
  - Each event is a transition function on the value `FadeState` (module
    `ToastPopupImpl`).
  - The class `ToastPopupImpl.ToastPopup` holds the same state in fields. Each
    of its methods is proved to perform its transition.
  - The earlier implementation is modelled in `LegacyToastPopupImpl` and proved
    to agree with the current one on every sequence of events.
- **Layout arithmetic** (`PopupLayout`): the size constraint, the initial-size
  negotiation, the icon width caps and the pre-order listing of the control
  tree.
- **Small values**:
  - colours (`ToastColors`): validation, hex rendering, equality, hash code and
    the integer part of `brighter`;
  - the base64 guard and the icon dispatch (`ToasterUtils`);
  - the colour fallbacks of an action button (`ToastActions`).

Several things are inputs to the model rather than part of it:
- SWT's timer facility is a pending delay per handler (`Fade.TimerExec`).
- The widget's preferred size is a function parameter (`computeSize`).
- Base64 decoding and image creation are function parameters.
- The 0.7 scaling of `brighter` is a function parameter (`scale`).

## Model

| member | source | states |
|---|---|---|
| Geometry.IntersectsSymmetric | src/main/java/de/dogla/toaster/ToastManager.java:216-226 | overlap of two rectangles does not depend on their order |
| Geometry.IntersectsEdgeCases | src/main/java/de/dogla/toaster/ToastManager.java:216-226 | rectangles that share only an edge do not overlap; a zero-width rectangle strictly inside another does |
| Geometry.Anchor | src/main/java/de/dogla/toaster/ToastManager.java:145-160 | left corners sit on the area's left edge, right corners end on its right edge; bottom corners end on its bottom edge, top corners sit on its top edge |
| Geometry.NextCandidate | src/main/java/de/dogla/toaster/ToastManager.java:166-180 | the next probe position keeps x; bottom corners move up one pixel and stop below minY, top corners move down one pixel and stop beyond maxY |
| Geometry.NextCandidateDecreases | src/main/java/de/dogla/toaster/ToastManager.java:163-184 | each probe step reduces a natural-number budget, so the probe terminates |
| Geometry.Search | src/main/java/de/dogla/toaster/ToastManager.java:163-184 | a found position keeps the start's x and overlaps no rectangle of the given set; with an empty set the start itself is returned |
| Geometry.FindFreePosition | src/main/java/de/dogla/toaster/ToastManager.java:140-184 | `computeLocation`: a found position is flush with the corner's vertical edge, overlaps nothing in the corner, and lies within the area vertically unless it is the anchor; there is none exactly when the anchor and every height inside the area are taken; with nothing occupied it is the anchor |
| Geometry.SearchFindsFirstFree | src/main/java/de/dogla/toaster/ToastManager.java:163-184 | the found position lies in the scan direction within [minY, maxY], and every position passed over is forbidden, so it is the first free one |
| Geometry.SearchReturnsFirstFree | src/main/java/de/dogla/toaster/ToastManager.java:163-184 | conversely, a free position in the scan direction within the bounds, with every position before it forbidden, is exactly what the probe returns |
| Geometry.SearchNoneMeansFull | src/main/java/de/dogla/toaster/ToastManager.java:163-184 | the probe finds nothing exactly when the start and every position up to the scan bound are forbidden |
| Geometry.AddFreeKeepsDisjoint | src/main/java/de/dogla/toaster/ToastManager.java:85-86 | registering a rectangle the probe found free keeps a corner's rectangles pairwise non-overlapping |
| Geometry.StackingScenario | src/main/java/de/dogla/toaster/ToastManager.java:140-184 | on a 1000x800 area with 300x100 popups at the bottom right: the first lands at (700,700), the second at (700,600), and a ninth finds no place |
| ToastManagerModel.Popup.SetLocation | src/main/java/de/dogla/toaster/ToastManager.java:82 | the popup's location becomes the given point |
| ToastManagerModel.ToastRequest.GetOrCreatePopup | src/main/java/de/dogla/toaster/ToastManager.java:258-263 | returns the existing popup if there is one, otherwise a fresh popup of the request's size and area; either way it becomes the request's popup |
| ToastManagerModel.RemoveFirst | src/main/java/de/dogla/toaster/ToastManager.java:100 | removing an absent element changes nothing; removing a present one deletes exactly its first occurrence (`FirstIndex`) and keeps every other element in order, so the sequence shortens by one; removing the head yields the tail |
| ToastManagerModel.FirstIndex | src/main/java/de/dogla/toaster/ToastManager.java:100 | the index of the first occurrence of an element: it holds the element and no earlier position does |
| ToastManagerModel.ToastManager.constructor | src/main/java/de/dogla/toaster/ToastManager.java:47-49 | a new registry has no rectangles, no visible popups and no pending requests, and satisfies the invariant |
| ToastManagerModel.ToastManager.IsForbidden | src/main/java/de/dogla/toaster/ToastManager.java:216-226 | the loop over the corner's set answers exactly whether the candidate overlaps a rectangle of that corner |
| ToastManagerModel.ToastManager.SearchPosition | src/main/java/de/dogla/toaster/ToastManager.java:163-184 | the while loop returns exactly the probe `Geometry.Search` over the corner's own rectangles |
| ToastManagerModel.ToastManager.ComputeLocation | src/main/java/de/dogla/toaster/ToastManager.java:140-161 | the location is the probe from the corner's anchor within the popup area, as `Geometry.FindFreePosition` |
| ToastManagerModel.ToastManager.Toast | src/main/java/de/dogla/toaster/ToastManager.java:66-138 | keeps the invariant (no overlap within a corner, no request queued twice, no queued request admitted). A fresh request meeting a non-empty queue is appended and nothing else changes. Otherwise the request's popup is obtained. If a position is found, the rectangle joins its corner's set, the popup joins the visible list, a pending request leaves the queue, and the close hook is returned. If not, a fresh request goes to the tail and a pending request to the head |
| ToastManagerModel.ToastManager.Submit | src/main/java/de/dogla/toaster/ToastManager.java:57-64 | a fresh request of the given corner, area and size. Behind a non-empty queue it is appended, without a popup, and nothing else changes. Otherwise a fresh popup of that size is created; if the probe finds a position the popup is moved there, its rectangle joins the corner's set, the popup joins the visible list, the request counts as admitted and its close hook is returned; if not, the request is appended to the queue and nothing else changes. The invariant is kept |
| ToastManagerModel.ToastManager.OnClosed | src/main/java/de/dogla/toaster/ToastManager.java:97-127 | the popup leaves the visible list and its rectangle leaves its corner's set; `missing` reports a rectangle that was not there. Only the queue head is retried: its popup is created at the request's size if it had none. If it fits now it is moved to the probe's position, leaves the queue, its rectangle and popup are registered and it is admitted; otherwise the queue and the popup's location are unchanged. The invariant is kept |
| ToastManagerModel.ToastManager.IsEmpty | src/main/java/de/dogla/toaster/ToastManager.java:228-240 | true exactly when the queue is empty and every corner's set is empty |
| ToastManagerModel.ToastManager.GetVisiblePopups | src/main/java/de/dogla/toaster/ToastManager.java:242-246 | a fresh array holding the visible popups in order |
| Fade.AtLeastOne | src/main/java/io/github/dogla/toaster/ui/impl/ToastPopupImpl.java:623 | `Math.max(steps, 1)`: at least 1 and at least steps, and equal to steps when steps is positive |
| Fade.CeilDiv | src/main/java/io/github/dogla/toaster/ui/impl/ToastPopupImpl.java:645 | the least q with q * b >= a, which is `Math.ceil(a * 1.0 / b)` |
| Fade.JavaDiv | src/main/java/io/github/dogla/toaster/ui/impl/ToastPopupImpl.java:656 | Java's integer division by a positive divisor, which truncates toward zero for either sign of the dividend |
| Fade.FadeStep | src/main/java/io/github/dogla/toaster/ui/impl/ToastPopupImpl.java:645 | with positive transparency the step is at least 1, and max(steps, 1) steps cover the whole transparency |
| Fade.TimerExec | src/main/java/io/github/dogla/toaster/ui/impl/ToastPopupImpl.java:634 | a negative delay cancels the pending run; any other delay replaces it |
| Fade.FadeInTick | src/main/java/io/github/dogla/toaster/ui/impl/ToastPopupImpl.java:644-656 | the tick ends the fade exactly when the raised opacity would exceed the transparency, and then clamps to it; otherwise the opacity rises by one step |
| Fade.FadeOutTick | src/main/java/io/github/dogla/toaster/ui/impl/ToastPopupImpl.java:681-691 | the tick ends the fade exactly when the lowered opacity is at most 0, and then forces 0; otherwise the opacity falls by one step and stays positive |
| Fade.FadeInTickBounds | src/main/java/io/github/dogla/toaster/ui/impl/ToastPopupImpl.java:644-655 | a fade-in tick from [0, transparency] never lowers the opacity and stays within the transparency |
| Fade.FadeOutTickBounds | src/main/java/io/github/dogla/toaster/ui/impl/ToastPopupImpl.java:681-690 | a fade-out tick from [0, transparency] never raises the opacity and stays non-negative |
| Fade.FadeInTraceRises | src/main/java/io/github/dogla/toaster/ui/impl/ToastPopupImpl.java:644-656 | the opacities of a whole fade-in lie between the start and the transparency, never decrease, and end exactly at the transparency |
| Fade.FadeOutTraceFalls | src/main/java/io/github/dogla/toaster/ui/impl/ToastPopupImpl.java:679-691 | the opacities of a whole fade-out lie in [0, start], never increase, and end exactly at 0 |
| Fade.FadeInTraceAtMost | src/main/java/io/github/dogla/toaster/ui/impl/ToastPopupImpl.java:645-647 | if n steps overshoot the transparency, the fade-in ends within n ticks |
| Fade.FadeOutTraceAtMost | src/main/java/io/github/dogla/toaster/ui/impl/ToastPopupImpl.java:682-684 | if n steps reach 0, the fade-out ends within n ticks |
| Fade.FadesTerminate | src/main/java/io/github/dogla/toaster/ui/impl/ToastPopupImpl.java:645-647 | with positive transparency, a fade-in from 0 takes at most max(steps, 1) + 1 ticks, and a fade-out from full transparency at most max(steps, 1) |
| Fade.DefaultTimingScenario | src/main/java/io/github/dogla/toaster/Toast.java:103-115 | with the default timing the steps are 32 and 11 and both delays are 25 ms; the fade-in runs 32, 64, …, 224, 255 in 8 ticks, and the fade-out runs 244, 233, …, 13, 2, 0 in 24 ticks |
| Fade.FadeOutTraceIsRamp | src/main/java/io/github/dogla/toaster/ui/impl/ToastPopupImpl.java:679-691 | a whole fade-out is the ramp of its step: the opacity falls by one step per tick while it stays positive, and the last tick sets 0 |
| Fade.RampLength | src/main/java/io/github/dogla/toaster/ui/impl/ToastPopupImpl.java:682-684 | a fade-out from a positive opacity ends after ceil(start / step) ticks |
| Fade.RampValues | src/main/java/io/github/dogla/toaster/ui/impl/ToastPopupImpl.java:682-690 | the i-th opacity of a fade-out, all but the last, is start − (i + 1) · step, and the last is 0 |
| Fade.DefaultFadeOutTrace | src/main/java/io/github/dogla/toaster/ui/impl/ToastPopupImpl.java:679-691 | with the default timing the fade-out takes 24 ticks: 244 − 11 · i for the first 23, then 0 |
| ToastPopupImpl.CreatedIsValid | src/main/java/io/github/dogla/toaster/ui/impl/ToastPopupImpl.java:597-606 | a new popup satisfies the invariant, has no listeners yet and no fade-out handler before `show` |
| ToastPopupImpl.AfterFadeIn | src/main/java/io/github/dogla/toaster/ui/impl/ToastPopupImpl.java:609-660 | no effect on a disposed shell. Otherwise the shell becomes visible, and the first tick starts from 0 while later ones start from the current opacity. A rising tick schedules the next fade-in after fadeInTime / steps; the clamping tick schedules the fade-out after the display time when a fade-out handler exists. The invariant is kept |
| ToastPopupImpl.AfterShow | src/main/java/io/github/dogla/toaster/ui/impl/ToastPopupImpl.java:557-561 | `show` creates the handler and runs its first tick; the invariant is kept |
| ToastPopupImpl.AfterFadeInTimer | src/main/java/io/github/dogla/toaster/ui/impl/ToastPopupImpl.java:656 | a due fade-in run keeps the invariant |
| ToastPopupImpl.AfterFadeOut | src/main/java/io/github/dogla/toaster/ui/impl/ToastPopupImpl.java:674-695 | no effect on a disposed shell. Otherwise one fade-out tick: the shell is disposed exactly when the tick ends the fade, and otherwise the next tick is scheduled after fadeOutTime / steps. Nothing else changes and the invariant is kept |
| ToastPopupImpl.AfterFadeOutTimer | src/main/java/io/github/dogla/toaster/ui/impl/ToastPopupImpl.java:686-691 | a due fade-out run keeps the invariant |
| ToastPopupImpl.AfterMouseEnter | src/main/java/io/github/dogla/toaster/ui/impl/ToastPopupImpl.java:628-636 | with listeners attached and a fade-out handler, the opacity returns to the transparency and the pending fade-out is cancelled; otherwise nothing changes |
| ToastPopupImpl.AfterRestartFadeOut | src/main/java/io/github/dogla/toaster/ui/impl/ToastPopupImpl.java:662-668 | on a live shell with a fade-out handler, the fade-out is rescheduled after the full display time; otherwise nothing changes |
| ToastPopupImpl.AfterMouseExit | src/main/java/io/github/dogla/toaster/ui/impl/ToastPopupImpl.java:638-641 | with listeners attached, mouse exit restarts the fade-out process; otherwise nothing changes |
| ToastPopupImpl.AfterContentChange | src/main/java/io/github/dogla/toaster/ui/impl/ToastPopupImpl.java:297-299 | once `show` has created the handler, a property change restarts the fade-out process; before that nothing changes |
| ToastPopupImpl.AfterClose | src/main/java/io/github/dogla/toaster/ui/impl/ToastPopupImpl.java:564-570 | closing disposes a live shell and changes nothing else |
| ToastPopupImpl.Step | src/main/java/io/github/dogla/toaster/ui/impl/ToastPopupImpl.java:609-695 | every event that can happen keeps the invariant |
| ToastPopupImpl.Run | src/main/java/io/github/dogla/toaster/ui/impl/ToastPopupImpl.java:609-695 | any sequence of events keeps the invariant, and a shown popup stays shown |
| ToastPopupImpl.OnlyCloseDisposesWithoutFadeOut | src/main/java/io/github/dogla/toaster/ui/impl/ToastPopupImpl.java:602-606 | a sticky toast, or one without a positive display time, is never disposed except by an explicit close |
| ToastPopupImpl.DisposedIsFinal | src/main/java/io/github/dogla/toaster/ui/impl/ToastPopupImpl.java:609-695 | after disposal no event changes the opacity or the visibility, or revives the shell |
| ToastPopupImpl.FadeInTimerFiresTimes | src/main/java/io/github/dogla/toaster/ui/impl/ToastPopupImpl.java:656 | fade-in runs repeated while one is due keep the invariant |
| ToastPopupImpl.FadeOutTimerFiresTimes | src/main/java/io/github/dogla/toaster/ui/impl/ToastPopupImpl.java:691 | fade-out runs repeated while one is due keep the invariant |
| ToastPopupImpl.FadeInRunStep | src/main/java/io/github/dogla/toaster/ui/impl/ToastPopupImpl.java:644-656 | a due fade-in run on a popup that is fading in performs one fade-in tick: the opacity is the tick's, the next run is pending iff the tick rises, and only the clamping tick schedules the fade-out |
| ToastPopupImpl.FadeOutRunStep | src/main/java/io/github/dogla/toaster/ui/impl/ToastPopupImpl.java:679-691 | a due fade-out run on a live popup performs one fade-out tick: the opacity is the tick's, and the shell is disposed iff the tick ends the fade, and otherwise the next run is pending |
| ToastPopupImpl.FadeInFollowsTrace | src/main/java/io/github/dogla/toaster/ui/impl/ToastPopupImpl.java:644-656 | left alone, the opacity after k + 1 fade-in runs is the k-th opacity of the trace. The fade-in stays scheduled until the trace is used up, and the last tick schedules the fade-out |
| ToastPopupImpl.FadeOutFollowsTrace | src/main/java/io/github/dogla/toaster/ui/impl/ToastPopupImpl.java:679-691 | left alone, the opacity after k + 1 fade-out runs is the k-th opacity of the trace, and the shell is disposed exactly at the trace's end |
| ToastPopupImpl.ShowFadesInCompletely | src/main/java/io/github/dogla/toaster/ui/impl/ToastPopupImpl.java:609-656 | after `show` and at most max(steps, 1) more runs, the opacity is the transparency, no fade-in is pending, and the fade-out is scheduled iff the toast has one |
| ToastPopupImpl.FullFadeOutDisposes | src/main/java/io/github/dogla/toaster/ui/impl/ToastPopupImpl.java:674-695 | from full opacity, at most max(steps, 1) fade-out runs reach opacity 0 and dispose the shell |
| ToastPopupImpl.HoverHoldsPopup | src/main/java/io/github/dogla/toaster/ui/impl/ToastPopupImpl.java:628-641 | after mouse entry the popup is at full opacity with nothing pending; the following exit schedules the fade-out after the display time |
| ToastPopupImpl.ToastPopup.constructor | src/main/java/io/github/dogla/toaster/ui/impl/ToastPopupImpl.java:597-606 | a new popup is hidden and fully opaque, with nothing scheduled |
| ToastPopupImpl.ToastPopup.FadeInRun | src/main/java/io/github/dogla/toaster/ui/impl/ToastPopupImpl.java:609-660 | the fields change exactly as `AfterFadeIn` says, and the invariant holds afterwards |
| ToastPopupImpl.ToastPopup.Show | src/main/java/io/github/dogla/toaster/ui/impl/ToastPopupImpl.java:557-561 | the fields change exactly as `AfterShow` says |
| ToastPopupImpl.ToastPopup.FadeInTimerFires | src/main/java/io/github/dogla/toaster/ui/impl/ToastPopupImpl.java:656 | the fields change exactly as `AfterFadeInTimer` says |
| ToastPopupImpl.ToastPopup.FadeOutTimerFires | src/main/java/io/github/dogla/toaster/ui/impl/ToastPopupImpl.java:674-695 | the fields change exactly as `AfterFadeOutTimer` says; `closed` is true exactly when this run disposed the shell |
| ToastPopupImpl.ToastPopup.MouseEnter | src/main/java/io/github/dogla/toaster/ui/impl/ToastPopupImpl.java:628-636 | the fields change exactly as `AfterMouseEnter` says |
| ToastPopupImpl.ToastPopup.RestartFadeOutProcess | src/main/java/io/github/dogla/toaster/ui/impl/ToastPopupImpl.java:662-668 | the fields change exactly as `AfterRestartFadeOut` says |
| ToastPopupImpl.ToastPopup.MouseExit | src/main/java/io/github/dogla/toaster/ui/impl/ToastPopupImpl.java:638-641 | the fields change exactly as `AfterMouseExit` says |
| ToastPopupImpl.ToastPopup.ContentChanged | src/main/java/io/github/dogla/toaster/ui/impl/ToastPopupImpl.java:297-299 | the fields change exactly as `AfterContentChange` says |
| ToastPopupImpl.ToastPopup.Close | src/main/java/io/github/dogla/toaster/ui/impl/ToastPopupImpl.java:564-570 | the fields change exactly as `AfterClose` says; `closed` is true iff the shell was alive |
| LegacyToastPopupImpl.AfterLegacyMouseExit | src/main/java/de/dogla/toaster/ui/impl/ToastPopupImpl.java:521-526 | with a fade-out handler, mouse exit reschedules the fade-out after the display time; only the fade-out schedule changes, and the invariant is kept |
| LegacyToastPopupImpl.LegacyMouseExitAgrees | src/main/java/de/dogla/toaster/ui/impl/ToastPopupImpl.java:521-526 | the earlier mouse exit always gives the same state as the current one, because listeners only get events on a live shell |
| LegacyToastPopupImpl.Current | src/main/java/de/dogla/toaster/ui/impl/ToastPopupImpl.java:480-572 | each event of the earlier implementation maps to a current event other than a content change |
| LegacyToastPopupImpl.LegacyStep | src/main/java/de/dogla/toaster/ui/impl/ToastPopupImpl.java:492-572 | every event that can happen keeps the invariant |
| LegacyToastPopupImpl.LegacyRun | src/main/java/de/dogla/toaster/ui/impl/ToastPopupImpl.java:492-572 | any sequence of events keeps the invariant |
| LegacyToastPopupImpl.CurrentAll | src/main/java/de/dogla/toaster/ui/impl/ToastPopupImpl.java:480-572 | the mapped sequence has the same length, maps each event, and has no content change |
| LegacyToastPopupImpl.LegacyRunAgrees | src/main/java/de/dogla/toaster/ui/impl/ToastPopupImpl.java:480-572 | on every event sequence the earlier implementation reaches the same state as the current one |
| LegacyToastPopupImpl.LegacyToastPopup.constructor | src/main/java/de/dogla/toaster/ui/impl/ToastPopupImpl.java:480-489 | a new popup is hidden and fully opaque, with nothing scheduled |
| LegacyToastPopupImpl.LegacyToastPopup.FadeInRun | src/main/java/de/dogla/toaster/ui/impl/ToastPopupImpl.java:492-545 | the fields change exactly as the shared `AfterFadeIn` says |
| LegacyToastPopupImpl.LegacyToastPopup.Show | src/main/java/de/dogla/toaster/ui/impl/ToastPopupImpl.java:441-444 | the fields change exactly as `AfterShow` says |
| LegacyToastPopupImpl.LegacyToastPopup.FadeInTimerFires | src/main/java/de/dogla/toaster/ui/impl/ToastPopupImpl.java:541 | the fields change exactly as `AfterFadeInTimer` says |
| LegacyToastPopupImpl.LegacyToastPopup.FadeOutTimerFires | src/main/java/de/dogla/toaster/ui/impl/ToastPopupImpl.java:551-572 | the fields change exactly as `AfterFadeOutTimer` says; `closed` tells whether this run disposed the shell |
| LegacyToastPopupImpl.LegacyToastPopup.MouseEnter | src/main/java/de/dogla/toaster/ui/impl/ToastPopupImpl.java:511-519 | the fields change exactly as `AfterMouseEnter` says |
| LegacyToastPopupImpl.LegacyToastPopup.MouseExit | src/main/java/de/dogla/toaster/ui/impl/ToastPopupImpl.java:521-526 | the fields change exactly as `AfterLegacyMouseExit` says |
| LegacyToastPopupImpl.LegacyToastPopup.Close | src/main/java/de/dogla/toaster/ui/impl/ToastPopupImpl.java:447-453 | the fields change exactly as `AfterClose` says; `closed` is true iff the shell was alive |
| PopupLayout.ClampDim | src/main/java/io/github/dogla/toaster/ui/impl/ToastPopupImpl.java:528-532 | a non-negative maximum bounds the result, and a non-negative minimum does too unless it exceeds the maximum. A value within its bounds is unchanged, the maximum wins over a larger minimum, and the result is the value or one of the bounds |
| PopupLayout.ConstrainedSize | src/main/java/io/github/dogla/toaster/ui/impl/ToastPopupImpl.java:525-534 | width and height are each constrained independently by their own bounds |
| PopupLayout.ClampDimIsReference | src/main/java/de/dogla/toaster/ui/impl/ToastPopupImpl.java:409-418 | the constraint equals the clamp into [lo, hi] where absent bounds are ignored and the maximum takes precedence |
| PopupLayout.ConstrainedSizeIdempotent | src/main/java/io/github/dogla/toaster/ui/impl/ToastPopupImpl.java:525-534 | constraining twice is constraining once |
| PopupLayout.ConstrainedSizeKeepsFitting | src/main/java/de/dogla/toaster/ui/impl/ToastPopupImpl.java:409-418 | a size within its bounds is left unchanged |
| PopupLayout.InitialSize | src/main/java/io/github/dogla/toaster/ui/impl/ToastPopupImpl.java:498-513 | for any preferred-size function, constraining the initial size again changes nothing (where a maximum is below the minimum, the maximum wins) |
| PopupLayout.InitialSizeNegotiation | src/main/java/de/dogla/toaster/ui/impl/ToastPopupImpl.java:382-397 | a constrained width is kept; when only the height was constrained, that height is kept; a preferred size that fits is returned unchanged |
| PopupLayout.IconWidthCaps | src/main/java/io/github/dogla/toaster/ui/impl/ToastPopupImpl.java:367-381 | as written: the maximum icon width is at most the toast's maximum and at most maxWidth - 20, and for a sticky toast at most maxWidth - 50, taking one of those values; the minimum is cut to the maximum |
| PopupLayout.IconCapsUnboundedWidthFinding | src/main/java/io/github/dogla/toaster/ui/impl/ToastPopupImpl.java:369-371 | with an unbounded popup width (-1) the default icon bounds 64/64 become -21/-21 |
| PopupLayout.IconCapsUnboundedIconFinding | src/main/java/io/github/dogla/toaster/ui/impl/ToastPopupImpl.java:379-381 | with an unbounded maximum icon width (-1) the minimum icon width 64 is cut to -1 |
| PopupLayout.CorrectedIconWidthCaps | src/main/java/io/github/dogla/toaster/ui/impl/ToastPopupImpl.java:367-381 | an unbounded popup width leaves the icon maximum alone, and a bounded one caps it as written; the minimum is cut only to a maximum that exists |
| PopupLayout.CorrectedIconCapsKeepBounds | src/main/java/io/github/dogla/toaster/ui/impl/ToastPopupImpl.java:367-381 | with a bounded icon width and a popup wide enough for the margins, the corrected maximum stays in [0, toast maximum] and the minimum is cut to it; for a bounded popup width it agrees with the code as written |
| PopupLayout.CorrectedIconCapsOnFindingInputs | src/main/java/io/github/dogla/toaster/ui/impl/ToastPopupImpl.java:367-381 | on the inputs of both findings the corrected caps keep the toast's own bounds |
| PopupLayout.GetControls | src/main/java/io/github/dogla/toaster/ui/impl/ToastPopupImpl.java:584-595 | the loop over the children returns exactly the pre-order listing `Controls` |
| PopupLayout.ControlsSize | src/main/java/de/dogla/toaster/ui/impl/ToastPopupImpl.java:467-478 | the listing starts with the control itself and has one entry per node of the tree |
| PopupLayout.ControlsOfAllSize | src/main/java/de/dogla/toaster/ui/impl/ToastPopupImpl.java:473-475 | the children's listings together have one entry per node of the subtrees |
| PopupLayout.ControlsAreTree | src/main/java/de/dogla/toaster/ui/impl/ToastPopupImpl.java:467-478 | a control is in the listing iff it is the root or lies below one of its children |
| PopupLayout.ControlsOfAllAreTrees | src/main/java/de/dogla/toaster/ui/impl/ToastPopupImpl.java:473-475 | a control is in the children's listings iff it lies in one of the children's trees |
| ToastColors.NewToastColor | src/main/java/io/github/dogla/toaster/ToastColor.java:55-62 | a colour results iff every component is in 0..255, with exactly those components |
| ToastColors.ToString | src/main/java/io/github/dogla/toaster/ToastColor.java:144-147 | `toString` is `toHEX`: seven characters beginning with '#', which parse back to the colour |
| ToastColors.ToHexIsUpperCase | src/main/java/io/github/dogla/toaster/ToastColor.java:124 | the final upper-casing changes nothing, because the digits are already upper case |
| ToastColors.ToHex | src/main/java/io/github/dogla/toaster/ToastColor.java:123-125 | `toHEX` is '#' followed by six upper-case hex digits, two each for red, green and blue in that order: exactly what `%02X` wrote, the final upper-casing changing nothing |
| ToastColors.ToHexParses | src/main/java/io/github/dogla/toaster/ToastColor.java:123-125 | decoding the three digit pairs of `toHEX` gives back the colour |
| ToastColors.ParseHexIsToHex | src/main/java/io/github/dogla/toaster/ToastColor.java:123-125 | conversely, every string that parses is the `toHEX` of the colour it parses to |
| ToastColors.ToHexInjective | src/main/java/io/github/dogla/toaster/ToastColor.java:123-125 | two colours have the same hex form iff they are equal |
| ToastColors.Equals | src/main/java/io/github/dogla/toaster/ToastColor.java:127-137 | `equals` holds iff the other object is a colour with the same three components |
| ToastColors.BitOrDisjoint | src/main/java/io/github/dogla/toaster/ToastColor.java:141 | or-ing a value into the bits a shift left free is the same as adding it |
| ToastColors.HashCode | src/main/java/io/github/dogla/toaster/ToastColor.java:139-142 | the packed hash is red + 256·green + 65536·blue |
| ToastColors.PackingInjective | src/main/java/io/github/dogla/toaster/ToastColor.java:141 | three components in 0..255 are recovered from their packing |
| ToastColors.HashCodeInjective | src/main/java/io/github/dogla/toaster/ToastColor.java:139-142 | two colours have equal hash codes iff they are `equals` |
| ToastColors.RaiseToFloor | src/main/java/io/github/dogla/toaster/ToastColor.java:89-97 | a positive component below 3 is raised to 3, and any other component is kept |
| ToastColors.Brighter | src/main/java/io/github/dogla/toaster/ToastColor.java:75-100 | black becomes (3, 3, 3); any other colour has each component raised to the floor, scaled and capped at 255 |
| ToastColors.BrighterNeverDarkens | src/main/java/io/github/dogla/toaster/ToastColor.java:75-100 | for a scaling that never shrinks a component, `brighter` yields a colour no component of which is darker |
| ToasterUtils.MatchesBase64 | src/main/java/io/github/dogla/toaster/ToasterUtils.java:68 | the regular expression matched against the whole string: an accepted string has a length divisible by 4, and every character is in the alphabet except '=' in the last two places |
| ToasterUtils.MatchesBase64IsShape | src/main/java/io/github/dogla/toaster/ToasterUtils.java:68 | the regular expression's language equals a position-by-position description: both directions are proved |
| ToasterUtils.AcceptedStrings | src/main/java/io/github/dogla/toaster/ToasterUtils.java:68 | an accepted string has a length divisible by 4 and uses only the RFC 4648 section 4 alphabet and '='; a '=' appears only among the last two characters, with the last being '=' |
| ToasterUtils.EmptyIsAccepted | src/main/java/io/github/dogla/toaster/ToasterUtils.java:68 | the empty string passes the check |
| ToasterUtils.MatchExamples | src/main/java/io/github/dogla/toaster/ToasterUtils.java:68 | "TWFu", "TWE=" and "TQ==" pass, but "T===", "TW=u" and "TWF" do not |
| ToasterUtils.ToImage | src/main/java/io/github/dogla/toaster/ToasterUtils.java:56-80 | an image is returned unchanged, a descriptor yields the image it creates, and null or an unsupported value yield no image |
| ToasterUtils.StringIcon | src/main/java/io/github/dogla/toaster/ToasterUtils.java:64-75 | a string yields an image iff it passes the check and its decoding succeeds, and the image is then the decoded one; the decoder never sees a malformed string |
| ToastActions.ToastAction.GetBackgroundColor | src/main/java/de/dogla/toaster/ToastAction.java:45-50 | the action's own background colour when set, otherwise the default |
| ToastActions.ToastAction.GetBackgroundColorHovered | src/main/java/de/dogla/toaster/ToastAction.java:57-62 | the action's own hovered background colour when set, otherwise the default |
| ToastActions.ToastAction.GetForegroundColor | src/main/java/de/dogla/toaster/ToastAction.java:69-74 | the action's own foreground colour when set, otherwise the default |
| ToastActions.ToastAction.GetForegroundColorHovered | src/main/java/de/dogla/toaster/ToastAction.java:81-86 | the action's own hovered foreground colour when set, otherwise the default |
| ToastActions.GettersReadOwnFieldOnly | src/main/java/de/dogla/toaster/ToastAction.java:45-86 | each getter depends only on its own field and the default |
| ToastActions.FallbackLaws | src/main/java/de/dogla/toaster/ToastAction.java:45-86 | an own colour wins over any default. The result is null iff both the field and the default are null, and falling back twice is falling back once |

## Left out

- Threads: the hand-off to the UI thread (`syncExec`, `asyncExec`, `Display` marshalling in `close`) and the `synchronized` block are left out. Each registry method is treated as one atomic step. Toast worker threads and action executables run on new threads and are not modelled either.
- Real time: SWT's `timerExec` is a pending delay per handler (None when nothing is scheduled). The model says which run is due next, not when.
- Listener accumulation: each fade-in run attaches another pair of mouse listeners. The extra copies re-run the same idempotent effects, so hovering is modelled as one event of each kind.
- SWT's `Rectangle.intersects` is not shown. The model takes its four strict comparisons on half-open intervals: touching edges do not overlap, and, as there is no emptiness test, a zero-width rectangle strictly inside another does overlap it.
- Widget construction, layout, painting, fonts and colours are left out. The widget's preferred size (`computeSize`) is a function parameter of `PopupLayout.InitialSize`, and a popup's size is that of its request.
- Floating point: the icon scaling by a double factor and `darker` are not modelled.
- ToastColors.Brighter: the division by the factor 0.7 and its truncation are a parameter `scale`, so the contract states the structure of `brighter` (the floor, the cap, the black case) but not the scaled values.
- ToasterUtils.ToImage: base64 decoding and image creation are parameters. An exception in the decoder is a None from `fromBase64`, and the logging is left out.
- `inspectPopups` (which writes images to disk) and all logging are left out. The logged error for a missing rectangle is the `missing` result of `OnClosed`.
- The demo, the entry point, the `Toaster` holder, the toolkit and the UI thread are not part of this model.
- The `Toast` value classes are left out, apart from the timing defaults (`Fade.DefaultTiming`). A popup's timing attributes are fixed for its lifetime, because they have no setters.
- Java `int` overflow of screen coordinates and of the opacity arithmetic is not modelled; integers are unbounded. SWT's masking of alpha to 0..255 is not modelled either. A freshly created shell is taken to have alpha 255.
- ToastManagerModel.ToastManager.Toast: requires the request to be neither queued nor admitted. Both callers satisfy this: a fresh request, or the queue head just taken off the queue.
- ToastPopupImpl.ToastPopup.Close: closing an already disposed shell raises an SWT error in the toolkit; the model leaves the state unchanged instead. The same holds for `LegacyToastPopupImpl.LegacyToastPopup.Close`.
- Events that reach the shell before the first fade-in run attached the listeners, or after disposal, are modelled as no effect. This is also why the earlier mouse-exit listener needs no disposal check.
- `de.dogla.toaster.ToastColor` is not part of this model. The action colours use the colour type of `ToastColors`.
- The image, tooltip rendering and executable of an action are not modelled, apart from its text, tooltip and colour fields.

## Findings

| source | as written | input that shows it | evidently intended | confidence | as-written member | corrected member |
|---|---|---|---|---|---|---|
| src/main/java/io/github/dogla/toaster/ui/impl/ToastPopupImpl.java:369-371 | the maximum icon width is cut to `maxWidth - 20` even when `maxWidth` is negative, which means "no maximum" | maxIconWidth 64, minIconWidth 64, maxWidth -1, not sticky: the caps become -21 / -21, so the icon is neither bounded nor raised to its minimum | an unbounded popup width leaves the icon bounds as the toast gives them (64 / 64) | medium, not executed | PopupLayout.IconCapsUnboundedWidthFinding | PopupLayout.CorrectedIconWidthCaps |
| src/main/java/io/github/dogla/toaster/ui/impl/ToastPopupImpl.java:379-381 | the minimum icon width is cut to the maximum even when the maximum is -1, which means "no maximum" | maxIconWidth -1, minIconWidth 64, maxWidth 350, not sticky: the minimum becomes -1, so a small icon is never scaled up | the minimum is cut only to a maximum that exists (stays 64) | medium, not executed | PopupLayout.IconCapsUnboundedIconFinding | PopupLayout.CorrectedIconWidthCaps |
