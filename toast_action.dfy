/**
 * An action button of a toast and its colour getters, each of which falls
 * back to a caller-supplied default when the action has no colour of its own.
 */
module ToastActions {
  import opened Wrappers
  import opened ToastColors

  /** The action's label, tooltip and optional colours (None: not specified, Java's null). */
  datatype ToastAction = ToastAction(
    text: Option<string>,
    tooltip: Option<string>,
    backgroundColor: Option<ToastColor>,
    foregroundColor: Option<ToastColor>,
    backgroundColorHovered: Option<ToastColor>,
    foregroundColorHovered: Option<ToastColor>)
  {
    /** The action's own background colour if it has one, else the default. */
    function GetBackgroundColor(defaultColor: Option<ToastColor>): (r: Option<ToastColor>)
      ensures backgroundColor.Some? ==> r == backgroundColor
      ensures backgroundColor.None? ==> r == defaultColor
    {
      backgroundColor.OrElse(defaultColor)
    }

    /** The action's own hovered background colour if it has one, else the default. */
    function GetBackgroundColorHovered(defaultColor: Option<ToastColor>): (r: Option<ToastColor>)
      ensures backgroundColorHovered.Some? ==> r == backgroundColorHovered
      ensures backgroundColorHovered.None? ==> r == defaultColor
    {
      backgroundColorHovered.OrElse(defaultColor)
    }

    /** The action's own foreground colour if it has one, else the default. */
    function GetForegroundColor(defaultColor: Option<ToastColor>): (r: Option<ToastColor>)
      ensures foregroundColor.Some? ==> r == foregroundColor
      ensures foregroundColor.None? ==> r == defaultColor
    {
      foregroundColor.OrElse(defaultColor)
    }

    /** The action's own hovered foreground colour if it has one, else the default. */
    function GetForegroundColorHovered(defaultColor: Option<ToastColor>): (r: Option<ToastColor>)
      ensures foregroundColorHovered.Some? ==> r == foregroundColorHovered
      ensures foregroundColorHovered.None? ==> r == defaultColor
    {
      foregroundColorHovered.OrElse(defaultColor)
    }
  }

  /**
   * Each getter depends on its own field and the default alone: two actions
   * that agree on that field give the same answer, whatever their other fields.
   */
  lemma GettersReadOwnFieldOnly(a: ToastAction, b: ToastAction, d: Option<ToastColor>)
    ensures a.backgroundColor == b.backgroundColor ==> a.GetBackgroundColor(d) == b.GetBackgroundColor(d)
    ensures a.backgroundColorHovered == b.backgroundColorHovered ==> a.GetBackgroundColorHovered(d) == b.GetBackgroundColorHovered(d)
    ensures a.foregroundColor == b.foregroundColor ==> a.GetForegroundColor(d) == b.GetForegroundColor(d)
    ensures a.foregroundColorHovered == b.foregroundColorHovered ==> a.GetForegroundColorHovered(d) == b.GetForegroundColorHovered(d)
  {
  }

  /**
   * An explicit colour always wins over the default, a missing one always
   * yields the default, and falling back twice is falling back once.
   */
  lemma FallbackLaws(a: ToastAction, d1: Option<ToastColor>, d2: Option<ToastColor>)
    ensures a.backgroundColor.Some? ==> a.GetBackgroundColor(d1) == a.GetBackgroundColor(d2)
    ensures a.GetBackgroundColor(a.GetBackgroundColor(d1)) == a.GetBackgroundColor(d1)
    ensures a.GetBackgroundColor(d1).None? <==> a.backgroundColor.None? && d1.None?
    ensures a.GetForegroundColor(a.GetForegroundColor(d1)) == a.GetForegroundColor(d1)
    ensures a.GetBackgroundColorHovered(a.GetBackgroundColorHovered(d1)) == a.GetBackgroundColorHovered(d1)
    ensures a.GetForegroundColorHovered(a.GetForegroundColorHovered(d1)) == a.GetForegroundColorHovered(d1)
  {
  }
}
