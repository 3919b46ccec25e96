/**
 * The integer layout rules of a toast popup: the size constraint with its
 * "negative bound means unbounded" convention, the initial size negotiation
 * against the widget's preferred size, the icon width caps, and the pre-order
 * listing of a control tree that the fade-in handler attaches mouse listeners to.
 */
module PopupLayout {

  datatype Size = Size(x: int, y: int)

  /** A toast's size bounds; a negative bound is no bound. */
  datatype Bounds = Bounds(minWidth: int, minHeight: int, maxWidth: int, maxHeight: int)

  function Max(a: int, b: int): int {
    if a >= b then a else b
  }

  function Min(a: int, b: int): int {
    if a <= b then a else b
  }

  /**
   * One dimension of the constraint: first raised to `lo`, then lowered to
   * `hi`, each only when that bound is non-negative.
   */
  function ClampDim(v: int, lo: int, hi: int): (r: int)
    ensures hi >= 0 ==> r <= hi
    ensures lo >= 0 && (hi < 0 || lo <= hi) ==> r >= lo
    ensures (lo < 0 || lo <= v) && (hi < 0 || v <= hi) ==> r == v
    ensures 0 <= hi < lo ==> r == hi
    ensures r == v || r == lo || r == hi
  {
    var raised := Max(v, if lo >= 0 then lo else v);
    Min(raised, if hi >= 0 then hi else raised)
  }

  /** The size bounds applied to both dimensions independently. */
  function ConstrainedSize(s: Size, b: Bounds): (r: Size)
    ensures r.x == ClampDim(s.x, b.minWidth, b.maxWidth)
    ensures r.y == ClampDim(s.y, b.minHeight, b.maxHeight)
  {
    Size(ClampDim(s.x, b.minWidth, b.maxWidth), ClampDim(s.y, b.minHeight, b.maxHeight))
  }

  /** The textbook clamp of v into [lo, hi] with absent bounds and the upper bound taking precedence. */
  function ClampReference(v: int, lo: int, hi: int): int {
    if hi >= 0 && (v > hi || (lo >= 0 && lo > hi)) then hi
    else if lo >= 0 && v < lo then lo
    else v
  }

  lemma ClampDimIsReference(v: int, lo: int, hi: int)
    ensures ClampDim(v, lo, hi) == ClampReference(v, lo, hi)
  {
  }

  /** Constraining twice changes nothing more than constraining once. */
  lemma ConstrainedSizeIdempotent(s: Size, b: Bounds)
    ensures ConstrainedSize(ConstrainedSize(s, b), b) == ConstrainedSize(s, b)
  {
  }

  /** A size inside its bounds is left as it is. */
  lemma ConstrainedSizeKeepsFitting(s: Size, b: Bounds)
    requires b.minWidth < 0 || b.minWidth <= s.x
    requires b.maxWidth < 0 || s.x <= b.maxWidth
    requires b.minHeight < 0 || b.minHeight <= s.y
    requires b.maxHeight < 0 || s.y <= b.maxHeight
    ensures ConstrainedSize(s, b) == s
  {
  }

  /** `SWT.DEFAULT`: no hint for that dimension. */
  const Default := -1

  /**
   * `getInitialSize`: the widget's preferred size (a function of the width and
   * height hints, `Default` for none) is constrained; when the constraint
   * changed the width, the height is recomputed for the constrained width,
   * else when it changed the height, the width is recomputed for the
   * constrained height, and the result is constrained again.
   */
  function InitialSize(computeSize: (int, int) -> Size, b: Bounds): (r: Size)
    ensures ConstrainedSize(r, b) == r
  {
    var preferred := computeSize(Default, Default);
    var constrained := ConstrainedSize(preferred, b);
    ConstrainedSizeIdempotent(preferred, b);
    if constrained.x != preferred.x then
      var adjusted := preferred.(y := computeSize(constrained.x, Default).y);
      ConstrainedSizeIdempotent(adjusted, b);
      ConstrainedSize(adjusted, b)
    else if constrained.y != preferred.y then
      var adjusted := preferred.(x := computeSize(Default, constrained.y).x);
      ConstrainedSizeIdempotent(adjusted, b);
      ConstrainedSize(adjusted, b)
    else constrained
  }

  /**
   * The negotiation keeps the constrained width whenever the constraint
   * changed the width, keeps the constrained height whenever it changed only
   * the height, and returns the preferred size itself when that already fits.
   */
  lemma InitialSizeNegotiation(computeSize: (int, int) -> Size, b: Bounds)
    ensures var preferred := computeSize(Default, Default);
      var constrained := ConstrainedSize(preferred, b);
      && (constrained.x != preferred.x ==> InitialSize(computeSize, b).x == constrained.x)
      && (constrained.x == preferred.x && constrained.y != preferred.y ==> InitialSize(computeSize, b).y == constrained.y)
      && (constrained == preferred ==> InitialSize(computeSize, b) == preferred)
  {
  }

  /** Space reserved beside the icon: `closeButtonIconSize` (10) plus five margins of 8. */
  const CloseButtonMargins := 10 + 8 * 5

  /** The effective icon width bounds: the maximum, then the minimum. */
  datatype IconWidths = IconWidths(maxIconWidth: int, minIconWidth: int)

  /**
   * The icon width caps of `updateIcon` as written: the toast's maximum icon
   * width is cut to the popup's maximum width less 20, and for a sticky toast
   * (which shows a close button) to the maximum width less the close-button
   * margins; the minimum icon width is cut to that maximum. The popup's
   * maximum width is used even when it is negative, that is unbounded.
   */
  function IconWidthCaps(maxIconWidth: int, minIconWidth: int, maxWidth: int, sticky: bool): (r: IconWidths)
    ensures r.maxIconWidth <= maxIconWidth && r.maxIconWidth <= maxWidth - 20
    ensures sticky ==> r.maxIconWidth <= maxWidth - CloseButtonMargins
    ensures r.maxIconWidth == maxIconWidth || r.maxIconWidth == maxWidth - 20
         || (sticky && r.maxIconWidth == maxWidth - CloseButtonMargins)
    ensures r.minIconWidth == Min(minIconWidth, r.maxIconWidth)
  {
    var cappedMax := if maxIconWidth > maxWidth - 20 then maxWidth - 20 else maxIconWidth;
    var stickyMax := if sticky && cappedMax > maxWidth - CloseButtonMargins then maxWidth - CloseButtonMargins else cappedMax;
    var cappedMin := if minIconWidth > stickyMax then stickyMax else minIconWidth;
    IconWidths(stickyMax, cappedMin)
  }

  /**
   * With an unbounded popup width (-1) the bounded default icon width of 64
   * becomes -21, which the scaling code reads as "no maximum": an icon of any
   * width is no longer scaled down, and the minimum icon width is lost too.
   */
  lemma IconCapsUnboundedWidthFinding()
    ensures IconWidthCaps(64, 64, -1, false) == IconWidths(-21, -21)
  {
  }

  /**
   * With an unbounded icon width (-1) the minimum icon width is cut to -1, so
   * a small icon is never scaled up to the minimum.
   */
  lemma IconCapsUnboundedIconFinding()
    ensures IconWidthCaps(-1, 64, 350, false) == IconWidths(-1, -1)
  {
  }

  /**
   * The icon width caps as evidently intended: a negative bound is no bound,
   * both for the popup's maximum width and for the maximum icon width.
   */
  function CorrectedIconWidthCaps(maxIconWidth: int, minIconWidth: int, maxWidth: int, sticky: bool): (r: IconWidths)
    ensures maxWidth < 0 ==> r.maxIconWidth == maxIconWidth
    ensures maxWidth >= 0 ==> r.maxIconWidth == IconWidthCaps(maxIconWidth, minIconWidth, maxWidth, sticky).maxIconWidth
    ensures r.maxIconWidth < 0 ==> r.minIconWidth == minIconWidth
    ensures r.maxIconWidth >= 0 ==> r.minIconWidth == Min(minIconWidth, r.maxIconWidth)
  {
    var capped := if maxWidth < 0 then maxIconWidth else IconWidthCaps(maxIconWidth, minIconWidth, maxWidth, sticky).maxIconWidth;
    IconWidths(capped, if capped >= 0 && minIconWidth > capped then capped else minIconWidth)
  }

  /**
   * The corrected caps never turn a bounded icon width into an unbounded one
   * while the popup is wide enough for the margins, and never drop a minimum
   * icon width for being above an absent maximum.
   */
  lemma CorrectedIconCapsKeepBounds(maxIconWidth: int, minIconWidth: int, maxWidth: int, sticky: bool)
    requires maxIconWidth >= 0
    requires maxWidth < 0 || maxWidth >= CloseButtonMargins
    ensures var r := CorrectedIconWidthCaps(maxIconWidth, minIconWidth, maxWidth, sticky);
      && 0 <= r.maxIconWidth <= maxIconWidth
      && r.minIconWidth == Min(minIconWidth, r.maxIconWidth)
      && (maxWidth >= 0 ==> r == IconWidthCaps(maxIconWidth, minIconWidth, maxWidth, sticky))
  {
  }

  /** On the two inputs of the findings the corrected caps keep the toast's own bounds. */
  lemma CorrectedIconCapsOnFindingInputs()
    ensures CorrectedIconWidthCaps(64, 64, -1, false) == IconWidths(64, 64)
    ensures CorrectedIconWidthCaps(-1, 64, 350, false) == IconWidths(-1, 64)
  {
  }

  /** A control of the popup: a plain control, or a composite with child controls in order. */
  datatype Control = Leaf(id: int) | Composite(id: int, children: seq<Control>)

  /** The control and all child controls, in pre-order. */
  function Controls(c: Control): seq<Control>
    decreases c, 1
  {
    [c] + if c.Composite? then ControlsOfAll(c.children) else []
  }

  /** The pre-order listings of a sequence of sibling controls, concatenated. */
  function ControlsOfAll(cs: seq<Control>): seq<Control>
    decreases cs, 0
  {
    if cs == [] then [] else Controls(cs[0]) + ControlsOfAll(cs[1..])
  }

  lemma ControlsOfAllAppend(cs: seq<Control>, c: Control)
    ensures ControlsOfAll(cs + [c]) == ControlsOfAll(cs) + Controls(c)
    decreases |cs|
  {
    if cs != [] {
      assert (cs + [c])[1..] == cs[1..] + [c];
      ControlsOfAllAppend(cs[1..], c);
    }
  }

  /** `getControls`: the control, then, child by child, all controls below that child. */
  method GetControls(c: Control) returns (result: seq<Control>)
    ensures result == Controls(c)
    decreases c
  {
    result := [c];
    if c.Composite? {
      var children := c.children;
      for i := 0 to |children|
        invariant result == [c] + ControlsOfAll(children[..i])
      {
        var sub := GetControls(children[i]);
        ControlsOfAllAppend(children[..i], children[i]);
        assert children[..i + 1] == children[..i] + [children[i]];
        result := result + sub;
      }
      assert children[..|children|] == children;
    }
  }

  /** The tree relation: x is c or lies below one of c's children. */
  ghost predicate InTree(x: Control, c: Control)
    decreases c
  {
    x == c || (c.Composite? && exists i :: 0 <= i < |c.children| && InTree(x, c.children[i]))
  }

  /** The number of controls in a tree. */
  function TreeSize(c: Control): nat
    decreases c, 1
  {
    1 + if c.Composite? then TreeSizeOfAll(c.children) else 0
  }

  function TreeSizeOfAll(cs: seq<Control>): nat
    decreases cs, 0
  {
    if cs == [] then 0 else TreeSize(cs[0]) + TreeSizeOfAll(cs[1..])
  }

  /** The listing starts with the control itself and lists every control of the tree once per occurrence. */
  lemma {:induction false} ControlsSize(c: Control)
    ensures |Controls(c)| == TreeSize(c)
    ensures Controls(c)[0] == c
    decreases c, 1
  {
    if c.Composite? {
      ControlsOfAllSize(c.children);
    }
  }

  lemma {:induction false} ControlsOfAllSize(cs: seq<Control>)
    ensures |ControlsOfAll(cs)| == TreeSizeOfAll(cs)
    decreases cs, 0
  {
    if cs != [] {
      ControlsSize(cs[0]);
      ControlsOfAllSize(cs[1..]);
    }
  }

  /** The listing holds exactly the controls of the tree. */
  lemma {:induction false} ControlsAreTree(c: Control, x: Control)
    ensures x in Controls(c) <==> InTree(x, c)
    decreases c, 1
  {
    if c.Composite? {
      ControlsOfAllAreTrees(c.children, x);
    }
  }

  lemma {:induction false} ControlsOfAllAreTrees(cs: seq<Control>, x: Control)
    ensures x in ControlsOfAll(cs) <==> exists i :: 0 <= i < |cs| && InTree(x, cs[i])
    decreases cs, 0
  {
    if cs != [] {
      ControlsAreTree(cs[0], x);
      ControlsOfAllAreTrees(cs[1..], x);
      if x in ControlsOfAll(cs[1..]) {
        var i :| 0 <= i < |cs[1..]| && InTree(x, cs[1..][i]);
        assert InTree(x, cs[i + 1]);
      }
      if exists i :: 0 <= i < |cs| && InTree(x, cs[i]) {
        var i :| 0 <= i < |cs| && InTree(x, cs[i]);
        if i > 0 {
          assert InTree(x, cs[1..][i - 1]);
        }
      }
    }
  }
}
