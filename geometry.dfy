/**
 * Screen geometry of toast placement: the four corners, points and rectangles,
 * the anchor of a corner inside the popup area, and the one-pixel linear probe
 * along the vertical axis that finds the first free position for a popup.
 */
module Geometry {
  import opened Wrappers

  /** Where on the screen a toast is placed. */
  datatype Corner = TopLeft | TopRight | BottomLeft | BottomRight

  /** Bottom corners probe upwards (decreasing y), top corners downwards. */
  predicate IsBottom(c: Corner) {
    c == BottomLeft || c == BottomRight
  }

  predicate IsLeft(c: Corner) {
    c == TopLeft || c == BottomLeft
  }

  datatype Point = Point(x: int, y: int)

  datatype Rect = Rect(x: int, y: int, width: int, height: int)

  /**
   * Rectangle overlap, the four strict comparisons of SWT's formula on the
   * half-open intervals [x, x + width) and [y, y + height): rectangles that
   * only touch do not intersect. There is no test for emptiness, so a
   * zero-width rectangle lying strictly inside another does intersect it.
   */
  predicate Intersects(a: Rect, b: Rect) {
    && b.x < a.x + a.width && a.x < b.x + b.width
    && b.y < a.y + a.height && a.y < b.y + b.height
  }

  lemma IntersectsSymmetric(a: Rect, b: Rect)
    ensures Intersects(a, b) == Intersects(b, a)
  {
  }

  /** Touching edges do not overlap; a zero-width rectangle strictly inside another does. */
  lemma IntersectsEdgeCases()
    ensures !Intersects(Rect(0, 0, 10, 10), Rect(10, 0, 10, 10))
    ensures !Intersects(Rect(0, 0, 10, 10), Rect(0, 10, 10, 10))
    ensures Intersects(Rect(5, 0, 0, 10), Rect(3, 0, 4, 10))
  {
  }

  /** The rectangle a popup of size (w, h) covers when placed at p. */
  function At(p: Point, w: int, h: int): (r: Rect)
    ensures r.x == p.x && r.y == p.y && r.width == w && r.height == h
  {
    Rect(p.x, p.y, w, h)
  }

  /** True when the candidate rectangle overlaps a rectangle already occupied. */
  predicate Forbidden(occupied: set<Rect>, p: Point, w: int, h: int) {
    exists r :: r in occupied && Intersects(r, At(p, w, h))
  }

  /** No two distinct rectangles of the set overlap. */
  ghost predicate PairwiseDisjoint(rects: set<Rect>) {
    forall a, b :: a in rects && b in rects && a != b ==> !Intersects(a, b)
  }

  /** Smallest y a popup may take inside `area`. */
  function MinY(area: Rect): int {
    area.y
  }

  /** Largest y a popup of height h may take inside `area`. */
  function MaxY(area: Rect, h: int): (r: int)
    ensures r + h == area.y + area.height
  {
    area.y + area.height - h
  }

  /**
   * The anchor of a corner: the position at which a popup of size (w, h) sits
   * flush against the two screen edges that meet in that corner.
   */
  function Anchor(c: Corner, area: Rect, w: int, h: int): (p: Point)
    ensures IsLeft(c) ==> p.x == area.x
    ensures !IsLeft(c) ==> p.x + w == area.x + area.width
    ensures IsBottom(c) ==> p.y + h == area.y + area.height
    ensures !IsBottom(c) ==> p.y == area.y
  {
    var minX := area.x;
    var minY := MinY(area);
    var maxX := area.x + area.width - w;
    var maxY := MaxY(area, h);
    match c
    case BottomLeft => Point(minX, maxY)
    case BottomRight => Point(maxX, maxY)
    case TopLeft => Point(minX, minY)
    case TopRight => Point(maxX, minY)
  }

  /** The probe's next candidate: one pixel up for bottom corners, one down for top corners. */
  function NextCandidate(c: Corner, p: Point, minY: int, maxY: int): (r: Option<Point>)
    ensures r.Some? ==> r.value.x == p.x
    ensures IsBottom(c) ==> (r.Some? <==> p.y - 1 >= minY) && (r.Some? ==> r.value.y == p.y - 1)
    ensures !IsBottom(c) ==> (r.Some? <==> p.y + 1 <= maxY) && (r.Some? ==> r.value.y == p.y + 1)
  {
    if IsBottom(c) then
      var newY := p.y - 1;
      if newY < minY then None else Some(Point(p.x, newY))
    else
      var newY := p.y + 1;
      if newY > maxY then None else Some(Point(p.x, newY))
  }

  /** How many more candidates the probe may visit; it strictly decreases at every step. */
  function Budget(c: Corner, o: Option<Point>, minY: int, maxY: int): nat {
    match o
    case None => 0
    case Some(p) =>
      if IsBottom(c) then
        1 + (if p.y >= minY then p.y - minY else 0)
      else
        1 + (if p.y <= maxY then maxY - p.y else 0)
  }

  lemma NextCandidateDecreases(c: Corner, p: Point, minY: int, maxY: int)
    ensures Budget(c, NextCandidate(c, p, minY, maxY), minY, maxY) < Budget(c, Some(p), minY, maxY)
  {
  }

  /**
   * The probe: starting at p, the first candidate along the scan direction
   * whose rectangle overlaps nothing in `occupied`, or None once the candidate
   * would leave [minY, maxY]. Only the given set is consulted.
   */
  function Search(c: Corner, p: Point, w: int, h: int, minY: int, maxY: int, occupied: set<Rect>): (r: Option<Point>)
    ensures r.Some? ==> r.value.x == p.x && !Forbidden(occupied, r.value, w, h)
    ensures occupied == {} ==> r == Some(p)
    decreases Budget(c, Some(p), minY, maxY)
  {
    if !Forbidden(occupied, p, w, h) then Some(p)
    else
      var next := NextCandidate(c, p, minY, maxY);
      NextCandidateDecreases(c, p, minY, maxY);
      if next.None? then None else Search(c, next.value, w, h, minY, maxY, occupied)
  }

  /** The probe continued from an optional candidate (None: the probe already gave up). */
  function SearchFrom(c: Corner, o: Option<Point>, w: int, h: int, minY: int, maxY: int, occupied: set<Rect>): Option<Point> {
    if o.None? then None else Search(c, o.value, w, h, minY, maxY, occupied)
  }

  /**
   * Free-position lookup for a popup of size (w, h) in corner c of `area`: a
   * position flush with the corner's vertical edge, free, and inside the area
   * vertically unless it is the anchor itself; None exactly when the anchor
   * and every height inside the area are taken.
   */
  function FindFreePosition(c: Corner, w: int, h: int, area: Rect, occupied: set<Rect>): (r: Option<Point>)
    ensures r.Some? ==> (IsLeft(c) ==> r.value.x == area.x) && (!IsLeft(c) ==> r.value.x + w == area.x + area.width)
    ensures r.Some? ==> !Forbidden(occupied, r.value, w, h)
    ensures r.Some? ==> r.value == Anchor(c, area, w, h) || area.y <= r.value.y <= area.y + area.height - h
    ensures r.None? <==>
      && Forbidden(occupied, Anchor(c, area, w, h), w, h)
      && forall y :: area.y <= y <= area.y + area.height - h ==> Forbidden(occupied, Point(Anchor(c, area, w, h).x, y), w, h)
    ensures occupied == {} ==> r == Some(Anchor(c, area, w, h))
  {
    var anchor := Anchor(c, area, w, h);
    SearchFindsFirstFree(c, anchor, w, h, MinY(area), MaxY(area, h), occupied);
    SearchNoneMeansFull(c, anchor, w, h, MinY(area), MaxY(area, h), occupied);
    Search(c, anchor, w, h, MinY(area), MaxY(area, h), occupied)
  }

  /**
   * What the probe returns: a bottom corner's result lies at or above the
   * start and, unless it is the start itself, not above minY; a top corner's
   * result lies at or below the start and not below maxY. Every candidate the
   * probe passed over is forbidden, so the result is the first free one.
   */
  lemma {:induction false} SearchFindsFirstFree(c: Corner, p: Point, w: int, h: int, minY: int, maxY: int, occupied: set<Rect>)
    ensures var r := Search(c, p, w, h, minY, maxY, occupied);
      r.Some? ==>
        && (IsBottom(c) ==> r.value.y <= p.y && (r.value == p || r.value.y >= minY))
        && (!IsBottom(c) ==> r.value.y >= p.y && (r.value == p || r.value.y <= maxY))
        && (IsBottom(c) ==> forall y :: r.value.y < y <= p.y ==> Forbidden(occupied, Point(p.x, y), w, h))
        && (!IsBottom(c) ==> forall y :: p.y <= y < r.value.y ==> Forbidden(occupied, Point(p.x, y), w, h))
    decreases Budget(c, Some(p), minY, maxY)
  {
    if Forbidden(occupied, p, w, h) {
      var next := NextCandidate(c, p, minY, maxY);
      NextCandidateDecreases(c, p, minY, maxY);
      if next.Some? {
        SearchFindsFirstFree(c, next.value, w, h, minY, maxY, occupied);
      }
    }
  }

  /**
   * Conversely, a free position within the bounds, with every position between
   * the start and it forbidden, is exactly what the probe returns.
   */
  lemma {:induction false} SearchReturnsFirstFree(c: Corner, p: Point, w: int, h: int, minY: int, maxY: int, occupied: set<Rect>, q: Point)
    requires q.x == p.x && !Forbidden(occupied, q, w, h)
    requires IsBottom(c) ==> minY <= q.y <= p.y && forall y :: q.y < y <= p.y ==> Forbidden(occupied, Point(p.x, y), w, h)
    requires !IsBottom(c) ==> p.y <= q.y <= maxY && forall y :: p.y <= y < q.y ==> Forbidden(occupied, Point(p.x, y), w, h)
    ensures Search(c, p, w, h, minY, maxY, occupied) == Some(q)
    decreases if IsBottom(c) then p.y - q.y else q.y - p.y
  {
    if p.y == q.y {
      assert p == q;
    } else {
      assert Forbidden(occupied, Point(p.x, p.y), w, h);
      var next := NextCandidate(c, p, minY, maxY);
      SearchReturnsFirstFree(c, next.value, w, h, minY, maxY, occupied, q);
    }
  }

  /**
   * The probe gives up only when the start and every candidate up to the
   * bound of the scan direction are forbidden.
   */
  lemma {:induction false} SearchNoneMeansFull(c: Corner, p: Point, w: int, h: int, minY: int, maxY: int, occupied: set<Rect>)
    ensures Search(c, p, w, h, minY, maxY, occupied).None? <==>
      && Forbidden(occupied, p, w, h)
      && (IsBottom(c) ==> forall y :: minY <= y <= p.y ==> Forbidden(occupied, Point(p.x, y), w, h))
      && (!IsBottom(c) ==> forall y :: p.y <= y <= maxY ==> Forbidden(occupied, Point(p.x, y), w, h))
    decreases Budget(c, Some(p), minY, maxY)
  {
    if Forbidden(occupied, p, w, h) {
      var next := NextCandidate(c, p, minY, maxY);
      NextCandidateDecreases(c, p, minY, maxY);
      if next.Some? {
        SearchNoneMeansFull(c, next.value, w, h, minY, maxY, occupied);
      }
    }
  }

  /** Adding a rectangle found free by the probe keeps a pairwise-disjoint set pairwise disjoint. */
  lemma AddFreeKeepsDisjoint(occupied: set<Rect>, p: Point, w: int, h: int)
    requires PairwiseDisjoint(occupied)
    requires !Forbidden(occupied, p, w, h)
    ensures PairwiseDisjoint(occupied + {At(p, w, h)})
  {
    var n := At(p, w, h);
    forall a, b | a in occupied + {n} && b in occupied + {n} && a != b
      ensures !Intersects(a, b)
    {
      if a == n {
        assert !Intersects(b, n);
      } else if b == n {
        assert !Intersects(a, n);
      }
    }
  }

  /** Reference scenario: area (0, 0, 1000, 800), bottom-right corner, popups of 300 x 100. */
  const ScenarioArea := Rect(0, 0, 1000, 800)

  /** The k-th popup of a flush-packed bottom-right stack (k = 0 is lowest). */
  function Stacked(k: int): Rect {
    Rect(700, 700 - 100 * k, 300, 100)
  }

  /**
   * The first toast lands on the anchor (700, 700); the second, with only the
   * first occupied, lands at (700, 600), one full height above; a ninth toast
   * finds all eight flush slots taken and gets no position.
   */
  lemma StackingScenario()
    ensures FindFreePosition(BottomRight, 300, 100, ScenarioArea, {}) == Some(Point(700, 700))
    ensures FindFreePosition(BottomRight, 300, 100, ScenarioArea, {Stacked(0)}) == Some(Point(700, 600))
    ensures FindFreePosition(BottomRight, 300, 100, ScenarioArea, set k | 0 <= k < 8 :: Stacked(k)) == None
  {
    assert Anchor(BottomRight, ScenarioArea, 300, 100) == Point(700, 700);
    SecondToastScenario();
    NinthToastScenario();
  }

  /** The second toast of the scenario: the anchor is taken, the first free position is one height up. */
  lemma SecondToastScenario()
    ensures Search(BottomRight, Point(700, 700), 300, 100, 0, 700, {Stacked(0)}) == Some(Point(700, 600))
  {
    var one := {Stacked(0)};
    forall y | 600 < y <= 700
      ensures Forbidden(one, Point(700, y), 300, 100)
    {
      assert Intersects(Stacked(0), At(Point(700, y), 300, 100));
    }
    assert !Forbidden(one, Point(700, 600), 300, 100);
    SearchReturnsFirstFree(BottomRight, Point(700, 700), 300, 100, 0, 700, one, Point(700, 600));
  }

  /** The ninth toast of the scenario: every position from the anchor up to the top overlaps one of the eight. */
  lemma NinthToastScenario()
    ensures Search(BottomRight, Point(700, 700), 300, 100, 0, 700, set k | 0 <= k < 8 :: Stacked(k)) == None
  {
    var eight := set k | 0 <= k < 8 :: Stacked(k);
    forall y | 0 <= y <= 700
      ensures Forbidden(eight, Point(700, y), 300, 100)
    {
      var k := (799 - y) / 100;
      assert 0 <= k < 8;
      assert Stacked(k) in eight;
      assert Intersects(Stacked(k), At(Point(700, y), 300, 100));
    }
    SearchNoneMeansFull(BottomRight, Point(700, 700), 300, 100, 0, 700, eight);
  }
}
