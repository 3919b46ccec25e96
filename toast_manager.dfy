/**
 * The toast scheduler: a registry of occupied rectangles per corner, the list
 * of visible popups and the deque of pending requests, with admission of a
 * request, queueing when no position is free, and release plus a retry of the
 * queue head when a popup closes. Each method is one atomic step, as the
 * single lock around the registry makes it in the program.
 */
module ToastManagerModel {
  import opened Wrappers
  import opened Geometry

  /** The popup as the manager sees it: a measured size, its popup area and a location. */
  class Popup {
    const width: int
    const height: int
    const area: Rect
    var location: Point

    constructor (width: int, height: int, area: Rect)
      ensures this.width == width && this.height == height && this.area == area
    {
      this.width := width;
      this.height := height;
      this.area := area;
      location := Point(area.x, area.y);
    }

    /** Relocates the popup. */
    method SetLocation(x: int, y: int)
      modifies this
      ensures location == Point(x, y)
    {
      location := Point(x, y);
    }
  }

  /**
   * A request to show one toast: the toast's corner, the monitor area taken
   * when it was submitted, and the size at which the toolkit lays its popup out.
   * The popup is created lazily, at most once.
   */
  class ToastRequest {
    const corner: Corner
    const area: Rect
    const width: int
    const height: int
    var popup: Option<Popup>

    constructor (corner: Corner, area: Rect, width: int, height: int)
      ensures this.corner == corner && this.area == area
      ensures this.width == width && this.height == height
      ensures popup == None
    {
      this.corner := corner;
      this.area := area;
      this.width := width;
      this.height := height;
      popup := None;
    }

    /** The objects this request may hand to a caller for modification. */
    function Footprint(): set<object>
      reads this
    {
      if popup.Some? then {popup.value} else {}
    }

    /**
     * Returns the popup of this request, creating it on the first call only;
     * every later call returns that same popup.
     */
    method GetOrCreatePopup() returns (p: Popup)
      modifies this
      ensures old(popup).Some? ==> p == old(popup).value
      ensures old(popup).None? ==> fresh(p) && p.width == width && p.height == height && p.area == area
      ensures popup == Some(p)
    {
      if popup.None? {
        var created := new Popup(width, height, area);
        popup := Some(created);
      }
      p := popup.value;
    }
  }

  /** What the close callback of an admitted popup captured: the popup, its corner and its rectangle. */
  datatype CloseHook = CloseHook(popup: Popup, corner: Corner, rect: Rect)

  /** The index of the first occurrence of x in s. */
  function FirstIndex<T(==)>(s: seq<T>, x: T): (i: nat)
    requires x in s
    ensures i < |s| && s[i] == x
    ensures forall k :: 0 <= k < i ==> s[k] != x
  {
    if s[0] == x then 0 else FirstIndex(s[1..], x) + 1
  }

  /**
   * The sequence without its first occurrence of x, the others kept in order
   * (Java's `Collection.remove(Object)`).
   */
  function RemoveFirst<T(==)>(s: seq<T>, x: T): (r: seq<T>)
    ensures x !in s ==> r == s
    ensures x in s ==> r == s[..FirstIndex(s, x)] + s[FirstIndex(s, x) + 1..]
    ensures x in s ==> |r| == |s| - 1
    ensures |s| > 0 && s[0] == x ==> r == s[1..]
    ensures forall y :: y in r ==> y in s
  {
    if s == [] then []
    else if s[0] == x then
      DeleteAtKeeps(s, 0);
      s[1..]
    else
      var rest := RemoveFirst(s[1..], x);
      if x in s[1..] then
        DeleteAtCons(s, FirstIndex(s[1..], x));
        DeleteAtKeeps(s, FirstIndex(s, x));
        [s[0]] + rest
      else
        assert s == [s[0]] + s[1..];
        [s[0]] + rest
  }

  /** Deleting position i leaves one element fewer, all taken from s. */
  lemma DeleteAtKeeps<T>(s: seq<T>, i: nat)
    requires i < |s|
    ensures |s[..i] + s[i + 1..]| == |s| - 1
    ensures forall y :: y in s[..i] + s[i + 1..] ==> y in s
  {
    forall y | y in s[..i] + s[i + 1..]
      ensures y in s
    {
      var k :| 0 <= k < |s| - 1 && (s[..i] + s[i + 1..])[k] == y;
      if k < i {
        assert s[k] == y;
      } else {
        assert s[k + 1] == y;
      }
    }
  }

  /** Deleting position j of the tail is deleting position j + 1 of the whole. */
  lemma DeleteAtCons<T>(s: seq<T>, j: nat)
    requires j < |s| - 1
    ensures [s[0]] + (s[1..][..j] + s[1..][j + 1..]) == s[..j + 1] + s[j + 2..]
  {
    assert s[..j + 1] == [s[0]] + s[1..][..j];
    assert s[j + 2..] == s[1..][j + 1..];
  }

  /** No element occurs twice. */
  ghost predicate Distinct<T>(s: seq<T>) {
    forall i, j :: 0 <= i < j < |s| ==> s[i] != s[j]
  }

  class ToastManager {
    /** Occupied rectangles per corner. */
    var visibleToasts: map<Corner, set<Rect>>
    /** Popups currently shown, in the order they were admitted. */
    var visiblePopups: seq<Popup>
    /** Requests waiting for a free position, head first. */
    var pendingToasts: seq<ToastRequest>
    /** Every request that has been admitted so far. */
    ghost var admitted: set<ToastRequest>

    /**
     * The scheduler's invariant: within one corner no two rectangles overlap,
     * no request is queued twice, and no queued request has been admitted.
     */
    ghost predicate Valid()
      reads this
    {
      && (forall c :: c in visibleToasts ==> PairwiseDisjoint(visibleToasts[c]))
      && Distinct(pendingToasts)
      && (forall r :: r in pendingToasts ==> r !in admitted)
    }

    /** The rectangles registered for corner c (none when the corner has no set yet). */
    function Rects(c: Corner): set<Rect>
      reads this
    {
      if c in visibleToasts then visibleToasts[c] else {}
    }

    constructor ()
      ensures Valid()
      ensures visibleToasts == map[] && visiblePopups == [] && pendingToasts == []
      ensures admitted == {}
    {
      visibleToasts := map[];
      visiblePopups := [];
      pendingToasts := [];
      admitted := {};
    }

    /** True exactly when the candidate rectangle at p overlaps a rectangle registered for corner c. */
    method IsForbidden(c: Corner, p: Point, width: int, height: int) returns (b: bool)
      ensures b == Forbidden(Rects(c), p, width, height)
    {
      if c in visibleToasts && visibleToasts[c] != {} {
        var forbiddenAreas := visibleToasts[c];
        var todo := forbiddenAreas;
        while todo != {}
          invariant todo <= forbiddenAreas
          invariant forall r :: r in forbiddenAreas && r !in todo ==> !Intersects(r, At(p, width, height))
          decreases todo
        {
          var r :| r in todo;
          if Intersects(r, At(p, width, height)) {
            return true;
          }
          todo := todo - {r};
        }
      }
      return false;
    }

    /** The one-pixel probe from `location`; its result is the `Search` of the corner's rectangles. */
    method SearchPosition(location: Point, width: int, height: int, minY: int, maxY: int, c: Corner)
      returns (result: Option<Point>)
      ensures result == Search(c, location, width, height, minY, maxY, Rects(c))
    {
      result := Some(location);
      while result.Some?
        invariant SearchFrom(c, result, width, height, minY, maxY, Rects(c))
               == Search(c, location, width, height, minY, maxY, Rects(c))
        decreases Budget(c, result, minY, maxY)
      {
        var forbidden := IsForbidden(c, result.value, width, height);
        if !forbidden {
          break;
        }
        NextCandidateDecreases(c, result.value, minY, maxY);
        result := NextCandidate(c, result.value, minY, maxY);
      }
    }

    /** The free position for popup p in corner c, or None when the corner is full. */
    method ComputeLocation(c: Corner, p: Popup) returns (position: Option<Point>)
      ensures position == FindFreePosition(c, p.width, p.height, p.area, Rects(c))
    {
      var anchor := Anchor(c, p.area, p.width, p.height);
      position := SearchPosition(anchor, p.width, p.height, MinY(p.area), MaxY(p.area, p.height), c);
    }

    /**
     * Handles request r; `isPending` says it comes from the queue. A fresh
     * request that finds others waiting goes to the tail. Otherwise the popup
     * is placed: on success its rectangle joins its corner's set, the popup
     * joins the visible list and the hook to call on close is returned; on
     * failure a fresh request goes to the tail and a pending one to the head.
     */
    method Toast(r: ToastRequest, isPending: bool) returns (hook: Option<CloseHook>)
      requires Valid()
      requires r !in admitted && r !in pendingToasts
      modifies this, r, r.Footprint()
      ensures Valid()
      ensures !isPending && old(pendingToasts) != [] ==>
        && hook == None
        && pendingToasts == old(pendingToasts) + [r]
        && visibleToasts == old(visibleToasts) && visiblePopups == old(visiblePopups)
        && admitted == old(admitted) && r.popup == old(r.popup)
      ensures isPending || old(pendingToasts) == [] ==>
        && r.popup.Some?
        && (old(r.popup).Some? ==> r.popup == old(r.popup))
        && (old(r.popup).None? ==>
              && fresh(r.popup.value) && r.popup.value.width == r.width
              && r.popup.value.height == r.height && r.popup.value.area == r.area)
        && var p := r.popup.value;
           var pos := FindFreePosition(r.corner, p.width, p.height, p.area, old(Rects(r.corner)));
           && (pos.Some? ==>
                 && hook == Some(CloseHook(p, r.corner, At(pos.value, p.width, p.height)))
                 && p.location == pos.value
                 && visibleToasts == old(visibleToasts)[r.corner := old(Rects(r.corner)) + {At(pos.value, p.width, p.height)}]
                 && visiblePopups == old(visiblePopups) + [p]
                 && pendingToasts == old(pendingToasts)
                 && admitted == old(admitted) + {r})
           && (pos.None? ==>
                 && hook == None
                 && (old(r.popup).Some? ==> p.location == old(r.popup.value.location))
                 && visibleToasts == old(visibleToasts) && visiblePopups == old(visiblePopups)
                 && pendingToasts == (if isPending then [r] + old(pendingToasts) else old(pendingToasts) + [r])
                 && admitted == old(admitted))
    {
      if !isPending && pendingToasts != [] {
        pendingToasts := pendingToasts + [r];
        return None;
      }
      var p := r.GetOrCreatePopup();
      var c := r.corner;
      var position := ComputeLocation(c, p);
      if position.Some? {
        var pos := position.value;
        p.SetLocation(pos.x, pos.y);
        var rectangle := At(pos, p.width, p.height);
        AddFreeKeepsDisjoint(Rects(c), pos, p.width, p.height);
        visibleToasts := visibleToasts[c := Rects(c) + {rectangle}];
        if isPending {
          pendingToasts := RemoveFirst(pendingToasts, r);
        }
        visiblePopups := visiblePopups + [p];
        admitted := admitted + {r};
        hook := Some(CloseHook(p, c, rectangle));
      } else if !isPending {
        pendingToasts := pendingToasts + [r];
        hook := None;
      } else {
        pendingToasts := [r] + pendingToasts;
        hook := None;
      }
    }

    /**
     * Submission of a new toast: a fresh request for the given corner, monitor
     * area and popup size, handled as a non-pending request.
     */
    method Submit(c: Corner, area: Rect, width: int, height: int) returns (r: ToastRequest, hook: Option<CloseHook>)
      requires Valid()
      modifies this
      ensures Valid()
      ensures fresh(r) && r.corner == c && r.area == area && r.width == width && r.height == height
      ensures old(pendingToasts) != [] ==>
        && hook == None && r.popup == None
        && pendingToasts == old(pendingToasts) + [r]
        && visibleToasts == old(visibleToasts) && visiblePopups == old(visiblePopups)
        && admitted == old(admitted)
      ensures old(pendingToasts) == [] ==>
        && r.popup.Some? && fresh(r.popup.value)
        && r.popup.value.width == width && r.popup.value.height == height && r.popup.value.area == area
        && var p := r.popup.value;
           var pos := FindFreePosition(c, width, height, area, old(Rects(c)));
           && (pos.Some? ==>
                 && hook == Some(CloseHook(p, c, At(pos.value, width, height)))
                 && p.location == pos.value
                 && visibleToasts == old(visibleToasts)[c := old(Rects(c)) + {At(pos.value, width, height)}]
                 && visiblePopups == old(visiblePopups) + [p]
                 && pendingToasts == old(pendingToasts)
                 && admitted == old(admitted) + {r})
           && (pos.None? ==>
                 && hook == None && pendingToasts == old(pendingToasts) + [r]
                 && visibleToasts == old(visibleToasts) && visiblePopups == old(visiblePopups)
                 && admitted == old(admitted))
    {
      r := new ToastRequest(c, area, width, height);
      hook := Toast(r, false);
    }

    /**
     * The close callback of an admitted popup: the popup leaves the visible
     * list and its rectangle leaves its corner's set (`missing` reports the
     * logged error when the rectangle was not there). Then only the queue head
     * is tried: when it fits it is taken off the queue and admitted as a
     * pending request, otherwise the queue stays as it is.
     */
    method OnClosed(h: CloseHook) returns (missing: bool, next: Option<CloseHook>)
      requires Valid()
      modifies this, if pendingToasts != [] then {pendingToasts[0]} + pendingToasts[0].Footprint() else {}
      ensures Valid()
      ensures h.corner !in old(visibleToasts) ==>
        && !missing && next == None
        && visiblePopups == RemoveFirst(old(visiblePopups), h.popup)
        && visibleToasts == old(visibleToasts) && pendingToasts == old(pendingToasts)
        && admitted == old(admitted)
      ensures h.corner in old(visibleToasts) ==>
        && missing == (h.rect !in old(visibleToasts)[h.corner])
        && var released := old(visibleToasts)[h.corner := old(visibleToasts)[h.corner] - {h.rect}];
           var remaining := RemoveFirst(old(visiblePopups), h.popup);
           && (old(pendingToasts) == [] ==>
                 next == None && visibleToasts == released && visiblePopups == remaining
                 && pendingToasts == [] && admitted == old(admitted))
           && (old(pendingToasts) != [] ==>
                 var head := old(pendingToasts)[0];
                 && head.popup.Some?
                 && (old(head.popup).Some? ==> head.popup == old(head.popup))
                 && (old(head.popup).None? ==>
                       && fresh(head.popup.value) && head.popup.value.width == head.width
                       && head.popup.value.height == head.height && head.popup.value.area == head.area)
                 && var p := head.popup.value;
                    var pos := FindFreePosition(head.corner, p.width, p.height, p.area,
                                                if head.corner in released then released[head.corner] else {});
                    && (pos.Some? ==>
                          && next == Some(CloseHook(p, head.corner, At(pos.value, p.width, p.height)))
                          && p.location == pos.value
                          && pendingToasts == old(pendingToasts)[1..]
                          && visibleToasts == released[head.corner := (if head.corner in released then released[head.corner] else {})
                                                                      + {At(pos.value, p.width, p.height)}]
                          && visiblePopups == remaining + [p]
                          && admitted == old(admitted) + {head})
                    && (pos.None? ==>
                          && next == None && pendingToasts == old(pendingToasts)
                          && (old(head.popup).Some? ==> p.location == old(head.popup.value.location))
                          && visibleToasts == released && visiblePopups == remaining
                          && admitted == old(admitted)))
    {
      missing, next := false, None;
      visiblePopups := RemoveFirst(visiblePopups, h.popup);
      if h.corner in visibleToasts {
        var occupied := visibleToasts[h.corner];
        missing := h.rect !in occupied;
        visibleToasts := visibleToasts[h.corner := occupied - {h.rect}];
        if pendingToasts != [] {
          var head := pendingToasts[0];
          var p := head.GetOrCreatePopup();
          var position := ComputeLocation(head.corner, p);
          if position.Some? {
            pendingToasts := RemoveFirst(pendingToasts, head);
            assert head !in pendingToasts by {
              assert pendingToasts == old(pendingToasts)[1..];
            }
            next := Toast(head, true);
          }
        }
      }
    }

    /** True exactly when nothing is queued and every corner's set is empty. */
    method IsEmpty() returns (b: bool)
      ensures b <==> pendingToasts == [] && forall c :: c in visibleToasts ==> visibleToasts[c] == {}
    {
      if pendingToasts != [] {
        return false;
      }
      var keys := visibleToasts.Keys;
      while keys != {}
        invariant keys <= visibleToasts.Keys
        invariant forall c :: c in visibleToasts && c !in keys ==> visibleToasts[c] == {}
        decreases keys
      {
        var c :| c in keys;
        if visibleToasts[c] != {} {
          return false;
        }
        keys := keys - {c};
      }
      return true;
    }

    /** A fresh array holding the visible popups in order. */
    method GetVisiblePopups() returns (a: array<Popup>)
      ensures fresh(a) && a[..] == visiblePopups
    {
      a := new Popup[|visiblePopups|](i requires 0 <= i < |visiblePopups| reads this => visiblePopups[i]);
    }
  }
}
