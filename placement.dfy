/** Where setup() of pinentry-dmenu.c puts the bar: the INTERSECT macro, the
    choice of Xinerama screen (override, then the screen the focused
    top-level window overlaps, then the screen under the pointer) and the
    final x, y and width. The X queries are inputs: the screens Xinerama
    reports (none when it is inactive), the focused top-level window's
    rectangle when there is one and its attributes could be read, the
    pointer position when XQueryPointer succeeds, and the embedding
    window's size when its attributes could be read. */
module Placement {

  datatype Option<T> = None | Some(value: T)

  /** A screen or window: origin and size in pixels. */
  datatype Rect = Rect(x: int, y: int, width: int, height: int)

  datatype Point = Point(x: int, y: int)

  /** The bar window's origin and width. */
  datatype Geometry = Geometry(x: int, y: int, mw: int)

  /** The outcome of setup()'s geometry block. */
  datatype SetupResult =
    | Placed(geometry: Geometry)
    | DiedNoAttributes    // die("could not get embedding window attributes")
    | PastLastScreen      // info[n] is read: undefined behaviour

  function Max(a: int, b: int): int { if a < b then b else a }
  function Min(a: int, b: int): int { if a < b then a else b }

  /** One axis of INTERSECT: the length of the overlap of [lo, lo + len)
      and [rlo, rlo + rlen), or 0. */
  function Overlap(lo: int, len: int, rlo: int, rlen: int): (d: int)
    ensures d >= 0
    ensures d > 0 <==> 0 < len && 0 < rlen && lo < rlo + rlen && rlo < lo + len
  {
    Max(0, Min(lo + len, rlo + rlen) - Max(lo, rlo))
  }

  /** INTERSECT(x, y, w, h, r) as written: the two overlaps joined with
      `&&`, so the value is 1 or 0, never an area. */
  function Intersect(x: int, y: int, w: int, h: int, r: Rect): (a: int)
    ensures a == 0 || a == 1
    ensures a == 1 <==>
      (0 < w && 0 < h && 0 < r.width && 0 < r.height &&
       x < r.x + r.width && r.x < x + w && y < r.y + r.height && r.y < y + h)
  {
    if Overlap(x, w, r.x, r.width) != 0 && Overlap(y, h, r.y, r.height) != 0 then 1 else 0
  }

  /** The half-open rectangle holds the point. */
  predicate Contains(r: Rect, p: Point) {
    r.x <= p.x < r.x + r.width && r.y <= p.y < r.y + r.height
  }

  /** The pointer test INTERSECT(x, y, 1, 1, info[i]) is containment. */
  lemma PointerIntersect(p: Point, r: Rect)
    ensures Intersect(p.x, p.y, 1, 1, r) == 1 <==> Contains(r, p)
  {
  }

  predicate Overlaps(f: Rect, r: Rect) {
    Intersect(f.x, f.y, f.width, f.height, r) == 1
  }

  /** The first screen from `j` on that the window overlaps, or |screens|. */
  function FirstOverlap(f: Rect, screens: seq<Rect>, j: nat): (k: nat)
    requires j <= |screens|
    ensures j <= k <= |screens|
    ensures forall i :: j <= i < k ==> !Overlaps(f, screens[i])
    ensures k < |screens| ==> Overlaps(f, screens[k])
    decreases |screens| - j
  {
    if j == |screens| then j
    else if Overlaps(f, screens[j]) then j
    else FirstOverlap(f, screens, j + 1)
  }

  /** The first screen from `j` on that holds the point, or |screens|. */
  function FirstContaining(p: Point, screens: seq<Rect>, j: nat): (k: nat)
    requires j <= |screens|
    ensures j <= k <= |screens|
    ensures forall i :: j <= i < k ==> !Contains(screens[i], p)
    ensures k < |screens| ==> Contains(screens[k], p)
    decreases |screens| - j
  {
    if j == |screens| then j
    else if Intersect(p.x, p.y, 1, 1, screens[j]) == 1 then j
    else FirstContaining(p, screens, j + 1)
  }

  /** Some screen overlaps the focused window. */
  predicate FocusOnScreen(screens: seq<Rect>, focus: Option<Rect>) {
    focus.Some? && exists k :: 0 <= k < |screens| && Overlaps(focus.value, screens[k])
  }

  /** The screen index setup() ends with, as written. */
  function ChosenMonitor(mon: int, screens: seq<Rect>, focus: Option<Rect>, pointer: Option<Point>): (i: int)
    requires |screens| > 0
    ensures 0 <= i <= |screens|
    ensures 0 <= mon < |screens| ==> i == mon
    ensures !(0 <= mon < |screens|) && FocusOnScreen(screens, focus) ==>
      i < |screens| && Overlaps(focus.value, screens[i]) &&
      forall k :: 0 <= k < i ==> !Overlaps(focus.value, screens[k])
    ensures mon < 0 && !FocusOnScreen(screens, focus) && pointer.Some? ==>
      (forall k :: 0 <= k < i ==> !Contains(screens[k], pointer.value)) &&
      (i < |screens| ==> Contains(screens[i], pointer.value))
    ensures i == |screens| ==>
      (mon < 0 && !FocusOnScreen(screens, focus) && pointer.Some? &&
       forall k :: 0 <= k < |screens| ==> !Contains(screens[k], pointer.value))
    ensures !(0 <= mon < |screens|) && (mon >= |screens| || pointer.None?) && !FocusOnScreen(screens, focus) ==> i == 0
  {
    var n := |screens|;
    if 0 <= mon < n then mon
    else
      var first := if focus.Some? then FirstOverlap(focus.value, screens, 0) else n;
      if first < n then first
      else if mon < 0 && pointer.Some? then FirstContaining(pointer.value, screens, 0)
      else 0
  }

  /** The screen-choice loops of setup(): the override, then the loop over
      the screens looking for the largest INTERSECT with the focused window,
      then the pointer loop, which may run off the end. */
  method SelectMonitor(mon: int, screens: seq<Rect>, focus: Option<Rect>, pointer: Option<Point>)
    returns (i: int)
    requires |screens| > 0
    ensures i == ChosenMonitor(mon, screens, focus, pointer)
  {
    var n := |screens|;
    var area := 0;
    i := 0;
    if 0 <= mon < n {
      i := mon;
    } else if focus.Some? {
      var f := focus.value;
      var j := 0;
      while j < n
        invariant 0 <= j <= n && (area == 0 || area == 1)
        invariant area == 0 ==> i == 0 && FirstOverlap(f, screens, 0) == FirstOverlap(f, screens, j)
        invariant area == 1 ==> i == FirstOverlap(f, screens, 0) && i < j
      {
        var a := Intersect(f.x, f.y, f.width, f.height, screens[j]);
        if a > area {
          area := a;
          i := j;
        }
        j := j + 1;
      }
    }
    if mon < 0 && area == 0 && pointer.Some? {
      var p := pointer.value;
      i := 0;
      while i < n && Intersect(p.x, p.y, 1, 1, screens[i]) == 0
        invariant 0 <= i <= n
        invariant FirstContaining(p, screens, 0) == FirstContaining(p, screens, i)
      {
        i := i + 1;
      }
    }
  }

  /** The bar on a screen (or on the embedding window): it starts at the
      left edge, spans the full width and sits on the top or bottom edge. */
  function Bar(r: Rect, topbar: bool, mh: int): (g: Geometry)
    ensures g.x == r.x && g.mw == r.width
    ensures topbar ==> g.y == r.y
    ensures !topbar ==> g.y + mh == r.y + r.height
  {
    Geometry(r.x, r.y + (if topbar then 0 else r.height - mh), r.width)
  }

  /** A bar no taller than the screen lies inside it. */
  lemma BarInsideScreen(r: Rect, topbar: bool, mh: int)
    requires 0 <= mh <= r.height
    ensures var g := Bar(r, topbar, mh);
      r.x == g.x && g.x + g.mw == r.x + r.width && r.y <= g.y && g.y + mh <= r.y + r.height
  {
  }

  /** setup()'s geometry: the Xinerama path when the bar's parent is the
      root window and Xinerama reports screens, the embedding window's size
      otherwise. */
  function Setup(parentIsRoot: bool, screens: seq<Rect>, mon: int, focus: Option<Rect>,
                 pointer: Option<Point>, parent: Option<Rect>, topbar: bool, mh: int): (p: SetupResult)
    ensures parentIsRoot && |screens| > 0 ==>
      var i := ChosenMonitor(mon, screens, focus, pointer);
      (i < |screens| ==> p == Placed(Bar(screens[i], topbar, mh))) &&
      (i == |screens| <==> p == PastLastScreen)
    ensures !(parentIsRoot && |screens| > 0) ==>
      (p == DiedNoAttributes <==> parent.None?) &&
      (parent.Some? ==> p == Placed(Bar(Rect(0, 0, parent.value.width, parent.value.height), topbar, mh)))
  {
    if parentIsRoot && |screens| > 0 then
      var i := ChosenMonitor(mon, screens, focus, pointer);
      if i < |screens| then Placed(Bar(screens[i], topbar, mh)) else PastLastScreen
    else if parent.None? then DiedNoAttributes
    else
      var w := parent.value;
      Placed(Geometry(0, if topbar then 0 else w.height - mh, w.width))
  }

  /** The pointer fallback runs off the end: two screens side by side, the
      second shorter, and the pointer in the gap below the second one. */
  lemma PointerOffScreens()
    ensures var screens := [Rect(0, 0, 1920, 1080), Rect(1920, 0, 1280, 1024)];
      ChosenMonitor(-1, screens, None, Some(Point(2000, 1050))) == 2 &&
      Setup(true, screens, -1, None, Some(Point(2000, 1050)), None, true, 20) == PastLastScreen
  {
    var screens := [Rect(0, 0, 1920, 1080), Rect(1920, 0, 1280, 1024)];
    var p := Point(2000, 1050);
    assert !Contains(screens[0], p) && !Contains(screens[1], p);
    assert FirstContaining(p, screens, 0) == 2;
  }

  /** The overlap area the comment at the focus loop means, the product of
      the two overlaps, as in dmenu's INTERSECT. */
  function Area(f: Rect, r: Rect): (a: int)
    ensures a >= 0
    ensures a > 0 <==> Overlaps(f, r)
  {
    Overlap(f.x, f.width, r.x, r.width) * Overlap(f.y, f.height, r.y, r.height)
  }

  /** The focused window straddles two screens, with twice as much of it on
      the second; as written the first is chosen. */
  lemma FirstOverlapNotLargest()
    ensures var screens := [Rect(0, 0, 1000, 800), Rect(1000, 0, 1000, 800)];
      var f := Rect(900, 100, 300, 300);
      ChosenMonitor(-1, screens, Some(f), None) == 0 &&
      Area(f, screens[0]) == 30000 && Area(f, screens[1]) == 60000
  {
    var screens := [Rect(0, 0, 1000, 800), Rect(1000, 0, 1000, 800)];
    var f := Rect(900, 100, 300, 300);
    assert FirstOverlap(f, screens, 0) == 0 by {
      assert Overlaps(f, screens[0]);
    }
    assert Area(f, screens[0]) == 30000 by {
      assert Overlap(900, 300, 0, 1000) == 100;
      assert Overlap(100, 300, 0, 800) == 300;
    }
    assert Area(f, screens[1]) == 60000 by {
      assert Overlap(900, 300, 1000, 1000) == 200;
      assert Overlap(100, 300, 0, 800) == 300;
    }
  }

  /** The evidently intended choice: a valid override; else the screen
      with the largest overlap area with the focused window, the first one
      on ties; else (with no override) the first screen holding the
      pointer; else screen 0. Always an index of a screen. */
  predicate IntendedChoice(mon: int, screens: seq<Rect>, focus: Option<Rect>, pointer: Option<Point>, i: int) {
    0 <= i < |screens| &&
    if 0 <= mon < |screens| then i == mon
    else if FocusOnScreen(screens, focus) then
      (forall k :: 0 <= k < |screens| ==> Area(focus.value, screens[k]) <= Area(focus.value, screens[i])) &&
      (forall k :: 0 <= k < i ==> Area(focus.value, screens[k]) < Area(focus.value, screens[i]))
    else if mon < 0 && pointer.Some? && exists k :: 0 <= k < |screens| && Contains(screens[k], pointer.value) then
      Contains(screens[i], pointer.value) && forall k :: 0 <= k < i ==> !Contains(screens[k], pointer.value)
    else i == 0
  }

  /** setup()'s screen choice with the area product and a fallback to
      screen 0 when no screen holds the pointer. */
  method SelectMonitorCorrected(mon: int, screens: seq<Rect>, focus: Option<Rect>, pointer: Option<Point>)
    returns (i: int)
    requires |screens| > 0
    ensures IntendedChoice(mon, screens, focus, pointer, i)
  {
    var n := |screens|;
    var area := 0;
    i := 0;
    if 0 <= mon < n {
      i := mon;
      return;
    } else if focus.Some? {
      var f := focus.value;
      var j := 0;
      while j < n
        invariant 0 <= j <= n && 0 <= i < n && area >= 0
        invariant area == 0 ==> i == 0 && forall k :: 0 <= k < j ==> !Overlaps(f, screens[k])
        invariant area > 0 ==> i < j && area == Area(f, screens[i])
        invariant forall k :: 0 <= k < j ==> Area(f, screens[k]) <= area
        invariant forall k :: 0 <= k < i ==> Area(f, screens[k]) < area
      {
        var a := Area(f, screens[j]);
        if a > area {
          area := a;
          i := j;
        }
        j := j + 1;
      }
      if area > 0 {
        return;
      }
    }
    if mon < 0 && pointer.Some? {
      var p := pointer.value;
      i := 0;
      while i < n && !Contains(screens[i], p)
        invariant 0 <= i <= n
        invariant forall k :: 0 <= k < i ==> !Contains(screens[k], p)
      {
        i := i + 1;
      }
      if i == n {
        i := 0;
      }
    }
  }

  /** With the intended choice, the straddling window goes to the second
      screen and the pointer in the gap falls back to the first. */
  lemma IntendedChoiceExamples(i: int, j: int)
    requires IntendedChoice(-1, [Rect(0, 0, 1000, 800), Rect(1000, 0, 1000, 800)],
                            Some(Rect(900, 100, 300, 300)), None, i)
    requires IntendedChoice(-1, [Rect(0, 0, 1920, 1080), Rect(1920, 0, 1280, 1024)],
                            None, Some(Point(2000, 1050)), j)
    ensures i == 1 && j == 0
  {
    var f := Rect(900, 100, 300, 300);
    var a := [Rect(0, 0, 1000, 800), Rect(1000, 0, 1000, 800)];
    assert Overlaps(f, a[0]);
    assert Area(f, a[0]) == 30000 && Area(f, a[1]) == 60000;
    var b := [Rect(0, 0, 1920, 1080), Rect(1920, 0, 1280, 1024)];
    assert !Contains(b[0], Point(2000, 1050)) && !Contains(b[1], Point(2000, 1050));
  }
}
