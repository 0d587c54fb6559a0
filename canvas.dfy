/** The integer logic of the projection canvas: ordering the four projected
    corner markers into a quadrilateral, the clamped camera threshold and the
    keyboard state (debug overlay and threshold direction). */
module Canvas {

  const DEBUG_NONE := 0
  const DEBUG_CAMERA := 1
  const DEBUG_THRESHOLD := 2
  const DEBUG_MAX := 3

  datatype Point = Point(x: int, y: int)

  // ---------------------------------------------------------------------------
  // Corner ordering
  // ---------------------------------------------------------------------------

  /** triangle_area: twice the signed area of the triangle abc, the cross
      product of the edge vectors ab and ac. */
  function TriangleArea(a: Point, b: Point, c: Point): (r: int)
    ensures r == (b.x - a.x) * (c.y - a.y) - (b.y - a.y) * (c.x - a.x)
  {
    a.x * b.y - a.y * b.x + b.x * c.y - b.y * c.x + c.x * a.y - c.y * a.x
  }

  /** Rotating the corners keeps the area; exchanging two of them negates it. */
  lemma AreaSymmetries(a: Point, b: Point, c: Point)
    ensures TriangleArea(b, c, a) == TriangleArea(a, b, c)
    ensures TriangleArea(c, a, b) == TriangleArea(a, b, c)
    ensures TriangleArea(b, a, c) == -TriangleArea(a, b, c)
    ensures TriangleArea(a, c, b) == -TriangleArea(a, b, c)
    ensures TriangleArea(c, b, a) == -TriangleArea(a, b, c)
  {
  }

  /** The list with entries i and j exchanged (a tuple swap in the source). */
  function Swap(q: seq<Point>, i: nat, j: nat): (r: seq<Point>)
    requires i < |q| && j < |q|
    ensures |r| == |q| && multiset(r) == multiset(q)
  {
    q[i := q[j]][j := q[i]]
  }

  /** The case table of update_tracking, given the areas abc of (0,1,2), acd
      of (0,2,3) and abd of (0,1,3): at most one swap. */
  function SwapBySigns(q: seq<Point>, abc: int, acd: int, abd: int): (r: seq<Point>)
    requires |q| == 4
    ensures |r| == 4 && multiset(r) == multiset(q)
    ensures r == q || exists i, j :: 0 <= i < j < 4 && r == Swap(q, i, j)
  {
    if abc < 0 then
      if acd >= 0 then
        if abd < 0 then Swap(q, 2, 3) else Swap(q, 0, 3)
      else q
    else if acd < 0 then
      if abd < 0 then Swap(q, 1, 2) else Swap(q, 0, 1)
    else Swap(q, 0, 2)
  }

  /** The reordering of update_tracking: the corners as a permutation of the
      markers, at most one pair exchanged. */
  function OrderCorners(q: seq<Point>): (r: seq<Point>)
    requires |q| == 4
    ensures |r| == 4 && multiset(r) == multiset(q)
    ensures r == q || exists i, j :: 0 <= i < j < 4 && r == Swap(q, i, j)
  {
    SwapBySigns(q, TriangleArea(q[0], q[1], q[2]), TriangleArea(q[0], q[2], q[3]), TriangleArea(q[0], q[1], q[3]))
  }

  /** No three of the four points are collinear. */
  predicate GeneralPosition(q: seq<Point>)
    requires |q| == 4
  {
    TriangleArea(q[0], q[1], q[2]) != 0 && TriangleArea(q[0], q[1], q[3]) != 0 &&
    TriangleArea(q[0], q[2], q[3]) != 0 && TriangleArea(q[1], q[2], q[3]) != 0
  }

  /** Of the quadrilateral a b c d, one diagonal has both its triangles of
      negative area: a c (triangles abc and acd) or b d (abd and bcd).  The
      other two corners then lie strictly on opposite sides of that diagonal,
      which for points in general position means the edges do not cross. */
  predicate NegativeDiagonal(a: Point, b: Point, c: Point, d: Point)
  {
    (TriangleArea(a, b, c) < 0 && TriangleArea(a, c, d) < 0) ||
    (TriangleArea(a, b, d) < 0 && TriangleArea(b, c, d) < 0)
  }

  /** The case analysis of OrderCorners, one swap at a time: the swap chosen
      from the signs of abc, acd and abd yields a negative diagonal. */
  lemma SwapGivesNegativeDiagonal(q: seq<Point>)
    requires |q| == 4 && GeneralPosition(q)
    ensures var abc, acd, abd := TriangleArea(q[0], q[1], q[2]), TriangleArea(q[0], q[2], q[3]), TriangleArea(q[0], q[1], q[3]);
            (abc < 0 && acd < 0 ==> NegativeDiagonal(q[0], q[1], q[2], q[3])) &&
            (abc < 0 && acd >= 0 && abd < 0 ==> NegativeDiagonal(q[0], q[1], q[3], q[2])) &&
            (abc < 0 && acd >= 0 && abd >= 0 ==> NegativeDiagonal(q[3], q[1], q[2], q[0])) &&
            (abc >= 0 && acd < 0 && abd < 0 ==> NegativeDiagonal(q[0], q[2], q[1], q[3])) &&
            (abc >= 0 && acd < 0 && abd >= 0 ==> NegativeDiagonal(q[1], q[0], q[2], q[3])) &&
            (abc >= 0 && acd >= 0 ==> NegativeDiagonal(q[2], q[1], q[0], q[3]))
  {
    AreaSymmetries(q[0], q[1], q[2]);
    AreaSymmetries(q[0], q[2], q[3]);
    AreaSymmetries(q[0], q[1], q[3]);
  }

  /** The corners OrderCorners puts first to last, by the signs of abc, acd
      and abd. */
  lemma OrderCornersPicks(q: seq<Point>)
    requires |q| == 4
    ensures var abc, acd, abd := TriangleArea(q[0], q[1], q[2]), TriangleArea(q[0], q[2], q[3]), TriangleArea(q[0], q[1], q[3]);
            var r := OrderCorners(q);
            (abc < 0 && acd < 0 ==> r[0] == q[0] && r[1] == q[1] && r[2] == q[2] && r[3] == q[3]) &&
            (abc < 0 && acd >= 0 && abd < 0 ==> r[0] == q[0] && r[1] == q[1] && r[2] == q[3] && r[3] == q[2]) &&
            (abc < 0 && acd >= 0 && abd >= 0 ==> r[0] == q[3] && r[1] == q[1] && r[2] == q[2] && r[3] == q[0]) &&
            (abc >= 0 && acd < 0 && abd < 0 ==> r[0] == q[0] && r[1] == q[2] && r[2] == q[1] && r[3] == q[3]) &&
            (abc >= 0 && acd < 0 && abd >= 0 ==> r[0] == q[1] && r[1] == q[0] && r[2] == q[2] && r[3] == q[3]) &&
            (abc >= 0 && acd >= 0 ==> r[0] == q[2] && r[1] == q[1] && r[2] == q[0] && r[3] == q[3])
  {
  }

  /** Whatever order the four markers arrive in, in general position the
      reordered corners bound a quadrilateral whose edges do not cross, and
      both triangles on the separating diagonal have negative area. */
  lemma OrderCornersUncrossed(q: seq<Point>)
    requires |q| == 4 && GeneralPosition(q)
    ensures var r := OrderCorners(q);
            NegativeDiagonal(r[0], r[1], r[2], r[3])
  {
    SwapGivesNegativeDiagonal(q);
    OrderCornersPicks(q);
  }

  // ---------------------------------------------------------------------------
  // Threshold and keyboard state
  // ---------------------------------------------------------------------------

  /** update_input's threshold step: add the direction, then clamp to a byte. */
  function ClampThreshold(threshold: int, dthreshold: int): (r: int)
    ensures 0 <= r <= 255
    ensures 0 <= threshold + dthreshold <= 255 ==> r == threshold + dthreshold
    ensures threshold + dthreshold < 0 ==> r == 0
    ensures threshold + dthreshold > 255 ==> r == 255
  {
    var t := threshold + dthreshold;
    var t' := if t < 255 then t else 255;
    if t' > 0 then t' else 0
  }

  /** The 'd' key: the next debug overlay, wrapping to none after the last. */
  function NextDebugMode(mode: int): (r: int)
    ensures 0 <= mode < DEBUG_MAX ==> r == (mode + 1) % DEBUG_MAX
  {
    var m := mode + 1;
    if m >= DEBUG_MAX then 0 else m
  }

  datatype Key = KeyD | KeyPlus | KeyEquals | KeyMinus | KeyUnderscore | KeyEscape | OtherKey(code: int)

  datatype Event = Quit | KeyDown(key: Key) | KeyUp(key: Key) | OtherEvent

  /** Whether the event ends the main loop. */
  predicate Stops(e: Event)
  {
    e == Quit || e == KeyDown(KeyEscape)
  }

  predicate IsThresholdKey(k: Key)
  {
    k == KeyPlus || k == KeyEquals || k == KeyMinus || k == KeyUnderscore
  }

  /** The debug mode after one event. */
  function DebugStep(mode: int, e: Event): (r: int)
    ensures 0 <= mode < DEBUG_MAX ==> 0 <= r < DEBUG_MAX
    ensures e != KeyDown(KeyD) ==> r == mode
  {
    if e == KeyDown(KeyD) then NextDebugMode(mode) else mode
  }

  /** The threshold direction after one event: +1 while + or = is held, -1
      while - or _ is held, 0 once any of them is released. */
  function DThresholdStep(d: int, e: Event): (r: int)
    ensures -1 <= d <= 1 ==> -1 <= r <= 1
    ensures e == KeyDown(KeyPlus) || e == KeyDown(KeyEquals) ==> r == 1
    ensures e == KeyDown(KeyMinus) || e == KeyDown(KeyUnderscore) ==> r == -1
    ensures e.KeyUp? && IsThresholdKey(e.key) ==> r == 0
    ensures !((e.KeyDown? || e.KeyUp?) && IsThresholdKey(e.key)) ==> r == d
  {
    match e
    case KeyDown(k) =>
      if k == KeyPlus || k == KeyEquals then 1
      else if k == KeyMinus || k == KeyUnderscore then -1
      else d
    case KeyUp(k) => if IsThresholdKey(k) then 0 else d
    case _ => d
  }

  /** The debug mode after a batch of events, in order. */
  function DebugModeAfter(mode: int, events: seq<Event>): (r: int)
    ensures 0 <= mode < DEBUG_MAX ==> 0 <= r < DEBUG_MAX
  {
    if events == [] then mode
    else DebugStep(DebugModeAfter(mode, events[..|events| - 1]), events[|events| - 1])
  }

  /** The threshold direction after a batch of events, in order. */
  function DThresholdAfter(d: int, events: seq<Event>): (r: int)
    ensures -1 <= d <= 1 ==> -1 <= r <= 1
  {
    if events == [] then d
    else DThresholdStep(DThresholdAfter(d, events[..|events| - 1]), events[|events| - 1])
  }

  /** The number of 'd' key presses in a batch of events. */
  function PressesOfD(events: seq<Event>): nat
  {
    if events == [] then 0
    else PressesOfD(events[..|events| - 1]) + (if events[|events| - 1] == KeyDown(KeyD) then 1 else 0)
  }

  /** The debug mode only ever cycles: after any batch of events it has moved
      on by the number of 'd' presses, modulo the number of modes. */
  lemma {:induction false} DebugModeCycles(mode: int, events: seq<Event>)
    requires 0 <= mode < DEBUG_MAX
    ensures DebugModeAfter(mode, events) == (mode + PressesOfD(events)) % DEBUG_MAX
  {
    if events != [] {
      var init := events[..|events| - 1];
      DebugModeCycles(mode, init);
      var m := DebugModeAfter(mode, init);
      var n := PressesOfD(init);
      assert m == (mode + n) % DEBUG_MAX;
      if events[|events| - 1] == KeyDown(KeyD) {
        assert (m + 1) % DEBUG_MAX == (mode + n + 1) % DEBUG_MAX;
      }
    }
  }

  /** A press of a threshold key sets the direction, + or = upwards and - or _
      downwards, until the next press or release of one. */
  lemma {:induction false} PressHolds(d: int, events: seq<Event>, i: nat)
    requires i < |events| && events[i].KeyDown? && IsThresholdKey(events[i].key)
    requires forall j :: i < j < |events| ==> !((events[j].KeyDown? || events[j].KeyUp?) && IsThresholdKey(events[j].key))
    ensures events[i].key == KeyPlus || events[i].key == KeyEquals ==> DThresholdAfter(d, events) == 1
    ensures events[i].key == KeyMinus || events[i].key == KeyUnderscore ==> DThresholdAfter(d, events) == -1
  {
    if i < |events| - 1 {
      PressHolds(d, events[..|events| - 1], i);
    }
  }

  /** A release of a threshold key stops the threshold moving until the next
      press of one. */
  lemma {:induction false} ReleaseStops(d: int, events: seq<Event>, i: nat)
    requires i < |events| && events[i].KeyUp? && IsThresholdKey(events[i].key)
    requires forall j :: i < j < |events| ==> !events[j].KeyDown?
    ensures DThresholdAfter(d, events) == 0
  {
    if i < |events| - 1 {
      ReleaseStops(d, events[..|events| - 1], i);
    }
  }

  // ---------------------------------------------------------------------------
  // The canvas state
  // ---------------------------------------------------------------------------

  class AdjacentCanvas {
    var debugMode: int
    var threshold: int
    var dthreshold: int
    var cornerPoints: seq<Point>

    ghost predicate Valid()
      reads this
    {
      0 <= debugMode < DEBUG_MAX && 0 <= threshold <= 255 && -1 <= dthreshold <= 1 &&
      (cornerPoints == [] || |cornerPoints| == 4)
    }

    constructor ()
      ensures Valid()
      ensures debugMode == DEBUG_NONE && threshold == 100 && dthreshold == 0 && cornerPoints == []
    {
      debugMode := DEBUG_NONE;
      threshold := 100;
      dthreshold := 0;
      cornerPoints := [];
    }

    /** The corner part of update_tracking, given the projected centroids in
        the order of the blob list as update_tracking sees it (sorted by size
        only when there are more than four): with at least four blobs, the first four are
        taken and put in order by swaps in place; otherwise the corners stay. */
    method UpdateTracking(centroids: seq<Point>)
      requires Valid()
      modifies this`cornerPoints
      ensures Valid()
      ensures cornerPoints == if |centroids| >= 4 then OrderCorners(centroids[..4]) else old(cornerPoints)
    {
      if |centroids| >= 4 {
        cornerPoints := centroids[..4];
        var abc := TriangleArea(cornerPoints[0], cornerPoints[1], cornerPoints[2]);
        var acd := TriangleArea(cornerPoints[0], cornerPoints[2], cornerPoints[3]);
        if abc < 0 {
          if acd >= 0 {
            if TriangleArea(cornerPoints[0], cornerPoints[1], cornerPoints[3]) < 0 {
              cornerPoints := cornerPoints[2 := cornerPoints[3]][3 := cornerPoints[2]];
            } else {
              cornerPoints := cornerPoints[0 := cornerPoints[3]][3 := cornerPoints[0]];
            }
          }
        } else if acd < 0 {
          if TriangleArea(cornerPoints[0], cornerPoints[1], cornerPoints[3]) < 0 {
            cornerPoints := cornerPoints[1 := cornerPoints[2]][2 := cornerPoints[1]];
          } else {
            cornerPoints := cornerPoints[0 := cornerPoints[1]][1 := cornerPoints[0]];
          }
        } else {
          cornerPoints := cornerPoints[0 := cornerPoints[2]][2 := cornerPoints[0]];
        }
      }
    }

    /** The threshold part of update_input. */
    method UpdateInput()
      requires Valid()
      modifies this`threshold
      ensures Valid()
      ensures threshold == ClampThreshold(old(threshold), dthreshold)
    {
      threshold := threshold + dthreshold;
      if threshold > 255 {
        threshold := 255;
      }
      if threshold < 0 {
        threshold := 0;
      }
    }

    /** The event loop of run, over one batch of events: going becomes false
        on a quit or escape, 'd' cycles the debug overlay, and the threshold
        keys set the direction. */
    method HandleEvents(events: seq<Event>) returns (going: bool)
      requires Valid()
      modifies this`debugMode, this`dthreshold
      ensures Valid()
      ensures going <==> forall i :: 0 <= i < |events| ==> !Stops(events[i])
      ensures debugMode == DebugModeAfter(old(debugMode), events)
      ensures dthreshold == DThresholdAfter(old(dthreshold), events)
    {
      going := true;
      for i := 0 to |events|
        invariant Valid()
        invariant going <==> forall j :: 0 <= j < i ==> !Stops(events[j])
        invariant debugMode == DebugModeAfter(old(debugMode), events[..i])
        invariant dthreshold == DThresholdAfter(old(dthreshold), events[..i])
      {
        var e := events[i];
        assert events[..i + 1][..i] == events[..i];
        if e == Quit || e == KeyDown(KeyEscape) {
          going := false;
        } else if e.KeyDown? {
          if e.key == KeyD {
            debugMode := debugMode + 1;
            if debugMode >= DEBUG_MAX {
              debugMode := 0;
            }
          } else if e.key == KeyPlus || e.key == KeyEquals {
            dthreshold := 1;
          } else if e.key == KeyMinus || e.key == KeyUnderscore {
            dthreshold := -1;
          }
        } else if e.KeyUp? {
          if IsThresholdKey(e.key) {
            dthreshold := 0;
          }
        }
      }
      assert events[..|events|] == events;
    }
  }
}
