/** The pixel planner (vision_navigator.py): A* with 8-pixel strides and a
    clearance margin, the margin ladder 35 / 25 / 15, and the direct walker
    used when every rung fails.

    Coordinates are integers (the detector truncates centroids), so every
    `sqrt(d2) < m` of the source is stated as the exact integer test
    `m > 0 && d2 < m^2`, with squares taken from the Squares module. */
module VisionNavigator {
  import opened Seqs
  import opened Search
  import opened Squares

  const CanvasWidth := 650
  const CanvasHeight := 600
  const RobotRadius := 18
  const SafetyMargin := 35
  const StepSize := 8
  /** Clearance the direct walker keeps from obstacle centres. */
  const MinimalClearance := 20
  /** The direct walker stops once its path holds more than this many points. */
  const DirectCap := 100

  /** The squares of the distances compared against, written as literals:
      robot_radius (the direct walker stops), 2 * robot_radius (the goal
      test of the search) and the safety margin. */
  const ArrivalSq := 324
  const NearGoalSq := 1296
  const SafetySq := 1225

  datatype Point = Point(x: int, y: int)

  function DistSq(a: Point, b: Point): nat
  {
    Sq(a.x - b.x) + Sq(a.y - b.y)
  }

  /** The Euclidean distance from `p` to `o` is below `margin`. */
  predicate TooClose(p: Point, o: Point, margin: int)
  {
    margin > 0 && DistSq(p, o) < Sq(margin)
  }

  /** The obstacle scan of the source: no obstacle centre is closer than `margin`. */
  function Clear(p: Point, obstacles: seq<Point>, margin: int): (ok: bool)
    ensures ok <==> forall k | 0 <= k < |obstacles| :: !TooClose(p, obstacles[k], margin)
  {
    if obstacles == [] then true
    else !TooClose(p, obstacles[0], margin) && Clear(p, obstacles[1..], margin)
  }

  /** `is_position_safe`: every obstacle is at least the safety margin away. */
  function IsPositionSafe(p: Point, obstacles: seq<Point>): (safe: bool)
    ensures safe <==> forall k | 0 <= k < |obstacles| ::
                        DistSq(p, obstacles[k]) >= SafetySq
  {
    SqIsProduct(SafetyMargin);
    Clear(p, obstacles, SafetyMargin)
  }

  predicate InCanvas(p: Point)
  {
    0 <= p.x < CanvasWidth && 0 <= p.y < CanvasHeight
  }

  /** `b` is `a` moved by one stride along exactly one axis. */
  predicate IsStride(a: Point, b: Point)
  {
    || (b.x == a.x && Abs(b.y - a.y) == StepSize)
    || (b.y == a.y && Abs(b.x - a.x) == StepSize)
  }

  /** A move the pixel planner may make with clearance `margin`. */
  predicate StrideStep(a: Point, b: Point, obstacles: seq<Point>, margin: int)
  {
    IsStride(a, b) && InCanvas(b) && Clear(b, obstacles, margin)
  }

  /** The four stride moves in the source's order: down, right, up, left. */
  function Strides(p: Point): seq<Point>
  {
    [Point(p.x, p.y + StepSize), Point(p.x + StepSize, p.y),
     Point(p.x, p.y - StepSize), Point(p.x - StepSize, p.y)]
  }

  lemma StridesAreStrides(p: Point)
    ensures forall q :: q in Strides(p) <==> IsStride(p, q)
  {
    forall q | IsStride(p, q)
      ensures q in Strides(p)
    {
      if q.x == p.x && q.y == p.y + StepSize { assert q == Strides(p)[0]; }
      else if q.y == p.y && q.x == p.x + StepSize { assert q == Strides(p)[1]; }
      else if q.x == p.x && q.y == p.y - StepSize { assert q == Strides(p)[2]; }
      else { assert q == Strides(p)[3]; }
    }
  }

  /** `get_neighbors_with_margin`: the stride moves that stay on the canvas
      and keep `margin` from every obstacle, and only those. */
  function NeighborsWithMargin(pos: Point, obstacles: seq<Point>, margin: int): (r: seq<Point>)
    ensures |r| <= 4
    ensures forall q :: q in r <==> StrideStep(pos, q, obstacles, margin)
  {
    StridesAreStrides(pos);
    Filter(Strides(pos), q => InCanvas(q) && Clear(q, obstacles, margin))
  }

  /** The goal test of the search: within 2 * robot_radius = 36 pixels. */
  predicate NearGoal(p: Point, goal: Point)
  {
    DistSq(p, goal) < NearGoalSq
  }

  /** A route of stride steps from `start` to a point near `goal`. The start
      point itself is never checked. */
  ghost predicate StrideRoute(path: seq<Point>, start: Point, goal: Point, obstacles: seq<Point>, margin: int)
  {
    && |path| > 0 && path[0] == start && NearGoal(path[|path| - 1], goal)
    && forall i | 0 <= i < |path| - 1 :: StrideStep(path[i], path[i + 1], obstacles, margin)
  }

  ghost predicate StrideReachable(start: Point, goal: Point, obstacles: seq<Point>, margin: int)
  {
    exists w :: StrideRoute(w, start, goal, obstacles, margin)
  }

  /** `find_path` with a given margin: a found path is a stride route that
      never repeats a point; "no path" means no stride route exists. */
  method FindPath(start: Point, goal: Point, obstacles: seq<Point>, margin: int, fuel: nat)
    returns (r: Outcome<Point>)
    ensures r.Found? ==> StrideRoute(r.path, start, goal, obstacles, margin) && Distinct(r.path)
    ensures r.Found? ==> forall i | 0 < i < |r.path| ::
                           InCanvas(r.path[i]) && Clear(r.path[i], obstacles, margin)
    ensures r.NoPath? ==> !StrideReachable(start, goal, obstacles, margin)
    ensures NearGoal(start, goal) && 0 < fuel ==> r == Found([start])
  {
    var succ := (p: Point) => NeighborsWithMargin(p, obstacles, margin);
    var isGoal := (p: Point) => NearGoal(p, goal);
    var unitCost := (p: Point, q: Point) => 1;
    assert StrideReachable(start, goal, obstacles, margin) ==> Reaches(start, succ, isGoal) by {
      if StrideReachable(start, goal, obstacles, margin) {
        var w :| StrideRoute(w, start, goal, obstacles, margin);
        forall i | 0 <= i < |w| - 1
          ensures w[i + 1] in succ(w[i])
        {
          assert StrideStep(w[i], w[i + 1], obstacles, margin);
        }
        assert IsWalk(w, succ) && isGoal(w[|w| - 1]);
      }
    }
    r := AStar(start, succ, unitCost, isGoal, fuel);
    if r.Found? {
      var path := r.path;
      forall i | 0 <= i < |path| - 1
        ensures StrideStep(path[i], path[i + 1], obstacles, margin)
      {
        assert path[i + 1] in succ(path[i]);
      }
      forall i | 0 < i < |path|
        ensures InCanvas(path[i]) && Clear(path[i], obstacles, margin)
      {
        assert StrideStep(path[i - 1], path[i], obstacles, margin);
      }
    }
  }

  /** Which attempt of the margin ladder produced the result. */
  datatype Rung = AtMargin(margin: int) | Direct

  /** `find_path_with_adaptive_margin`: search at 35, then 25, then 15, and
      walk directly only when all three searches report no path. A lower rung
      is tried only when the rung above has no stride route at all. */
  method FindPathWithAdaptiveMargin(start: Point, goal: Point, obstacles: seq<Point>, fuel: nat)
    returns (r: Outcome<Point>, rung: Rung)
    ensures !r.NoPath?
    ensures r.Found? ==> |r.path| > 0 && r.path[0] == start
    ensures rung.AtMargin? ==> rung.margin in {SafetyMargin, SafetyMargin - 10, SafetyMargin - 20}
    ensures rung.AtMargin? && r.Found? ==>
              StrideRoute(r.path, start, goal, obstacles, rung.margin) && Distinct(r.path)
    ensures rung != AtMargin(SafetyMargin) ==> !StrideReachable(start, goal, obstacles, SafetyMargin)
    ensures (rung.Direct? || rung == AtMargin(SafetyMargin - 20)) ==>
              !StrideReachable(start, goal, obstacles, SafetyMargin - 10)
    ensures rung.Direct? ==> !StrideReachable(start, goal, obstacles, SafetyMargin - 20)
    ensures rung.Direct? ==> r.Found? && |r.path| <= DirectCap + 1
    ensures rung.Direct? ==> DirectWalk(r.path, start)
    ensures rung.Direct? ==> StepsTowards(r.path, goal, obstacles)
    ensures rung.Direct? && |r.path| <= DirectCap ==> DistSq(r.path[|r.path| - 1], goal) <= ArrivalSq
    ensures (!StrideReachable(start, goal, obstacles, SafetyMargin) &&
             !StrideReachable(start, goal, obstacles, SafetyMargin - 10) &&
             !StrideReachable(start, goal, obstacles, SafetyMargin - 20)) ==> rung.Direct? || r.OutOfFuel?
  {
    r := FindPath(start, goal, obstacles, SafetyMargin, fuel);
    if !r.NoPath? {
      return r, AtMargin(SafetyMargin);
    }
    r := FindPath(start, goal, obstacles, SafetyMargin - 10, fuel);
    if !r.NoPath? {
      return r, AtMargin(SafetyMargin - 10);
    }
    r := FindPath(start, goal, obstacles, SafetyMargin - 20, fuel);
    if !r.NoPath? {
      return r, AtMargin(SafetyMargin - 20);
    }
    var path := FindDirectPath(start, goal, obstacles);
    return Found(path), Direct;
  }

  function Clamp(v: int, lo: int, hi: int): int
  {
    if v < lo then lo else if v > hi then hi else v
  }

  /** k * k * n2 <= 64 * d2, so k is at most 8 * |d| / sqrt(n2), for a stride
      magnitude 0 <= k <= 9. Each k's square is written out as a literal, which
      keeps the test linear in n2 and d2. */
  predicate Fits(k: int, n2: int, d2: int)
    requires 0 <= k <= 9
  {
    if k == 0 then 0 <= d2
    else if k == 1 then n2 <= 64 * d2
    else if k == 2 then 4 * n2 <= 64 * d2
    else if k == 3 then 9 * n2 <= 64 * d2
    else if k == 4 then 16 * n2 <= 64 * d2
    else if k == 5 then 25 * n2 <= 64 * d2
    else if k == 6 then 36 * n2 <= 64 * d2
    else if k == 7 then 49 * n2 <= 64 * d2
    else if k == 8 then 64 * n2 <= 64 * d2
    else 81 * n2 <= 64 * d2
  }

  /** The spelled-out test is the product test. */
  lemma FitsMeans(k: int, n2: int, d2: int)
    requires 0 <= k <= 9
    ensures Fits(k, n2, d2) <==> k * k * n2 <= 64 * d2
  {
  }

  /** A stride never exceeds the full 8 pixels: 9 never fits. */
  lemma NothingFitsAboveEight(n2: int, d2: int)
    requires 0 <= d2 <= n2 && 0 < n2
    ensures !Fits(9, n2, d2)
  {
  }

  /** The largest k in 0 .. top with k * k * n2 <= 64 * d2, trying top first and counting down. */
  function StrideLength(n2: int, d2: int, top: nat): (k: nat)
    requires top <= StepSize
    ensures k <= top
  {
    if top == 0 || top * top * n2 <= 64 * d2 then top else StrideLength(n2, d2, top - 1)
  }

  /** For 0 <= d2 <= n2 (a squared offset and the squared distance it is part
      of) the stride length from 8 down fits and the next one does not. */
  lemma {:induction false} StrideLengthIsLargest(n2: int, d2: int, top: nat)
    requires 0 < n2 && 0 <= d2 <= n2 && top <= StepSize
    requires top < StepSize ==> !Fits(top + 1, n2, d2)
    ensures Fits(StrideLength(n2, d2, top), n2, d2)
    ensures !Fits(StrideLength(n2, d2, top) + 1, n2, d2)
    ensures d2 == 0 ==> StrideLength(n2, d2, top) == 0
  {
    FitsMeans(top, n2, d2);
    if top > 0 && !Fits(top, n2, d2) {
      StrideLengthIsLargest(n2, d2, top - 1);
    }
  }

  /** `int((d / sqrt(d*d + o*o)) * 8)`: the stride component along an axis
      with offset `d` when the other axis has offset `o`, truncated toward
      zero. `ScaledStepTruncates` states which integer it is. */
  function ScaledStep(d: int, o: int): (s: int)
    requires d != 0 || o != 0
    ensures -StepSize <= s <= StepSize
    ensures (d >= 0 ==> s >= 0) && (d <= 0 ==> s <= 0)
  {
    SqZero(d);
    SqZero(o);
    var k: int := StrideLength(Sq(d) + Sq(o), Sq(d), StepSize);
    StrideLengthIsLargest(Sq(d) + Sq(o), Sq(d), StepSize);
    if d < 0 then -k else k
  }

  /** The magnitude k of the stride is the integer with
      k <= 8 * |d| / sqrt(d*d + o*o) < k + 1: k fits and k + 1 does not. */
  lemma ScaledStepTruncates(d: int, o: int)
    requires d != 0 || o != 0
    ensures Fits(Abs(ScaledStep(d, o)), Sq(d) + Sq(o), Sq(d))
    ensures !Fits(Abs(ScaledStep(d, o)) + 1, Sq(d) + Sq(o), Sq(d))
  {
    SqZero(d);
    SqZero(o);
    NothingFitsAboveEight(Sq(d) + Sq(o), Sq(d));
    StrideLengthIsLargest(Sq(d) + Sq(o), Sq(d), StepSize);
  }

  /** The truncated stride towards the goal, before clamping. */
  function Target(current: Point, goal: Point): Point
    requires current.x != goal.x || current.y != goal.y
  {
    Point(current.x + ScaledStep(goal.x - current.x, goal.y - current.y),
          current.y + ScaledStep(goal.y - current.y, goal.x - current.x))
  }

  /** The point the direct walker moves to from `current`: the truncated
      stride towards the goal, clamped to the canvas; if that point is within
      the minimal clearance of an obstacle, a full stride along the axis with
      the larger offset instead (the other axis keeps its truncated stride),
      clamped again. */
  function DirectStep(current: Point, goal: Point, obstacles: seq<Point>): (next: Point)
    requires current != goal
    ensures InCanvas(next)
    ensures InCanvas(current) ==>
              Abs(next.x - current.x) <= StepSize && Abs(next.y - current.y) <= StepSize
  {
    var dx := goal.x - current.x;
    var dy := goal.y - current.y;
    var t := Target(current, goal);
    var nx := Clamp(t.x, 0, CanvasWidth - 1);
    var ny := Clamp(t.y, 0, CanvasHeight - 1);
    if Clear(Point(nx, ny), obstacles, MinimalClearance) then Point(nx, ny)
    else if Abs(dx) > Abs(dy) then
      var sx := if dx > 0 then current.x + StepSize else current.x - StepSize;
      Point(Clamp(sx, 0, CanvasWidth - 1), Clamp(ny, 0, CanvasHeight - 1))
    else
      var sy := if dy > 0 then current.y + StepSize else current.y - StepSize;
      Point(Clamp(nx, 0, CanvasWidth - 1), Clamp(sy, 0, CanvasHeight - 1))
  }

  /** Farther than robot_radius from the goal, the truncated stride never
      overshoots the offset on its axis, and is shorter than it unless the
      offset is zero. */
  lemma StrideWithinOffset(d: int, o: int)
    requires Sq(d) + Sq(o) > ArrivalSq
    ensures Abs(ScaledStep(d, o)) <= Abs(d)
    ensures d != 0 ==> Abs(ScaledStep(d, o)) < Abs(d)
  {
    var k := Abs(ScaledStep(d, o));
    ScaledStepTruncates(d, o);
    SmallSquares(k);
    SqZero(d);
    if d != 0 {
      SqOrder(k, d);
    }
  }

  /** On the axis with the larger offset the truncated stride is at least
      5 = int(8 / sqrt 2). */
  lemma MajorAxisMoves(d: int, o: int)
    requires d != 0 && Abs(o) <= Abs(d)
    ensures Abs(ScaledStep(d, o)) >= 5
  {
    ScaledStepTruncates(d, o);
    SqMono(o, d);
    SqZero(d);
  }

  /** Moving from `c` by `s` towards `g`, in the direction of the goal and
      no farther than it, never lengthens the offset on that axis, and
      shortens it when `s` is not zero. */
  lemma AxisCloser(c: int, g: int, s: int)
    requires (g - c >= 0 ==> s >= 0) && (g - c <= 0 ==> s <= 0) && Abs(s) <= Abs(g - c)
    ensures Sq(c + s - g) <= Sq(c - g)
    ensures s != 0 ==> Sq(c + s - g) < Sq(c - g)
  {
    SqMono(c + s - g, c - g);
  }

  /** Moving from `current` by strides that never overshoot the offsets to
      `goal`, at least one of them nonzero, shortens the squared distance. */
  lemma MoveCloser(current: Point, goal: Point, sx: int, sy: int)
    requires var dx := goal.x - current.x;
             (dx >= 0 ==> sx >= 0) && (dx <= 0 ==> sx <= 0) && Abs(sx) <= Abs(dx)
    requires var dy := goal.y - current.y;
             (dy >= 0 ==> sy >= 0) && (dy <= 0 ==> sy <= 0) && Abs(sy) <= Abs(dy)
    requires sx != 0 || sy != 0
    ensures DistSq(Point(current.x + sx, current.y + sy), goal) < DistSq(current, goal)
  {
    AxisCloser(current.x, goal.x, sx);
    AxisCloser(current.y, goal.y, sy);
  }

  /** Farther than robot_radius from the goal, both stride components point
      towards the goal without overshooting it, and at least one is nonzero. */
  lemma StridesTowardGoal(dx: int, dy: int)
    requires Sq(dx) + Sq(dy) > ArrivalSq
    ensures var sx := ScaledStep(dx, dy);
            (dx >= 0 ==> sx >= 0) && (dx <= 0 ==> sx <= 0) && Abs(sx) <= Abs(dx)
    ensures var sy := ScaledStep(dy, dx);
            (dy >= 0 ==> sy >= 0) && (dy <= 0 ==> sy <= 0) && Abs(sy) <= Abs(dy)
    ensures ScaledStep(dx, dy) != 0 || ScaledStep(dy, dx) != 0
  {
    StrideWithinOffset(dx, dy);
    StrideWithinOffset(dy, dx);
    if Abs(dy) <= Abs(dx) {
      MajorAxisMoves(dx, dy);
    } else {
      MajorAxisMoves(dy, dx);
    }
  }

  /** The squared distance, written with the offset from `current` to `goal`. */
  lemma DistSqFromOffset(current: Point, goal: Point)
    ensures DistSq(current, goal) == Sq(goal.x - current.x) + Sq(goal.y - current.y)
  {
    SqSym(current.x, goal.x);
    SqSym(current.y, goal.y);
  }

  lemma NonzeroOffset(dx: int, dy: int)
    requires Sq(dx) + Sq(dy) > ArrivalSq
    ensures dx != 0 || dy != 0
  {
    SqZero(dx);
    SqZero(dy);
  }

  /** A prover aid: `Target` unfolded into its two coordinates, so that the
      lemmas below can reason about each axis separately. */
  lemma TargetComponents(current: Point, goal: Point)
    requires current.x != goal.x || current.y != goal.y
    ensures Target(current, goal) ==
              Point(current.x + ScaledStep(goal.x - current.x, goal.y - current.y),
                    current.y + ScaledStep(goal.y - current.y, goal.x - current.x))
  {
  }

  /** Farther than robot_radius from the goal, the truncated stride from a
      canvas point towards a canvas goal stays in the box the two span, so
      on the canvas, and the step takes it unclamped when it is clear. */
  lemma TargetInCanvas(current: Point, goal: Point, obstacles: seq<Point>)
    requires InCanvas(current) && InCanvas(goal)
    requires DistSq(current, goal) > ArrivalSq
    ensures current != goal
    ensures InCanvas(Target(current, goal))
    ensures Clear(Target(current, goal), obstacles, MinimalClearance) ==>
              DirectStep(current, goal, obstacles) == Target(current, goal)
  {
    DistSqFromOffset(current, goal);
    NonzeroOffset(goal.x - current.x, goal.y - current.y);
    StridesTowardGoal(goal.x - current.x, goal.y - current.y);
    TargetComponents(current, goal);
  }

  /** The truncated stride lands strictly closer to the goal. */
  lemma TargetCloser(current: Point, goal: Point)
    requires DistSq(current, goal) > ArrivalSq
    ensures current != goal
    ensures DistSq(Target(current, goal), goal) < DistSq(current, goal)
  {
    DistSqFromOffset(current, goal);
    NonzeroOffset(goal.x - current.x, goal.y - current.y);
    StridesTowardGoal(goal.x - current.x, goal.y - current.y);
    TargetComponents(current, goal);
    MoveCloser(current, goal, ScaledStep(goal.x - current.x, goal.y - current.y),
               ScaledStep(goal.y - current.y, goal.x - current.x));
  }

  /** Between two canvas points, a step whose truncated stride meets no
      obstacle within the minimal clearance is that stride, and lands strictly
      closer to the goal. */
  lemma DirectStepProgress(current: Point, goal: Point, obstacles: seq<Point>)
    requires InCanvas(current) && InCanvas(goal)
    requires DistSq(current, goal) > ArrivalSq
    requires Clear(Target(current, goal), obstacles, MinimalClearance)
    ensures current != goal
    ensures DirectStep(current, goal, obstacles) == Target(current, goal)
    ensures DistSq(DirectStep(current, goal, obstacles), goal) < DistSq(current, goal)
  {
    TargetInCanvas(current, goal, obstacles);
    TargetCloser(current, goal);
  }

  /** An axis-aligned offset gets the full stride: int(+-1 * 8) = +-8. */
  lemma AxisAlignedFullStride(d: int)
    requires d != 0
    ensures ScaledStep(d, 0) == (if d > 0 then StepSize else -StepSize)
  {
    ScaledStepTruncates(d, 0);
    SqZero(d);
    SqZero(0);
  }

  /** The direct walker's path so far: it starts at `start`, and every point
      after the first is on the canvas, at most a stride from its predecessor. */
  ghost predicate DirectWalk(path: seq<Point>, start: Point)
  {
    && |path| > 0 && path[0] == start
    && (forall i | 0 < i < |path| :: InCanvas(path[i]))
    && (forall i | 0 < i < |path| - 1 ::
          Abs(path[i + 1].x - path[i].x) <= StepSize && Abs(path[i + 1].y - path[i].y) <= StepSize)
  }

  /** Every point of the walk but the last is farther than robot_radius from
      the goal, and the point after it is the direct step from it: the walker
      stops at its first point near the goal, and only there. */
  ghost predicate StepsTowards(path: seq<Point>, goal: Point, obstacles: seq<Point>)
  {
    forall i | 0 <= i < |path| - 1 ::
      DistSq(path[i], goal) > ArrivalSq && path[i + 1] == DirectStep(path[i], goal, obstacles)
  }

  lemma ExtendStepsTowards(path: seq<Point>, goal: Point, obstacles: seq<Point>)
    requires |path| > 0 && StepsTowards(path, goal, obstacles)
    requires DistSq(path[|path| - 1], goal) > ArrivalSq
    ensures StepsTowards(path + [DirectStep(path[|path| - 1], goal, obstacles)], goal, obstacles)
  {
    var p' := path + [DirectStep(path[|path| - 1], goal, obstacles)];
    assert forall i | 0 <= i < |path| :: p'[i] == path[i];
  }

  lemma ExtendDirectWalk(path: seq<Point>, start: Point, next: Point)
    requires DirectWalk(path, start) && InCanvas(next)
    requires |path| > 1 ==>
               Abs(next.x - path[|path| - 1].x) <= StepSize && Abs(next.y - path[|path| - 1].y) <= StepSize
    ensures DirectWalk(path + [next], start)
  {
    var p' := path + [next];
    assert forall i | 0 <= i < |path| :: p'[i] == path[i];
  }

  /** `find_direct_path`: walk towards the goal one direct step at a time,
      stopping within robot_radius of the goal or right after the point that
      makes the path longer than the cap. */
  method FindDirectPath(start: Point, goal: Point, obstacles: seq<Point>) returns (path: seq<Point>)
    ensures DirectWalk(path, start)
    ensures |path| <= DirectCap + 1
    ensures DistSq(start, goal) <= ArrivalSq ==> path == [start]
    ensures |path| <= DirectCap ==> DistSq(path[|path| - 1], goal) <= ArrivalSq
    ensures StepsTowards(path, goal, obstacles)
  {
    path := [start];
    var current := start;
    while DistSq(current, goal) > ArrivalSq
      invariant DirectWalk(path, start) && |path| <= DirectCap
      invariant path[|path| - 1] == current
      invariant DistSq(start, goal) <= ArrivalSq ==> path == [start]
      invariant StepsTowards(path, goal, obstacles)
      decreases DirectCap - |path|
    {
      // The source also stops at distance 0, which the loop guard already excludes.
      var next := DirectStep(current, goal, obstacles);
      ExtendDirectWalk(path, start, next);
      ExtendStepsTowards(path, goal, obstacles);
      path := path + [next];
      current := next;
      if |path| > DirectCap {
        break;
      }
    }
  }
}
