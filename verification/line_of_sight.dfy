/** The Bresenham line-of-sight test of the grid planner.

    The loop's state is the current cell and the error term. With
    dx = |x1 - x0|, dy = |y1 - y0| and rx, ry the steps still to go along
    each axis, the error term always equals dx - dy + dy*rx - dx*ry. From
    that identity: a step never overshoots the end on either axis, every
    step moves on at least one axis, and rx + ry strictly drops, so the loop
    ends, and ends exactly at the end cell. */
module LineOfSight {
  import opened Grid
  import opened Squares

  /** The quantities fixed for one run towards `end`. */
  datatype Line = Line(end: Cell, dx: int, dy: int, sx: int, sy: int)

  /** The loop state: current cell and error term. */
  datatype Pen = Pen(x: int, y: int, err: int)

  function Setup(start: Cell, end: Cell): Line
  {
    Line(end, Abs(end.x - start.x), Abs(end.y - start.y),
         if start.x < end.x then 1 else -1, if start.y < end.y then 1 else -1)
  }

  function Initial(start: Cell, end: Cell): Pen
  {
    Pen(start.x, start.y, Abs(end.x - start.x) - Abs(end.y - start.y))
  }

  /** Steps still to go from `from` to `to` moving by `s`. */
  function Remaining(from: int, to: int, s: int): int
  {
    if s == 1 then to - from else from - to
  }

  function Measure(l: Line, p: Pen): int
  {
    Remaining(p.x, l.end.x, l.sx) + Remaining(p.y, l.end.y, l.sy)
  }

  ghost predicate Inv(l: Line, p: Pen)
  {
    var rx := Remaining(p.x, l.end.x, l.sx);
    var ry := Remaining(p.y, l.end.y, l.sy);
    && (l.sx == 1 || l.sx == -1) && (l.sy == 1 || l.sy == -1)
    && 0 <= l.dx && 0 <= l.dy
    && 0 <= rx <= l.dx && 0 <= ry <= l.dy
    && p.err == l.dx - l.dy + l.dy * rx - l.dx * ry
  }

  predicate AtEnd(l: Line, p: Pen)
  {
    p.x == l.end.x && p.y == l.end.y
  }

  /** One pass of the loop body after the two checks. */
  function Step(l: Line, p: Pen): Pen
  {
    var e2 := 2 * p.err;
    var p1 := if e2 > -l.dy then Pen(p.x + l.sx, p.y, p.err - l.dy) else p;
    if e2 < l.dx then Pen(p1.x, p1.y + l.sy, p1.err + l.dx) else p1
  }

  lemma InitialInv(start: Cell, end: Cell)
    ensures Inv(Setup(start, end), Initial(start, end))
  {
    var l := Setup(start, end);
    assert l.dy * l.dx == l.dx * l.dy;
  }

  lemma MulAtLeastSelf(a: int, b: int)
    requires a >= 0 && b >= 1
    ensures a * b >= a
  {
    assert a * b == a * (b - 1) + a;
  }

  /** Away from the end, the error identity lets a step move only along an
      axis with steps still to go, and makes it move along at least one. */
  lemma StepArith(dx: int, dy: int, rx: int, ry: int, err: int)
    requires 0 <= rx <= dx && 0 <= ry <= dy && (rx != 0 || ry != 0)
    requires err == dx - dy + dy * rx - dx * ry
    ensures 2 * err > -dy ==> rx > 0
    ensures 2 * err < dx ==> ry > 0
    ensures 2 * err > -dy || 2 * err < dx
  {
    if rx == 0 {
      // Then ry >= 1, so the error term is dx - dy - dx*ry <= -dy.
      MulAtLeastSelf(dx, ry);
    }
    if ry == 0 {
      MulAtLeastSelf(dy, rx);
    }
  }

  /** Subtracting dy for a move along x and adding dx for a move along y
      keeps the error identity for the new remaining distances. */
  lemma ErrAfterStep(dx: int, dy: int, rx: int, ry: int, err: int, rx2: int, ry2: int, err2: int)
    requires err == dx - dy + dy * rx - dx * ry
    requires rx2 == rx || rx2 == rx - 1
    requires ry2 == ry || ry2 == ry - 1
    requires err2 == err - (if rx2 < rx then dy else 0) + (if ry2 < ry then dx else 0)
    ensures err2 == dx - dy + dy * rx2 - dx * ry2
  {
    assert dy * (rx - 1) == dy * rx - dy;
    assert dx * (ry - 1) == dx * ry - dx;
  }

  /** A step away from the end keeps the identity, moves to an adjacent cell,
      and brings the end strictly closer. */
  lemma StepKeepsInv(l: Line, p: Pen)
    requires Inv(l, p) && !AtEnd(l, p)
    ensures Inv(l, Step(l, p))
    ensures Measure(l, Step(l, p)) < Measure(l, p)
    ensures Adjacent(Cell(p.x, p.y), Cell(Step(l, p).x, Step(l, p).y))
  {
    var q := Step(l, p);
    var rx := Remaining(p.x, l.end.x, l.sx);
    var ry := Remaining(p.y, l.end.y, l.sy);
    StepArith(l.dx, l.dy, rx, ry, p.err);
    ErrAfterStep(l.dx, l.dy, rx, ry, p.err,
                 Remaining(q.x, l.end.x, l.sx), Remaining(q.y, l.end.y, l.sy), q.err);
  }

  /** The cells the loop visits from pen `p` on, the last one being `end`. */
  function Trace(l: Line, p: Pen): (t: seq<Cell>)
    requires Inv(l, p)
    ensures |t| > 0 && t[0] == Cell(p.x, p.y)
    decreases Measure(l, p)
  {
    if AtEnd(l, p) then [Cell(p.x, p.y)]
    else
      StepKeepsInv(l, p);
      [Cell(p.x, p.y)] + Trace(l, Step(l, p))
  }

  /** The cells `is_line_clear` visits between `start` and `end`. */
  function LineCells(start: Cell, end: Cell): seq<Cell>
  {
    InitialInv(start, end);
    Trace(Setup(start, end), Initial(start, end))
  }

  ghost predicate AllFree(cells: seq<Cell>, blocked: set<Cell>)
  {
    forall i | 0 <= i < |cells| :: cells[i] !in blocked
  }

  lemma AllFreeCons(c: Cell, t: seq<Cell>, blocked: set<Cell>)
    ensures AllFree([c] + t, blocked) <==> c !in blocked && AllFree(t, blocked)
  {
    var ct := [c] + t;
    assert ct[0] == c;
    if c !in blocked && AllFree(t, blocked) {
      forall i | 0 <= i < |ct|
        ensures ct[i] !in blocked
      {
        if i > 0 {
          assert ct[i] == t[i - 1];
        }
      }
    }
    if AllFree(ct, blocked) {
      forall i | 0 <= i < |t|
        ensures t[i] !in blocked
      {
        assert t[i] == ct[i + 1];
      }
    }
  }

  /** No visited cell is an obstacle cell. */
  ghost predicate LineClear(start: Cell, end: Cell, blocked: set<Cell>)
  {
    AllFree(LineCells(start, end), blocked)
  }

  /** The loop of the source, returning at the first obstacle cell: each pass
      checks the current cell, stops at the end cell, and otherwise takes a step. */
  method IsLineClear(start: Cell, end: Cell, blocked: set<Cell>) returns (clear: bool)
    ensures clear <==> LineClear(start, end, blocked)
  {
    var l := Setup(start, end);
    var p := Initial(start, end);
    InitialInv(start, end);
    while true
      invariant Inv(l, p)
      invariant LineClear(start, end, blocked) <==> AllFree(Trace(l, p), blocked)
      decreases Measure(l, p)
    {
      if Cell(p.x, p.y) in blocked {
        return false;
      }
      if p.x == end.x && p.y == end.y {
        break;
      }
      StepKeepsInv(l, p);
      AllFreeCons(Cell(p.x, p.y), Trace(l, Step(l, p)), blocked);
      p := Step(l, p);
    }
    return true;
  }

  /** The trace ends at the end cell. */
  lemma {:induction false} TraceEndsAtEnd(l: Line, p: Pen)
    requires Inv(l, p)
    ensures Trace(l, p)[|Trace(l, p)| - 1] == l.end
    decreases Measure(l, p)
  {
    if !AtEnd(l, p) {
      StepKeepsInv(l, p);
      TraceEndsAtEnd(l, Step(l, p));
    }
  }

  /** Consecutive visited cells are 8-adjacent: the raster has no gaps. */
  lemma {:induction false} TraceConnected(l: Line, p: Pen)
    requires Inv(l, p)
    ensures forall i | 0 <= i < |Trace(l, p)| - 1 :: Adjacent(Trace(l, p)[i], Trace(l, p)[i + 1])
    decreases Measure(l, p)
  {
    if !AtEnd(l, p) {
      StepKeepsInv(l, p);
      TraceConnected(l, Step(l, p));
    }
  }

  /** Every pen position along the way stays between start and end on both axes. */
  lemma {:induction false} TraceInBox(start: Cell, l: Line, p: Pen)
    requires l == Setup(start, l.end) && Inv(l, p)
    ensures forall i | 0 <= i < |Trace(l, p)| ::
              Between(Trace(l, p)[i].x, start.x, l.end.x) && Between(Trace(l, p)[i].y, start.y, l.end.y)
    decreases Measure(l, p)
  {
    if !AtEnd(l, p) {
      StepKeepsInv(l, p);
      TraceInBox(start, l, Step(l, p));
    }
  }

  predicate Between(v: int, a: int, b: int)
  {
    (a <= v <= b) || (b <= v <= a)
  }

  /** The visited cells run from `start` to `end` without gaps and never
      leave the box the two endpoints span. */
  lemma LineCellsShape(start: Cell, end: Cell)
    ensures |LineCells(start, end)| > 0
    ensures LineCells(start, end)[0] == start
    ensures LineCells(start, end)[|LineCells(start, end)| - 1] == end
    ensures forall i | 0 <= i < |LineCells(start, end)| - 1 ::
              Adjacent(LineCells(start, end)[i], LineCells(start, end)[i + 1])
    ensures forall i | 0 <= i < |LineCells(start, end)| ::
              Between(LineCells(start, end)[i].x, start.x, end.x) &&
              Between(LineCells(start, end)[i].y, start.y, end.y)
  {
    InitialInv(start, end);
    TraceEndsAtEnd(Setup(start, end), Initial(start, end));
    TraceConnected(Setup(start, end), Initial(start, end));
    TraceInBox(start, Setup(start, end), Initial(start, end));
  }

  /** A line between two in-grid cells visits only in-grid cells. */
  lemma LineCellsInGrid(start: Cell, end: Cell)
    requires InGrid(start) && InGrid(end)
    ensures forall i | 0 <= i < |LineCells(start, end)| :: InGrid(LineCells(start, end)[i])
  {
    LineCellsShape(start, end);
  }

  /** A clear line has free endpoints: the test checks both of them. */
  lemma ClearLineHasFreeEnds(start: Cell, end: Cell, blocked: set<Cell>)
    requires LineClear(start, end, blocked)
    ensures start !in blocked && end !in blocked
  {
    LineCellsShape(start, end);
  }

  /** A cell to itself is a one-cell line. */
  lemma LineToItself(c: Cell)
    ensures LineCells(c, c) == [c]
  {
    InitialInv(c, c);
  }
}
