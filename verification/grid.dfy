/** The cell world of the grid planner (robot_navigator.py): a 65 x 60 grid of
    10-pixel cells, obstacles inflated into blocks of cells, and 8-connected
    moves between free cells. */
module Grid {
  import opened Seqs
  import opened Squares

  const CellSize := 10
  const GridWidth := 65
  const GridHeight := 60
  const RobotSize := 18

  datatype Cell = Cell(x: int, y: int)

  /** An obstacle as the simulator places it: pixel centre and side length. */
  datatype PixelObstacle = PixelObstacle(x: int, y: int, size: int)

  /** The planner's default start and goal cells, (320, 300) and (550, 80) in pixels. */
  const DefaultStart := Cell(32, 30)
  const DefaultGoal := Cell(55, 8)

  /** The obstacles the planner inflates; the server does not report its own. */
  const InitialObstacles: seq<PixelObstacle> := [
    PixelObstacle(150, 120, 25),
    PixelObstacle(450, 180, 25),
    PixelObstacle(220, 300, 25),
    PixelObstacle(380, 380, 25),
    PixelObstacle(100, 450, 25),
    PixelObstacle(500, 100, 25),
    PixelObstacle(280, 220, 25),
    PixelObstacle(420, 320, 25)
  ]

  predicate InGrid(c: Cell)
  {
    0 <= c.x < GridWidth && 0 <= c.y < GridHeight
  }

  /** The cell holding pixel (x, y). Python's `//` floors; with a positive
      divisor Dafny's Euclidean `/` gives the same quotient. */
  function CellOf(x: int, y: int): Cell
  {
    Cell(x / CellSize, y / CellSize)
  }

  /** Half-width, in cells, of the block an obstacle blocks:
      max(1, (size + robot) // (2 * cell)), a floor and not a ceiling. */
  function Margin(o: PixelObstacle): (m: int)
    ensures m >= 1
    ensures m == 1 ==> o.size + RobotSize < 2 * (2 * CellSize)
    ensures m > 1 ==> m * (2 * CellSize) <= o.size + RobotSize < (m + 1) * (2 * CellSize)
  {
    var q := (o.size + RobotSize) / (2 * CellSize);
    if q > 1 then q else 1
  }

  /** Cell `c` lies in the square block of obstacle `o`. */
  predicate Covers(o: PixelObstacle, c: Cell)
  {
    var centre := CellOf(o.x, o.y);
    Abs(c.x - centre.x) <= Margin(o) && Abs(c.y - centre.y) <= Margin(o)
  }

  /** Some obstacle of the list covers `c`. */
  ghost predicate CoveredBy(obstacles: seq<PixelObstacle>, c: Cell)
  {
    exists k | 0 <= k < |obstacles| :: Covers(obstacles[k], c)
  }

  /** One column of an obstacle's block, the inner loop of the inflation:
      adds the in-grid cells of column `x` within the margin of the centre
      row. The source visits only the columns within the margin. */
  method InflateColumn(o: PixelObstacle, x: int, blocked0: set<Cell>) returns (blocked: set<Cell>)
    requires Abs(x - CellOf(o.x, o.y).x) <= Margin(o)
    ensures forall c :: c in blocked <==> c in blocked0 || (InGrid(c) && c.x == x && Covers(o, c))
  {
    var centre := CellOf(o.x, o.y);
    var m := Margin(o);
    blocked := blocked0;
    var dy := -m;
    while dy <= m
      invariant -m <= dy <= m + 1
      invariant forall c :: c in blocked <==>
                  c in blocked0 || (InGrid(c) && c.x == x && centre.y - m <= c.y < centre.y + dy)
    {
      var next := Cell(x, centre.y + dy);
      if 0 <= next.x < GridWidth && 0 <= next.y < GridHeight {
        blocked := blocked + {next};
      }
      dy := dy + 1;
    }
  }

  /** One obstacle's block: adds every in-grid cell it covers, column by column. */
  method InflateObstacle(o: PixelObstacle, blocked0: set<Cell>) returns (blocked: set<Cell>)
    ensures forall c :: c in blocked <==> c in blocked0 || (InGrid(c) && Covers(o, c))
  {
    var centre := CellOf(o.x, o.y);
    var m := Margin(o);
    blocked := blocked0;
    var dx := -m;
    while dx <= m
      invariant -m <= dx <= m + 1
      invariant forall c :: c in blocked <==>
                  c in blocked0 || (InGrid(c) && Covers(o, c) && c.x < centre.x + dx)
    {
      blocked := InflateColumn(o, centre.x + dx, blocked);
      dx := dx + 1;
    }
  }

  /** A cell covered by one of the first k + 1 obstacles is covered by one of
      the first k or by obstacle k. */
  lemma CoveredByPrefix(obstacles: seq<PixelObstacle>, k: int)
    requires 0 <= k < |obstacles|
    ensures forall c :: CoveredBy(obstacles[..k + 1], c) <==>
                        CoveredBy(obstacles[..k], c) || Covers(obstacles[k], c)
  {
    forall c
      ensures CoveredBy(obstacles[..k + 1], c) <==> CoveredBy(obstacles[..k], c) || Covers(obstacles[k], c)
    {
      if CoveredBy(obstacles[..k], c) {
        var j :| 0 <= j < k && Covers(obstacles[..k][j], c);
        assert obstacles[..k + 1][j] == obstacles[..k][j];
      }
      if Covers(obstacles[k], c) {
        assert obstacles[..k + 1][k] == obstacles[k];
      }
      if CoveredBy(obstacles[..k + 1], c) {
        var j :| 0 <= j < k + 1 && Covers(obstacles[..k + 1][j], c);
        if j < k {
          assert obstacles[..k][j] == obstacles[..k + 1][j];
        }
      }
    }
  }

  /** The obstacle-cell set: a cell is blocked exactly when it is in the grid
      and in the block of some obstacle. */
  method InflateObstacles(obstacles: seq<PixelObstacle>) returns (blocked: set<Cell>)
    ensures forall c :: c in blocked <==> InGrid(c) && CoveredBy(obstacles, c)
  {
    blocked := {};
    for k := 0 to |obstacles|
      invariant forall c :: c in blocked <==> InGrid(c) && CoveredBy(obstacles[..k], c)
    {
      CoveredByPrefix(obstacles, k);
      blocked := InflateObstacle(obstacles[k], blocked);
    }
    assert obstacles[..|obstacles|] == obstacles;
  }

  /** Every obstacle of the fixed list blocks a 5 x 5 block: (25 + 18) // 20 = 2. */
  lemma InitialMarginIsTwo()
    ensures forall k | 0 <= k < |InitialObstacles| :: Margin(InitialObstacles[k]) == 2
  {
  }

  /** Neither the default start nor the default goal lies in an inflated block. */
  lemma DefaultEndpointsFree()
    ensures !CoveredBy(InitialObstacles, DefaultStart)
    ensures !CoveredBy(InitialObstacles, DefaultGoal)
    ensures InGrid(DefaultStart) && InGrid(DefaultGoal)
  {
    forall k | 0 <= k < |InitialObstacles|
      ensures !Covers(InitialObstacles[k], DefaultStart) && !Covers(InitialObstacles[k], DefaultGoal)
    {
      InitialMarginIsTwo();
    }
  }

  /** Two different cells at most one apart on each axis (8-connectivity). */
  predicate Adjacent(a: Cell, b: Cell)
  {
    a != b && Abs(a.x - b.x) <= 1 && Abs(a.y - b.y) <= 1
  }

  /** A move the grid planner may make: to an adjacent, in-grid, free cell. */
  predicate GridStep(a: Cell, b: Cell, blocked: set<Cell>)
  {
    Adjacent(a, b) && InGrid(b) && b !in blocked
  }

  /** The eight surrounding cells in the source's order: down, right, up,
      left, then the four diagonals. */
  function Around(p: Cell): seq<Cell>
  {
    [Cell(p.x, p.y + 1), Cell(p.x + 1, p.y), Cell(p.x, p.y - 1), Cell(p.x - 1, p.y),
     Cell(p.x + 1, p.y + 1), Cell(p.x - 1, p.y - 1), Cell(p.x + 1, p.y - 1), Cell(p.x - 1, p.y + 1)]
  }

  lemma AroundIsAdjacent(p: Cell)
    ensures forall q :: q in Around(p) <==> Adjacent(p, q)
  {
    forall q | Adjacent(p, q)
      ensures q in Around(p)
    {
      var dx, dy := q.x - p.x, q.y - p.y;
      if dx == 0 && dy == 1 { assert q == Around(p)[0]; }
      else if dx == 1 && dy == 0 { assert q == Around(p)[1]; }
      else if dx == 0 && dy == -1 { assert q == Around(p)[2]; }
      else if dx == -1 && dy == 0 { assert q == Around(p)[3]; }
      else if dx == 1 && dy == 1 { assert q == Around(p)[4]; }
      else if dx == -1 && dy == -1 { assert q == Around(p)[5]; }
      else if dx == 1 && dy == -1 { assert q == Around(p)[6]; }
      else { assert q == Around(p)[7]; }
    }
  }

  /** The valid moves out of `p`. */
  function Neighbors(p: Cell, blocked: set<Cell>): (r: seq<Cell>)
    ensures |r| <= 8
    ensures forall q :: q in r <==> GridStep(p, q, blocked)
  {
    AroundIsAdjacent(p);
    Filter(Around(p), q => InGrid(q) && q !in blocked)
  }
}
