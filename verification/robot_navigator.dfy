/** The grid planner (robot_navigator.py): A* over free cells with 8-connected
    moves, and the greedy line-of-sight reduction of its result. */
module RobotNavigator {
  import opened Seqs
  import opened Search
  import opened Grid
  import opened Squares
  import opened LineOfSight

  /** Move costs in thousandths: 1 along an axis, 1.414 on a diagonal. */
  const AxisCost := 1000
  const DiagonalCost := 1414

  /** The source charges the diagonal cost when the two coordinates change by
      2 in total; between adjacent cells that is exactly a diagonal move. */
  function MoveCost(a: Cell, b: Cell): (c: int)
    ensures c > 0
    ensures Adjacent(a, b) ==> (c == DiagonalCost <==> a.x != b.x && a.y != b.y)
  {
    if Abs(b.x - a.x) + Abs(b.y - a.y) == 2 then DiagonalCost else AxisCost
  }

  /** A route from `start` to `goal` where every move is a grid step. The
      start cell itself is never checked. */
  ghost predicate GridRoute(path: seq<Cell>, start: Cell, goal: Cell, blocked: set<Cell>)
  {
    && |path| > 0 && path[0] == start && path[|path| - 1] == goal
    && forall i | 0 <= i < |path| - 1 :: GridStep(path[i], path[i + 1], blocked)
  }

  ghost predicate GridReachable(start: Cell, goal: Cell, blocked: set<Cell>)
  {
    exists w :: GridRoute(w, start, goal, blocked)
  }

  /** `find_path`: a found path is a route of adjacent, in-grid, free cells
      from start to goal that never repeats a cell; "no path" means no such
      route exists at all. */
  method FindPath(start: Cell, goal: Cell, blocked: set<Cell>, fuel: nat) returns (r: Outcome<Cell>)
    ensures r.Found? ==> GridRoute(r.path, start, goal, blocked) && Distinct(r.path)
    ensures r.Found? ==> forall i | 0 < i < |r.path| :: InGrid(r.path[i]) && r.path[i] !in blocked
    ensures r.NoPath? ==> !GridReachable(start, goal, blocked)
    ensures start == goal && 0 < fuel ==> r == Found([start])
  {
    var succ := (c: Cell) => Neighbors(c, blocked);
    var isGoal := (c: Cell) => c == goal;
    assert GridReachable(start, goal, blocked) ==> Reaches(start, succ, isGoal) by {
      if GridReachable(start, goal, blocked) {
        var w :| GridRoute(w, start, goal, blocked);
        forall i | 0 <= i < |w| - 1
          ensures w[i + 1] in succ(w[i])
        {
          assert GridStep(w[i], w[i + 1], blocked);
        }
        assert IsWalk(w, succ) && isGoal(w[|w| - 1]);
      }
    }
    r := AStar(start, succ, MoveCost, isGoal, fuel);
    if r.Found? {
      var path := r.path;
      forall i | 0 <= i < |path| - 1
        ensures GridStep(path[i], path[i + 1], blocked)
      {
        assert path[i + 1] in succ(path[i]);
      }
      forall i | 0 < i < |path|
        ensures InGrid(path[i]) && path[i] !in blocked
      {
        assert GridStep(path[i - 1], path[i], blocked);
      }
    }
  }

  /** `idx` lists positions of `path` in increasing order, starting at 0. */
  ghost predicate Picks(path: seq<Cell>, idx: seq<int>)
  {
    && |idx| > 0 && idx[0] == 0
    && (forall k | 0 <= k < |idx| :: 0 <= idx[k] < |path|)
    && (forall k | 0 <= k < |idx| - 1 :: idx[k] < idx[k + 1])
  }

  /** Each next kept position is the farthest one visible from the current
      one, or the very next position when none further is visible. */
  ghost predicate Greedy(path: seq<Cell>, blocked: set<Cell>, idx: seq<int>)
    requires Picks(path, idx)
  {
    && (forall k | 0 <= k < |idx| - 1 ::
          idx[k + 1] == idx[k] + 1 || LineClear(path[idx[k]], path[idx[k + 1]], blocked))
    && (forall k, j | 0 <= k < |idx| - 1 && idx[k + 1] < j < |path| ::
          !LineClear(path[idx[k]], path[j], blocked))
  }

  /** The positions the optimizer keeps. */
  ghost predicate GreedyPicks(path: seq<Cell>, blocked: set<Cell>, idx: seq<int>)
  {
    Picks(path, idx) && Greedy(path, blocked, idx)
  }

  /** `opt` is `path` at the positions `idx`, ending at its last position. */
  ghost predicate Reduction(path: seq<Cell>, blocked: set<Cell>, idx: seq<int>, opt: seq<Cell>)
  {
    && GreedyPicks(path, blocked, idx)
    && |idx| == |opt| && idx[|idx| - 1] == |path| - 1
    && forall k | 0 <= k < |opt| :: opt[k] == path[idx[k]]
  }

  /** The inner scan of `optimize_path`: from the last position down to
      i + 2, the first position whose line from `path[i]` is clear, else i + 1. */
  method FarthestVisible(path: seq<Cell>, blocked: set<Cell>, i: int) returns (next: int)
    requires 0 <= i < |path| - 1
    ensures i < next < |path|
    ensures next == i + 1 || LineClear(path[i], path[next], blocked)
    ensures forall j | next < j < |path| :: !LineClear(path[i], path[j], blocked)
  {
    var j := |path| - 1;
    while j > i + 1
      invariant i + 1 <= j <= |path| - 1
      invariant forall j' | j < j' < |path| :: !LineClear(path[i], path[j'], blocked)
    {
      var clear := IsLineClear(path[i], path[j], blocked);
      if clear {
        return j;
      }
      j := j - 1;
    }
    return i + 1;
  }

  /** Appending a later position keeps the positions increasing. */
  lemma ExtendIncreasing(path: seq<Cell>, idx: seq<int>, next: int)
    requires Picks(path, idx)
    requires idx[|idx| - 1] < next < |path|
    ensures Picks(path, idx + [next])
  {
    var idx' := idx + [next];
    assert forall k | 0 <= k < |idx| :: idx'[k] == idx[k];
  }

  /** Appending the next greedy pick keeps the picks greedy. */
  lemma ExtendPicks(path: seq<Cell>, blocked: set<Cell>, idx: seq<int>, next: int)
    requires GreedyPicks(path, blocked, idx)
    requires idx[|idx| - 1] < next < |path|
    requires next == idx[|idx| - 1] + 1 || LineClear(path[idx[|idx| - 1]], path[next], blocked)
    requires forall j | next < j < |path| :: !LineClear(path[idx[|idx| - 1]], path[j], blocked)
    ensures GreedyPicks(path, blocked, idx + [next])
  {
    ExtendIncreasing(path, idx, next);
    var idx' := idx + [next];
    var last := |idx| - 1;
    forall k | 0 <= k < |idx'| - 1
      ensures idx'[k + 1] == idx'[k] + 1 || LineClear(path[idx'[k]], path[idx'[k + 1]], blocked)
    {
      if k < last {
        assert idx'[k] == idx[k] && idx'[k + 1] == idx[k + 1];
      }
    }
    forall k, j | 0 <= k < |idx'| - 1 && idx'[k + 1] < j < |path|
      ensures !LineClear(path[idx'[k]], path[j], blocked)
    {
      if k < last {
        assert idx'[k] == idx[k] && idx'[k + 1] == idx[k + 1];
      }
    }
  }

  /** The optimizer's state after some passes: `opt` is `path` at the
      greedy positions `idx`, the last of which is `i`. */
  ghost predicate PartialReduction(path: seq<Cell>, blocked: set<Cell>, idx: seq<int>, opt: seq<Cell>, i: int)
  {
    && GreedyPicks(path, blocked, idx)
    && |idx| == |opt| && idx[|idx| - 1] == i
    && (forall k | 0 <= k < |opt| :: opt[k] == path[idx[k]])
    && (forall k | 0 <= k < |idx| :: k <= idx[k])
  }

  /** One pass of the optimizer keeps its state a partial reduction. */
  lemma ExtendReduction(path: seq<Cell>, blocked: set<Cell>, idx: seq<int>, opt: seq<Cell>, i: int, next: int)
    requires PartialReduction(path, blocked, idx, opt, i)
    requires i < next < |path|
    requires next == i + 1 || LineClear(path[i], path[next], blocked)
    requires forall j | next < j < |path| :: !LineClear(path[i], path[j], blocked)
    ensures PartialReduction(path, blocked, idx + [next], opt + [path[next]], next)
  {
    ExtendPicks(path, blocked, idx, next);
    var idx', opt' := idx + [next], opt + [path[next]];
    assert forall k | 0 <= k < |idx| :: idx'[k] == idx[k] && opt'[k] == opt[k];
  }

  /** `optimize_path`: paths of at most two cells come back unchanged; longer
      ones shrink to the greedy farthest-visible subsequence. */
  method OptimizePath(path: seq<Cell>, blocked: set<Cell>) returns (opt: seq<Cell>)
    ensures |path| <= 2 ==> opt == path
    ensures |path| > 2 ==> exists idx :: Reduction(path, blocked, idx, opt)
    ensures |path| > 2 ==> 2 <= |opt| <= |path| && opt[0] == path[0] && opt[|opt| - 1] == path[|path| - 1]
    ensures |path| > 2 && LineClear(path[0], path[|path| - 1], blocked) ==> opt == [path[0], path[|path| - 1]]
  {
    if |path| <= 2 {
      return path;
    }
    opt := [path[0]];
    var i := 0;
    ghost var idx := [0];
    while i < |path| - 1
      invariant 0 <= i <= |path| - 1
      invariant PartialReduction(path, blocked, idx, opt, i)
      invariant LineClear(path[0], path[|path| - 1], blocked) ==>
                  (i == 0 && opt == [path[0]]) || (i == |path| - 1 && opt == [path[0], path[|path| - 1]])
      decreases |path| - i
    {
      var next := FarthestVisible(path, blocked, i);
      ExtendReduction(path, blocked, idx, opt, i, next);
      opt := opt + [path[next]];
      idx := idx + [next];
      i := next;
    }
    assert Reduction(path, blocked, idx, opt);
  }
}
