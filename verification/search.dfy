/** The A* skeleton shared by the grid planner and the pixel planner.

    Both planners keep a binary heap of (f, node) entries, a g-score map and a
    came-from map, pop an entry, stop when the popped node passes the goal
    test, and otherwise relax every successor. The heap is modelled as the
    list of its nodes, and a pop takes ANY entry: the heuristic only decides
    which entry comes out first, so every property proved here holds whatever
    the f-scores and the heap's tie-breaking are. Like the source, there is no
    closed set and a node may be popped again after its g-score improves.

    The source loops until the heap is empty; the model bounds the number of
    pops by `fuel` and reports `OutOfFuel` when the bound is reached. */
module Search {
  import opened Seqs

  datatype Outcome<P> = Found(path: seq<P>) | NoPath | OutOfFuel

  /** Every element of `w` is a successor of the one before it. */
  ghost predicate IsWalk<P(!new)>(w: seq<P>, succ: P -> seq<P>)
  {
    forall i | 0 <= i < |w| - 1 :: w[i + 1] in succ(w[i])
  }

  /** Some walk from `start` ends in a node that passes the goal test. */
  ghost predicate Reaches<P(!new)>(start: P, succ: P -> seq<P>, isGoal: P -> bool)
  {
    exists w :: IsWalk(w, succ) && |w| > 0 && w[0] == start && isGoal(w[|w| - 1])
  }

  /** The g-score and came-from maps form a tree rooted at `start`: every
      other scored node has a parent it is a successor of, and a parent's
      g-score is strictly smaller than its child's. */
  ghost predicate Tree<P(!new)>(start: P, succ: P -> seq<P>, g: map<P, int>, parent: map<P, P>)
  {
    && start in g && g[start] == 0 && start !in parent
    && (forall n | n in g :: 0 <= g[n])
    && (forall n | n in g && n != start :: n in parent)
    && (forall n | n in parent ::
          n in g && parent[n] in g && g[parent[n]] < g[n] && n in succ(parent[n]))
  }

  /** A scored node that is not waiting in the open list has been popped,
      failed the goal test, and had all of its successors scored. */
  ghost predicate Explored<P(!new)>(succ: P -> seq<P>, isGoal: P -> bool, g: map<P, int>, open: seq<P>)
  {
    forall n | n in g :: n in open || (!isGoal(n) && forall s | s in succ(n) :: s in g)
  }

  /** Walks out of a set closed under `succ` stay inside it. */
  lemma {:induction false} WalkStaysInside<P(!new)>(w: seq<P>, succ: P -> seq<P>, inside: set<P>)
    requires IsWalk(w, succ) && |w| > 0 && w[0] in inside
    requires forall n | n in inside :: forall s | s in succ(n) :: s in inside
    ensures forall i | 0 <= i < |w| :: w[i] in inside
  {
    if |w| > 1 {
      WalkStaysInside(w[..|w| - 1], succ, inside);
      assert w[|w| - 1] in succ(w[|w| - 2]);
    }
  }

  /** When the open list is empty every scored node is explored, so the
      scored nodes are closed under `succ`, contain `start` and hold no goal:
      no walk from `start` reaches a goal. */
  lemma ExhaustedMeansUnreachable<P(!new)>(start: P, succ: P -> seq<P>, isGoal: P -> bool,
                                     g: map<P, int>, parent: map<P, P>)
    requires Tree(start, succ, g, parent)
    requires Explored(succ, isGoal, g, [])
    ensures !Reaches(start, succ, isGoal)
  {
    forall w | IsWalk(w, succ) && |w| > 0 && w[0] == start
      ensures !isGoal(w[|w| - 1])
    {
      WalkStaysInside(w, succ, g.Keys);
      assert w[|w| - 1] in g;
    }
  }

  /** Follows came-from links back from `goal`, as the reconstruction loop
      of both planners does, and puts `start` in front. */
  method Reconstruct<P(==,!new)>(start: P, succ: P -> seq<P>, g: map<P, int>, parent: map<P, P>, goal: P)
    returns (path: seq<P>)
    requires Tree(start, succ, g, parent)
    requires goal in g
    ensures |path| > 0 && path[0] == start && path[|path| - 1] == goal
    ensures IsWalk(path, succ)
    ensures forall i | 0 <= i < |path| :: path[i] in g
    ensures forall i, j | 0 <= i < j < |path| :: g[path[i]] < g[path[j]]
  {
    var current := goal;
    var rest: seq<P> := [];
    while current in parent
      invariant current in g
      invariant rest == [] ==> current == goal
      invariant rest != [] ==> rest[|rest| - 1] == goal && rest[0] in succ(current)
      invariant IsWalk(rest, succ)
      invariant forall i | 0 <= i < |rest| :: rest[i] in g && g[current] < g[rest[i]]
      invariant forall i, j | 0 <= i < j < |rest| :: g[rest[i]] < g[rest[j]]
      decreases g[current]
    {
      rest := [current] + rest;
      current := parent[current];
    }
    // Only `start` is scored without a parent, so the walk ends there.
    assert current == start;
    path := [start] + rest;
  }

  /** Relaxing one successor `next` of `current` with g-score `tentative`
      keeps the tree shape: scores only ever drop, and a node only gets a
      parent whose score is below its own. */
  lemma RelaxKeepsTree<P(!new)>(start: P, succ: P -> seq<P>, g: map<P, int>, parent: map<P, P>,
                                current: P, next: P, tentative: int)
    requires Tree(start, succ, g, parent)
    requires current in g && next in succ(current) && g[current] < tentative
    requires next !in g || tentative < g[next]
    ensures Tree(start, succ, g[next := tentative], parent[next := current])
  {
    assert next != start;
  }

  /** The scored nodes that are neither waiting nor explored, apart from `current`. */
  ghost predicate ExploredBut<P(!new)>(succ: P -> seq<P>, isGoal: P -> bool, g: map<P, int>,
                                       open: seq<P>, current: P)
  {
    forall n | n in g && n != current :: n in open || (!isGoal(n) && forall s | s in succ(n) :: s in g)
  }

  /** The body of the search loop after a pop: relax every successor of
      `current`, scoring and queueing those whose g-score improves. */
  method Expand<P(==,!new)>(start: P, succ: P -> seq<P>, cost: (P, P) -> int, isGoal: P -> bool,
                            g0: map<P, int>, parent0: map<P, P>, open0: seq<P>, current: P)
    returns (g: map<P, int>, parent: map<P, P>, open: seq<P>)
    requires forall p, q :: cost(p, q) > 0
    requires Tree(start, succ, g0, parent0)
    requires current in g0 && !isGoal(current)
    requires forall n | n in open0 :: n in g0
    requires ExploredBut(succ, isGoal, g0, open0, current)
    ensures Tree(start, succ, g, parent)
    ensures forall n | n in open :: n in g
    ensures Explored(succ, isGoal, g, open)
  {
    g, parent, open := g0, parent0, open0;
    var neighbours := succ(current);
    var j := 0;
    while j < |neighbours|
      invariant 0 <= j <= |neighbours|
      invariant Tree(start, succ, g, parent)
      invariant current in g
      invariant forall n | n in open :: n in g
      invariant ExploredBut(succ, isGoal, g, open, current)
      invariant forall k | 0 <= k < j :: neighbours[k] in g
    {
      var next := neighbours[j];
      var tentative := g[current] + cost(current, next);
      if next !in g || tentative < g[next] {
        RelaxKeepsTree(start, succ, g, parent, current, next, tentative);
        parent := parent[next := current];
        g := g[next := tentative];
        open := open + [next];
      }
      j := j + 1;
    }
  }

  /** Removing the entry at `i` keeps every other node in the list. */
  lemma PopKeepsOthers<P>(open: seq<P>, i: int)
    requires 0 <= i < |open|
    ensures forall n | n in open && n != open[i] :: n in open[..i] + open[i + 1..]
    ensures forall n | n in open[..i] + open[i + 1..] :: n in open
  {
    forall n | n in open && n != open[i]
      ensures n in open[..i] + open[i + 1..]
    {
      var k :| 0 <= k < |open| && open[k] == n;
      if k < i {
        assert (open[..i] + open[i + 1..])[k] == n;
      } else {
        assert (open[..i] + open[i + 1..])[k - 1] == n;
      }
    }
  }

  /** One planning call. `cost` is the positive price of a move, `isGoal` the
      goal test applied to every popped node, `fuel` the bound on pops. */
  method AStar<P(==,!new)>(start: P, succ: P -> seq<P>, cost: (P, P) -> int, isGoal: P -> bool, fuel: nat)
    returns (r: Outcome<P>)
    requires forall p, q :: cost(p, q) > 0
    ensures r.Found? ==> |r.path| > 0 && r.path[0] == start && isGoal(r.path[|r.path| - 1])
    ensures r.Found? ==> IsWalk(r.path, succ) && Distinct(r.path)
    ensures r.NoPath? ==> !Reaches(start, succ, isGoal)
    ensures isGoal(start) && 0 < fuel ==> r == Found([start])
  {
    var open := [start];
    var g := map[start := 0];
    var parent: map<P, P> := map[];
    var left := fuel;
    while open != []
      invariant Tree(start, succ, g, parent)
      invariant forall n | n in open :: n in g
      invariant Explored(succ, isGoal, g, open)
      invariant isGoal(start) && 0 < fuel ==> left == fuel && open == [start]
      decreases left
    {
      if left == 0 {
        return OutOfFuel;
      }
      left := left - 1;
      var i :| 0 <= i < |open|;
      var current := open[i];
      var rest := open[..i] + open[i + 1..];
      if isGoal(current) {
        var path := Reconstruct(start, succ, g, parent, current);
        assert Distinct(path);
        return Found(path);
      }
      PopKeepsOthers(open, i);
      g, parent, open := Expand(start, succ, cost, isGoal, g, parent, rest, current);
    }
    ExhaustedMeansUnreachable(start, succ, isGoal, g, parent);
    return NoPath;
  }
}
