# Robot path planners, modelled in Dafny

This project models the planning core of a small remote-controlled robot
simulator. It has three parts.

The **grid planner** (`RobotNavigator`):
- It inflates eight fixed 25-pixel obstacles onto a 65 x 60 grid of 10-pixel
  cells.
- It searches that grid with A*, using 8-connected moves that cost 1 along an
  axis and 1.414 on a diagonal.
- It shortens the route it finds by greedy line-of-sight reduction, checked
  with Bresenham's line.

The **pixel planner** (`VisionBasedNavigator`):
- It searches a 650 x 600 canvas with A*, using 8-pixel strides along one axis
  and a clearance margin around every obstacle centre.
- Its goal test is "within 36 pixels of the goal".
- It tries the margins 35, 25 and 15 in turn.
- When all three searches fail, it falls back to a direct walker capped at
  100 steps.

The **corner-name lookup** of the simulation server (`corner_to_coords`) turns
a name such as `"ne"`, `"TL"` or `"se"` into canvas coordinates.

## Modules

- `Seqs` (`seqs.dfy`): an order-keeping filter (the `for … if …: append`
  pattern of both neighbour generators), and distinctness of a sequence.
- `Search` (`search.dfy`): the A* loop shared by both planners. It is generic
  in the node type, the successor function, a positive move cost and the goal
  test.
  - The heap is modelled as a list, and a pop takes any entry. The heuristic
    and the heap's tie-breaking only decide which entry comes out first.
    Every property proved here therefore holds for every f-ordering.
  - Like the source, the model has no closed set.
  - The number of pops is bounded by `fuel`, and the result is
    `Found(path) | NoPath | OutOfFuel`.
- `Grid` (`grid.dfy`): cells, obstacle inflation, and 8-connected neighbours.
- `LineOfSight` (`line_of_sight.dfy`): `is_line_clear`, and the sequence of
  cells its Bresenham loop visits.
- `RobotNavigator` (`robot_navigator.dfy`): the grid `find_path` and
  `optimize_path`.
- `VisionNavigator` (`vision_navigator.dfy`): the pixel planner.
- `Squares` (`squares.dfy`): the absolute value both planners use, and
  integer squares for the pixel planner's distance tests, with the facts the proofs use (monotone in the absolute
  value, symmetric, equal to `n * n`).
- `Server` (`server.py`'s `corner_to_coords`, in `server.dfy`).

Distances are never taken as square roots. Every test `sqrt(d2) < m` on
integer coordinates is stated as the exact integer test `m > 0 && d2 < m²`.
The test `sqrt(d2) > 18` becomes `d2 > 324`. Squared distances are sums of
`Squares.Sq`, a recursively defined square.

The direct walker's stride `int((d / dist) * 8)` is modelled exactly. Its
magnitude is the integer k ≤ 8 with k² (d² + o²) ≤ 64 d² < (k+1)² (d² + o²),
and its sign is the sign of d. That is truncation toward zero of
8·|d|/sqrt(d² + o²), computed without floating point.

The grid planner charges move costs in thousandths: 1000 along an axis and
1414 on a diagonal.

### Two consequences of the code worth noting

- The block half-width is a floor: `max(1, (size + robot) // (2·cell))`, so
  each of the fixed 25-pixel obstacles blocks `(25 + 18) // 20 = 2` cells on
  each side of its centre cell (robot_navigator.py:48).
- A direct walk that hits its step cap is returned as a path like any other.
  So the margin ladder never reports "no path", and the "no path" branch of
  the vision navigation loop (vision_navigator.py:348) cannot be taken.
  `VisionNavigator.FindPathWithAdaptiveMargin` states this.

## Model

| member | source | states |
|---|---|---|
| Grid.Margin | robot_navigator.py:48 | the block half-width is 1 exactly when size + 18 < 40, and otherwise the m with 20·m ≤ size + 18 < 20·(m + 1), i.e. max(1, (size + 18) // 20) |
| Grid.InflateColumn | robot_navigator.py:50-53 | the inner loop adds exactly the in-grid cells of one column of the block, and keeps every cell already blocked |
| Grid.InflateObstacle | robot_navigator.py:43-53 | one obstacle adds exactly the in-grid cells within its margin of its centre cell on both axes, and keeps every cell already blocked |
| Grid.InflateObstacles | robot_navigator.py:31-53 | a cell is blocked if and only if it is inside the grid and within the margin of some obstacle's centre cell on both axes |
| Grid.DefaultEndpointsFree | robot_navigator.py:16-53 | the default start (32, 30) and goal (55, 8) are in the grid and outside every inflated block of the fixed obstacle list |
| Grid.AroundIsAdjacent | robot_navigator.py:131-133 | the eight direction offsets produce exactly the cells that differ from p by at most 1 on each axis and are not p |
| Grid.Neighbors | robot_navigator.py:127-142 | at most 8 cells, and q is returned if and only if q is adjacent to p, inside the grid and not blocked |
| LineOfSight.StepArith | robot_navigator.py:165-171 | away from the end, the error test moves along an axis only while steps remain on it, and always moves along at least one |
| LineOfSight.ErrAfterStep | robot_navigator.py:165-171 | subtracting dy for an x move and adding dx for a y move keeps the error-term identity |
| LineOfSight.StepKeepsInv | robot_navigator.py:165-171 | one loop step keeps the error-term identity, moves to an 8-adjacent cell, and strictly shortens the remaining distance, so the loop ends |
| LineOfSight.IsLineClear | robot_navigator.py:144-173 | the result is true if and only if no visited cell is blocked |
| LineOfSight.LineCellsShape | robot_navigator.py:144-173 | the visited cells start at `start`, end at `end`, are consecutively 8-adjacent, and stay in the box both endpoints span |
| LineOfSight.LineCellsInGrid | robot_navigator.py:144-173 | a line between two in-grid cells visits only in-grid cells |
| LineOfSight.ClearLineHasFreeEnds | robot_navigator.py:157-163 | a clear line has both endpoints unblocked |
| LineOfSight.LineToItself | robot_navigator.py:155-163 | a cell's line to itself visits that cell alone |
| Search.Reconstruct | robot_navigator.py:186-194 | following came-from links from a scored node ends at the start; the result is a walk from start to that node, and g strictly increases along it |
| Search.RelaxKeepsTree | robot_navigator.py:200-204 | relaxing a successor with a lower tentative score keeps g ≥ 0 and g[parent] < g[child], and keeps the start parentless |
| Search.Expand | robot_navigator.py:196-205 | after relaxing all successors of a popped non-goal node, every successor is scored, and every scored node is queued or explored |
| Search.ExhaustedMeansUnreachable | robot_navigator.py:181-208 | once the queue is empty, no walk from the start reaches a node that passes the goal test |
| Search.AStar | robot_navigator.py:175-208 | a found path starts at the start, ends at a goal, moves only to successors and repeats no node; "no path" means no walk reaches a goal; a start that is a goal gives [start] |
| RobotNavigator.MoveCost | robot_navigator.py:198 | every move costs a positive amount, and between adjacent cells the source's test "the coordinates change by 2 in total" picks the diagonal cost exactly when both coordinates change |
| RobotNavigator.FindPath | robot_navigator.py:175-208 | a found path starts at start, ends at goal, takes 8-adjacent steps onto in-grid unblocked cells and repeats no cell; "no path" means no such route exists; find_path(s, s) = [s] |
| RobotNavigator.FarthestVisible | robot_navigator.py:219-228 | the inner scan picks the farthest later index whose line from path[i] is clear, or i + 1 when none is |
| RobotNavigator.ExtendPicks | robot_navigator.py:218-228 | appending the next farthest-visible index keeps the kept indices strictly increasing and greedy |
| RobotNavigator.ExtendReduction | robot_navigator.py:218-228 | one pass appends the farthest visible cell, and the kept cells stay the input at greedy, strictly increasing positions |
| RobotNavigator.OptimizePath | robot_navigator.py:210-230 | paths of length ≤ 2 are unchanged; longer ones become the greedy subsequence, keeping the first and last cells, with every kept pair line-clear or adjacent in the input; a clear first-to-last line gives exactly [first, last] |
| VisionNavigator.Clear | vision_navigator.py:212-218 | true if and only if every obstacle centre is at least `margin` away |
| VisionNavigator.IsPositionSafe | vision_navigator.py:123-129 | true if and only if every obstacle is at squared distance ≥ 35² |
| VisionNavigator.StridesAreStrides | vision_navigator.py:196-202 | the four direction offsets produce exactly the points 8 pixels away along one axis |
| VisionNavigator.NeighborsWithMargin | vision_navigator.py:191-220 | at most 4 points, and q is returned if and only if it is one stride away on one axis, on the canvas, and clear at `margin` |
| VisionNavigator.FindPath | vision_navigator.py:154-189 | a found path starts at start, ends within 36 pixels of the goal, takes stride steps onto on-canvas clear points and repeats no point; "no path" means no stride route exists at that margin; a start already near the goal gives [start] |
| VisionNavigator.FindPathWithAdaptiveMargin | vision_navigator.py:131-152 | never "no path"; a result at margin 25 or 15 comes only after the higher margins have no route at all; the direct walk comes only after all three have none, is at most 101 points, starts at start with later points on the canvas and at most 8 pixels apart per axis, takes a direct step from every point but the last, each of which is more than 18 pixels from the goal, and ends within 18 pixels of the goal when under the cap; a path found at a margin repeats no point |
| VisionNavigator.StrideLengthIsLargest | vision_navigator.py:237-238 | counting down from 8, the stride length k satisfies k²·n ≤ 64·d² < (k+1)²·n, and is 0 for a zero offset |
| VisionNavigator.ScaledStep | vision_navigator.py:237-238 | the stride component lies in [-8, 8] and has the offset's sign |
| VisionNavigator.ScaledStepTruncates | vision_navigator.py:237-238 | the stride's magnitude is the truncation of 8·|d|/sqrt(d² + o²): it fits and one more does not |
| VisionNavigator.AxisAlignedFullStride | vision_navigator.py:237-238 | with no offset on the other axis, the stride is the full ±8 |
| VisionNavigator.StrideWithinOffset | vision_navigator.py:227-238 | farther than 18 pixels from the goal, the stride never overshoots the offset on its axis |
| VisionNavigator.MajorAxisMoves | vision_navigator.py:237-238 | on the axis with the larger offset, the stride is at least 5 |
| VisionNavigator.DirectStep | vision_navigator.py:229-268 | the next point is on the canvas, within 8 pixels per axis of an on-canvas current point |
| VisionNavigator.TargetInCanvas | vision_navigator.py:237-242 | between canvas points, the unclamped stride stays on the canvas, so the clamp leaves a clear stride unchanged |
| VisionNavigator.TargetCloser | vision_navigator.py:227-238 | farther than 18 pixels from the goal, the truncated stride lands strictly closer to the goal |
| VisionNavigator.DirectStepProgress | vision_navigator.py:237-250 | a step whose stride is clear is that stride, and strictly reduces the distance to the goal |
| VisionNavigator.FindDirectPath | vision_navigator.py:222-277 | the walk starts at start and has at most 101 points; every point but the last is more than 18 pixels from the goal and is followed by the direct step from it, so the walk stops at its first point near the goal; it is [start] when start is within 18 pixels; if it is under the cap it ends within 18 pixels of the goal; later points are on the canvas and at most 8 pixels apart per axis |
| Server.Upper | server.py:31 | same length, each character upper-cased |
| Server.UpperIdempotent | server.py:31 | upper-casing twice is upper-casing once |
| Server.CornerToCoords | server.py:29-39 | x ∈ {m, 650 − m} and y ∈ {m, 600 − m}; the twelve aliases map to their corner; any other name follows the letter test ('E' → right, 'S' or 'B' → bottom) |
| Server.CaseInsensitive | server.py:31 | names that differ only in letter case map to the same point |
| Server.LowerCaseAliases | server.py:31-38 | an alias in any letter case maps to its corner |
| Server.FallbackAgreesExceptTRandBR | server.py:32-38 | the letter test alone already places every alias except "TR" and "BR", which it reads as the left-hand corners |
| Server.WestMatchesByLetter | server.py:32-33 | "west" lands bottom-right, because it holds an 'E' and an 'S' |
| Server.TopMatchesByLetter | server.py:32-33 | "top" lands top-left, because it holds no 'E', 'S' or 'B' |
| Server.DefaultCorners | server.py:29-39 | with margin 20, the corners are (630, 20), (20, 20), (630, 580) and (20, 580) |

## Left out

- Network and I/O are not modelled. That covers `capture_canvas`,
  `move_robot`, `check_goal_reached`, `check_collisions`,
  `get_robot_position` and the HTTP request part of `get_obstacles`. The
  obstacle list is the fixed one the planner inflates in any case.
- `detect_objects` is not modelled. It is image segmentation through a
  foreign library (HSV masks, morphology, contours, float moments). The pixel
  planner takes its obstacle centres as an input.
- Both `navigate_to_goal` loops are not modelled. They consist of network
  calls and sleeps.
- The rest of `server.py` is not modelled. That covers the Flask routes, the
  websocket hub, the broadcast thread and random obstacle generation:
  concurrency, I/O and global mutable state.
- Search.AStar: the heuristic and the f-ordering are abstracted away, because
  a pop may take any queued node. Optimality is not claimed. The source does
  not guarantee it, and the soundness and completeness properties do not
  depend on the pop order.
- Search.AStar: the search loop is bounded by `fuel`. The source loops until
  its heap is empty. `OutOfFuel` reports a run the bound cut short, and no
  property is claimed for it.
- VisionNavigator.FindPathWithAdaptiveMargin: an `OutOfFuel` result is
  returned as it is, without trying the lower margins. The source has no fuel
  and cannot reach that case.
- RobotNavigator.FindPath: the costs 1 and 1.414 are scaled to 1000 and 1414.
  Float rounding of long sums can break ties differently. That changes only
  which parent a cell keeps, never the properties stated.
- VisionNavigator.ScaledStep: the float expression `int((d / dist) * 8)` is
  modelled as exact truncation. The float result can differ only when
  8·d/dist lands within rounding error of an integer.
- Server.Upper: upper-cases only the ASCII letters a–z. Python's
  `str.upper` also maps other Unicode letters, and can change the length
  (`"ß"` becomes `"SS"`).
