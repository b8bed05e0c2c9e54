# visual-a-star in Dafny

This is a Dafny model of the engine behind visual-a-star, together with
proofs about it. The program draws an A* path search on a square grid of
nodes. The model covers three parts of it.

- **The A\* engine** (`AStar`): a `size` x `size` grid of nodes, a start
  node and a destination node, and some blocked cells. `calcPath` runs the
  search. It keeps an open list ordered by f cost and a closed set. Each
  node keeps the node it was reached from; a shorter route lowers its
  g cost, which is the cost from the start. Once the destination is
  polled, the path is traced back through those links. The cells on the
  path are then tagged `~~`, the start `ST` and the destination `FI`.
  Diagonal moves cost 14 and straight moves cost 10. The h cost is ten
  times the floor of the Euclidean distance to the destination.
- **The node** (`AstarNode`): a grid cell with its position, status tag,
  costs, walkability and back-link. Its cost updates change its fields in
  place.
- **The maze generator** (`MazeGenerator`): a randomised depth-first
  backtracker over a boolean grid, where `true` marks a wall. Every cell in
  an even row or column, the last row and the last column starts as a wall.
  From the room (1, 1) the generator carves a passage to a random unvisited
  room two cells away, and backtracks when no such room is left.

Files:

- `astar.dfy`: module `AStarSearch`, class `AStar`. This is the engine,
  imperative like the source. The grid is a sequence of rows of `AstarNode`
  objects whose fields the methods update. The open list, closed set and
  path are fields that hold node positions, because node equality compares
  positions.
- `search.dfy`: module `SearchStates`. This is the search state as a value
  (`Search`): the links of every cell, the open list, the closed set, and
  the order in which cells were closed. It holds the search invariant and
  the proofs that the search is sound and complete. The class keeps a ghost
  copy of this state and proves that each of its steps matches the
  corresponding step on the value.
- `astar_node.dfy`: module `AstarNodes`. This is the node class and the
  h cost with its integer square root.
- `moves.dfy`: module `Moves`. This file defines the moves each expansion
  offers, step costs, walks, path cost and grid cells.
- `grid_dump.dfy`: module `GridDump`. This is the text `toString` prints,
  as a function of the status tags, with its length and number round trip.
- `maze.dfy`: module `Maze`. This is the maze generator class and the facts
  about the maze it carves.
- `lists.dfy`, `vector2.dfy`, `wrappers.dfy`: sequence helpers, the
  `Vector2` value, and `Option`/`Result`.

### How the model follows the code

- **Four-way bounds test.** Without diagonals, the bounds test of
  `addNeighbours` is `isInBounds`, which demands `x > 0` and `y > 0`. So
  row 0 and column 0 are never entered in four-way mode. The model keeps
  this (`Moves.IsInBounds`), and every reachability statement about
  four-way search is about walks that avoid them.
- **Open list.** The `PriorityBlockingQueue` is modelled as a sequence. A
  poll (`AStarSearch.AStar.Least`, `AStarSearch.AStar.PollAndClose`)
  takes the first entry of least current f cost. Java's queue orders its
  heap by the f cost a node had when it was added. When addNeighbourNode
  finds a cheaper route to a node already queued, `calcAllCosts` lowers
  that node's f cost in place, and the node is never removed and
  re-added. The heap order then goes stale, and `poll()` can return an
  entry that is not of least f cost. The model's least-f poll is an
  idealisation of that heap. Soundness and completeness still hold
  because `SearchStates.Search.Close`, `CloseStep` and `CloseKeepsInv`
  accept any open entry. Found exactly when reachable, the traced path a
  walk whose cost is totalCost, no repeats: these hold for every poll
  order. But the path returned, and its cost, can differ from Java's
  beyond ties.
- **Errors.** Java's exceptions for bad arguments become `Result` values
  with an `Error` case: the start or destination out of bounds, blocking
  the start or destination, a block out of bounds, and an input of the
  wrong size.
- **Maze randomness.** `Random.nextInt(n)` becomes `pick(draws) % n`, where
  `pick` is a function passed in and `draws` counts the draws so far.

## Model

| member | source | states |
|---|---|---|
| AstarNodes.AstarNode.constructor | src/main/java/model/AstarNode.java:42-50 | A new node has the given position and a blank status. Its f, g and h costs are Integer.MAX_VALUE. It is walkable and has no previous node. |
| AstarNodes.AstarNode.CalcAllCosts | src/main/java/model/AstarNode.java:69-73 | Afterwards h is the h cost towards the destination and g is the previous node's g plus the step cost. f is g + h. Nothing else changes. |
| AstarNodes.AstarNode.CalcHCost | src/main/java/model/AstarNode.java:80-82 | h becomes the h cost from this node's position to the destination's position. |
| AstarNodes.AstarNode.CalcGCost | src/main/java/model/AstarNode.java:89-92 | g becomes the previous node's g plus the step cost. |
| AstarNodes.AstarNode.Equals | src/main/java/model/AstarNode.java:95-98 | Two nodes are equal exactly when their positions are equal. |
| AstarNodes.AstarNode.SetPrevious | src/main/java/model/AstarNode.java:104-106 | Sets only the back-link. |
| AstarNodes.AstarNode.SetWalkable | src/main/java/model/AstarNode.java:112-114 | Sets only the walkable flag. |
| AstarNodes.AstarNode.SetStatus | src/main/java/model/AstarNode.java:136-138 | Sets only the status tag. |
| AstarNodes.AstarNode.SetFCost | src/main/java/model/AstarNode.java:144-146 | Sets only the f cost. |
| AstarNodes.AstarNode.SetHCost | src/main/java/model/AstarNode.java:152-154 | Sets only the h cost. |
| AstarNodes.AstarNode.SetGCost | src/main/java/model/AstarNode.java:160-162 | Sets only the g cost. |
| AstarNodes.ISqrt | src/main/java/model/AstarNode.java:81 | `(int) Math.sqrt` of a square sum: the result r satisfies r² ≤ n < (r+1)². |
| AstarNodes.ISqrtUnique | src/main/java/model/AstarNode.java:81 | Any r with r² ≤ n < (r+1)² is the integer square root, so the truncated square root is determined. |
| AstarNodes.HCost | src/main/java/model/AstarNode.java:80-82 | The h cost is a multiple of 10. A tenth of it is the floor of the Euclidean distance between the two cells. |
| AstarNodes.HCostZeroIff | src/main/java/model/AstarNode.java:80-82 | The h cost is 0 exactly at the destination. |
| AstarNodes.HCostSymmetric | src/main/java/model/AstarNode.java:80-82 | The h cost from p to q equals the h cost from q to p. |
| Moves.StepCost | src/main/java/util/AStar.java:218-219 | The cost addNeighbours charges for a step is 14 or 10. |
| Moves.IsDiagonal | src/main/java/util/AStar.java:275-277 | A diagonal step joins two different cells that differ by one in both coordinates, two in total. |
| Moves.IsInBounds | src/main/java/util/AStar.java:379-381 | isInBounds as written: a cell that passes is inside the grid, so the array access after it is safe. It never lies in row 0 or column 0. |
| Moves.Offered | src/main/java/util/AStar.java:202-231 | A cell addNeighbours offers, in either mode, is an in-grid cell of the 3x3 block other than the current one. Without diagonals it is never a diagonal neighbour. |
| Moves.DiagonalCorners | src/main/java/util/AStar.java:275-277 | A step is diagonal exactly when it goes to one of the four corners of the 3x3 block around a cell. |
| Moves.FourWaySkipsRowAndColumnZero | src/main/java/util/AStar.java:225-228 | Without diagonals no offered cell lies in row 0 or column 0, and every step costs 10. |
| Moves.EightWayStepCost | src/main/java/util/AStar.java:206-222 | With diagonals a step costs 14 exactly when it changes both coordinates. |
| Moves.RowCount | src/main/java/util/AStar.java:90-92 | A row of width w has w cells. |
| Moves.RectCount | src/main/java/util/AStar.java:89-92 | A w x h rectangle has w·h cells. |
| Moves.CellCount | src/main/java/util/AStar.java:86-93 | The grid has size² cells, so the search's closed set is bounded. |
| Moves.ClosedSetHoldsWalks | src/main/java/util/AStar.java:148-187 | If a set holds every walkable cell offered from each of its cells, then every walk that starts in the set ends in it. This is the core of "no path found" meaning unreachable. |
| Moves.BackPathReversed | src/main/java/util/AStar.java:238-244 | A destination-first path whose every cell was reached from the next one by a legal move is, reversed, a walk from the last cell to the first. |
| Moves.Candidate | src/main/java/util/AStar.java:208-217 | The inner loop of the diagonal expansion offers cell (x, y) only if it lies in the grid and is not the current cell. |
| Moves.FirstOf3Step | src/main/java/util/AStar.java:212 | Running the three iterations of the column loop one more time appends exactly that iteration's output. |
| Moves.RowCandidatesStep | src/main/java/util/AStar.java:212-221 | One more column of the inner loop appends that column's candidate. |
| Moves.BlockCandidatesStep | src/main/java/util/AStar.java:207-222 | One more row of the outer loop appends that row's candidates. |
| Moves.RowCandidatesOutside | src/main/java/util/AStar.java:208-210 | A row outside the grid is skipped. |
| Moves.RowCandidatesExact | src/main/java/util/AStar.java:207-222 | Row i of the 3x3 block offers exactly its in-grid cells, other than the current cell. |
| Moves.CandidatesOffered | src/main/java/util/AStar.java:202-231 | The cells addNeighbours passes to addNeighbourNode are exactly the offered moves. With diagonals these are the in-grid cells of the 3x3 block minus the centre. Without, they are the four cross neighbours that pass isInBounds. |
| Lists.RemoveAtNoDup | src/main/java/util/AStar.java:154 | Polling an entry from a repeat-free open list leaves it repeat-free, holding every other entry and not the polled one. |
| Lists.AppendNoDup | src/main/java/util/AStar.java:261-263 | Adding a node that is not in the open list keeps the list repeat-free. |
| Lists.NoDupLength | src/main/java/util/MazeGenerator.java:47 | A repeat-free list drawn from a set is no longer than the set. This bounds the visited list, so the generator's loop ends. |
| SearchStates.Search.StartInv | src/main/java/util/AStar.java:139-145 | After the start's costs are zeroed and it is added to the open list, the search invariant holds and the frontier property holds. |
| SearchStates.Search.CloseKeepsInv | src/main/java/util/AStar.java:154-155 | Polling any open cell and closing it keeps the search invariant. |
| SearchStates.Search.CloseKeepsBookkeeping | src/main/java/util/AStar.java:154-155 | Closing keeps these: the open list is repeat-free, open and closed cells are apart and in the grid, and the closing order numbers the closed cells. |
| SearchStates.Search.CloseKeepsLinked | src/main/java/util/AStar.java:154-155 | Closing keeps each link's facts: its parent is closed earlier, the step is legal, and the costs are as calcAllCosts sets them. |
| SearchStates.Search.RelaxKeepsInv | src/main/java/util/AStar.java:258-263 | Re-linking a walkable, unclosed cell offered from a closed cell keeps the invariant, and so does adding it to the open list if absent. |
| SearchStates.Search.Visit | src/main/java/util/AStar.java:253-266 | addNeighbourNode changes only links and the open list. It never touches the grid, the closed set or the order of closing. |
| SearchStates.Search.VisitLowersCost | src/main/java/model/AstarNode.java:59-61 | checkShorterPath as addNeighbourNode uses it (AStar.java:258-260): a visit changes no link but the visited cell's. A cell already open is re-linked only to the current cell, only for a strictly lower g cost, and stays where it is in the open list. So an open cell's g cost never rises. |
| SearchStates.Search.VisitAll | src/main/java/util/AStar.java:202-231 | A run of addNeighbourNode calls changes only links and the open list. |
| SearchStates.Search.VisitGrows | src/main/java/util/AStar.java:253-266 | addNeighbourNode never removes from the open list. Afterwards an offered walkable cell is open or closed. |
| SearchStates.Search.VisitAllGrows | src/main/java/util/AStar.java:202-231 | Over a run of addNeighbourNode calls the open list only grows. Every walkable cell handed in ends up open or closed. |
| SearchStates.Search.VisitAllAppend | src/main/java/util/AStar.java:202-231 | Two runs of addNeighbourNode calls in a row equal one run over both lists. |
| SearchStates.Search.VisitAllSnoc | src/main/java/util/AStar.java:202-231 | One more addNeighbourNode call extends the run by that cell. |
| SearchStates.Search.VisitKeepsInv | src/main/java/util/AStar.java:253-266 | addNeighbourNode on an offered cell keeps the search invariant. |
| SearchStates.Search.VisitAllKeepsInv | src/main/java/util/AStar.java:202-231 | A run of addNeighbourNode calls on offered cells keeps the search invariant. |
| SearchStates.Search.ExpandKeepsInv | src/main/java/util/AStar.java:169 | addNeighbours keeps the invariant and the closed set, and only grows the open list. Afterwards every walkable cell offered from the expanded cell is open or closed. |
| SearchStates.Search.ChainStep | src/main/java/util/AStar.java:238-244 | backTracePath from a closed cell lists the cell itself. If the cell has a previous node, that node was closed earlier and its own trace follows. |
| SearchStates.Search.ChainEnds | src/main/java/util/AStar.java:238-244 | The traced path starts at the cell and ends at the start node. Every cell on it is closed, and no later than the first cell. |
| SearchStates.Search.ChainNoDup | src/main/java/util/AStar.java:238-244 | The traced path has no repeated cell, so the recursion ends. |
| SearchStates.Search.ChainSteps | src/main/java/util/AStar.java:238-244 | Each cell on the traced path was reached from the next one by an offered move into a walkable cell. |
| SearchStates.Search.ChainCost | src/main/java/util/AStar.java:238-244 | A closed cell's g cost is the summed step costs of its traced path. |
| SearchStates.Search.FoundPath | src/main/java/util/AStar.java:161-166 | Once the destination is closed, its traced path runs from the destination to the start and has no repeats. Its f cost, i.e. totalCost, is the path's step cost. Reversed, the path is a walk from the start to the destination, so the destination is reachable. |
| SearchStates.Search.CloseStep | src/main/java/util/AStar.java:154-155 | Polling keeps the invariant. The closed set grows by exactly the polled cell and stays inside the grid. Only the polled cell may violate the frontier property. |
| SearchStates.Search.OpenInGrid | src/main/java/util/AStar.java:154 | Every open cell lies in the grid, so polling reads a real node. |
| SearchStates.Search.ExpandStep | src/main/java/util/AStar.java:169 | Expanding the polled cell restores the frontier property: every walkable cell offered from a closed cell is open or closed. |
| SearchStates.Search.ExhaustedMeansUnreachable | src/main/java/util/AStar.java:148-187 | If the open list empties while the destination is still unclosed, no walk reaches the destination. |
| SearchStates.Search.ExhaustedHoldsReachable | src/main/java/util/AStar.java:148-187 | When the open list runs dry, the closed set holds every cell that a walk from the start reaches. |
| SearchStates.Search.Outcome | src/main/java/util/AStar.java:137-195 | The search finds a path exactly when the destination is reachable. If it finds one, the path is the traced chain: destination first, start last, no repeats, cost equal to totalCost, and a walk when reversed. If not, every cell reachable from the start is closed. |
| AStarSearch.AStar.Node | src/main/java/util/AStar.java:472-474 | getNode returns the grid's node at that position, and it knows its own position. |
| AStarSearch.AStar.constructor | src/main/java/util/AStar.java:79-106 | Builds a size x size grid of fresh nodes, each knowing its position and all walkable. Sets the start and destination and a totalCost of Integer.MAX_VALUE. Tags the start `ST` and the destination `FI`, with every other cell blank. |
| AStarSearch.AStar.NewGrid | src/main/java/util/AStar.java:86-93 | The filled grid has size rows of size fresh nodes. The node at row y, column x has position (x, y), is walkable, blank and has no back-link. |
| AStarSearch.AStar.NewRow | src/main/java/util/AStar.java:90-92 | One row of the fill: size fresh nodes, the x-th at (x, i), walkable, blank and without a back-link. |
| AStarSearch.AStar.Create | src/main/java/util/AStar.java:79-84 | Fails with the out-of-bounds error exactly when the start or destination is not in [0, size)². Otherwise it returns a freshly built engine with everything the constructor promises: every cell walkable and untagged except `ST` at the start and `FI` at the destination, no back-links, empty lists, totalCost Integer.MAX_VALUE and diagonals allowed. |
| AStarSearch.AStar.SetStartDestStatus | src/main/java/util/AStar.java:307-310 | The start is tagged `ST` and the destination `FI`, with `ST` winning when they coincide. All other tags are unchanged. |
| AStarSearch.AStar.SetBlock | src/main/java/util/AStar.java:317-329 | Blocking the start or destination fails with that error. Otherwise a cell outside the grid fails with the out-of-bounds error. Otherwise only that cell changes: it becomes unwalkable and tagged `\|\|` when blocked, or walkable and blank when cleared. |
| AStarSearch.AStar.ToggleBlock | src/main/java/util/AStar.java:331-333 | As written, no cell's walkability ever changes. The cell's own walkable flag is passed as `!block`, so a walkable cell is re-cleared (blank) and a blocked one re-blocked (`\|\|`). The call fails exactly for a blocked start or destination, and then the cell's tag is unchanged too. No other cell changes. |
| AStarSearch.AStar.FlipBlock | src/main/java/util/AStar.java:331-333 | The intended toggle: walkability flips, with a matching tag. Blocking a walkable start or destination fails and changes nothing. No other cell changes. |
| AStarSearch.AStar.SetBlocks | src/main/java/util/AStar.java:365-377 | Fails with the wrong-size error exactly when the input is not size x size. Otherwise every cell marked true becomes walkable and blank, and all others are unchanged. This is what the code does. The method's doc comment (AStar.java:359-361) says the opposite: true means the cell should become unwalkable. No caller in the program uses setBlocks, so nothing settles which was meant. |
| AStarSearch.AStar.SetFrom | src/main/java/util/AStar.java:444-448 | The old start is blanked and the start moves to v. The start and destination tags are redrawn. No other cell changes. |
| AStarSearch.AStar.SetTo | src/main/java/util/AStar.java:458-462 | The old destination is blanked and the destination moves to v. The start and destination tags are redrawn. No other cell changes. |
| AStarSearch.AStar.SetAllowDiagonal | src/main/java/util/AStar.java:504-506 | Sets whether diagonal moves are offered. |
| AStarSearch.AStar.Least | src/main/java/util/AStar.java:154 | The open list's head: an index among the first i entries whose node's f cost is no greater than any of theirs. |
| AStarSearch.AStar.PollAndClose | src/main/java/util/AStar.java:154-155 | Removes an entry of least f cost from the open list and adds it to the closed set. It returns the grid's node for that cell. The search state moves by exactly one Close step. |
| AStarSearch.AStar.AddNeighbourNode | src/main/java/util/AStar.java:253-266 | The nodes and lists change exactly as one Visit step of the search state says: a walkable, unclosed neighbour is re-linked and re-costed if new or reached more cheaply, and appended to the open list if new. |
| AStarSearch.AStar.Relax | src/main/java/util/AStar.java:259-263 | The neighbour's back-link and costs become those of the route through the current node. It is appended to the open list if absent. |
| AStarSearch.AStar.AddRowNeighbours | src/main/java/util/AStar.java:212-221 | One pass of the inner diagonal loop acts as addNeighbourNode on each in-grid cell of that row of the 3x3 block, in column order. |
| AStarSearch.AStar.AddBlockCell | src/main/java/util/AStar.java:213-220 | One iteration of the inner diagonal loop extends the run of addNeighbourNode calls by that cell, if it qualifies. |
| AStarSearch.AStar.AddNeighbours | src/main/java/util/AStar.java:202-231 | The nodes and lists change exactly as the search state's Expand says: addNeighbourNode on every offered cell, in the source's order. |
| AStarSearch.AStar.AddBlockNeighbours | src/main/java/util/AStar.java:206-222 | The diagonal branch calls addNeighbourNode on the 3x3 block row by row, each row in column order. |
| AStarSearch.AStar.AddCrossNeighbours | src/main/java/util/AStar.java:223-230 | The four-way branch tries right, left, down and up, in that order. |
| AStarSearch.AStar.AddCrossPair | src/main/java/util/AStar.java:225-228 | Two consecutive four-way tries extend the run by those cells that pass isInBounds. |
| AStarSearch.AStar.AddIfInBounds | src/main/java/util/AStar.java:225 | One four-way try calls addNeighbourNode exactly when the cell passes isInBounds. |
| AStarSearch.AStar.BackTracePath | src/main/java/util/AStar.java:238-244 | Following back-links from a closed node appends its traced chain to the path. A null node appends nothing. |
| AStarSearch.AStar.SetFinalPathStatus | src/main/java/util/AStar.java:282-291 | Every path cell is tagged `~~`, then the start `ST` and the destination `FI`. All other tags are unchanged. |
| AStarSearch.AStar.StatusRows | src/main/java/util/AStar.java:411-421 | The status tags row by row: n rows, each the tags of that grid row. |
| AStarSearch.AStar.StatusRow | src/main/java/util/AStar.java:415-418 | The tags of one grid row, left to right. |
| AStarSearch.AStar.ToString | src/main/java/util/AStar.java:387-426 | The text is the grid dump of the current tags. When every tag has two characters and 1 ≤ size ≤ 100, it is 3(size+2)(size+3) characters long. |
| AStarSearch.AStar.ColumnHeader | src/main/java/util/AStar.java:392-402 | The loop builds the column-index line. |
| AStarSearch.AStar.AppendRows | src/main/java/util/AStar.java:411-421 | The row loop appends every row line in order. |
| AStarSearch.AStar.AppendRow | src/main/java/util/AStar.java:413-420 | One row iteration appends that row's line. |
| AStarSearch.AStar.DumpLength | src/main/java/util/AStar.java:387-426 | With two-character tags and 1 ≤ size ≤ 100, the dump has 3(size+2)(size+3) characters. |
| AStarSearch.AStar.CalcPath | src/main/java/util/AStar.java:137-195 | Finds a path exactly when the destination is reachable from the start through walkable cells by offered moves. The path lists the destination first and the start last, has no repeats, and totalCost is its step cost. Reversed, it is such a walk. The path cells are tagged `~~` and the start and destination re-tagged. If no path is found, the open list is exhausted, the closed set holds every cell reachable from the start, and totalCost and every tag are unchanged. |
| AStarSearch.AStar.FindPath | src/main/java/util/AStar.java:139-187 | The search part of calcPath: found exactly when reachable, with the path facts above. Otherwise the path is empty, totalCost unchanged, the open list empty and every cell reachable from the start closed. |
| AStarSearch.AStar.OpenStart | src/main/java/util/AStar.java:139-145 | The start's costs are zero and the open list is just the start. The search invariant and frontier property hold. |
| AStarSearch.AStar.ZeroStart | src/main/java/util/AStar.java:139-141 | The start's f, g and h costs become 0. Every other cell's costs are unchanged, and no node gains a back-link. |
| AStarSearch.AStar.MirrorNodes | src/main/java/util/AStar.java:137-145 | The nodes as calcPath finds them (no back-links, start costs zeroed) give a search state that has not started, with every cell unlinked and the walkable cells fixed for the run. |
| AStarSearch.AStar.OpenFrom | src/main/java/util/AStar.java:145 | Adding the start to the empty open list establishes the invariant and the frontier property. |
| AStarSearch.AStar.SearchLoop | src/main/java/util/AStar.java:148-187 | The while loop ends with a path exactly when the destination is reachable. A found path is the traced chain. If none is found, totalCost is unchanged, the open list is empty and the closed set holds every cell reachable from the start. |
| AStarSearch.AStar.Round | src/main/java/util/AStar.java:153-186 | One iteration closes one more cell (the closed set strictly grows within the grid). It ends the search with the traced path and totalCost = the destination's f, or restores the frontier property with the destination still unclosed. |
| AStarSearch.AStar.HandleClosed | src/main/java/util/AStar.java:161-169 | If the polled node is the destination, the path is its trace and totalCost its f cost. Otherwise its neighbours are added and the frontier property holds again. |
| AStarSearch.AStar.FinishPath | src/main/java/util/AStar.java:163-165 | Sets totalCost to the destination's f cost and traces the path back from it. |
| AStarSearch.AStar.ExpandClosed | src/main/java/util/AStar.java:169 | addNeighbours on the polled node restores the frontier property and keeps the invariant. |
| GridDump.NatStr | src/main/java/util/AStar.java:397 | `%d` of a natural number is a non-empty string of decimal digits. |
| GridDump.NatStrRoundTrip | src/main/java/util/AStar.java:397 | Reading the printed digits back gives the number. |
| GridDump.TwoDigitsLength | src/main/java/util/AStar.java:396-400 | The row and column labels of indices below 100 have two characters and read back as the index. |
| GridDump.CellsStep | src/main/java/util/AStar.java:415-418 | Appending one more tag, after a space, extends the row's cell text by that cell. |
| GridDump.RowStep | src/main/java/util/AStar.java:413-420 | Unfolding step that the row-appending loop uses. It splits a row line into the row label, the cells' text and the newline. |
| GridDump.BodyStep | src/main/java/util/AStar.java:411-421 | Appending a row line extends the body by that row. |
| GridDump.RenderUnfold | src/main/java/util/AStar.java:387-426 | Unfolding step that ToString uses. It splits the dump into the header line, a dash line, the row lines and a final dash line, each dash line size·3+5 dashes long. |
| GridDump.HeaderLength | src/main/java/util/AStar.java:392-402 | For 1 ≤ n ≤ 100 the column-index line has 3n+6 characters. |
| GridDump.CellsTextLength | src/main/java/util/AStar.java:415-418 | A row of two-character tags gives three characters per cell. |
| GridDump.RowLineLength | src/main/java/util/AStar.java:413-420 | A row line of n two-character tags has 3n+6 characters. |
| GridDump.BodyLength | src/main/java/util/AStar.java:411-421 | n such rows give n(3n+6) characters. |
| GridDump.RenderLength | src/main/java/util/AStar.java:387-426 | An n x n grid of two-character tags, 1 ≤ n ≤ 100, dumps to 3(n+2)(n+3) characters. |
| GridDump.RenderFrame | src/main/java/util/AStar.java:387-426 | The dump begins with the column-index line and ends with a dash. Its length is the header's plus the body's plus the two dash lines and two newlines. |
| Maze.Half | src/main/java/util/MazeGenerator.java:76 | Java's `/ 2`: the half rounded toward zero. |
| Maze.Wall | src/main/java/util/MazeGenerator.java:58-59 | initMaze's wall test: every in-grid cell it leaves open is a room the carver can reach. |
| Maze.TwoStep | src/main/java/util/MazeGenerator.java:67-70 | A neighbour of getUnvistedNeighbours is two cells away along one axis. The cell removeWall clears lies next to both rooms. |
| Maze.Mid | src/main/java/util/MazeGenerator.java:76 | For two cells two apart along one axis, the cleared cell lies on that axis, one cell from each. |
| Maze.Candidates | src/main/java/util/MazeGenerator.java:66-70 | The candidates are exactly the rooms two steps left, right, down or up that stay strictly inside the border tests. There are no repeats. |
| Maze.Unvisited | src/main/java/util/MazeGenerator.java:71 | removeIf keeps exactly the candidates not yet visited, and never adds. |
| Maze.MazeGenerator.constructor | src/main/java/util/MazeGenerator.java:15-18 | The grid is size.y x size.x and all false. |
| Maze.MazeGenerator.InitMaze | src/main/java/util/MazeGenerator.java:55-63 | A cell is a wall exactly when it is in an even row or column, the last row or the last column. |
| Maze.MazeGenerator.UnvisitedNeighbours | src/main/java/util/MazeGenerator.java:65-73 | Returns null exactly when the room has no unvisited room two steps away. Otherwise the list is non-empty and holds exactly those rooms. |
| Maze.MazeGenerator.RemoveWall | src/main/java/util/MazeGenerator.java:75-77 | Clears exactly the cell midway between the two rooms, with Java's truncating halving. |
| Maze.MazeGenerator.Generate | src/main/java/util/MazeGenerator.java:20-53 | The returned grid is the generator's grid. The visited rooms form a tree: each was carved from an earlier one two steps away. Every room is visited. A cell is wall exactly when InitMaze made it wall and no passage between tree neighbours was carved through it. When neither side is 2, the outer border stays wall. |
| Maze.MazeGenerator.Carve | src/main/java/util/MazeGenerator.java:46-47 | Carving to an unvisited room extends the tree and clears exactly the wall between them. |
| Maze.MidInside | src/main/java/util/MazeGenerator.java:76 | The wall between a room and any candidate lies in the grid, so removeWall does not throw. |
| Maze.TwoStepRoom | src/main/java/util/MazeGenerator.java:67-70 | A candidate of a room is a room. |
| Maze.CarvedSnoc | src/main/java/util/MazeGenerator.java:46-47 | Adding a visited room keeps the tree. The carved passages grow by exactly the new wall. |
| Maze.VisitedBound | src/main/java/util/MazeGenerator.java:47 | The visited list never outgrows the grid's capacity, so the loop ends. |
| Maze.BacktrackingPop | src/main/java/util/MazeGenerator.java:42-43 | Popping a room with nothing left to visit keeps this invariant: every visited room off the stack has no unvisited room two steps away. |
| Maze.BacktrackingPush | src/main/java/util/MazeGenerator.java:44-48 | Pushing the current room back and then the chosen one keeps that invariant. |
| Maze.RowReached | src/main/java/util/MazeGenerator.java:40-50 | When every visited room is exhausted and (1, 1) is visited, every room of row 1 is visited. |
| Maze.ColumnReached | src/main/java/util/MazeGenerator.java:40-50 | Under the same conditions, every room of each column is visited. |
| Maze.RoomsReached | src/main/java/util/MazeGenerator.java:40-50 | When the loop ends, every room has been visited. |
| Maze.MidInterior | src/main/java/util/MazeGenerator.java:75-77 | When no side is 2, a carved wall is never on the border. |
| Maze.CarvedInterior | src/main/java/util/MazeGenerator.java:40-50 | When no side is 2, every carved passage lies strictly inside the border. |
| Maze.Trail | src/main/java/util/MazeGenerator.java:40-50 | The tree path from (1, 1) to a visited room starts at the first and ends at the second. |
| Maze.RoomStep | src/main/java/util/MazeGenerator.java:75-77 | A carved passage joins its two rooms through open, adjacent cells. |
| Maze.TrailWalk | src/main/java/util/MazeGenerator.java:40-50 | The tree path to a visited room is a walk through open cells, each adjacent to the next. |
| Maze.Connected | src/main/java/util/MazeGenerator.java:20-53 | For sides of at least 3, every visited room is connected to (1, 1) by a walk through open cells. The carved maze is one connected piece. |

## Findings

| source | as written | input that shows it | evidently intended | confidence | as-written member | corrected member |
|---|---|---|---|---|---|---|
| src/main/java/util/AStar.java:331-333 | `toggleBlock` calls `setBlock(v, !isWalkable())`, so it blocks a cell exactly when it is already blocked. | A walkable cell that is neither start nor destination stays walkable after `toggleBlock`. A blocked cell stays blocked. | `setBlock(v, isWalkable())`: block a walkable cell and clear a blocked one. | not executed | AStarSearch.AStar.ToggleBlock | AStarSearch.AStar.FlipBlock |

## Left out

- UI, threads and pacing. The Swing/JavaFX controller calls, `Thread.sleep`, the `CountDownLatch` wait and the console message in calcPath are not modelled. They do not change the search.
- The concurrent collections. The open list and closed set are plain sequences and sets, because the search runs on one thread.
- Step tracking. `trackSteps`, the `steps` list and the constructor that turns tracking on are left out. They only store snapshots of the dump.
- `updateNodeCostStatus` (AStar.java:296-305) is left out. It is not only a snapshot. It overwrites the tag of every open and closed node with that node's f cost as a decimal string, which can be of any length, and then restores `ST` and `FI`. After it runs, tags are no longer two characters long, which `AStarSearch.AStar.Valid` assumes, and `toString` prints those cost strings. The search loop calls it at the top of each round when step tracking is on, and the print-grid button calls it before printing. The model's search therefore never rewrites tags with costs, and ToString's length guarantee does not cover a grid printed after such an update.
- `setRandomBlocks`. It draws from `java.util.Random`, and its random draw is not modelled.
- `H_COST_WEIGHT`. The source declares it but never uses it.
- The getters other than `getNode`, and the `setFrom(AstarNode)`, `setTo(AstarNode)` and `setNode` methods. The setters replace references without any checks or invariant, and the model's grid of nodes is fixed after construction.
- AStarSearch.AStar.Node: requires an in-grid cell. `getNode` indexes the array directly, so Java throws an array index exception outside the grid. That exception is not modelled.
- AstarNode `setX` and `setY` (AstarNode.java:120-130) are left out. They move a node by changing its position in place. The model makes a node's position a constant, because the engine never moves a node. `AStarSearch.AStar.Positions` and every lookup through `Node` depend on each node staying at its grid cell.
- Integer overflow. Costs are unbounded integers. `INT_MAX` is kept as the value a fresh node's costs start at, and g costs stay far below it on any grid the program draws.
- Poll order. The model polls the first entry of least current f cost. Java's heap keeps the stale keys of nodes whose f cost was lowered in place, so it can poll an entry that is not least. The path found, and its cost, can then differ from Java's, and not only between equal f costs. Every stated property accepts any poll order, so none depends on this.
- AStarSearch.AStar.CalcPath: stated for one search on an engine whose nodes are all unlinked, as after construction. A second call on the same engine reuses the links and closed set of the first, and is not modelled.
- AStarSearch.AStar.SetBlock: requires non-negative coordinates. Java indexes the array with a negative coordinate and throws an out-of-bounds exception that the method does not raise itself.
- AStarSearch.AStar.ToggleBlock: requires an in-grid cell, for the same reason.
- AStarSearch.AStar.SetFrom: requires an in-grid cell. For a cell outside the grid, Java first blanks the old start's tag and then throws on the array index, leaving that partial change. This is not modelled.
- AStarSearch.AStar.SetTo: requires an in-grid cell. Java likewise blanks the old destination's tag before it throws.
- AStarSearch.AStar.ToString: its length is stated only for 1 to 100 rows with two-character tags. The text itself is stated for every grid.
- AstarNodes.HCost: `Math.sqrt` works on doubles. The model uses the exact integer square root. The two agree while the squared distance fits exactly in a double, which holds for any grid the program can allocate.
- Maze randomness. `Random.nextInt` is replaced by a function passed in, taken modulo the number of candidates. The uniform distribution is not modelled.
- Maze `start` field. The generator's `start` field is kept as a local, since only `generate` uses it.
- Maze.MazeGenerator.constructor: requires non-negative sides. Java throws NegativeArraySizeException for a negative side, which is not modelled.
- Maze.MazeGenerator.Generate: requires a size on which removeWall stays inside the grid (`Carvable`: a side of 5 or more needs the other side to be at least 2). On other sizes the Java throws an index exception, which is not modelled.
- Maze.MazeGenerator.Generate: the border guarantee is stated only when neither side is 2. With a side of 2, the last row or column is row or column 1, so carving from (1, 1) can open a border cell.
- Maze.MazeGenerator.Generate: the order in which rooms are visited is stated only through the tree. The exact sequence depends on the random draws.
- Maze.Connected: stated for sides of at least 3. With smaller sides, (1, 1) may itself fall on a border wall.
- `Vector2`. It is modelled only as an immutable pair of coordinates. Its other helpers are not part of this model.
