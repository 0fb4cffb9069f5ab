# AI-Game in Dafny

This project models the logic of two small demo games and proves properties of that model.

The first game is a maze runner:
- a maze generator, a recursive-backtracker carve with extra branches, dead ends and an exit fix-up;
- a player marker moved one cell per key press;
- a solver that finds a path from the start to the exit by breadth-first, depth-first or A* search over the occupancy grid (`0` open, `1` wall, indexed `maze[y][x]`, positions `(x, y)`).

The second game is tic-tac-toe, where a human (X) plays an AI (O):
- a 3×3 board with update, winner, full and empty-cell queries;
- an exhaustive minimax search and an alpha-beta search, both writing a symbol into the board, searching, and writing `None` back;
- the older module-level minimax;
- the AI facade that picks one of the two engines;
- the game state machine: turns, game over, winner, restart.

The model keeps the form of the code.
- Searches that mutate maps, queues and stacks are `method`s with loop invariants.
- The maze generator writes an `array2` in place.
- The tic-tac-toe board is a class whose `board` field the searches overwrite and restore.
- The player and the game are classes whose methods update their fields.

Each method is proved against a specification function and carries the invariant that function keeps. For example, `BestMove` is the first strictly best empty cell in row-major order.

Headline results:
- Every search returns a valid path exactly when the goal differs from the start and is reachable, and `[]` otherwise. The breadth-first path is shortest. The depth-first and A* paths are simple.
- Maze generation:
  - The generated maze is a binary square grid.
  - Its border stays wall (side at least 4).
  - The exit is open and has an open neighbour.
  - Branch injection only opens cells, and dead-end injection only closes them.
  - The carve loop terminates.
- Both tic-tac-toe searches leave the board as they found it. Minimax scores lie in {-1, 0, 1}.
- Alpha-beta's value is sound for every window: it is exact inside the window and on the correct side outside it. Alpha-beta picks the same move as plain minimax.
- The game keeps a consistent state across every frame. The AI always has a legal move when it is its turn.

Randomness enters as parameters:
- the four-direction orders produced by `random.shuffle`, one per carve step;
- the coordinates produced by `random.randint`.

Key presses, mouse clicks and the mouse position arrive as values.

## Model

| member | source | states |
|---|---|---|
| Grid.OffsetsAreNeighbours | AI.py:23-24 | each of the four neighbour offsets leads to a 4-neighbour |
| Grid.NeighbourIsOffset | AI.py:23-24 | every 4-neighbour is reached by one of the four offsets, so the scan misses none |
| Grid.InBoundsInCells | AI.py:11 | every in-bounds cell is among the finitely many cells a search can visit |
| ParentChain.Reverse | AI.py:90 | the result has the same length and holds the elements back to front |
| ParentChain.ChainIsPath | AI.py:84-91 | for a cell with a parent, the parent chain (root excluded, cell included) is a walk of open, 4-adjacent cells from the start to that cell |
| ParentChain.ChainSimple | AI.py:84-91 | every chain element has a parent and a rank no higher than the cell's, ranks strictly increase along the chain, so no cell repeats |
| ParentChain.ChainLength | AI.py:84-91 | when each parent is exactly one rank lower, the chain's length is the cell's rank |
| SearchFacts.ClosedSetHoldsWalk | AI.py:23-30 | a set holding the start and closed under open 4-neighbours holds every cell of every walk from the start |
| SearchFacts.ClosedSetBlocks | AI.py:30 | if such a set misses the goal, then no walk from the start reaches the goal |
| SearchFacts.WalkTail | AI.py:23-25 | dropping the first step of a walk leaves a walk from that step's cell, and the step is an open 4-neighbour |
| SearchFacts.ManhattanBelowWalk | AI.py:80-82 | every path to the goal is at least as long as the Manhattan distance |
| PathSearch.AI.constructor | AI.py:5-8 | the start and end positions are stored and the path starts empty |
| PathSearch.AI.Heuristic | AI.py:80-82 | the Manhattan distance to the goal, a natural number that is 0 exactly at the goal |
| PathSearch.AI.HeuristicStep | AI.py:80-82 | the heuristic changes by exactly one between 4-neighbours |
| PathSearch.AI.HeuristicAdmissible | AI.py:80-82 | the heuristic never exceeds the length of a path to the goal |
| PathSearch.AI.ReconstructPath | AI.py:84-91 | the loop terminates and returns the parent chain of the end position, root excluded; it returns `[]` when the end has no parent |
| PathSearch.AI.Bfs | AI.py:10-30 | `[]` iff start equals goal or the goal is unreachable; otherwise a valid path from the start to the goal no longer than any other |
| PathSearch.AI.Dfs | AI.py:32-51 | `[]` iff start equals goal or the goal is unreachable; otherwise a valid path to the goal with no repeated cell that avoids the start |
| PathSearch.AI.AStar | AI.py:53-78 | `[]` iff start equals goal or the goal is unreachable; otherwise a valid path to the goal with no repeated cell that avoids the start; the loop terminates |
| BfsFacts.BfsInnerStart | AI.py:18-22 | popping a non-goal cell from the front starts the neighbour scan with that cell expanded |
| BfsFacts.BfsInnerStep | AI.py:23-28 | an open, unvisited neighbour is marked visited before it is queued, and its parent and depth are set once; any other neighbour changes nothing |
| BfsFacts.QueueAppend | AI.py:26 | appending a new cell one level deeper than the front keeps the queue free of repeats and sorted by depth, with depths within one level |
| BfsFacts.BfsPush | AI.py:24-28 | pushing an open, unvisited neighbour keeps the scan invariant one offset further |
| BfsFacts.BfsFound | AI.py:19-21 | when the goal is at the front, its parent chain is `[]` iff start equals goal or the goal is unreachable, and is otherwise a path to the goal no longer than any other |
| PathSearch.AI.BfsExpand | AI.py:23-28 | the scan over the four neighbours keeps the invariant and never shrinks the visited set; an unchanged visited set means an unchanged queue |
| BfsFacts.BfsInnerDone | AI.py:23-28 | after the four neighbours the loop invariant holds again, with each cell queued at most once |
| BfsFacts.DepthAlongWalk | AI.py:14-28 | along a walk through expanded cells the recorded depth never exceeds the step count |
| BfsFacts.FrontIsShallowest | AI.py:18-28 | the depth of the queue front is at most the length of any walk that reaches it |
| BfsFacts.BfsShortest | AI.py:19-21 | when the goal is popped its depth is at most the length of every path to it |
| BfsFacts.BfsExhausted | AI.py:18-30 | an empty queue means the goal is unreachable |
| DfsFacts.DfsSkip | AI.py:38-43 | popping an already visited cell keeps the invariant |
| DfsFacts.ClosedAfterPop | AI.py:39-44 | a popped cell becomes visited while the closure of the others is kept |
| DfsFacts.DfsVisit | AI.py:39-45 | popping an unvisited non-goal cell marks it visited and starts the neighbour scan |
| DfsFacts.DfsInnerStep | AI.py:45-49 | only an open neighbour not yet visited is pushed and given a parent, so the parent of a visited cell is never overwritten |
| DfsFacts.DfsInnerDone | AI.py:45-49 | after the four neighbours the loop invariant holds again |
| DfsFacts.DfsExhausted | AI.py:38-51 | an empty stack means the goal is unreachable |
| OpenSet.EntryLeTotal | AI.py:75 | the open set's order on `(f, (x, y))` entries is total and antisymmetric, so ties on `f` are broken by the position tuple |
| OpenSet.EntryLeTransitive | AI.py:75 | that order is transitive |
| OpenSet.HeapPop | AI.py:62 | the popped entry is in the open set and below every other entry; the rest is the open set minus that one entry |
| AStarFacts.AStarInit | AI.py:55-59 | the initial open set, costs `{start: 0}` and empty parent map satisfy the invariant |
| AStarFacts.AStarPop | AI.py:61-67 | a popped non-goal entry has a cost, and its neighbour scan starts with the invariant |
| AStarFacts.RelaxCosts | AI.py:71-74 | a strictly lower tentative cost stays below the number of costed cells and spends one unit of the termination budget |
| AStarFacts.RelaxParents | AI.py:71-76 | the start never gets a parent, and setting `parent[n] = c` with `g[n] = g[c] + 1` keeps parents adjacent and chains acyclic |
| AStarFacts.RelaxCore | AI.py:68-76 | one relaxation (cost, open-set push and parent update together) keeps the core invariant |
| AStarFacts.RelaxClosed | AI.py:68-76 | after one relaxation every costed cell outside the open set still has its neighbours costed |
| AStarFacts.AStarRelaxStep | AI.py:70-76 | relaxing an open neighbour whose cost strictly drops to `g[current] + 1` spends one unit of the termination budget and keeps the scan invariant |
| AStarFacts.AStarSkipStep | AI.py:70-72 | a wall, an out-of-bounds cell or a neighbour with a cost no higher is left alone, and the scan invariant still holds |
| AStarFacts.AStarFound | AI.py:64-65 | when the goal is popped, its parent chain is `[]` iff start equals goal or the goal is unreachable, and is otherwise a path to the goal with no repeated cell that avoids the start |
| PathSearch.AI.AStarExpand | AI.py:68-76 | the scan over the four neighbours keeps the current cell's cost, the invariant and `f = g + h` on every costed cell; costed cells keep a cost and no cost ever rises; the termination budget never grows, and an unchanged budget means an unchanged open set |
| PathSearch.AI.AStarRelax | AI.py:69-76 | one neighbour, as `RelaxedBy` states: an in-bounds open neighbour with no cost or a strictly higher one gets cost `g[current] + 1`, priority `g + h`, parent `current` and one pushed entry, and otherwise nothing changes (so a tie does not re-parent); every costed cell keeps `f = g + h`, and no cost rises |
| AStarFacts.AStarInnerDone | AI.py:68-76 | after the four neighbours the loop invariant holds again |
| AStarFacts.AStarExhausted | AI.py:61-78 | an empty open set means the goal is unreachable |
| Carving.ShuffleFacts | Maze.py:23-24 | a shuffled direction list holds exactly the four unit steps |
| Carving.CarveInit | Maze.py:15-19 | the all-wall grid with `(1, 1)` opened and on the stack satisfies the carve invariant |
| Carving.MidpointParity | Maze.py:28-31 | a two-cell step from an odd interior cell lands on an odd interior cell through an interior passage |
| Carving.CarveFramed | Maze.py:28-31 | carving keeps the border walled |
| Carving.CarveFinished | Maze.py:28-32 | carving a passage and pushing the new cell keeps the finished-cell invariant |
| Carving.OnStackPush | Maze.py:28-32 | every stack cell stays open and odd after a push |
| Carving.CarveStep | Maze.py:27-34 | a carve towards a carvable direction (a previously walled interior cell two steps away) that opens it and the passage before it and pushes it keeps the invariant and uses up that wall |
| Carving.NoneCarvableSurrounded | Maze.py:36-37 | a cell with no carvable direction has no walled odd cell two steps away |
| Carving.OnStackPop | Maze.py:36-37 | popping keeps every stack cell open |
| Carving.FinishedPop | Maze.py:36-37 | popping a surrounded cell keeps the finished-cell invariant |
| Carving.CarvePop | Maze.py:36-37 | backtracking from a cell with no carvable direction keeps the invariant |
| Carving.NoneCarvable | Maze.py:26-37 | no carvable direction in the shuffled list means none in any of the four directions |
| Carving.CarveDone | Maze.py:21-37 | an empty stack leaves a carved maze: odd cells open, border wall, cells binary |
| MazeLayout.Set | Maze.py:30-31 | only the written cell changes, and it becomes the written value |
| MazeLayout.CountOpen | Maze.py:85-89 | the open-neighbour counter never exceeds the number of directions checked |
| MazeLayout.OpenNeighbourCountIsCard | Maze.py:83-90 | the counter equals the number of in-bounds open 4-neighbours |
| MazeLayout.DeadEndAt | Maze.py:78-81 | a pick closes its cell iff the cell is open and has exactly one open neighbour; nothing else changes |
| MazeLayout.DeadEndsSnoc | Maze.py:76-81 | the picks are applied one after the other in order |
| MazeLayout.DeadEndsOnlyClose | Maze.py:74-81 | dead-end injection only turns open interior cells into walls |
| MazeLayout.Targets | Maze.py:63-67 | at most one candidate per offset, and each is an open interior cell two steps away |
| MazeLayout.TargetsNext | Maze.py:64-67 | candidates are collected in the offset order `(-2,0),(2,0),(0,-2),(0,2)` |
| MazeLayout.TargetsMember | Maze.py:63-67 | a cell is a candidate iff it is two steps away in a straight line and open and interior |
| MazeLayout.Midpoints | Maze.py:71-72 | one connector per candidate, in order, halfway between the branch cell and the candidate |
| MazeLayout.MidpointsInside | Maze.py:71-72 | connectors of interior cells are interior |
| MazeLayout.MidpointsMember | Maze.py:71-72 | a cell is a connector iff it is the midpoint of some candidate |
| MazeLayout.MidpointOfStep | Maze.py:72 | the floor-division midpoint of a two-cell step is the adjacent cell in that direction |
| MazeLayout.ConnectorIsNeighbour | Maze.py:71-72 | every connector is a 4-neighbour of the branch cell whose mirror cell is a candidate |
| MazeLayout.NeighbourIsConnector | Maze.py:71-72 | every such 4-neighbour is a connector |
| MazeLayout.ConnectorsAreNeighbours | Maze.py:71-72 | both directions together: connectors are exactly those 4-neighbours |
| MazeLayout.OpenAll | Maze.py:71-72 | opening a list of cells opens exactly those cells |
| MazeLayout.OpenAllSnoc | Maze.py:71-72 | connectors are opened one after the other |
| MazeLayout.MidpointsSnoc | Maze.py:71-72 | the connector list grows by one per candidate |
| MazeLayout.ConnectorsInSquare | Maze.py:71-72 | every connector lies inside the grid |
| MazeLayout.BranchAtOpens | Maze.py:62-72 | an accepted branch opens the pick and its connectors and nothing else |
| MazeLayout.BranchAtCells | Maze.py:62-72 | a pick opens cells only if it is a wall with at least two candidates, and then opens exactly the pick and its connectors |
| MazeLayout.BranchesAllSnoc | Maze.py:58-72 | branch picks are applied one after the other in order |
| MazeLayout.BranchesOnlyOpen | Maze.py:56-72 | branch injection only turns walls into open interior cells |
| MazeLayout.OpenNeighbourCountZero | Maze.py:50 | the exit has no open neighbour iff all four neighbours are walls |
| MazeLayout.ExitConnected | Maze.py:46-51 | after the fix-up the exit is open and has at least one open 4-neighbour |
| MazeLayout.FixExitCells | Maze.py:46-51 | the fix-up changes at most the exit and the cell above it, both to open |
| MazeLayout.AllOddOpen | Maze.py:18-37 | after carving, every odd interior cell is open |
| MazeLayout.GeneratedCell | Maze.py:14-54 | every generated cell is 0 or 1, and for side at least 4 every border cell is 1 |
| MazeLayout.Generated | Maze.py:14-54 | the generated grid is binary, its exit is open with an open neighbour, and its border is wall (side at least 4) |
| MazeGeneration.Maze.constructor | Maze.py:8-11 | stores the sizes and a freshly generated `gridSize × gridSize` maze |
| MazeGeneration.Maze.GenerateMaze | Maze.py:14-54 | the array is the carve, branches, dead ends and exit fix-up in that order; it is binary, its exit is open with an open neighbour, and its border is wall |
| MazeGeneration.Maze.CarvePassages | Maze.py:15-37 | the backtracking loop terminates and leaves a carved maze |
| MazeGeneration.Maze.BacktrackStep | Maze.py:21-37 | one iteration keeps the carve invariant; it returns the index `j` of the first carvable direction in the shuffled order, no earlier direction being carvable, and then the grid is the old grid with that walled cell and its passage opened and the cell pushed (`CarvedTowards`); with `j == 4` no direction is carvable, the grid is unchanged and the top of the stack is popped |
| MazeGeneration.Maze.CarveTowards | Maze.py:28-31 | the array becomes the old grid with the passage cell and the cell two steps away set to 0, and that cell is pushed (`Opened`) |
| MazeGeneration.Maze.FirstCarvable | Maze.py:26-34 | the index of the first carvable direction in the shuffled order, or 4 when there is none |
| MazeGeneration.Maze.AddBranches | Maze.py:56-72 | the array ends as the specification applies the branch picks |
| MazeGeneration.Maze.BranchPick | Maze.py:59-72 | one pick changes the array as the specification of one pick says |
| MazeGeneration.Maze.BranchTargets | Maze.py:63-67 | the collected list is exactly the candidate list |
| MazeGeneration.Maze.OpenConnectors | Maze.py:71-72 | opens exactly the connectors of the collected candidates |
| MazeGeneration.Maze.AddDeadEnds | Maze.py:74-81 | the array ends as the specification applies the dead-end picks |
| MazeGeneration.Maze.IsValidDeadEnd | Maze.py:83-90 | true iff exactly one in-bounds 4-neighbour is open |
| MazePlayer.StepOf | search_maze/Player.py:7-14 | each of the four direction names is a unit step, and any other string is no step |
| MazePlayer.Player.constructor | search_maze/Player.py:2-3 | the position is the start position as a list |
| MazePlayer.Player.Move | search_maze/Player.py:5-14 | the new position is the specified move; the maze is a value and cannot change |
| MazePlayer.MoveIff | search_maze/Player.py:7-14 | the position changes iff the direction is valid and its target cell is 0, and then it is the shifted position |
| MazePlayer.UnknownDirectionStays | search_maze/Player.py:7-14 | an unrecognised direction string leaves the position unchanged |
| MazePlayer.MoveIsUnitStep | search_maze/Player.py:7-14 | a move is no step or one 4-neighbour step: one coordinate changes, by one |
| MazePlayer.MoveStaysOpen | search_maze/Player.py:5-14 | on a walled-in grid, a move from an open cell reads only inside the grid and ends on an open cell |
| MazePlayer.MovesStayOpen | search_maze/Player.py:5-14 | after any sequence of moves the player is on an open cell, at most one cell per move from the start |
| MazePlayer.GeneratedIsEnclosed | Maze.py:14-54 | a generated maze of side at least 4 is walled in and its exit is open, so moves there are safe |
| TicTacToeBoard.Other | tic-tac-toe/AI/minmax.py:23 | the opponent symbol differs from the player's |
| TicTacToeBoard.EmptyBoard | tic-tac-toe/board.py:4-5 | a 3×3 grid of empty cells |
| TicTacToeBoard.Board.constructor | tic-tac-toe/board.py:4-5 | a new board is the empty 3×3 board |
| TicTacToeBoard.Put | tic-tac-toe/board.py:9 | only the written cell changes, and it becomes the written value |
| TicTacToeBoard.Board.Update | tic-tac-toe/board.py:7-11 | succeeds iff the cell is in range and empty; on success only that cell changes, to the player; on failure nothing changes |
| TicTacToeBoard.PutRestores | tic-tac-toe/AI/minmax.py:12-14 | writing a cell and then writing its old content back restores the board |
| TicTacToeBoard.PlaceDecreases | tic-tac-toe/AI/minmax.py:37-39 | placing a symbol on an empty cell removes exactly one empty cell |
| TicTacToeBoard.Owner | tic-tac-toe/board.py:17-27 | a line has an owner only if all three cells hold it, and has none if the line is not complete |
| TicTacToeBoard.WinnerFromIsFirstOwner | tic-tac-toe/board.py:15-27 | the row-then-column loop and the two diagonals check the lines in the order r0, c0, r1, c1, r2, c2, main, anti |
| TicTacToeBoard.WinnerIsFirstLine | tic-tac-toe/board.py:15-27 | a winner is the owner of a complete line, and no earlier line in that order is complete |
| TicTacToeBoard.FirstOwnerFound | tic-tac-toe/board.py:15-29 | a found owner is that of the first complete line from the given position on |
| TicTacToeBoard.FirstOwnerNone | tic-tac-toe/board.py:15-29 | no owner found means no complete line from the given position on |
| TicTacToeBoard.NoWinnerIffNoLine | tic-tac-toe/board.py:13-29 | the winner is None iff no line is complete |
| TicTacToeBoard.EmptyInRowMember | tic-tac-toe/board.py:34-36 | a row's part of the empty-cell list holds exactly that row's empty cells |
| TicTacToeBoard.EmptyCellsMember | tic-tac-toe/board.py:34-36 | the empty-cell list holds exactly the in-range empty cells |
| TicTacToeBoard.RowMajorAppend | tic-tac-toe/board.py:35 | concatenating two row-major lists, the first entirely before the second, is row-major |
| TicTacToeBoard.EmptyInRowOrdered | tic-tac-toe/board.py:35-36 | a row's empty cells are in strictly increasing column order within that row |
| TicTacToeBoard.EmptyCellsOrdered | tic-tac-toe/board.py:34-36 | the empty-cell list is in strictly increasing row-major order, so without duplicates |
| TicTacToeBoard.FullIffNoEmptyCells | tic-tac-toe/board.py:31-36 | the board is full iff the empty-cell list is empty |
| TicTacToeBoard.FullIffNoneEmpty | tic-tac-toe/board.py:31-32 | the board is full iff no cell is None |
| TicTacToeGameTree.Terminal | tic-tac-toe/AI/minmax.py:25-31 | +1 iff the AI has won, -1 iff the opponent has won, 0 iff nobody has won and the board is full, the winner being checked first |
| TicTacToeGameTree.Child | tic-tac-toe/AI/minmax.py:37-39 | a child board is a board with fewer empty cells, so the recursion terminates |
| TicTacToeGameTree.ScanBounds | tic-tac-toe/AI/minmax.py:33-51 | the scan's result is at least as good as the starting best and as every child still ahead, and equals the starting best or a child ahead |
| TicTacToeGameTree.ValueRange | tic-tac-toe/AI/minmax.py:26-51 | every minimax value lies in {-1, 0, 1} |
| TicTacToeGameTree.NodeIsBestChild | tic-tac-toe/AI/minmax.py:33-51 | a non-terminal node's value is the value of some open child, and it is the max (maximizing) or min (minimizing) over all open children |
| TicTacToeGameTree.ABScanKeepsBest | tic-tac-toe/AI/alpha_beta.py:35-60 | the pruned scan never returns worse than its starting best |
| TicTacToeGameTree.ABValueRange | tic-tac-toe/AI/alpha_beta.py:24-60 | the alpha-beta value lies in {-1, 0, 1} for every window, including the narrowed windows of the inner calls |
| TicTacToeGameTree.ABScanRange | tic-tac-toe/AI/alpha_beta.py:35-60 | the pruned loop ends in -1..1 when it starts there, or when it starts at its sentinel with an open cell still ahead |
| TicTacToeGameTree.ABSound | tic-tac-toe/AI/alpha_beta.py:24-60 | for every window inside [-2, 2], the alpha-beta value equals the minimax value when that value is strictly inside the window, and lies on the same side otherwise |
| TicTacToeGameTree.ABScanMaxSound | tic-tac-toe/AI/alpha_beta.py:35-47 | maximizing loop with alpha raised and the break out of the column loop only: the window is still sound |
| TicTacToeGameTree.ABScanMinSound | tic-tac-toe/AI/alpha_beta.py:48-60 | minimizing loop with beta lowered and the break out of the column loop only: the window is still sound |
| TicTacToeGameTree.ABExactOnFullWindow | tic-tac-toe/AI/alpha_beta.py:8-15 | with the root window (-inf, +inf) alpha-beta returns the exact minimax value |
| TicTacToeGameTree.RootScansAgree | tic-tac-toe/AI/alpha_beta.py:11-20 | because the root loop never narrows the window, the alpha-beta root scan chooses what the minimax root scan chooses |
| TicTacToeGameTree.ABBestMoveIsBestMove | tic-tac-toe/AI/alpha_beta.py:5-22 | the alpha-beta best move equals the minimax best move on every board |
| TicTacToeGameTree.RootStepOpen | tic-tac-toe/AI/minmax.py:11-18 | an empty cell replaces the best move only when its score is strictly higher |
| TicTacToeGameTree.RootStepSkip | tic-tac-toe/AI/minmax.py:9-11 | an occupied cell is skipped |
| TicTacToeGameTree.RootStateFinal | tic-tac-toe/AI/minmax.py:20 | after the last cell the current move is the first strictly best one |
| TicTacToeGameTree.RootScanFacts | tic-tac-toe/AI/minmax.py:6-20 | the root scan ends with the first empty cell of maximum score in row-major order |
| TicTacToeGameTree.BestMoveIsFirstBest | tic-tac-toe/AI/minmax.py:5-20 | the best move is None iff the board is full; otherwise it is an empty cell whose score no empty cell exceeds, and every earlier empty cell scores strictly less |
| TicTacToeMinimax.Minimax.constructor | tic-tac-toe/AI/minmax.py:2-3 | the player symbol is stored |
| TicTacToeMinimax.Minimax.GetBestMove | tic-tac-toe/AI/minmax.py:5-20 | restores the board and returns the first strictly best empty cell, or None on a full board |
| TicTacToeMinimax.Minimax.Minimax | tic-tac-toe/AI/minmax.py:22-52 | restores the board and returns the minimax value of the position |
| TicTacToeAlphaBeta.AlphaBeta.constructor | tic-tac-toe/AI/alpha_beta.py:2-3 | the player symbol is stored |
| TicTacToeAlphaBeta.AlphaBeta.GetBestMove | tic-tac-toe/AI/alpha_beta.py:5-22 | restores the board and returns the alpha-beta root choice, which is the minimax best move |
| TicTacToeAlphaBeta.AlphaBeta.Minimax | tic-tac-toe/AI/alpha_beta.py:24-60 | restores the board and returns the alpha-beta value for the given window, which lies in {-1, 0, 1} |
| TicTacToeLegacyAI.GetBestMove | tic-tac-toe/ai.py:1-16 | restores the board and returns the minimax best move for `player`, the same move the Minimax class returns |
| TicTacToeLegacyAI.Minimax | tic-tac-toe/ai.py:18-49 | restores the board and returns the minimax value for `ai_player` |
| TicTacToeAI.AI.constructor | tic-tac-toe/AI/ai.py:5-9 | stores the symbol, takes the other symbol as the opponent, and builds both engines for the same symbol |
| TicTacToeAI.AI.UseAlphaBeta | tic-tac-toe/AI/ai.py:12-13 | restores the board and returns the best move for the symbol |
| TicTacToeAI.AI.UseMinimax | tic-tac-toe/AI/ai.py:15-16 | restores the board and returns the same best move as the alpha-beta entry |
| TicTacToeGame.GameOverChecked | tic-tac-toe/game.py:62-66 | the winner becomes the board's winner, and the game is over iff it already was or someone has won or the board is full |
| TicTacToeGame.SwitchTwiceIsIdentity | tic-tac-toe/game.py:58-60 | switching changes the player, and switching twice gives it back |
| TicTacToeGame.PlaceMarks | tic-tac-toe/board.py:7-11 | a successful move adds one mark of the mover and none of the other player |
| TicTacToeGame.InitialConsistent | tic-tac-toe/game.py:13-17 | the initial state is consistent: empty board, X to move, not over, no winner |
| TicTacToeGame.PlayedConsistent | tic-tac-toe/game.py:38-40 | a move, then the game-over check, then the switch, keep a running game consistent |
| TicTacToeGame.FailedMoveChangesNothing | tic-tac-toe/game.py:38-40 | a move outside the board or onto an occupied cell changes nothing, and the turn does not pass |
| TicTacToeGame.SuccessfulMoveSwitches | tic-tac-toe/game.py:38-40 | a successful move places the mover's symbol, records the new board's winner, and only then passes the turn |
| TicTacToeGame.EventsConsistent | tic-tac-toe/game.py:24-40 | the event loop keeps the state consistent |
| TicTacToeGame.AIAlwaysMoves | tic-tac-toe/game.py:43-47 | on O's turn in a running consistent game the alpha-beta search finds a move, and that move is on an empty cell |
| TicTacToeGame.HandleEventsConsistent | tic-tac-toe/game.py:22-52 | a whole frame keeps the state consistent |
| TicTacToeGame.AIWaitsItsTurn | tic-tac-toe/game.py:43 | the AI does not move when the game is over or it is X's turn |
| TicTacToeGame.ClickOutOfTurnIgnored | tic-tac-toe/game.py:29-40 | a click while it is O's turn in a running game is ignored |
| TicTacToeGame.ClickAfterGameOverRestarts | tic-tac-toe/game.py:29-32 | a click after the game is over resets the game and ends the frame with `True` |
| TicTacToeGame.Game.constructor | tic-tac-toe/game.py:11-17 | empty board, AI playing O, X to move, not over, no winner; the state is consistent |
| TicTacToeGame.Game.Reset | tic-tac-toe/game.py:30-32 | the game returns to the initial state with a fresh board and AI |
| TicTacToeGame.Game.MakeMove | tic-tac-toe/game.py:54-56 | succeeds exactly when the board update does, placing the current player |
| TicTacToeGame.Game.SwitchPlayer | tic-tac-toe/game.py:58-60 | the current player becomes the other one and nothing else changes |
| TicTacToeGame.Game.CheckGameOver | tic-tac-toe/game.py:62-66 | the winner is the board's winner; the game is set over when someone has won or the board is full, and is never reset to running |
| TicTacToeGame.Game.Play | tic-tac-toe/game.py:38-40 | a move, then the game-over check and the switch when the move took, leaves the state `Played` describes |
| TicTacToeGame.Game.HandleEvents | tic-tac-toe/game.py:22-52 | the returned flag and the new state are those the turn rule specifies for the events, and a consistent game stays consistent |

## Left out

- Rendering, windowing and event polling (pygame) are I/O and are not modelled. This covers `Maze.draw`, the renderer classes, both game views, `MazeGame.py`, both `main.py` files and `InputField.py`. Events and the mouse position arrive as values.
- `AIMetrics.py` records timing, CPU and memory figures, and `CONSTANTS.py` reads the display size. Neither is logic. `BOARD_SIZE = 3`, `WINDOW_SIZE = 600` and `EMPTY = None` are plain constants here.
- The call sites in `MazeGame.py:36` and `MazeGame.py:70` disagree with the signatures of `Maze` and `AI.bfs`. The model follows the definitions in `Maze.py` and `AI.py`.
- `random.shuffle` and `random.randint` are parameters: one permuted direction list per carve step, and one sequence of picked coordinates each for branches and dead ends.
- The minimax sentinels `float('-inf')` and `float('inf')` are the integers -2 and 2, because every score lies in {-1, 0, 1}.
- The `depth` argument of the minimax functions is passed along but never read by the source. The model does the same.
- Player symbols `'X'` and `'O'` are the two values of a datatype, and an empty cell is `None`.
- The string comparisons in `human_player = 'X' if ... else 'O'` and `switch_player` become `Other`.
- Board rows are values (`seq<seq<Cell>>`), so aliasing between rows of one board is not modelled. A write replaces the whole field.
- The grid searches take the maze as a value. "Never writes the maze" therefore holds by construction rather than by a proof.
- A* keeps its open set as an unordered list popped at its least entry. The binary-heap layout of `heapq` is not modelled; the pop order is the same.
- PathSearch.AI.AStar: the returned path is proved valid and simple, but not shortest. A* optimality under the admissible heuristic is not proved.
- PathSearch.AI.Bfs, PathSearch.AI.Dfs, PathSearch.AI.AStar: the maze must be a non-empty rectangular grid. The source reads `len(maze[0])` and indexes every row with the same bound.
- MazePlayer.Player.Move: requires the one cell a move reads to lie inside the grid. Python's negative indices (a move from row 0 reads the last row) are not modelled. On a generated maze this precondition always holds (`MazePlayer.GeneratedIsEnclosed`).
- MazeGeneration.Maze.GenerateMaze: requires `grid_size >= 3` and states the border property only for side 4 or more. With side 3 the exit fix-up opens the border cell `(1, 0)`.
- MazeGeneration.Maze.GenerateMaze: the carve result is described by the carve invariant (all odd interior cells open, border wall, cells binary), not cell by cell.
- TicTacToeGame.Game.HandleEvents: when the alpha-beta search returns None the model does nothing, whereas the source would fail to unpack the tuple. `TicTacToeGame.AIAlwaysMoves` shows that this case cannot arise in a consistent game, and every game the class builds is consistent.
- TicTacToeGame.Game.HandleEvents: pygame returns the events of a frame as a list, and the position of each click is read when that click is handled. Both are modelled as the event sequence.
