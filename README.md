# Maze game core in Dafny

This project models the algorithmic core of the maze game (`maze.py`):

- **generation**: `create_maze` rebuilds the maze array. Every cell becomes a wall on an independent draw. Then the agent's start cell and the goal cell are forced open.
- **search**: `find_shortest_path` is a breadth-first search over the 4-connected grid. Its FIFO queue holds `(position, path-so-far)` entries. A cell is skipped when it is dequeued again, so it can sit in the queue several times but is expanded only once. The start cell is queued without looking at it. A neighbour is queued only if it is on the grid and open. The search returns `path + [goal]` when the goal is dequeued, and `[]` when the queue runs dry.
- **retry loop**: the first phase of `main` regenerates and re-searches until the path has more than one cell. It then computes `distance = len(path) - 1`.

Layout, one module per component:

- `grid.dfy` (`MazeGrid`): cells, the action table `[(0,-1), (0,1), (-1,0), (1,0)]` (left, right, up, down in (row, col) terms), grid values (0 open, 1 wall), and `Snapshot`, which reads the maze array as a sequence of rows.
- `paths.dfy` (`Paths`): walks, paths and shortest paths, and the facts about them that the search relies on.
- `search.dfy` (`Search`): the search as an imperative method over the maze array, with a `seq` queue and a `set` of visited cells. The neighbour loop is its own method. The layer invariants of breadth-first search are proved as lemmas.
- `generator.dfy` (`Generator`): the grid that generation produces from its draws, and what it promises cell by cell.
- `game.dfy` (`Game`): the class that holds the maze array, the start and the goal; `CreateMaze`, which writes the array in place; and the retry loop.

A walk from the start is a non-empty sequence of cells beginning at the start. Consecutive cells in it differ by one action, and every cell after the first is open. The first cell is not required to be open, because the search never checks the start cell. The height, width, start and goal are parameters. The game's own values (a 15 x 20 grid from 600//40 and 800//40, start (1, 1), goal (13, 18)) are one instance of them, built by `Game.MazeGame.Default`.

Random draws are inputs. `CreateMaze` takes one boolean per cell in row-major order, where true means "wall". The retry loop takes a sequence of such draw sets, one per attempt.

## Model

| member | source | states |
|---|---|---|
| MazeGrid.Move | maze.py:60 | an action moves exactly one row or exactly one column |
| MazeGrid.AdjacentIsUnitStep | maze.py:60 | the four actions reach exactly the 4-neighbours of a cell (both directions) |
| MazeGrid.AllCellsCount | maze.py:31 | a height x width maze has height * width cells |
| Paths.ClosedSetHoldsWalks | maze.py:77-82 | a set that holds the start and every open neighbour of its members holds the end of every walk from the start; this is why an exhausted queue means "unreachable" |
| Paths.ShortestPathHasNoRepeats | maze.py:64-80 | a shortest path contains no cell twice |
| Paths.ShortestPathFitsGrid | maze.py:64-80 | a shortest path from a start on the grid has at most height * width cells |
| Search.QueueNeighbours | maze.py:77-80 | the queue is extended by one entry per in-bounds open neighbour, in action order; each new entry carries the current path plus the current cell |
| Search.ExpandKeepsInvariants | maze.py:77-80 | queuing the neighbours keeps every entry a walk and the queue sorted in two layers, and every open neighbour of the expanded cell is then visited already or queued at most one step further on |
| Search.FrontAdvance | maze.py:67-80 | once every queued walk is longer than the current layer, every walk of the layer's length ends at a visited cell |
| Search.DequeueStep | maze.py:67-80 | one turn of the loop (a repeat dequeue is skipped; otherwise the cell is visited, then the search stops at the goal or queues the neighbours) keeps the search invariant and shrinks the set of cells not yet visited; a goal dequeued for the first time carries a shortest path |
| Search.FindShortestPath | maze.py:63-82 | a non-empty result is a path from start to goal through open in-bounds cells, each step one action, with no more cells than any other such path; the result is [] exactly when the goal is unreachable; start == goal gives [goal]; with the start on the grid the result has at most height * width cells; the maze is only read; the loop terminates because each cell is expanded at most once |
| Generator.GeneratedGridCharacterized | maze.py:38-44 | the generated grid is the only grid that is height x width, has start and goal open, and has every other cell a wall exactly when its draw says so |
| Generator.GeneratedStartGoalOpen | maze.py:43-44 | start and goal are open whatever the draws were |
| Generator.GeneratedFollowsDraws | maze.py:39-42 | every cell other than start and goal is open exactly when its draw said "no wall" |
| Generator.GeneratedGridIsBinary | maze.py:38-44 | every generated cell holds 0 or 1 |
| Game.MazeGame.constructor | maze.py:30-33 | a game starts with an all-open height x width maze and the given start and goal, both on the grid |
| Game.MazeGame.Default | maze.py:7-11 | the game's own configuration: 600 // 40 = 15 rows, 800 // 40 = 20 columns, start (1, 1), goal (MAZE_HEIGHT - 2, MAZE_WIDTH - 2) = (13, 18) |
| Game.MazeGame.CreateMaze | maze.py:36-44 | the maze is a fresh height x width array equal to the grid generated from the draws; start and goal hold 0 |
| Game.MazeGame.GenerateSolvableMaze | maze.py:106-114 | stops at the first draw set whose maze has a path of more than one cell, and is solved exactly when some draw set yields one; the path is then a shortest path in the current maze and distance = len(path) - 1 >= 1; when no draw set works the path has at most one cell and the maze is the one generated from the last draw set |

## Left out

- Rendering and timing: `pygame` set-up, `draw_maze`, `draw_goal`, `draw_path`, `animate_agent` and the event, render and delay loop (maze.py:21-28, 47-57, 85-103, 115-138). These are display I/O.
- `random.random() < 0.2` (maze.py:41): the random source and the floating-point threshold are replaced by supplied boolean draws.
- numpy: the float array of maze.py:31 and 38 is an `array2<int>` holding 0 and 1.
- Game.MazeGame.GenerateSolvableMaze: the source's `while True` has no bound. The model runs over a finite sequence of draw sets and returns `solved == false` when they run out. Termination of the source loop depends on the random draws and is not claimed.
- Game.MazeGame.constructor: it requires start and goal on the grid. numpy raises `IndexError` for an index at or past the size or below minus the size, and wraps an index from minus the size to -1; neither behaviour is modelled. `FindShortestPath` itself accepts any start and goal.
- Search.FindShortestPath: when several shortest paths exist, its contract does not say which one is returned. The code tries the actions in table order and `QueueNeighbours` states that order, but the resulting tie-break is not characterised.
- Repeated searches on the same maze give the same result. This follows from the search having no state of its own, but it is not stated as a lemma.

Behaviour of the code that the model follows exactly:

- `find_shortest_path` dedups a cell when it is dequeued (maze.py:70-72), not when it is queued, so a cell can sit in the queue more than once.
- The comment at maze.py:59 says up, down, left, right; the table at maze.py:60 tries left, right, up, down, and the model uses the table.
- The start cell is queued without being checked for a wall (maze.py:65), so a walled start still begins the search.
- The code checks no dimensions, no wall probability and no retry limit.
