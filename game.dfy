/**
 * The game state: the maze array with its fixed start and goal, maze
 * generation, and the main loop's regenerate-until-solvable step.
 */
module Game {
  import opened MazeGrid
  import opened Paths
  import opened Generator
  import opened Search

  const ScreenWidth: int := 800
  const ScreenHeight: int := 600
  const CellSize: int := 40
  const MazeWidth: int := ScreenWidth / CellSize
  const MazeHeight: int := ScreenHeight / CellSize

  /**
   * The main loop accepts a maze when the search returns more than one
   * cell: the goal is reachable and is not the start.
   */
  ghost predicate Solvable(height: nat, width: nat, start: Cell, goal: Cell, draws: seq<bool>)
    requires |draws| == height * width
  {
    start != goal && Reachable(GeneratedGrid(height, width, start, goal, draws), start, goal)
  }

  class MazeGame {
    const height: nat
    const width: nat
    const agentPos: Cell
    const goalPos: Cell
    var maze: array2<int>

    /** Draw set `k` is the first of `drawSets` that yields a solvable maze. */
    ghost predicate FirstSolvable(drawSets: seq<seq<bool>>, k: int)
      requires forall i :: 0 <= i < |drawSets| ==> |drawSets[i]| == height * width
    {
      && 0 <= k < |drawSets|
      && Solvable(height, width, agentPos, goalPos, drawSets[k])
      && forall i :: 0 <= i < k ==> !Solvable(height, width, agentPos, goalPos, drawSets[i])
    }

    ghost predicate Valid()
      reads this
    {
      && InBounds(height, width, agentPos) && InBounds(height, width, goalPos)
      && maze.Length0 == height && maze.Length1 == width
    }

    /** A game on a height x width maze, all open, with the given start and goal. */
    constructor (height: nat, width: nat, agentPos: Cell, goalPos: Cell)
      requires InBounds(height, width, agentPos) && InBounds(height, width, goalPos)
      ensures Valid() && fresh(maze)
      ensures this.height == height && this.width == width
      ensures this.agentPos == agentPos && this.goalPos == goalPos
      ensures forall r, c :: 0 <= r < height && 0 <= c < width ==> maze[r, c] == OpenCell
    {
      this.height, this.width := height, width;
      this.agentPos, this.goalPos := agentPos, goalPos;
      maze := new int[height, width]((r, c) => OpenCell);
    }

    /** The game's own configuration: a 15 x 20 maze from (1, 1) to (13, 18). */
    constructor Default()
      ensures Valid() && fresh(maze)
      ensures height == MazeHeight == 15 && width == MazeWidth == 20
      ensures agentPos == Cell(1, 1) && goalPos == Cell(MazeHeight - 2, MazeWidth - 2) == Cell(13, 18)
      ensures forall r, c :: 0 <= r < height && 0 <= c < width ==> maze[r, c] == OpenCell
    {
      height, width := MazeHeight, MazeWidth;
      agentPos, goalPos := Cell(1, 1), Cell(MazeHeight - 2, MazeWidth - 2);
      maze := new int[MazeHeight, MazeWidth]((r, c) => OpenCell);
    }

    /**
     * Replaces the maze by a fresh all-open array, makes a wall of every
     * cell whose draw is true, then forces start and goal open.
     */
    method CreateMaze(draws: seq<bool>)
      requires Valid() && |draws| == height * width
      modifies this
      ensures Valid() && fresh(maze)
      ensures Snapshot(maze) == GeneratedGrid(height, width, agentPos, goalPos, draws)
      ensures maze[agentPos.row, agentPos.col] == OpenCell && maze[goalPos.row, goalPos.col] == OpenCell
    {
      maze := new int[height, width]((r, c) => OpenCell);
      for i := 0 to height
        modifies maze
        invariant forall r, c :: 0 <= r < height && 0 <= c < width ==>
          maze[r, c] == if r < i && DrawFor(draws, height, width, Cell(r, c)) then WallCell else OpenCell
      {
        for j := 0 to width
          modifies maze
          invariant forall r, c :: 0 <= r < height && 0 <= c < width ==>
            maze[r, c] == if (r < i || (r == i && c < j)) && DrawFor(draws, height, width, Cell(r, c)) then WallCell else OpenCell
        {
          RowMajorIndex(height, width, i, j);
          if draws[i * width + j] {
            maze[i, j] := WallCell;
          }
        }
      }
      maze[agentPos.row, agentPos.col] := OpenCell;
      maze[goalPos.row, goalPos.col] := OpenCell;
      SnapshotIs(maze, GeneratedGrid(height, width, agentPos, goalPos, draws));
    }

    /**
     * The main loop's first phase: generate a maze from each draw set in
     * turn and search it, stopping at the first whose path has more than
     * one cell; `distance` is the number of steps of that path. When the
     * draw sets run out first, `solved` is false and the maze is the one
     * generated from the last draw set.
     */
    method GenerateSolvableMaze(drawSets: seq<seq<bool>>) returns (path: seq<Cell>, distance: int, solved: bool)
      requires Valid()
      requires forall k :: 0 <= k < |drawSets| ==> |drawSets[k]| == height * width
      modifies this
      ensures Valid()
      ensures solved <==> exists k :: 0 <= k < |drawSets| && Solvable(height, width, agentPos, goalPos, drawSets[k])
      ensures solved ==> exists k :: FirstSolvable(drawSets, k) && Snapshot(maze) == GeneratedGrid(height, width, agentPos, goalPos, drawSets[k])
      ensures solved ==> IsShortestPath(Snapshot(maze), agentPos, goalPos, path)
      ensures solved ==> |path| > 1 && distance >= 1
      ensures !solved ==> |path| <= 1
      ensures !solved && |drawSets| > 0 ==> Snapshot(maze) == GeneratedGrid(height, width, agentPos, goalPos, drawSets[|drawSets| - 1])
      ensures |drawSets| == 0 ==> maze == old(maze)
      ensures distance == |path| - 1
    {
      path, solved := [], false;
      var k := 0;
      while k < |drawSets|
        invariant k <= |drawSets| && Valid()
        invariant |path| <= 1
        invariant forall i :: 0 <= i < k ==> !Solvable(height, width, agentPos, goalPos, drawSets[i])
        invariant k > 0 ==> Snapshot(maze) == GeneratedGrid(height, width, agentPos, goalPos, drawSets[k - 1])
        invariant k == 0 ==> maze == old(maze)
      {
        CreateMaze(drawSets[k]);
        path := FindShortestPath(maze, agentPos, goalPos);
        if |path| > 1 {
          TrivialWalk(Snapshot(maze), agentPos);
          solved := true;
          break;
        }
        k := k + 1;
      }
      distance := |path| - 1;
    }
  }
}
