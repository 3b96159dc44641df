/**
 * The maze that generation produces from its random draws.
 *
 * Generation takes one draw per cell in row-major order; a draw of true makes
 * the cell a wall. The start and goal cells are then forced open whatever
 * their draws said.
 */
module Generator {
  import opened MazeGrid

  /** Row-major numbering of the cells of a height x width grid. */
  lemma RowMajorIndex(height: nat, width: nat, r: int, c: int)
    requires InBounds(height, width, Cell(r, c))
    ensures 0 <= r * width + c < height * width
  {
    assert r * width + c < (r + 1) * width;
    assert (r + 1) * width <= height * width;
  }

  /** The draw taken for cell `c`. */
  function DrawFor(draws: seq<bool>, height: nat, width: nat, c: Cell): bool
    requires |draws| == height * width && InBounds(height, width, c)
  {
    RowMajorIndex(height, width, c.row, c.col);
    draws[c.row * width + c.col]
  }

  /** The value generation leaves in cell `c`. */
  function GeneratedValue(height: nat, width: nat, start: Cell, goal: Cell, draws: seq<bool>, c: Cell): int
    requires |draws| == height * width && InBounds(height, width, c)
  {
    if c == start || c == goal then OpenCell
    else if DrawFor(draws, height, width, c) then WallCell
    else OpenCell
  }

  /** The grid generation produces from `draws`. */
  ghost function GeneratedGrid(height: nat, width: nat, start: Cell, goal: Cell, draws: seq<bool>): (g: Grid)
    requires |draws| == height * width
    ensures IsRectangular(g, height, width)
  {
    seq(height, r requires 0 <= r < height =>
      seq(width, c requires 0 <= c < width => GeneratedValue(height, width, start, goal, draws, Cell(r, c))))
  }

  /**
   * What generation promises, stated cell by cell: the start and goal are
   * open, and every other cell is a wall exactly when its draw said so.
   */
  ghost predicate IsGeneratedFrom(g: Grid, height: nat, width: nat, start: Cell, goal: Cell, draws: seq<bool>)
    requires |draws| == height * width
  {
    && IsRectangular(g, height, width)
    && (InBounds(height, width, start) ==> g[start.row][start.col] == OpenCell)
    && (InBounds(height, width, goal) ==> g[goal.row][goal.col] == OpenCell)
    && forall r, c :: 0 <= r < height && 0 <= c < width && Cell(r, c) != start && Cell(r, c) != goal ==>
         g[r][c] == if DrawFor(draws, height, width, Cell(r, c)) then WallCell else OpenCell
  }

  /** The cell by cell promise determines the generated grid, and it holds. */
  lemma GeneratedGridCharacterized(g: Grid, height: nat, width: nat, start: Cell, goal: Cell, draws: seq<bool>)
    requires |draws| == height * width
    ensures IsGeneratedFrom(g, height, width, start, goal, draws) <==> g == GeneratedGrid(height, width, start, goal, draws)
  {
    var gen := GeneratedGrid(height, width, start, goal, draws);
    if IsGeneratedFrom(g, height, width, start, goal, draws) {
      forall r | 0 <= r < height
        ensures g[r] == gen[r]
      {
        forall c | 0 <= c < width
          ensures g[r][c] == gen[r][c]
        {
          assert gen[r][c] == GeneratedValue(height, width, start, goal, draws, Cell(r, c));
        }
      }
    }
  }

  /** Start and goal are open whatever the draws were. */
  lemma GeneratedStartGoalOpen(height: nat, width: nat, start: Cell, goal: Cell, draws: seq<bool>)
    requires |draws| == height * width
    requires InBounds(height, width, start) && InBounds(height, width, goal)
    ensures IsOpen(GeneratedGrid(height, width, start, goal, draws), start)
    ensures IsOpen(GeneratedGrid(height, width, start, goal, draws), goal)
  {
  }

  /** Every cell other than start and goal is open exactly when its draw said "no wall". */
  lemma GeneratedFollowsDraws(height: nat, width: nat, start: Cell, goal: Cell, draws: seq<bool>, c: Cell)
    requires |draws| == height * width
    requires InBounds(height, width, c) && c != start && c != goal
    ensures IsOpen(GeneratedGrid(height, width, start, goal, draws), c) <==> !DrawFor(draws, height, width, c)
  {
  }

  /** Every generated cell holds 0 or 1. */
  lemma GeneratedGridIsBinary(height: nat, width: nat, start: Cell, goal: Cell, draws: seq<bool>, r: nat, c: nat)
    requires |draws| == height * width && r < height && c < width
    ensures GeneratedGrid(height, width, start, goal, draws)[r][c] in {OpenCell, WallCell}
  {
  }
}
