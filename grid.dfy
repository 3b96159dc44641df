/**
 * Cells, the action table and the grid of the maze.
 *
 * The maze is a height x width grid of numbers, 0 for an open cell and 1 for
 * a wall. The game keeps it in a two-dimensional array; specifications read
 * it through `Snapshot`, its value as a sequence of rows.
 */
module MazeGrid {

  /** A grid position, addressed (row, col). */
  datatype Cell = Cell(row: int, col: int)

  /** The value of a maze: its rows, each a sequence of cell values. */
  type Grid = seq<seq<int>>

  const OpenCell: int := 0
  const WallCell: int := 1

  /**
   * The action table, as (row, col) offsets, in the order the search tries
   * them: left, right, up, down.
   */
  const Actions: seq<(int, int)> := [(0, -1), (0, 1), (-1, 0), (1, 0)]

  function Abs(x: int): nat { if x < 0 then -x else x }

  /** The cell reached from `c` by action number `k`. */
  function Move(c: Cell, k: nat): (n: Cell)
    requires k < |Actions|
    ensures Abs(n.row - c.row) + Abs(n.col - c.col) == 1
  {
    Cell(c.row + Actions[k].0, c.col + Actions[k].1)
  }

  /** `b` is one action away from `a`. */
  ghost predicate Adjacent(a: Cell, b: Cell)
  {
    exists k :: 0 <= k < |Actions| && b == Move(a, k)
  }

  /** The action table is exactly the 4-neighbourhood of a cell. */
  lemma AdjacentIsUnitStep(a: Cell, b: Cell)
    ensures Adjacent(a, b) <==> Abs(b.row - a.row) + Abs(b.col - a.col) == 1
  {
    if Abs(b.row - a.row) + Abs(b.col - a.col) == 1 {
      if b.row == a.row && b.col == a.col - 1 {
        assert b == Move(a, 0);
      } else if b.row == a.row && b.col == a.col + 1 {
        assert b == Move(a, 1);
      } else if b.row == a.row - 1 {
        assert b == Move(a, 2);
      } else {
        assert b == Move(a, 3);
      }
    }
  }

  predicate InBounds(height: int, width: int, c: Cell)
  {
    0 <= c.row < height && 0 <= c.col < width
  }

  predicate IsRectangular(g: Grid, height: nat, width: nat)
  {
    |g| == height && forall r :: 0 <= r < height ==> |g[r]| == width
  }

  /** `c` lies on the grid and holds 0. */
  predicate IsOpen(g: Grid, c: Cell)
  {
    0 <= c.row < |g| && 0 <= c.col < |g[c.row]| && g[c.row][c.col] == OpenCell
  }

  lemma OpenIsInBounds(g: Grid, height: nat, width: nat, c: Cell)
    requires IsRectangular(g, height, width) && IsOpen(g, c)
    ensures InBounds(height, width, c)
  {
  }

  /** The current contents of the maze array, as rows. */
  ghost function Snapshot(a: array2<int>): (g: Grid)
    reads a
    ensures IsRectangular(g, a.Length0, a.Length1)
    ensures forall r, c :: 0 <= r < a.Length0 && 0 <= c < a.Length1 ==> g[r][c] == a[r, c]
  {
    seq(a.Length0, r requires 0 <= r < a.Length0 reads a =>
      seq(a.Length1, c requires 0 <= c < a.Length1 reads a => a[r, c]))
  }

  /** A grid value that agrees with the array everywhere is its snapshot. */
  lemma SnapshotIs(a: array2<int>, g: Grid)
    requires IsRectangular(g, a.Length0, a.Length1)
    requires forall r, c :: 0 <= r < a.Length0 && 0 <= c < a.Length1 ==> g[r][c] == a[r, c]
    ensures Snapshot(a) == g
  {
    var s := Snapshot(a);
    forall r | 0 <= r < a.Length0
      ensures s[r] == g[r]
    {
    }
  }

  /** The cells of row `r`, columns [0, width). */
  ghost function RowCells(r: int, width: nat): (s: set<Cell>)
    ensures forall c :: c in s <==> c.row == r && 0 <= c.col < width
  {
    set col | 0 <= col < width :: Cell(r, col)
  }

  /** All cells of a height x width grid. */
  ghost function AllCells(height: nat, width: nat): (s: set<Cell>)
    ensures forall c :: c in s <==> InBounds(height, width, c)
  {
    set row, col | 0 <= row < height && 0 <= col < width :: Cell(row, col)
  }

  lemma {:induction false} RowCellsCount(r: int, width: nat)
    ensures |RowCells(r, width)| == width
  {
    if width > 0 {
      RowCellsCount(r, width - 1);
      assert RowCells(r, width) == RowCells(r, width - 1) + {Cell(r, width - 1)};
    } else {
      assert RowCells(r, width) == {};
    }
  }

  lemma AllCellsSplit(height: nat, width: nat)
    requires height > 0
    ensures AllCells(height, width) == AllCells(height - 1, width) + RowCells(height - 1, width)
    ensures AllCells(height - 1, width) * RowCells(height - 1, width) == {}
  {
    var all, upper, last := AllCells(height, width), AllCells(height - 1, width), RowCells(height - 1, width);
    assert forall c :: c in all <==> c in upper || c in last;
    assert forall c :: c in upper ==> c !in last;
  }

  /** A height x width grid has height * width cells. */
  lemma {:induction false} AllCellsCount(height: nat, width: nat)
    ensures |AllCells(height, width)| == height * width
  {
    if height > 0 {
      AllCellsCount(height - 1, width);
      RowCellsCount(height - 1, width);
      AllCellsSplit(height, width);
      var upper, last := AllCells(height - 1, width), RowCells(height - 1, width);
      assert |upper + last| == |upper| + |last|;
      assert (height - 1) * width + width == height * width;
    } else {
      assert AllCells(height, width) == {};
    }
  }
}
