/**
 * Walks through the maze and shortest paths.
 *
 * A walk from `start` is a non-empty sequence of cells beginning at `start`
 * whose consecutive cells are one action apart and whose cells after the
 * first are open. The first cell is not required to be open: the search
 * seeds its queue with the start cell without looking at it.
 */
module Paths {
  import opened MazeGrid

  function Last(w: seq<Cell>): Cell
    requires |w| > 0
  {
    w[|w| - 1]
  }

  ghost predicate IsWalk(g: Grid, start: Cell, w: seq<Cell>)
  {
    && |w| > 0
    && w[0] == start
    && (forall i :: 1 <= i < |w| ==> IsOpen(g, w[i]))
    && (forall i :: 0 <= i < |w| - 1 ==> Adjacent(w[i], w[i + 1]))
  }

  /** A walk from `start` that ends at `goal`. */
  ghost predicate IsPath(g: Grid, start: Cell, goal: Cell, w: seq<Cell>)
  {
    IsWalk(g, start, w) && Last(w) == goal
  }

  ghost predicate Reachable(g: Grid, start: Cell, goal: Cell)
  {
    exists w :: IsPath(g, start, goal, w)
  }

  /** A path with no more cells than any other path between the same ends. */
  ghost predicate IsShortestPath(g: Grid, start: Cell, goal: Cell, w: seq<Cell>)
  {
    IsPath(g, start, goal, w) && forall q :: IsPath(g, start, goal, q) ==> |w| <= |q|
  }

  /** No cell occurs twice. */
  predicate NoRepeats(w: seq<Cell>)
  {
    forall i, j :: 0 <= i < j < |w| ==> w[i] != w[j]
  }

  /** Every open neighbour of a cell of `s` is in `s`. */
  ghost predicate ClosedUnderMoves(g: Grid, s: set<Cell>)
  {
    forall v, k :: v in s && 0 <= k < |Actions| && IsOpen(g, Move(v, k)) ==> Move(v, k) in s
  }

  lemma WalkPrefix(g: Grid, start: Cell, w: seq<Cell>, n: nat)
    requires IsWalk(g, start, w) && 1 <= n <= |w|
    ensures IsWalk(g, start, w[..n])
  {
  }

  lemma WalkExtend(g: Grid, start: Cell, w: seq<Cell>, k: nat)
    requires IsWalk(g, start, w) && k < |Actions| && IsOpen(g, Move(Last(w), k))
    ensures IsWalk(g, start, w + [Move(Last(w), k)])
  {
    var w' := w + [Move(Last(w), k)];
    forall i | 0 <= i < |w'| - 1
      ensures Adjacent(w'[i], w'[i + 1])
    {
      if i == |w| - 1 {
        assert w'[i + 1] == Move(w'[i], k);
      } else {
        assert w'[i] == w[i] && w'[i + 1] == w[i + 1];
      }
    }
  }

  /** The one-cell sequence [start] is a walk, whatever `start` holds. */
  lemma TrivialWalk(g: Grid, start: Cell)
    ensures IsPath(g, start, start, [start])
  {
  }

  /**
   * A set that holds `start` and is closed under moves to open cells holds
   * the end of every walk from `start`.
   */
  lemma {:induction false} ClosedSetHoldsWalks(g: Grid, start: Cell, s: set<Cell>, w: seq<Cell>)
    requires start in s && ClosedUnderMoves(g, s) && IsWalk(g, start, w)
    ensures Last(w) in s
  {
    if |w| > 1 {
      var w' := w[..|w| - 1];
      WalkPrefix(g, start, w, |w| - 1);
      ClosedSetHoldsWalks(g, start, s, w');
      assert Adjacent(w[|w| - 2], w[|w| - 1]);
      var k :| 0 <= k < |Actions| && Last(w) == Move(Last(w'), k);
      assert IsOpen(g, Last(w));
    }
  }

  /** A walk from `start` ends at `start` or at an open cell. */
  lemma WalkEnd(g: Grid, start: Cell, w: seq<Cell>)
    requires IsWalk(g, start, w)
    ensures Last(w) == start || IsOpen(g, Last(w))
  {
  }

  /** Cutting out the loop between two visits of one cell leaves a path. */
  lemma CutLoop(g: Grid, start: Cell, goal: Cell, w: seq<Cell>, i: nat, j: nat)
    requires IsPath(g, start, goal, w) && i < j < |w| && w[i] == w[j]
    ensures IsPath(g, start, goal, w[..i] + w[j..]) && |w[..i] + w[j..]| < |w|
  {
    var q := w[..i] + w[j..];
    assert |q| == |w| - (j - i);
    assert q[0] == start by {
      if i == 0 { assert q[0] == w[j] == w[0]; } else { assert q[0] == w[0]; }
    }
    forall n | 1 <= n < |q|
      ensures IsOpen(g, q[n])
    {
      if n < i { assert q[n] == w[n]; } else { assert q[n] == w[n + j - i]; }
    }
    forall n | 0 <= n < |q| - 1
      ensures Adjacent(q[n], q[n + 1])
    {
      if n < i - 1 {
        assert q[n] == w[n] && q[n + 1] == w[n + 1];
      } else if n == i - 1 {
        assert q[n] == w[i - 1] && q[n + 1] == w[j] == w[i];
      } else {
        assert q[n] == w[n + j - i] && q[n + 1] == w[n + 1 + j - i];
      }
    }
    assert Last(q) == Last(w);
  }

  /** A shortest path never visits a cell twice. */
  lemma ShortestPathHasNoRepeats(g: Grid, start: Cell, goal: Cell, w: seq<Cell>)
    requires IsShortestPath(g, start, goal, w)
    ensures NoRepeats(w)
  {
    forall i, j | 0 <= i < j < |w|
      ensures w[i] != w[j]
    {
      if w[i] == w[j] {
        CutLoop(g, start, goal, w, i, j);
        assert false;
      }
    }
  }

  lemma {:induction false} NoRepeatsCount(w: seq<Cell>)
    requires NoRepeats(w)
    ensures |set x | x in w| == |w|
  {
    if |w| > 0 {
      var w' := w[..|w| - 1];
      NoRepeatsCount(w');
      assert (set x | x in w) == (set x | x in w') + {Last(w)};
      assert Last(w) !in (set x | x in w');
    } else {
      assert (set x | x in w) == {};
    }
  }

  /**
   * On a height x width grid a shortest path from a start cell on the grid
   * has at most height * width cells.
   */
  lemma ShortestPathFitsGrid(g: Grid, height: nat, width: nat, start: Cell, goal: Cell, w: seq<Cell>)
    requires IsRectangular(g, height, width) && InBounds(height, width, start)
    requires IsShortestPath(g, start, goal, w)
    ensures |w| <= height * width
  {
    ShortestPathHasNoRepeats(g, start, goal, w);
    NoRepeatsCount(w);
    AllCellsCount(height, width);
    var cells, all := (set x | x in w), AllCells(height, width);
    forall x | x in cells
      ensures x in all
    {
      var i :| 0 <= i < |w| && w[i] == x;
      if i > 0 { OpenIsInBounds(g, height, width, x); }
    }
    assert all == cells + (all - cells);
    assert |all| == |cells| + |all - cells|;
  }
}
