/**
 * Breadth-first search for a shortest path from the start cell to the goal.
 *
 * The queue holds (position, path-so-far) entries. A cell is skipped when it
 * is dequeued a second time, so it may sit in the queue several times but is
 * expanded once. The start cell is seeded without looking at it; neighbours
 * are queued only when they are on the grid and open.
 */
module Search {
  import opened MazeGrid
  import opened Paths

  /** A queue entry: a position and the cells that led to it. */
  datatype Entry = Entry(pos: Cell, path: seq<Cell>)

  /** Number of cells of the walk an entry stands for. */
  function WalkLength(e: Entry): nat
  {
    |e.path| + 1
  }

  ghost predicate EntriesAreWalks(g: Grid, start: Cell, queue: seq<Entry>)
  {
    forall j :: 0 <= j < |queue| ==> IsWalk(g, start, queue[j].path + [queue[j].pos])
  }

  /** The queue is ordered by walk length, all lengths being front or front + 1. */
  ghost predicate Layered(queue: seq<Entry>, front: nat)
  {
    && (forall j :: 0 <= j < |queue| ==> front <= WalkLength(queue[j]) <= front + 1)
    && (forall i, j :: 0 <= i < j < |queue| ==> WalkLength(queue[i]) <= WalkLength(queue[j]))
  }

  /** Every walk with fewer than `front` cells ends at a visited cell. */
  ghost predicate CoversShorter(g: Grid, start: Cell, visited: set<Cell>, front: nat)
  {
    forall w :: IsWalk(g, start, w) && |w| < front ==> Last(w) in visited
  }

  /** No walk reaches a visited cell in fewer cells than its level. */
  ghost predicate LevelsMinimal(g: Grid, start: Cell, level: map<Cell, nat>)
  {
    forall w :: IsWalk(g, start, w) && Last(w) in level ==> level[Last(w)] <= |w|
  }

  /** Some entry for `c` has a walk of at most `n` cells. */
  ghost predicate Queued(queue: seq<Entry>, c: Cell, n: nat)
  {
    exists j :: 0 <= j < |queue| && queue[j].pos == c && WalkLength(queue[j]) <= n
  }

  /**
   * Every open neighbour of a visited cell is visited or queued one level
   * further on, except the neighbours by actions kDone.. of `cur`, which
   * are being queued.
   */
  ghost predicate FrontierUpTo(g: Grid, level: map<Cell, nat>, queue: seq<Entry>, cur: Cell, kDone: nat)
  {
    forall v, k :: v in level && 0 <= k < |Actions| && (v == cur ==> k < kDone) && IsOpen(g, Move(v, k)) ==>
      Move(v, k) in level || Queued(queue, Move(v, k), level[v] + 1)
  }

  lemma QueuedAppend(queue: seq<Entry>, e: Entry, c: Cell, n: nat)
    requires Queued(queue, c, n)
    ensures Queued(queue + [e], c, n)
  {
    var j :| 0 <= j < |queue| && queue[j].pos == c && WalkLength(queue[j]) <= n;
    assert (queue + [e])[j] == queue[j];
  }

  lemma FrontierAppend(g: Grid, level: map<Cell, nat>, queue: seq<Entry>, cur: Cell, kDone: nat, e: Entry)
    requires FrontierUpTo(g, level, queue, cur, kDone)
    ensures FrontierUpTo(g, level, queue + [e], cur, kDone)
  {
    forall v, k | v in level && 0 <= k < |Actions| && (v == cur ==> k < kDone) && IsOpen(g, Move(v, k))
      ensures Move(v, k) in level || Queued(queue + [e], Move(v, k), level[v] + 1)
    {
      if Move(v, k) !in level {
        QueuedAppend(queue, e, Move(v, k), level[v] + 1);
      }
    }
  }

  /** Skipping an action whose target is not open keeps the frontier. */
  lemma FrontierSkip(g: Grid, level: map<Cell, nat>, queue: seq<Entry>, cur: Cell, k: nat)
    requires k < |Actions| && !IsOpen(g, Move(cur, k))
    requires FrontierUpTo(g, level, queue, cur, k)
    ensures FrontierUpTo(g, level, queue, cur, k + 1)
  {
  }

  /** Queuing the target of action k of `cur` one level further on extends the frontier to k + 1. */
  lemma FrontierPush(g: Grid, level: map<Cell, nat>, queue: seq<Entry>, cur: Cell, k: nat, e: Entry)
    requires k < |Actions| && cur in level && e.pos == Move(cur, k) && WalkLength(e) <= level[cur] + 1
    requires FrontierUpTo(g, level, queue, cur, k)
    ensures FrontierUpTo(g, level, queue + [e], cur, k + 1)
  {
    FrontierAppend(g, level, queue, cur, k, e);
    assert (queue + [e])[|queue|] == e;
    assert Queued(queue + [e], Move(cur, k), level[cur] + 1);
  }

  /** Once `cur` has tried every action the frontier holds for it as for any cell. */
  lemma FrontierDone(g: Grid, level: map<Cell, nat>, queue: seq<Entry>, cur: Cell, other: Cell)
    requires FrontierUpTo(g, level, queue, cur, |Actions|)
    ensures FrontierUpTo(g, level, queue, other, |Actions|)
  {
  }

  lemma LayeredAppend(queue: seq<Entry>, front: nat, e: Entry)
    requires Layered(queue, front) && WalkLength(e) == front + 1
    ensures Layered(queue + [e], front)
  {
  }

  /** Dequeuing the head lifts the layer to the head's length. */
  lemma LayeredPop(queue: seq<Entry>, front: nat)
    requires queue != [] && Layered(queue, front)
    ensures forall j :: 0 <= j < |queue| ==> WalkLength(queue[j]) >= WalkLength(queue[0])
    ensures Layered(queue[1..], WalkLength(queue[0]))
  {
  }

  lemma EntriesPop(g: Grid, start: Cell, queue: seq<Entry>)
    requires queue != [] && EntriesAreWalks(g, start, queue)
    ensures EntriesAreWalks(g, start, queue[1..])
  {
    assert forall j :: 0 <= j < |queue| - 1 ==> queue[1..][j] == queue[j + 1];
  }

  lemma EntriesAppend(g: Grid, start: Cell, queue: seq<Entry>, e: Entry)
    requires EntriesAreWalks(g, start, queue) && IsWalk(g, start, e.path + [e.pos])
    ensures EntriesAreWalks(g, start, queue + [e])
  {
  }

  /** Dropping the head of the queue, and recording its cell as visited, keeps the frontier. */
  lemma FrontierPop(g: Grid, level: map<Cell, nat>, queue: seq<Entry>, start: Cell, cur: Cell, n: nat)
    requires queue != [] && queue[0].pos == cur
    requires FrontierUpTo(g, level, queue, start, |Actions|)
    ensures cur in level ==> FrontierUpTo(g, level, queue[1..], start, |Actions|)
    ensures cur !in level ==> FrontierUpTo(g, level[cur := n], queue[1..], cur, 0)
  {
    var level' := if cur in level then level else level[cur := n];
    forall v, k | v in level && 0 <= k < |Actions| && IsOpen(g, Move(v, k))
      ensures Move(v, k) in level' || Queued(queue[1..], Move(v, k), level[v] + 1)
    {
      if Move(v, k) !in level && Move(v, k) != cur {
        var j :| 0 <= j < |queue| && queue[j].pos == Move(v, k) && WalkLength(queue[j]) <= level[v] + 1;
        assert j > 0 && queue[1..][j - 1] == queue[j];
      }
    }
  }

  /**
   * Once every queued walk has more than `front` cells, every walk of
   * `front` cells ends at a visited cell too.
   */
  lemma FrontAdvance(g: Grid, start: Cell, level: map<Cell, nat>, queue: seq<Entry>, front: nat)
    requires front >= 1 && start in level
    requires CoversShorter(g, start, level.Keys, front)
    requires LevelsMinimal(g, start, level)
    requires FrontierUpTo(g, level, queue, start, |Actions|)
    requires forall j :: 0 <= j < |queue| ==> WalkLength(queue[j]) > front
    ensures CoversShorter(g, start, level.Keys, front + 1)
  {
    forall w | IsWalk(g, start, w) && |w| < front + 1
      ensures Last(w) in level
    {
      if |w| == front && |w| > 1 {
        var w' := w[..|w| - 1];
        WalkPrefix(g, start, w, |w| - 1);
        var u := Last(w');
        assert u in level && level[u] <= |w'|;
        assert Adjacent(w[|w| - 2], w[|w| - 1]);
        var k :| 0 <= k < |Actions| && Last(w) == Move(u, k);
        assert IsOpen(g, Last(w));
      }
    }
  }

  /** Recording `cur`, first dequeued with a walk of `front` cells, keeps the level invariants. */
  lemma VisitNew(g: Grid, start: Cell, level: map<Cell, nat>, front: nat, walk: seq<Cell>)
    requires IsWalk(g, start, walk) && |walk| == front && Last(walk) !in level
    requires CoversShorter(g, start, level.Keys, front) && LevelsMinimal(g, start, level)
    ensures CoversShorter(g, start, level[Last(walk) := front].Keys, front)
    ensures LevelsMinimal(g, start, level[Last(walk) := front])
  {
  }

  /** The walk with which the goal is first dequeued is a shortest path. */
  lemma GoalFound(g: Grid, height: nat, width: nat, start: Cell, goal: Cell, visited: set<Cell>, walk: seq<Cell>)
    requires IsRectangular(g, height, width)
    requires IsPath(g, start, goal, walk) && goal !in visited
    requires CoversShorter(g, start, visited, |walk|)
    ensures IsShortestPath(g, start, goal, walk) && Reachable(g, start, goal)
    ensures start == goal ==> walk == [goal]
    ensures InBounds(height, width, start) ==> |walk| <= height * width
  {
    if InBounds(height, width, start) {
      ShortestPathFitsGrid(g, height, width, start, goal, walk);
    }
    if start == goal {
      TrivialWalk(g, start);
    }
  }

  /** When the queue runs dry without the goal, the goal is unreachable. */
  lemma Exhausted(g: Grid, start: Cell, goal: Cell, level: map<Cell, nat>)
    requires start in level && goal !in level
    requires FrontierUpTo(g, level, [], start, |Actions|)
    ensures !Reachable(g, start, goal)
  {
    assert ClosedUnderMoves(g, level.Keys);
    forall w | IsPath(g, start, goal, w)
      ensures false
    {
      ClosedSetHoldsWalks(g, start, level.Keys, w);
    }
  }

  /**
   * The entries queued when `e` is expanded with actions 0..k-1: one for
   * each target of those actions that is on the grid and open, in action
   * order, each carrying the walk to `e` extended by `e`'s position.
   */
  ghost function NeighbourEntries(g: Grid, e: Entry, k: nat): (r: seq<Entry>)
    requires k <= |Actions|
    ensures |r| <= k
    ensures forall j :: 0 <= j < |r| ==> r[j].path == e.path + [e.pos]
  {
    if k == 0 then []
    else
      var n := Move(e.pos, k - 1);
      NeighbourEntries(g, e, k - 1) + (if IsOpen(g, n) then [Entry(n, e.path + [e.pos])] else [])
  }

  /** Appending the entries of an expansion keeps the queue's invariants and completes the frontier of the expanded cell. */
  lemma {:induction false} ExpandKeepsInvariants(g: Grid, start: Cell, level: map<Cell, nat>, queue: seq<Entry>,
                                                 front: nat, e: Entry, k: nat)
    requires k <= |Actions|
    requires IsWalk(g, start, e.path + [e.pos]) && WalkLength(e) == front
    requires e.pos in level && level[e.pos] == front
    requires EntriesAreWalks(g, start, queue) && Layered(queue, front)
    requires FrontierUpTo(g, level, queue, e.pos, 0)
    ensures EntriesAreWalks(g, start, queue + NeighbourEntries(g, e, k))
    ensures Layered(queue + NeighbourEntries(g, e, k), front)
    ensures FrontierUpTo(g, level, queue + NeighbourEntries(g, e, k), e.pos, k)
  {
    if k > 0 {
      ExpandKeepsInvariants(g, start, level, queue, front, e, k - 1);
      var before := queue + NeighbourEntries(g, e, k - 1);
      if IsOpen(g, Move(e.pos, k - 1)) {
        var n := Entry(Move(e.pos, k - 1), e.path + [e.pos]);
        assert queue + NeighbourEntries(g, e, k) == before + [n];
        WalkExtend(g, start, e.path + [e.pos], k - 1);
        EntriesAppend(g, start, before, n);
        LayeredAppend(before, front, n);
        FrontierPush(g, level, before, e.pos, k - 1, n);
      } else {
        assert queue + NeighbourEntries(g, e, k) == before;
        FrontierSkip(g, level, before, e.pos, k - 1);
      }
    } else {
      assert queue + NeighbourEntries(g, e, k) == queue;
    }
  }

  /**
   * The neighbour loop of the search: appends to `queue` an entry for every
   * target of an action from `current` that is on the grid and open.
   */
  method QueueNeighbours(maze: array2<int>, current: Entry, queue: seq<Entry>) returns (queue': seq<Entry>)
    ensures queue' == queue + NeighbourEntries(Snapshot(maze), current, |Actions|)
  {
    ghost var g := Snapshot(maze);
    queue' := queue;
    for k := 0 to |Actions|
      invariant queue' == queue + NeighbourEntries(g, current, k)
    {
      var action := Actions[k];
      var newPos := Cell(current.pos.row + action.0, current.pos.col + action.1);
      assert newPos == Move(current.pos, k);
      if 0 <= newPos.row < maze.Length0 && 0 <= newPos.col < maze.Length1 && maze[newPos.row, newPos.col] == 0 {
        assert IsOpen(g, newPos);
        queue' := queue' + [Entry(newPos, current.path + [current.pos])];
      } else {
        assert !IsOpen(g, newPos);
      }
    }
  }

  /**
   * The invariant of the search loop. `visited` are the cells expanded so
   * far, each with the length of the walk it was first dequeued with
   * (`level`); `front` is that length for the entry dequeued last.
   * `universe` bounds the cells that can ever be visited.
   */
  ghost predicate SearchInv(g: Grid, start: Cell, goal: Cell, universe: set<Cell>, queue: seq<Entry>,
                            visited: set<Cell>, level: map<Cell, nat>, front: nat)
  {
    && start in universe && (forall c :: IsOpen(g, c) ==> c in universe)
    && visited == level.Keys && visited <= universe
    && goal !in visited
    && (visited == {} ==> queue == [Entry(start, [])] && front == 1)
    && (visited != {} ==> start in visited)
    && EntriesAreWalks(g, start, queue)
    && front >= 1 && Layered(queue, front)
    && CoversShorter(g, start, visited, front)
    && LevelsMinimal(g, start, level)
    && FrontierUpTo(g, level, queue, start, |Actions|)
  }

  lemma SearchInvInit(g: Grid, start: Cell, goal: Cell, universe: set<Cell>)
    requires start in universe && (forall c :: IsOpen(g, c) ==> c in universe)
    ensures SearchInv(g, start, goal, universe, [Entry(start, [])], {}, map[], 1)
  {
    var queue := [Entry(start, [])];
    assert queue[0].path + [queue[0].pos] == [start];
    TrivialWalk(g, start);
  }

  /**
   * One turn of the search loop: dequeue the head; skip it if its cell was
   * visited; otherwise visit it and either stop at the goal or queue its
   * neighbours.
   */
  lemma DequeueStep(g: Grid, height: nat, width: nat, start: Cell, goal: Cell, universe: set<Cell>,
                    queue: seq<Entry>, visited: set<Cell>, level: map<Cell, nat>, front: nat)
    requires IsRectangular(g, height, width)
    requires queue != [] && SearchInv(g, start, goal, universe, queue, visited, level, front)
    ensures var e, front' := queue[0], WalkLength(queue[0]);
      && (e.pos in visited ==> SearchInv(g, start, goal, universe, queue[1..], visited, level, front'))
      && (e.pos !in visited ==>
            && |universe - (visited + {e.pos})| < |universe - visited|
            && (e.pos == goal ==> GoalFoundPost(g, height, width, start, goal, e.path + [goal]))
            && (e.pos != goal ==>
                  SearchInv(g, start, goal, universe, queue[1..] + NeighbourEntries(g, e, |Actions|),
                            visited + {e.pos}, level[e.pos := front'], front')))
  {
    var e, front' := queue[0], WalkLength(queue[0]);
    LayeredPop(queue, front);
    if front' == front + 1 {
      assert visited != {};
      FrontAdvance(g, start, level, queue, front);
    }
    FrontierPop(g, level, queue, start, e.pos, front');
    EntriesPop(g, start, queue);
    var walk := e.path + [e.pos];
    assert IsWalk(g, start, walk);
    if e.pos !in visited {
      WalkEnd(g, start, walk);
      assert e.pos in universe;
      assert universe - (visited + {e.pos}) == (universe - visited) - {e.pos};
      VisitNew(g, start, level, front', walk);
      if e.pos == goal {
        GoalFound(g, height, width, start, goal, visited, walk);
      } else {
        var level' := level[e.pos := front'];
        ExpandKeepsInvariants(g, start, level', queue[1..], front', e, |Actions|);
        FrontierDone(g, level', queue[1..] + NeighbourEntries(g, e, |Actions|), e.pos, start);
      }
    }
  }

  /** What the search promises about a path it returns. */
  ghost predicate GoalFoundPost(g: Grid, height: nat, width: nat, start: Cell, goal: Cell, path: seq<Cell>)
  {
    && IsShortestPath(g, start, goal, path) && Reachable(g, start, goal)
    && (start == goal ==> path == [goal])
    && (InBounds(height, width, start) ==> |path| <= height * width)
  }

  /**
   * Returns a shortest path from `start` to `goal` through open cells of
   * `maze`, or [] when there is none. Reads `maze` and does not change it.
   */
  method FindShortestPath(maze: array2<int>, start: Cell, goal: Cell) returns (path: seq<Cell>)
    ensures path != [] ==> IsShortestPath(Snapshot(maze), start, goal, path)
    ensures path == [] <==> !Reachable(Snapshot(maze), start, goal)
    ensures path != [] && start == goal ==> path == [goal]
    ensures path != [] && InBounds(maze.Length0, maze.Length1, start) ==> |path| <= maze.Length0 * maze.Length1
  {
    ghost var g := Snapshot(maze);
    ghost var universe := AllCells(maze.Length0, maze.Length1) + {start};
    var queue := [Entry(start, [])];
    var visited: set<Cell> := {};
    ghost var level: map<Cell, nat> := map[];
    ghost var front: nat := 1;
    SearchInvInit(g, start, goal, universe);
    while queue != []
      invariant SearchInv(g, start, goal, universe, queue, visited, level, front)
      decreases |universe - visited|, |queue|
    {
      var current := queue[0];
      DequeueStep(g, maze.Length0, maze.Length1, start, goal, universe, queue, visited, level, front);
      front := WalkLength(current);
      queue := queue[1..];
      if current.pos in visited {
        continue;
      }
      visited := visited + {current.pos};
      level := level[current.pos := front];
      if current.pos == goal {
        path := current.path + [goal];
        return;
      }
      queue := QueueNeighbours(maze, current, queue);
    }
    path := [];
    Exhausted(g, start, goal, level);
  }
}
