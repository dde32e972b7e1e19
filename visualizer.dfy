/**
 * The page state of the grid visualizer and the handlers that change it: the
 * board of cell types, the start and end markers, the edit mode and the
 * drag-to-erase gesture, and the run of the search that paints visited cells
 * and the found path onto the board.
 */
module Visualizer {
  import opened Grid
  import opened Frontier
  import opened Search
  import opened Reconstruction

  /** The edit mode chosen with the page's buttons (`mode`). */
  datatype Mode = StartMode | EndMode | ObstacleMode | DeleteObstacleMode

  /** `dragType`: `null`, or `'empty'` while a drag erases obstacles. */
  datatype DragType = NoDrag | DragEmpty

  /** The status line a run leaves: none, "Found You!" or "Where are you young padawan?". */
  datatype Message = NoMessage | FoundYou | WhereAreYou

  /** What the reset at the head of a run makes of a cell's type. */
  function Cleared(t: CellType): CellType {
    if t == Visited || t == PathMark then Empty else t
  }

  /**
   * A shortest walk has exactly one step precisely when the two cells are
   * adjacent, which is when the reconstructed path is empty although `end`
   * was found (so no success message is shown).
   */
  lemma ShortestIsOneIffAdjacent(walls: set<Pos>, s: Pos, t: Pos, d: nat)
    requires IsShortest(walls, s, t, d) && Walkable(walls, t) && s != t
    ensures d == 1 <==> Adjacent(s, t)
  {
    var p :| IsPath(walls, p, s, t) && |p| - 1 == d;
    if Adjacent(s, t) {
      assert IsPath(walls, [s, t], s, t);
    }
    if d == 1 {
      assert Link(walls, p[0], p[1]);
    }
  }

  /**
   * What the reconstruction yields from the search's result:
   * for a reached `end` other than `start`, cells that with the two markers
   * around them form a shortest walk, one fewer than its step count; nothing
   * when `end` was not reached or is `start`. The path cells are walkable and
   * never a marker, and there is a path cell to show exactly when `end` is
   * reachable, differs from `start` and is not next to it.
   */
  lemma ShownPathOutcome(walls: set<Pos>, s: Pos, e: Pos, dist: seq<Dist>, prev: seq<Option<Pos>>,
                         found: bool, path: seq<Pos>)
    requires PrevOk(walls, s, dist, prev) && InGrid(e)
    requires path == Backtrack(walls, s, dist, prev, e)
    requires found <==> Reachable(walls, s, e)
    requires found ==> dist[Idx(e)].Finite? && IsShortest(walls, s, e, dist[Idx(e)].steps)
    requires !found ==> dist[Idx(e)] == Infinity
    ensures found && s != e ==>
      IsShortest(walls, s, e, |path| + 1) && IsPath(walls, [s] + Reversed(path) + [e], s, e)
    ensures !found || s == e ==> path == []
    ensures forall i :: 0 <= i < |path| ==> Walkable(walls, path[i]) && path[i] != s && path[i] != e
    ensures found && |path| > 0 <==> Reachable(walls, s, e) && s != e && !Adjacent(s, e)
  {
    if found && s != e {
      ShownPathIsWalk(walls, s, dist, prev, e);
      BacktrackShape(walls, s, dist, prev, e);
      var w :| IsPath(walls, w, s, e);
      assert Link(walls, w[|w| - 2], w[|w| - 1]);
      ShortestIsOneIffAdjacent(walls, s, e, |path| + 1);
    }
  }

  /**
   * The head of the search loop: sort the frontier by `dist`
   * (a stable sort), take its first entry, and drop it if its cell was already
   * expanded; otherwise mark the cell visited. `isNew` tells the two apart.
   */
  method PopNext(ghost walls: set<Pos>, s: Pos, visited0: seq<bool>, queue0: seq<Entry>,
                 ghost dist: seq<Dist>, ghost prev: seq<Option<Pos>>, expanded0: seq<Pos>,
                 ghost level0: nat)
    returns (c: Pos, isNew: bool, visited: seq<bool>, queue: seq<Entry>, expanded: seq<Pos>,
             ghost level: nat)
    requires AtLoopHead(walls, s, State(visited0, dist, prev, queue0, expanded0), level0)
    requires |queue0| > 0 && s !in walls
    ensures isNew == !visited0[Idx(queue0[0].at)]
    ensures expanded0 == [] ==> isNew
    ensures InGrid(c) && c == queue0[0].at && queue == RemoveAt(queue0, 0) && level0 <= level
    ensures !isNew ==>
      visited == visited0 && expanded == expanded0 && level == level0 &&
      AtLoopHead(walls, s, State(visited, dist, prev, queue, expanded), level)
    ensures isNew ==>
      !visited0[Idx(c)] && visited == visited0[Idx(c) := true] && Walkable(walls, c) &&
      expanded == expanded0 + [c] && dist[Idx(c)] == Finite(level) &&
      CountFalse(visited) < CountFalse(visited0) &&
      Invariant(walls, s, State(visited, dist, prev, queue, expanded), level, c, 0)
    ensures isNew ==> IsShortest(walls, s, c, level)
  {
    ghost var st := State(visited0, dist, prev, queue0, expanded0);
    var i := FirstMinIndex(queue0);
    SortedPop(queue0, i);
    c := queue0[i].at;
    queue := RemoveAt(queue0, i);
    if visited0[Idx(c)] {
      PopStale(walls, s, st, level0, i);
      isNew, visited, expanded, level := false, visited0, expanded0, level0;
    } else {
      PopFresh(walls, s, st, level0, i);
      PoppedIsShortest(walls, s, st, level0, i);
      assert c != s ==> Link(walls, prev[Idx(c)].value, c);
      CountFalseMark(visited0, Idx(c));
      isNew, level := true, queue0[i].dist;
      visited := visited0[Idx(c) := true];
      expanded := expanded0 + [c];
    }
  }

  class Visualizer {
    var grid: array2<CellType>
    var start: Pos
    var end: Pos
    var mode: Mode
    var isMouseDown: bool
    var dragType: DragType

    /**
     * The board is 10 x 10, both markers are on it and neither sits on an
     * obstacle, and an erasing drag only exists while the mouse is down.
     */
    ghost predicate Valid()
      reads this, grid
    {
      grid.Length0 == GridSize && grid.Length1 == GridSize &&
      InGrid(start) && InGrid(end) &&
      grid[start.row, start.col] != Obstacle && grid[end.row, end.col] != Obstacle &&
      (dragType == DragEmpty ==> isMouseDown)
    }

    /** The obstacle cells of the board. */
    ghost function Walls(): set<Pos>
      reads this, grid
      requires grid.Length0 == GridSize && grid.Length1 == GridSize
    {
      set r, c | 0 <= r < GridSize && 0 <= c < GridSize && grid[r, c] == Obstacle :: Pos(r, c)
    }

    lemma WallsAt(p: Pos)
      requires grid.Length0 == GridSize && grid.Length1 == GridSize
      ensures p in Walls() <==> InGrid(p) && grid[p.row, p.col] == Obstacle
    {
      if InGrid(p) && grid[p.row, p.col] == Obstacle {
        assert p == Pos(p.row, p.col);
      }
    }

    /** The page as loaded: `createGrid()` with the initial globals. */
    constructor ()
      ensures Valid() && fresh(grid)
      ensures start == Pos(0, 0) && end == Pos(GridSize - 1, GridSize - 1)
      ensures mode == ObstacleMode && !isMouseDown && dragType == NoDrag
      ensures forall p :: InGrid(p) ==>
        grid[p.row, p.col] == if p == end then End else if p == start then Start else Empty
    {
      start := Pos(0, 0);
      end := Pos(GridSize - 1, GridSize - 1);
      mode := ObstacleMode;
      isMouseDown := false;
      dragType := NoDrag;
      grid := new CellType[GridSize, GridSize]((r, c) => Empty);
      new;
      grid[start.row, start.col] := Start;
      grid[end.row, end.col] := End;
    }

    /**
     * `createGrid()` as the Clear button runs it: a fresh
     * all-empty board with the current markers placed again.
     */
    method CreateGrid()
      requires InGrid(start) && InGrid(end)
      modifies this
      ensures fresh(grid) && grid.Length0 == GridSize && grid.Length1 == GridSize
      ensures start == old(start) && end == old(end) && mode == old(mode)
      ensures isMouseDown == old(isMouseDown) && dragType == old(dragType)
      ensures forall p :: InGrid(p) ==>
        grid[p.row, p.col] == if p == end then End else if p == start then Start else Empty
      ensures old(dragType == DragEmpty ==> isMouseDown) ==> Valid()
    {
      grid := new CellType[GridSize, GridSize]((r, c) => Empty);
      UpdateCell(start, Start);
      UpdateCell(end, End);
    }

    /** `updateCell(row, col, type)`: only that cell's type changes. */
    method UpdateCell(p: Pos, t: CellType)
      requires grid.Length0 == GridSize && grid.Length1 == GridSize && InGrid(p)
      modifies grid
      ensures grid[p.row, p.col] == t
      ensures forall q :: InGrid(q) && q != p ==> grid[q.row, q.col] == old(grid[q.row, q.col])
    {
      grid[p.row, p.col] := t;
    }

    /** The mode buttons. */
    method SetMode(m: Mode)
      modifies this`mode
      ensures mode == m
    {
      mode := m;
    }

    /**
     * `onCellMouseDown`: in erase mode the mouse goes down; on a
     * cell other than the markers an obstacle is erased and starts an erasing
     * drag, any other cell cancels it.
     */
    method OnCellMouseDown(p: Pos)
      requires Valid() && InGrid(p)
      modifies this`isMouseDown, this`dragType, grid
      ensures Valid()
      ensures isMouseDown == (old(isMouseDown) || mode == DeleteObstacleMode)
      ensures dragType ==
        if mode != DeleteObstacleMode || p == start || p == end then old(dragType)
        else if old(grid[p.row, p.col]) == Obstacle then DragEmpty
        else NoDrag
      ensures forall q :: InGrid(q) ==>
            grid[q.row, q.col] ==
            if q == p && mode == DeleteObstacleMode && p != start && p != end && old(grid[p.row, p.col]) == Obstacle
            then Empty else old(grid[q.row, q.col])
    {
      if mode != DeleteObstacleMode {
        return;
      }
      isMouseDown := true;
      if p == start || p == end {
        return;
      }
      if grid[p.row, p.col] == Obstacle {
        dragType := DragEmpty;
        UpdateCell(p, Empty);
      } else {
        dragType := NoDrag;
      }
    }

    /**
     * `onCellMouseEnter`: during an erasing drag, entering an
     * obstacle other than the markers erases it; nothing else changes.
     */
    method OnCellMouseEnter(p: Pos)
      requires Valid() && InGrid(p)
      modifies grid
      ensures Valid()
      ensures forall q :: InGrid(q) ==>
            grid[q.row, q.col] ==
            if q == p && isMouseDown && mode == DeleteObstacleMode && p != start && p != end &&
               dragType == DragEmpty && old(grid[p.row, p.col]) == Obstacle
            then Empty else old(grid[q.row, q.col])
    {
      if !isMouseDown || mode != DeleteObstacleMode {
        return;
      }
      if p == start || p == end {
        return;
      }
      if dragType == DragEmpty && grid[p.row, p.col] == Obstacle {
        UpdateCell(p, Empty);
      }
    }

    /** `onCellMouseUp` and the page's own mouseup listener end any drag. */
    method OnMouseUp()
      requires Valid()
      modifies this`isMouseDown, this`dragType
      ensures Valid() && !isMouseDown && dragType == NoDrag
    {
      isMouseDown := false;
      dragType := NoDrag;
    }

    /**
     * `onCellClick`. Start and end modes move the marker: the old
     * cell becomes empty and the clicked one shows the marker. Obstacle mode
     * toggles obstacle and empty except on the markers' cells. Erase mode
     * turns an obstacle into an empty cell.
     */
    method OnCellClick(p: Pos)
      requires Valid() && InGrid(p)
      modifies this`start, this`end, grid
      ensures Valid()
      ensures start == (if mode == StartMode then p else old(start))
      ensures end == (if mode == EndMode then p else old(end))
      ensures mode == StartMode ==> forall q :: InGrid(q) ==>
            grid[q.row, q.col] ==
            if q == p then Start else if q == old(start) then Empty else old(grid[q.row, q.col])
      ensures mode == EndMode ==> forall q :: InGrid(q) ==>
            grid[q.row, q.col] ==
            if q == p then End else if q == old(end) then Empty else old(grid[q.row, q.col])
      ensures mode == ObstacleMode ==> forall q :: InGrid(q) ==>
            grid[q.row, q.col] ==
            if q == p && p != start && p != end then
              (if old(grid[p.row, p.col]) == Obstacle then Empty else Obstacle)
            else old(grid[q.row, q.col])
      ensures mode == DeleteObstacleMode ==> forall q :: InGrid(q) ==>
            grid[q.row, q.col] ==
            if q == p && old(grid[p.row, p.col]) == Obstacle then Empty else old(grid[q.row, q.col])
    {
      if mode == StartMode {
        UpdateCell(start, Empty);
        start := p;
        UpdateCell(p, Start);
      } else if mode == EndMode {
        UpdateCell(end, Empty);
        end := p;
        UpdateCell(p, End);
      } else if mode == ObstacleMode {
        if p == start || p == end {
          return;
        }
        var t := if grid[p.row, p.col] == Obstacle then Empty else Obstacle;
        UpdateCell(p, t);
      } else {
        if grid[p.row, p.col] == Obstacle {
          UpdateCell(p, Empty);
        }
      }
    }

    /** The reset that opens `runDijkstra`: visited and path marks become empty. */
    method ResetMarks()
      requires Valid()
      modifies grid
      ensures Valid() && Walls() == old(Walls())
      ensures forall p :: InGrid(p) ==> grid[p.row, p.col] == Cleared(old(grid[p.row, p.col]))
    {
      var row := 0;
      while row < GridSize
        invariant 0 <= row <= GridSize
        invariant forall p :: InGrid(p) ==>
              grid[p.row, p.col] ==
              if p.row < row then Cleared(old(grid[p.row, p.col])) else old(grid[p.row, p.col])
      {
        var col := 0;
        while col < GridSize
          invariant 0 <= col <= GridSize
          invariant forall p :: InGrid(p) ==>
                grid[p.row, p.col] ==
                if p.row < row || (p.row == row && p.col < col) then Cleared(old(grid[p.row, p.col]))
                else old(grid[p.row, p.col])
        {
          var t := grid[row, col];
          if t == Visited || t == PathMark {
            UpdateCell(Pos(row, col), Empty);
          }
          col := col + 1;
        }
        row := row + 1;
      }
      forall p ensures p in Walls() <==> p in old(Walls()) {
        WallsAt(p);
        assert old(p in Walls() <==> InGrid(p) && grid[p.row, p.col] == Obstacle) by {
          WallsAt(p);
        }
      }
    }
  
    /**
     * One pass of the neighbour loop: skip neighbour `k` of
     * `c` when it is off the board or an obstacle; otherwise, if it gets
     * closer through `c`, give it the distance `dist[c] + 1`, the predecessor
     * `c` and a new frontier entry.
     */
    method RelaxNeighbour(ghost walls: set<Pos>, s: Pos, c: Pos, k: nat, visited: seq<bool>, dist0: seq<Dist>,
                          prev0: seq<Option<Pos>>, queue0: seq<Entry>, expanded: seq<Pos>, ghost level: nat)
      returns (dist: seq<Dist>, prev: seq<Option<Pos>>, queue: seq<Entry>)
      requires grid.Length0 == GridSize && grid.Length1 == GridSize
      requires forall p :: InGrid(p) ==> (grid[p.row, p.col] == Obstacle <==> p in walls)
      requires Invariant(walls, s, State(visited, dist0, prev0, queue0, expanded), level, c, k) && k < 4
      requires InGrid(c) && visited[Idx(c)] && dist0[Idx(c)] == Finite(level)
      ensures State(visited, dist, prev, queue, expanded) ==
        TryNeighbour(walls, State(visited, dist0, prev0, queue0, expanded), c, level + 1, k)
      ensures Invariant(walls, s, State(visited, dist, prev, queue, expanded), level, c, k + 1)
      ensures dist[Idx(c)] == Finite(level)
    {
      dist, prev, queue := dist0, prev0, queue0;
      var n := Step(c, k);
      ghost var st := State(visited, dist, prev, queue, expanded);
      if !InGrid(n) || grid[n.row, n.col] == Obstacle {
        RelaxSkip(walls, s, st, level, c, k);
      } else if Improves(dist[Idx(c)].steps + 1, dist[Idx(n)]) {
        RelaxUpdate(walls, s, st, level, c, k);
        RelaxTarget(walls, s, st, level, c, k);
        dist := dist[Idx(n) := Finite(dist[Idx(c)].steps + 1)];
        prev := prev[Idx(n) := Some(c)];
        queue := queue + [Entry(n, dist[Idx(n)].steps)];
        assert State(visited, dist, prev, queue, expanded) == Relax(st, c, n, level + 1);
      } else {
        RelaxSkip(walls, s, st, level, c, k);
      }
    }

    /**
     * The neighbour loop of the search: the four neighbours of
     * `c` tried in the order +col, +row, -col, -row.
     */
    method RelaxNeighbours(ghost walls: set<Pos>, s: Pos, c: Pos, visited: seq<bool>, dist0: seq<Dist>,
                           prev0: seq<Option<Pos>>, queue0: seq<Entry>, expanded: seq<Pos>,
                           ghost level: nat)
      returns (dist: seq<Dist>, prev: seq<Option<Pos>>, queue: seq<Entry>)
      requires grid.Length0 == GridSize && grid.Length1 == GridSize
      requires forall p :: InGrid(p) ==> (grid[p.row, p.col] == Obstacle <==> p in walls)
      requires Invariant(walls, s, State(visited, dist0, prev0, queue0, expanded), level, c, 0)
      requires InGrid(c) && visited[Idx(c)] && dist0[Idx(c)] == Finite(level)
      ensures State(visited, dist, prev, queue, expanded) ==
        RelaxFrom(walls, State(visited, dist0, prev0, queue0, expanded), c, level + 1, 0)
      ensures AtLoopHead(walls, s, State(visited, dist, prev, queue, expanded), level)
    {
      dist, prev, queue := dist0, prev0, queue0;
      var k := 0;
      while k < 4
        invariant 0 <= k <= 4
        invariant Invariant(walls, s, State(visited, dist, prev, queue, expanded), level, c, k)
        invariant dist[Idx(c)] == Finite(level)
        invariant RelaxFrom(walls, State(visited, dist, prev, queue, expanded), c, level + 1, k) ==
          RelaxFrom(walls, State(visited, dist0, prev0, queue0, expanded), c, level + 1, 0)
      {
        dist, prev, queue := RelaxNeighbour(walls, s, c, k, visited, dist, prev, queue, expanded, level);
        k := k + 1;
      }
    }

    /**
     * The search loop of `runDijkstra`, apart from painting.
     * Frontier entries are taken least `dist` first, earliest-inserted among
     * equals; an entry for an expanded cell is dropped; the loop stops once
     * `e` is expanded, and otherwise relaxes the four neighbours in the order
     * +col, +row, -col, -row at cost 1. `expanded` lists the cells in the
     * order the loop marks them visited.
     */
    method SearchLoop(ghost walls: set<Pos>, s: Pos, e: Pos)
      returns (found: bool, visited: seq<bool>, dist: seq<Dist>, prev: seq<Option<Pos>>,
               queue: seq<Entry>, expanded: seq<Pos>, ghost level: nat)
      requires grid.Length0 == GridSize && grid.Length1 == GridSize
      requires forall p :: InGrid(p) ==> (grid[p.row, p.col] == Obstacle <==> p in walls)
      requires InGrid(s) && InGrid(e) && s !in walls
      ensures |expanded| > 0 && expanded[0] == s
      ensures found ==>
        Invariant(walls, s, State(visited, dist, prev, queue, expanded), level, e, 0) &&
        dist[Idx(e)] == Finite(level) && IsShortest(walls, s, e, level) && expanded[|expanded| - 1] == e
      ensures !found ==>
        AtLoopHead(walls, s, State(visited, dist, prev, queue, expanded), level) &&
        |queue| == 0 && !visited[Idx(e)]
    {
      visited := seq(Cells, _ => false);
      dist := seq(Cells, _ => Infinity);
      prev := seq(Cells, _ => None);
      dist := dist[Idx(s) := Finite(0)];
      queue := [Entry(s, 0)];
      found := false;
      expanded := [];
      level := 0;
      InitOk(walls, s, State(visited, dist, prev, queue, expanded));
      while |queue| > 0
        invariant AtLoopHead(walls, s, State(visited, dist, prev, queue, expanded), level)
        invariant !visited[Idx(e)]
        invariant expanded == [] ==> queue == [Entry(s, 0)]
        invariant expanded != [] ==> expanded[0] == s
        decreases CountFalse(visited), |queue|
      {
        var c, isNew;
        c, isNew, visited, queue, expanded, level := PopNext(walls, s, visited, queue, dist, prev, expanded, level);
        if !isNew {
          continue;
        }
        if c == e {
          found := true;
          return;
        }
        IdxInjective(c, e);
        dist, prev, queue := RelaxNeighbours(walls, s, c, visited, dist, prev, queue, expanded, level);
      }
    }

    /**
     * What the search loop delivers to the rest of `runDijkstra`: `found`
     * exactly when `end` can be reached, with its least number of steps in
     * `dist`, a `prev` structure leading back to `start`, and the expanded
     * cells in non-decreasing distance, each once.
     */
    method Search() returns (found: bool, dist: seq<Dist>, prev: seq<Option<Pos>>, expanded: seq<Pos>)
      requires Valid()
      ensures PrevOk(Walls(), start, dist, prev)
      ensures found <==> Reachable(Walls(), start, end)
      ensures found ==> dist[Idx(end)].Finite? && IsShortest(Walls(), start, end, dist[Idx(end)].steps)
      ensures !found ==> dist[Idx(end)].Infinity?
      ensures |expanded| > 0 && expanded[0] == start
      ensures found <==> end in expanded
      ensures found ==> expanded[|expanded| - 1] == end
      ensures forall i :: 0 <= i < |expanded| ==>
        Walkable(Walls(), expanded[i]) && dist[Idx(expanded[i])].Finite?
      ensures forall i, j :: 0 <= i < j < |expanded| ==>
        InGrid(expanded[i]) && InGrid(expanded[j]) && expanded[i] != expanded[j] &&
        dist[Idx(expanded[i])].Finite? && dist[Idx(expanded[j])].Finite? &&
        dist[Idx(expanded[i])].steps <= dist[Idx(expanded[j])].steps
    {
      ghost var walls := Walls();
      forall p | InGrid(p) ensures grid[p.row, p.col] == Obstacle <==> p in walls {
        WallsAt(p);
      }
      var visited, queue;
      ghost var level;
      found, visited, dist, prev, queue, expanded, level := SearchLoop(walls, start, end);
      SearchOutcome(walls, start, end, State(visited, dist, prev, queue, expanded), level, found);
    }

    /** The visited painting of the search loop, cell by cell in expansion order. */
    method PaintVisited(expanded: seq<Pos>)
      requires Valid()
      requires forall i :: 0 <= i < |expanded| ==> Walkable(Walls(), expanded[i])
      modifies grid
      ensures Valid() && Walls() == old(Walls())
      ensures forall p :: InGrid(p) ==>
        grid[p.row, p.col] ==
          if p in expanded && p != start && p != end then Visited else old(grid[p.row, p.col])
    {
      ghost var walls := Walls();
      forall p | InGrid(p) ensures grid[p.row, p.col] == Obstacle <==> p in walls {
        WallsAt(p);
      }
      var i := 0;
      while i < |expanded|
        invariant 0 <= i <= |expanded|
        invariant Valid()
        invariant forall p :: InGrid(p) ==>
          grid[p.row, p.col] ==
            if p in expanded[..i] && p != start && p != end then Visited else old(grid[p.row, p.col])
      {
        var c := expanded[i];
        if c != start && c != end {
          UpdateCell(c, Visited);
        }
        assert expanded[..i + 1] == expanded[..i] + [c];
        i := i + 1;
      }
      assert expanded[..i] == expanded;
      forall p ensures p in Walls() <==> p in walls {
        WallsAt(p);
      }
    }

    /** The path painting: from the last collected cell back to the first. */
    method PaintPath(path: seq<Pos>)
      requires Valid()
      requires forall i :: 0 <= i < |path| ==> Walkable(Walls(), path[i]) && path[i] != start && path[i] != end
      modifies grid
      ensures Valid() && Walls() == old(Walls())
      ensures forall p :: InGrid(p) ==>
        grid[p.row, p.col] == if p in path then PathMark else old(grid[p.row, p.col])
    {
      ghost var walls := Walls();
      forall p | InGrid(p) ensures grid[p.row, p.col] == Obstacle <==> p in walls {
        WallsAt(p);
      }
      var i: int := |path| - 1;
      while i >= 0
        invariant -1 <= i < |path|
        invariant Valid()
        invariant forall p :: InGrid(p) ==>
          grid[p.row, p.col] == if p in path[i + 1..] then PathMark else old(grid[p.row, p.col])
      {
        UpdateCell(path[i], PathMark);
        assert path[i..] == [path[i]] + path[i + 1..];
        i := i - 1;
      }
      assert path[0..] == path;
      forall p ensures p in Walls() <==> p in walls {
        WallsAt(p);
      }
    }

    /**
     * `runDijkstra`: clear the marks of the last run, search,
     * paint the expanded cells, collect the path back from `end`, paint it
     * from `start`'s side, and set the message: success when there is a path
     * cell to show, failure when `end` was not found, and nothing otherwise.
     */
    method RunDijkstra() returns (found: bool, expanded: seq<Pos>, path: seq<Pos>, msg: Message, ghost dist: seq<Dist>)
      requires Valid()
      modifies grid
      ensures Valid() && Walls() == old(Walls())
      ensures found <==> Reachable(Walls(), start, end)
      ensures |dist| == Cells
      ensures found ==> dist[Idx(end)].Finite? && IsShortest(Walls(), start, end, dist[Idx(end)].steps)
      ensures |expanded| > 0 && expanded[0] == start
      ensures found <==> end in expanded
      ensures found ==> expanded[|expanded| - 1] == end
      ensures forall i :: 0 <= i < |expanded| ==> Walkable(Walls(), expanded[i])
      ensures forall i, j :: 0 <= i < j < |expanded| ==>
        InGrid(expanded[i]) && InGrid(expanded[j]) && expanded[i] != expanded[j] &&
        dist[Idx(expanded[i])].Finite? && dist[Idx(expanded[j])].Finite? &&
        dist[Idx(expanded[i])].steps <= dist[Idx(expanded[j])].steps
      ensures found && start != end ==>
        IsShortest(Walls(), start, end, |path| + 1) &&
        IsPath(Walls(), [start] + Reversed(path) + [end], start, end)
      ensures !found || start == end ==> path == []
      ensures forall i :: 0 <= i < |path| ==> Walkable(Walls(), path[i]) && path[i] != start && path[i] != end
      ensures msg == WhereAreYou <==> !Reachable(Walls(), start, end)
      ensures msg == NoMessage <==> Reachable(Walls(), start, end) && (start == end || Adjacent(start, end))
      ensures forall p :: InGrid(p) ==>
        grid[p.row, p.col] ==
          if p in path then PathMark
          else if p in expanded && p != start && p != end then Visited
          else Cleared(old(grid[p.row, p.col]))
    {
      ResetMarks();
      var d, prev;
      found, d, prev, expanded := Search();
      dist := d;
      PaintVisited(expanded);
      ghost var walls := Walls();
      path := ReconstructPath(walls, start, end, prev, dist);
      ShownPathOutcome(walls, start, end, dist, prev, found, path);
      PaintPath(path);
      if found && |path| > 0 {
        msg := FoundYou;
      } else if !found {
        msg := WhereAreYou;
      } else {
        msg := NoMessage;
      }
    }
  }
}
