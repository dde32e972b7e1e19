/**
 * Geometry of the visualizer's board: a fixed 10 x 10 grid of cells, the
 * kinds a cell can show, 4-connected moves in the order the search tries
 * them, and paths through cells that are not obstacles.
 */
module Grid {

  /** Side of the square board (`gridSize` in the source). */
  const GridSize: int := 10

  /** Number of cells, `gridSize * gridSize`; the search keeps one entry per cell in row-major order. */
  const Cells: int := GridSize * GridSize

  /** A board coordinate `{ row, col }`. */
  datatype Pos = Pos(row: int, col: int)

  /** What a cell shows: the `type` string of a grid cell in the source. */
  datatype CellType = Empty | Start | End | Obstacle | Visited | PathMark

  predicate InGrid(p: Pos) {
    0 <= p.row < GridSize && 0 <= p.col < GridSize
  }

  /** Row-major index of an in-bounds cell. */
  function Idx(p: Pos): (i: int)
    requires InGrid(p)
    ensures 0 <= i < Cells
  {
    p.row * GridSize + p.col
  }

  lemma IdxInjective(p: Pos, q: Pos)
    requires InGrid(p) && InGrid(q)
    ensures Idx(p) == Idx(q) <==> p == q
  {
    if Idx(p) == Idx(q) {
      assert p.row == q.row;
    }
  }

  /**
   * The k-th neighbour tried by the search: the offsets
   * [0,1], [1,0], [0,-1], [-1,0], i.e. +col, +row, -col, -row.
   */
  function Step(p: Pos, k: int): (n: Pos)
    requires 0 <= k < 4
    ensures Adjacent(p, n)
  {
    if k == 0 then Pos(p.row, p.col + 1)
    else if k == 1 then Pos(p.row + 1, p.col)
    else if k == 2 then Pos(p.row, p.col - 1)
    else Pos(p.row - 1, p.col)
  }

  /** Orthogonal adjacency: the two cells differ by one in exactly one coordinate. */
  predicate Adjacent(p: Pos, q: Pos) {
    (p.row == q.row && (p.col - q.col == 1 || q.col - p.col == 1)) ||
    (p.col == q.col && (p.row - q.row == 1 || q.row - p.row == 1))
  }

  /** The four neighbours tried by the search are exactly the adjacent cells. */
  lemma StepsAreAdjacent(p: Pos, q: Pos)
    ensures Adjacent(p, q) <==> exists k :: 0 <= k < 4 && Step(p, k) == q
  {
    if Adjacent(p, q) {
      if q.col == p.col + 1 { assert Step(p, 0) == q; }
      else if q.row == p.row + 1 { assert Step(p, 1) == q; }
      else if q.col == p.col - 1 { assert Step(p, 2) == q; }
      else { assert Step(p, 3) == q; }
    }
  }

  /** A cell the search may enter: on the board and not an obstacle. */
  predicate Walkable(walls: set<Pos>, p: Pos) {
    InGrid(p) && p !in walls
  }

  /** One step of a walk: from `a` into the adjacent walkable cell `b`. */
  predicate Link(walls: set<Pos>, a: Pos, b: Pos) {
    Adjacent(a, b) && Walkable(walls, b)
  }

  /**
   * `p` is a walk from `s` to `t` of |p| - 1 unit steps: consecutive cells are
   * adjacent and every entered cell is walkable. The first cell is where the
   * search starts; the source never tests its type.
   */
  ghost predicate IsPath(walls: set<Pos>, p: seq<Pos>, s: Pos, t: Pos) {
    |p| >= 1 && p[0] == s && p[|p| - 1] == t && InGrid(s) &&
    forall i :: 0 < i < |p| ==> Link(walls, p[i - 1], p[i])
  }

  ghost predicate Reachable(walls: set<Pos>, s: Pos, t: Pos) {
    exists p :: IsPath(walls, p, s, t)
  }

  /** `k` is the least number of steps of any walk from `s` to `t`. */
  ghost predicate IsShortest(walls: set<Pos>, s: Pos, t: Pos, k: nat) {
    (exists p :: IsPath(walls, p, s, t) && |p| - 1 == k) &&
    (forall p :: IsPath(walls, p, s, t) ==> k <= |p| - 1)
  }
}
