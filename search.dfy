/**
 * What the search loop of `runDijkstra` keeps true. Its state is the three
 * row-major arrays `visited`, `dist` and `prev`, the frontier and
 * the cells expanded so far; the lemmas below carry the loop invariant across
 * one pop and one relaxation, and turn it into the results the search
 * promises: a shortest step count when `end` is expanded, unreachability when
 * the frontier runs dry.
 */
module Search {
  import opened Grid
  import opened Frontier

  datatype Option<T> = None | Some(value: T)

  /** A tentative distance: JavaScript's `Infinity` or a number of unit steps. */
  datatype Dist = Infinity | Finite(steps: nat)

  /**
   * `d > cand` for a number `cand`, as JavaScript compares with `Infinity`: an
   * unreached cell always improves, and an equal distance never does.
   */
  function Improves(cand: nat, d: Dist): (b: bool)
    ensures d.Infinity? ==> b
    ensures d == Finite(cand) ==> !b
  {
    d.Infinity? || cand < d.steps
  }

  /** The search's working state (the arrays are indexed with `Idx`). */
  datatype State = State(
    visited: seq<bool>,
    dist: seq<Dist>,
    prev: seq<Option<Pos>>,
    queue: seq<Entry>,
    expanded: seq<Pos>)

  ghost predicate Sized(st: State) {
    |st.visited| == Cells && |st.dist| == Cells && |st.prev| == Cells
  }

  /**
   * The predecessor structure: `start` is at distance 0 with no predecessor; a
   * cell never reached has none either; every other reached cell has an
   * adjacent predecessor one step closer, and it is walkable. Following `prev`
   * therefore strictly decreases the distance and ends at `start`.
   */
  ghost predicate PrevOk(walls: set<Pos>, s: Pos, dist: seq<Dist>, prev: seq<Option<Pos>>) {
    |dist| == Cells && |prev| == Cells && InGrid(s) &&
    dist[Idx(s)] == Finite(0) && prev[Idx(s)].None? &&
    (forall p {:trigger prev[Idx(p)]} :: InGrid(p) && dist[Idx(p)].Infinity? ==> prev[Idx(p)].None?) &&
    (forall p {:trigger prev[Idx(p)]} :: InGrid(p) && p != s && dist[Idx(p)].Finite? ==>
      prev[Idx(p)].Some? && InGrid(prev[Idx(p)].value) &&
      Link(walls, prev[Idx(p)].value, p) &&
      dist[Idx(prev[Idx(p)].value)].Finite? &&
      dist[Idx(p)].steps == dist[Idx(prev[Idx(p)].value)].steps + 1)
  }

  /** Every entry names a reached cell, no closer than it, and its key lies in [level, level + 1]. */
  ghost predicate QueueOk(st: State, level: nat)
    requires Sized(st)
  {
    Sorted(st.queue) &&
    forall j :: 0 <= j < |st.queue| ==>
      InGrid(st.queue[j].at) && st.dist[Idx(st.queue[j].at)].Finite? &&
      st.dist[Idx(st.queue[j].at)].steps <= st.queue[j].dist &&
      level <= st.queue[j].dist <= level + 1
  }

  /** Expanded cells are reached, no farther than `level`, and are what a predecessor may be. */
  ghost predicate SettledOk(st: State, level: nat)
    requires Sized(st)
  {
    (forall p :: InGrid(p) && st.visited[Idx(p)] ==>
      st.dist[Idx(p)].Finite? && st.dist[Idx(p)].steps <= level) &&
    (forall p {:trigger st.prev[Idx(p)]} :: InGrid(p) && st.prev[Idx(p)].Some? && InGrid(st.prev[Idx(p)].value) ==>
      st.visited[Idx(st.prev[Idx(p)].value)])
  }

  /** A reached cell not yet expanded waits in the frontier with its current distance. */
  ghost predicate PendingOk(st: State)
    requires Sized(st)
  {
    forall p :: InGrid(p) && !st.visited[Idx(p)] && st.dist[Idx(p)].Finite? ==>
      Entry(p, st.dist[Idx(p)].steps) in st.queue
  }

  /**
   * Relaxation has been done: each walkable neighbour of an expanded cell is at
   * most one step farther, except the neighbours `k..3` of the cell `cur`
   * being expanded.
   */
  ghost predicate ClosedOk(walls: set<Pos>, st: State, cur: Pos, k: int)
    requires Sized(st)
  {
    forall p, j {:trigger Step(p, j)} ::
      InGrid(p) && 0 <= j < 4 && st.visited[Idx(p)] && (p != cur || j < k) && Walkable(walls, Step(p, j)) ==>
      st.dist[Idx(Step(p, j))].Finite? && st.dist[Idx(p)].Finite? &&
      st.dist[Idx(Step(p, j))].steps <= st.dist[Idx(p)].steps + 1
  }

  /** `expanded` lists the visited cells once each, in non-decreasing distance. */
  ghost predicate TraceOk(st: State)
    requires Sized(st)
  {
    (forall i :: 0 <= i < |st.expanded| ==>
      InGrid(st.expanded[i]) && st.visited[Idx(st.expanded[i])]) &&
    (forall p :: InGrid(p) && st.visited[Idx(p)] ==> p in st.expanded) &&
    (forall i, j :: 0 <= i < j < |st.expanded| ==>
      st.expanded[i] != st.expanded[j] &&
      st.dist[Idx(st.expanded[i])].Finite? && st.dist[Idx(st.expanded[j])].Finite? &&
      st.dist[Idx(st.expanded[i])].steps <= st.dist[Idx(st.expanded[j])].steps)
  }

  /** The loop invariant, while the neighbours `k..3` of `cur` are still to be relaxed. */
  ghost predicate Invariant(walls: set<Pos>, s: Pos, st: State, level: nat, cur: Pos, k: int) {
    Sized(st) && PrevOk(walls, s, st.dist, st.prev) && QueueOk(st, level) &&
    SettledOk(st, level) && PendingOk(st) && ClosedOk(walls, st, cur, k) && TraceOk(st)
  }

  /** The loop invariant at the head of the `while`: every expanded cell is fully relaxed. */
  ghost predicate AtLoopHead(walls: set<Pos>, s: Pos, st: State, level: nat) {
    Invariant(walls, s, st, level, s, 4)
  }

  /** The arrays as `runDijkstra` fills them satisfy the invariant at level 0. */
  lemma InitOk(walls: set<Pos>, s: Pos, st: State)
    requires InGrid(s) && Sized(st)
    requires forall i :: 0 <= i < Cells ==> !st.visited[i] && st.prev[i].None?
    requires forall i :: 0 <= i < Cells ==> st.dist[i] == if i == Idx(s) then Finite(0) else Infinity
    requires st.queue == [Entry(s, 0)] && st.expanded == []
    ensures AtLoopHead(walls, s, st, 0)
  {
    forall p | InGrid(p) && p != s ensures st.dist[Idx(p)].Infinity? {
      IdxInjective(p, s);
    }
  }

  /** Popping an entry of an already expanded cell only shortens the frontier. */
  lemma PopStale(walls: set<Pos>, s: Pos, st: State, level: nat, i: nat)
    requires AtLoopHead(walls, s, st, level)
    requires i < |st.queue| && InGrid(st.queue[i].at) && st.visited[Idx(st.queue[i].at)]
    ensures AtLoopHead(walls, s, st.(queue := RemoveAt(st.queue, i)), level)
  {
    var st' := st.(queue := RemoveAt(st.queue, i));
    forall p | InGrid(p) && !st.visited[Idx(p)] && st.dist[Idx(p)].Finite?
      ensures Entry(p, st.dist[Idx(p)].steps) in st'.queue
    {
      RemoveAtMembers(st.queue, i, Entry(p, st.dist[Idx(p)].steps));
    }
  }

  /** The state after the popped cell `c` is marked visited and appended to the trace. */
  function Expand(st: State, i: nat): (st': State)
    requires Sized(st) && i < |st.queue| && InGrid(st.queue[i].at)
    ensures Sized(st') && st'.dist == st.dist && st'.prev == st.prev
    ensures forall p :: InGrid(p) ==> st'.visited[Idx(p)] == (st.visited[Idx(p)] || p == st.queue[i].at)
    ensures |st'.queue| == |st.queue| - 1
  {
    var c := st.queue[i].at;
    st.(visited := st.visited[Idx(c) := true], queue := RemoveAt(st.queue, i),
        expanded := st.expanded + [c])
  }

  /** The key of the least entry of a cell not yet expanded is that cell's distance. */
  lemma PopKey(walls: set<Pos>, s: Pos, st: State, level: nat, i: nat)
    requires AtLoopHead(walls, s, st, level)
    requires i < |st.queue| && forall j :: 0 <= j < |st.queue| ==> st.queue[i].dist <= st.queue[j].dist
    requires InGrid(st.queue[i].at) && !st.visited[Idx(st.queue[i].at)]
    ensures st.dist[Idx(st.queue[i].at)] == Finite(st.queue[i].dist)
    ensures level <= st.queue[i].dist
  {
    var c := st.queue[i].at;
    assert Entry(c, st.dist[Idx(c)].steps) in st.queue;
  }

  /** Marking the popped cell visited keeps every other reached cell waiting in the frontier. */
  lemma PopKeepsPending(walls: set<Pos>, s: Pos, st: State, level: nat, i: nat)
    requires AtLoopHead(walls, s, st, level)
    requires i < |st.queue| && forall j :: 0 <= j < |st.queue| ==> st.queue[i].dist <= st.queue[j].dist
    requires InGrid(st.queue[i].at) && !st.visited[Idx(st.queue[i].at)]
    ensures QueueOk(Expand(st, i), st.queue[i].dist) && PendingOk(Expand(st, i))
  {
    var c := st.queue[i].at;
    var st' := Expand(st, i);
    PopKey(walls, s, st, level, i);
    forall p | InGrid(p) && !st'.visited[Idx(p)] && st.dist[Idx(p)].Finite?
      ensures Entry(p, st.dist[Idx(p)].steps) in st'.queue
    {
      IdxInjective(p, c);
      RemoveAtMembers(st.queue, i, Entry(p, st.dist[Idx(p)].steps));
    }
  }

  /**
   * Popping the least entry of a cell not yet expanded: its key is the cell's
   * distance, no smaller than any expanded cell's, and it becomes the new level.
   */
  lemma PopFresh(walls: set<Pos>, s: Pos, st: State, level: nat, i: nat)
    requires AtLoopHead(walls, s, st, level)
    requires i < |st.queue| && forall j :: 0 <= j < |st.queue| ==> st.queue[i].dist <= st.queue[j].dist
    requires InGrid(st.queue[i].at) && !st.visited[Idx(st.queue[i].at)]
    ensures st.dist[Idx(st.queue[i].at)] == Finite(st.queue[i].dist)
    ensures level <= st.queue[i].dist
    ensures Invariant(walls, s, Expand(st, i), st.queue[i].dist, st.queue[i].at, 0)
  {
    var c, key := st.queue[i].at, st.queue[i].dist;
    var st' := Expand(st, i);
    PopKey(walls, s, st, level, i);
    PopKeepsPending(walls, s, st, level, i);
    forall p | InGrid(p) ensures st'.visited[Idx(p)] == (st.visited[Idx(p)] || p == c) {
      IdxInjective(p, c);
    }
    assert c !in st.expanded;
    forall p | InGrid(p) && st'.visited[Idx(p)] ensures p in st'.expanded {
      if p != c {
        assert p in st.expanded;
      }
    }
  }

  /** Relaxing `n` from `c`: `dist[n] = d`, `prev[n] = c` and a new frontier entry. */
  function Relax(st: State, c: Pos, n: Pos, d: nat): (st': State)
    requires Sized(st) && InGrid(n)
    ensures Sized(st') && st'.visited == st.visited && st'.expanded == st.expanded
    ensures st'.dist[Idx(n)] == Finite(d) && st'.prev[Idx(n)] == Some(c)
    ensures |st'.queue| == |st.queue| + 1 && st'.queue[..|st.queue|] == st.queue
  {
    st.(dist := st.dist[Idx(n) := Finite(d)], prev := st.prev[Idx(n) := Some(c)],
        queue := st.queue + [Entry(n, d)])
  }

  /** A neighbour that is off the board, an obstacle or not improved leaves the state as it is. */
  lemma RelaxSkip(walls: set<Pos>, s: Pos, st: State, level: nat, c: Pos, k: nat)
    requires Invariant(walls, s, st, level, c, k) && k < 4
    requires InGrid(c) && st.visited[Idx(c)] && st.dist[Idx(c)] == Finite(level)
    requires !Walkable(walls, Step(c, k)) || !Improves(level + 1, st.dist[Idx(Step(c, k))])
    ensures Invariant(walls, s, st, level, c, k + 1)
  {
  }

  /** The facts every part of `RelaxUpdate` relies on. */
  ghost predicate RelaxPre(walls: set<Pos>, s: Pos, st: State, level: nat, c: Pos, k: int) {
    Invariant(walls, s, st, level, c, k) && 0 <= k < 4 &&
    InGrid(c) && st.visited[Idx(c)] && st.dist[Idx(c)] == Finite(level) &&
    Walkable(walls, Step(c, k)) && Improves(level + 1, st.dist[Idx(Step(c, k))])
  }

  /** Only the relaxed cell's distance and predecessor change. */
  lemma RelaxFrame(walls: set<Pos>, s: Pos, st: State, level: nat, c: Pos, k: int, p: Pos)
    requires RelaxPre(walls, s, st, level, c, k) && InGrid(p)
    ensures var n := Step(c, k); var st' := Relax(st, c, n, level + 1);
      st'.dist[Idx(p)] == (if p == n then Finite(level + 1) else st.dist[Idx(p)]) &&
      st'.prev[Idx(p)] == (if p == n then Some(c) else st.prev[Idx(p)])
  {
    IdxInjective(p, Step(c, k));
  }

  /** The relaxed cell is neither expanded nor `start`. */
  lemma RelaxTarget(walls: set<Pos>, s: Pos, st: State, level: nat, c: Pos, k: int)
    requires RelaxPre(walls, s, st, level, c, k)
    ensures !st.visited[Idx(Step(c, k))] && Step(c, k) != s && Adjacent(c, Step(c, k))
  {
  }

  lemma RelaxKeepsPrev(walls: set<Pos>, s: Pos, st: State, level: nat, c: Pos, k: int)
    requires RelaxPre(walls, s, st, level, c, k)
    ensures var st' := Relax(st, c, Step(c, k), level + 1);
      PrevOk(walls, s, st'.dist, st'.prev) && SettledOk(st', level)
  {
    var n := Step(c, k);
    var st' := Relax(st, c, n, level + 1);
    RelaxTarget(walls, s, st, level, c, k);
    forall p | InGrid(p)
      ensures st'.dist[Idx(p)] == (if p == n then Finite(level + 1) else st.dist[Idx(p)])
      ensures st'.prev[Idx(p)] == (if p == n then Some(c) else st.prev[Idx(p)])
    {
      RelaxFrame(walls, s, st, level, c, k, p);
    }
  }

  lemma RelaxKeepsQueue(walls: set<Pos>, s: Pos, st: State, level: nat, c: Pos, k: int)
    requires RelaxPre(walls, s, st, level, c, k)
    ensures var st' := Relax(st, c, Step(c, k), level + 1);
      QueueOk(st', level) && PendingOk(st')
  {
    var n := Step(c, k);
    var st' := Relax(st, c, n, level + 1);
    forall p | InGrid(p)
      ensures st'.dist[Idx(p)] == (if p == n then Finite(level + 1) else st.dist[Idx(p)])
    {
      RelaxFrame(walls, s, st, level, c, k, p);
    }
    assert st'.queue[|st.queue|] == Entry(n, level + 1);
    forall p | InGrid(p) && !st'.visited[Idx(p)] && st'.dist[Idx(p)].Finite?
      ensures Entry(p, st'.dist[Idx(p)].steps) in st'.queue
    {
      if p != n {
        assert Entry(p, st.dist[Idx(p)].steps) in st.queue;
      }
    }
  }

  lemma RelaxKeepsClosed(walls: set<Pos>, s: Pos, st: State, level: nat, c: Pos, k: int)
    requires RelaxPre(walls, s, st, level, c, k)
    ensures var st' := Relax(st, c, Step(c, k), level + 1);
      ClosedOk(walls, st', c, k + 1) && TraceOk(st')
  {
    var n := Step(c, k);
    var st' := Relax(st, c, n, level + 1);
    RelaxTarget(walls, s, st, level, c, k);
    forall p | InGrid(p)
      ensures st'.dist[Idx(p)] == (if p == n then Finite(level + 1) else st.dist[Idx(p)])
    {
      RelaxFrame(walls, s, st, level, c, k, p);
    }
  }

  /**
   * Relaxing a walkable neighbour whose distance improves: the neighbour was not
   * expanded (expanded cells are no farther than `level`), is not `start`, and
   * gets `c` as its predecessor and a frontier entry one step past `level`.
   */
  lemma RelaxUpdate(walls: set<Pos>, s: Pos, st: State, level: nat, c: Pos, k: nat)
    requires Invariant(walls, s, st, level, c, k) && k < 4
    requires InGrid(c) && st.visited[Idx(c)] && st.dist[Idx(c)] == Finite(level)
    requires Walkable(walls, Step(c, k)) && Improves(level + 1, st.dist[Idx(Step(c, k))])
    ensures Invariant(walls, s, Relax(st, c, Step(c, k), level + 1), level, c, k + 1)
  {
    RelaxKeepsPrev(walls, s, st, level, c, k);
    RelaxKeepsQueue(walls, s, st, level, c, k);
    RelaxKeepsClosed(walls, s, st, level, c, k);
  }

  /** Neighbour `k` of `c`: relaxed to `d` when it is walkable and `d` improves on it. */
  function TryNeighbour(walls: set<Pos>, st: State, c: Pos, d: nat, k: nat): (st': State)
    requires Sized(st) && k < 4
    ensures Sized(st') && st'.visited == st.visited && st'.expanded == st.expanded
  {
    var n := Step(c, k);
    if Walkable(walls, n) && Improves(d, st.dist[Idx(n)]) then Relax(st, c, n, d) else st
  }

  /**
   * The neighbour loop from neighbour `k` on: the neighbours
   * `k..3` of `c`, in the order +col, +row, -col, -row, each tried in turn.
   */
  function RelaxFrom(walls: set<Pos>, st: State, c: Pos, d: nat, k: nat): (st': State)
    requires Sized(st) && k <= 4
    ensures Sized(st') && st'.visited == st.visited && st'.expanded == st.expanded
    decreases 4 - k
  {
    if k == 4 then st else RelaxFrom(walls, TryNeighbour(walls, st, c, d, k), c, d, k + 1)
  }

  /** `p` is one of the neighbours `k..3` of `c`. */
  predicate NeighbourFrom(c: Pos, k: nat, p: Pos)
    decreases 4 - k
  {
    k < 4 && (p == Step(c, k) || NeighbourFrom(c, k + 1, p))
  }

  /** The neighbours `0..3` of `c` are its adjacent cells, and neighbour `k` is not among `k+1..3`. */
  lemma NeighbourFromAdjacent(c: Pos, p: Pos, k: nat)
    requires k < 4
    ensures NeighbourFrom(c, 0, p) <==> Adjacent(c, p)
    ensures !NeighbourFrom(c, k + 1, Step(c, k))
  {
    assert NeighbourFrom(c, 0, p) <==> p == Step(c, 0) || p == Step(c, 1) || p == Step(c, 2) || p == Step(c, 3);
  }

  /** `p` is one of the neighbours `k..3` of `c`, walkable, and `d` is less than its distance. */
  predicate ImprovedFrom(walls: set<Pos>, dist: seq<Dist>, c: Pos, d: nat, k: nat, p: Pos)
    requires |dist| == Cells
  {
    Walkable(walls, p) && Improves(d, dist[Idx(p)]) && NeighbourFrom(c, k, p)
  }

  /** The entry neighbour `k` of `c` pushes, if it is walkable and improved. */
  function PushAt(walls: set<Pos>, dist: seq<Dist>, c: Pos, d: nat, k: nat): seq<Entry>
    requires |dist| == Cells && k < 4
  {
    var n := Step(c, k);
    if Walkable(walls, n) && Improves(d, dist[Idx(n)]) then [Entry(n, d)] else []
  }

  /** The entries the neighbours `k..3` of `c` push, in the order they are tried. */
  function Pushes(walls: set<Pos>, dist: seq<Dist>, c: Pos, d: nat, k: nat): seq<Entry>
    requires |dist| == Cells && k <= 4
    decreases 4 - k
  {
    if k == 4 then [] else PushAt(walls, dist, c, d, k) + Pushes(walls, dist, c, d, k + 1)
  }

  /** `Pushes` reads the distances of the neighbours `k..3` only. */
  lemma {:induction false} PushesFrame(walls: set<Pos>, dist: seq<Dist>, dist': seq<Dist>, c: Pos, d: nat, k: nat)
    requires |dist| == Cells && |dist'| == Cells && k <= 4
    requires forall j :: k <= j < 4 && InGrid(Step(c, j)) ==> dist[Idx(Step(c, j))] == dist'[Idx(Step(c, j))]
    ensures Pushes(walls, dist, c, d, k) == Pushes(walls, dist', c, d, k)
    decreases 4 - k
  {
    if k < 4 {
      PushesFrame(walls, dist, dist', c, d, k + 1);
    }
  }

  /**
   * Trying neighbour `k` changes that neighbour alone, and only when it is
   * improved; it is then no longer improvable, and the later neighbours are
   * improvable exactly as before.
   */
  lemma {:induction false} TryNeighbourEffect(walls: set<Pos>, st: State, c: Pos, d: nat, k: nat, p: Pos)
    requires Sized(st) && k < 4 && InGrid(p)
    ensures var st1 := TryNeighbour(walls, st, c, d, k);
      var hit := ImprovedFrom(walls, st.dist, c, d, k, p) && p == Step(c, k);
      st1.dist[Idx(p)] == (if hit then Finite(d) else st.dist[Idx(p)]) &&
      st1.prev[Idx(p)] == (if hit then Some(c) else st.prev[Idx(p)]) &&
      (ImprovedFrom(walls, st1.dist, c, d, k + 1, p) <==> ImprovedFrom(walls, st.dist, c, d, k, p) && !hit)
  {
    var n := Step(c, k);
    if InGrid(n) {
      IdxInjective(p, n);
    }
    NeighbourFromAdjacent(c, p, k);
  }

  /** Trying neighbour `k` leaves what the later neighbours push as it was. */
  lemma {:induction false} TryNeighbourKeepsPushes(walls: set<Pos>, st: State, c: Pos, d: nat, k: nat)
    requires Sized(st) && k < 4
    ensures Pushes(walls, TryNeighbour(walls, st, c, d, k).dist, c, d, k + 1) == Pushes(walls, st.dist, c, d, k + 1)
  {
    var n := Step(c, k);
    var st1 := TryNeighbour(walls, st, c, d, k);
    forall j | k + 1 <= j < 4 && InGrid(Step(c, j))
      ensures st.dist[Idx(Step(c, j))] == st1.dist[Idx(Step(c, j))]
    {
      if InGrid(n) {
        IdxInjective(Step(c, j), n);
      }
    }
    PushesFrame(walls, st.dist, st1.dist, c, d, k + 1);
  }

  /** Trying neighbour `k` pushes its entry, if any, at the back of the frontier. */
  lemma {:induction false} TryNeighbourQueue(walls: set<Pos>, st: State, c: Pos, d: nat, k: nat)
    requires Sized(st) && k < 4
    ensures TryNeighbour(walls, st, c, d, k).queue == st.queue + PushAt(walls, st.dist, c, d, k)
  {
  }

  /**
   * What the neighbour loop does to a cell: it gets distance `d` and
   * predecessor `c` exactly when it is a walkable neighbour still to be tried
   * on which `d` strictly improves, so a tie keeps the earlier predecessor;
   * every other cell keeps its distance and predecessor.
   */
  lemma {:induction false} RelaxFromCell(walls: set<Pos>, st: State, c: Pos, d: nat, k: nat, p: Pos)
    requires Sized(st) && k <= 4 && InGrid(p)
    ensures var st' := RelaxFrom(walls, st, c, d, k);
      var hit := ImprovedFrom(walls, st.dist, c, d, k, p);
      st'.dist[Idx(p)] == (if hit then Finite(d) else st.dist[Idx(p)]) &&
      st'.prev[Idx(p)] == (if hit then Some(c) else st.prev[Idx(p)])
    decreases 4 - k
  {
    if k < 4 {
      TryNeighbourEffect(walls, st, c, d, k, p);
      RelaxFromCell(walls, TryNeighbour(walls, st, c, d, k), c, d, k + 1, p);
    }
  }

  /** The neighbour loop grows the frontier by the improved neighbours' entries, in the order they are tried. */
  lemma {:induction false} RelaxFromQueue(walls: set<Pos>, st: State, c: Pos, d: nat, k: nat)
    requires Sized(st) && k <= 4
    ensures RelaxFrom(walls, st, c, d, k).queue == st.queue + Pushes(walls, st.dist, c, d, k)
    decreases 4 - k
  {
    if k < 4 {
      var st1 := TryNeighbour(walls, st, c, d, k);
      var now, rest := PushAt(walls, st.dist, c, d, k), Pushes(walls, st.dist, c, d, k + 1);
      calc {
        RelaxFrom(walls, st, c, d, k).queue;
        RelaxFrom(walls, st1, c, d, k + 1).queue;
        { RelaxFromQueue(walls, st1, c, d, k + 1); }
        st1.queue + Pushes(walls, st1.dist, c, d, k + 1);
        { TryNeighbourQueue(walls, st, c, d, k); TryNeighbourKeepsPushes(walls, st, c, d, k); }
        (st.queue + now) + rest;
        st.queue + (now + rest);
      }
    }
  }

  /** A walk's prefix is a walk to its second-to-last cell. */
  lemma PathPrefix(walls: set<Pos>, p: seq<Pos>, s: Pos, t: Pos)
    requires IsPath(walls, p, s, t) && |p| > 1
    ensures IsPath(walls, p[..|p| - 1], s, p[|p| - 2]) && Link(walls, p[|p| - 2], t)
  {
    var p' := p[..|p| - 1];
    forall i | 0 < i < |p'| ensures Link(walls, p'[i - 1], p'[i]) {
      assert p'[i - 1] == p[i - 1] && p'[i] == p[i];
    }
  }

  /** One step of `PathBound` from an expanded cell `w`, using relaxation. */
  lemma CutFromExpanded(walls: set<Pos>, s: Pos, st: State, level: nat, w: Pos, t: Pos, len: nat)
    requires AtLoopHead(walls, s, st, level)
    requires InGrid(w) && st.visited[Idx(w)] && st.dist[Idx(w)].steps + 1 <= len
    requires Link(walls, w, t)
    ensures st.visited[Idx(t)] ==> st.dist[Idx(t)].Finite? && st.dist[Idx(t)].steps <= len
    ensures !st.visited[Idx(t)] ==> exists j :: 0 <= j < |st.queue| && st.queue[j].dist <= len
  {
    StepsAreAdjacent(w, t);
    var k :| 0 <= k < 4 && Step(w, k) == t;
    assert st.dist[Idx(t)].Finite? && st.dist[Idx(t)].steps <= len;
    if !st.visited[Idx(t)] {
      var e := Entry(t, st.dist[Idx(t)].steps);
      assert e in st.queue;
      var j :| 0 <= j < |st.queue| && st.queue[j] == e;
    }
  }

  /** One step of `PathBound` past a cell still in the frontier: expanded cells are no farther than any key. */
  lemma CutFromFrontier(walls: set<Pos>, s: Pos, st: State, level: nat, t: Pos, j: nat, len: nat)
    requires AtLoopHead(walls, s, st, level)
    requires j < |st.queue| && st.queue[j].dist <= len && InGrid(t)
    ensures st.visited[Idx(t)] ==> st.dist[Idx(t)].Finite? && st.dist[Idx(t)].steps <= len
  {
  }

  /**
   * The frontier cuts every walk: a walk from `start` to an expanded cell is at
   * least as long as that cell's distance, and a walk to a cell not yet
   * expanded is at least as long as some frontier key.
   */
  lemma {:induction false} PathBound(walls: set<Pos>, s: Pos, st: State, level: nat, p: seq<Pos>, t: Pos)
    requires AtLoopHead(walls, s, st, level) && IsPath(walls, p, s, t)
    ensures InGrid(t)
    ensures st.visited[Idx(t)] ==> st.dist[Idx(t)].Finite? && st.dist[Idx(t)].steps <= |p| - 1
    ensures !st.visited[Idx(t)] ==> exists j :: 0 <= j < |st.queue| && st.queue[j].dist <= |p| - 1
    decreases |p|
  {
    if |p| == 1 {
      if !st.visited[Idx(s)] {
        assert Entry(s, 0) in st.queue;
      }
    } else {
      var w := p[|p| - 2];
      PathPrefix(walls, p, s, t);
      PathBound(walls, s, st, level, p[..|p| - 1], w);
      if st.visited[Idx(w)] {
        CutFromExpanded(walls, s, st, level, w, t, |p| - 1);
      } else {
        var j :| 0 <= j < |st.queue| && st.queue[j].dist <= |p| - 2;
        CutFromFrontier(walls, s, st, level, t, j, |p| - 1);
      }
    }
  }

  /**
   * When the least frontier entry names a cell not yet expanded, no walk to
   * that cell is shorter than the entry's key.
   */
  lemma FrontierMinIsShortest(walls: set<Pos>, s: Pos, st: State, level: nat, i: nat, p: seq<Pos>)
    requires AtLoopHead(walls, s, st, level)
    requires i < |st.queue| && forall j :: 0 <= j < |st.queue| ==> st.queue[i].dist <= st.queue[j].dist
    requires InGrid(st.queue[i].at) && !st.visited[Idx(st.queue[i].at)]
    requires IsPath(walls, p, s, st.queue[i].at)
    ensures st.queue[i].dist <= |p| - 1
  {
    PathBound(walls, s, st, level, p, st.queue[i].at);
  }

  /**
   * When the frontier is empty, a cell not yet expanded was never reached and
   * no walk leads to it.
   */
  lemma ExhaustedUnreachable(walls: set<Pos>, s: Pos, st: State, level: nat, t: Pos)
    requires AtLoopHead(walls, s, st, level) && |st.queue| == 0
    requires InGrid(t) && !st.visited[Idx(t)]
    ensures st.dist[Idx(t)].Infinity?
    ensures !Reachable(walls, s, t)
  {
    if p :| IsPath(walls, p, s, t) {
      PathBound(walls, s, st, level, p, t);
    }
  }

  /**
   * What the search has established when its loop ends: either `e` was
   * expanded (`found`), at distance `level`, which is the least number of
   * steps, or the frontier ran dry with `e` never expanded.
   */
  lemma SearchOutcome(walls: set<Pos>, s: Pos, e: Pos, st: State, level: nat, found: bool)
    requires s !in walls && InGrid(e)
    requires |st.expanded| > 0 && st.expanded[0] == s
    requires found ==>
      Invariant(walls, s, st, level, e, 0) && st.dist[Idx(e)] == Finite(level) &&
      IsShortest(walls, s, e, level) && st.expanded[|st.expanded| - 1] == e
    requires !found ==>
      AtLoopHead(walls, s, st, level) && |st.queue| == 0 && !st.visited[Idx(e)]
    ensures PrevOk(walls, s, st.dist, st.prev)
    ensures found <==> Reachable(walls, s, e)
    ensures found ==> st.dist[Idx(e)].Finite? && IsShortest(walls, s, e, st.dist[Idx(e)].steps)
    ensures !found ==> st.dist[Idx(e)].Infinity?
    ensures found <==> e in st.expanded
    ensures forall i :: 0 <= i < |st.expanded| ==>
      Walkable(walls, st.expanded[i]) && st.dist[Idx(st.expanded[i])].Finite?
    ensures forall i, j :: 0 <= i < j < |st.expanded| ==>
      InGrid(st.expanded[i]) && InGrid(st.expanded[j]) && st.expanded[i] != st.expanded[j] &&
      st.dist[Idx(st.expanded[i])].Finite? && st.dist[Idx(st.expanded[j])].Finite? &&
      st.dist[Idx(st.expanded[i])].steps <= st.dist[Idx(st.expanded[j])].steps
  {
    if !found {
      ExhaustedUnreachable(walls, s, st, level, e);
    }
    forall i | 0 <= i < |st.expanded|
      ensures Walkable(walls, st.expanded[i]) && st.dist[Idx(st.expanded[i])].Finite?
    {
      var p := st.expanded[i];
      if p != s {
        assert Link(walls, st.prev[Idx(p)].value, p);
      }
    }
  }

  /** The number of cells not yet expanded: what every fresh pop decreases. */
  function CountFalse(v: seq<bool>): nat {
    if v == [] then 0 else CountFalse(v[..|v| - 1]) + (if v[|v| - 1] then 0 else 1)
  }

  lemma {:induction false} CountFalseMark(v: seq<bool>, i: nat)
    requires i < |v| && !v[i]
    ensures CountFalse(v[i := true]) == CountFalse(v) - 1
    decreases |v|
  {
    var v' := v[i := true];
    if i < |v| - 1 {
      assert v'[..|v| - 1] == v[..|v| - 1][i := true];
      CountFalseMark(v[..|v| - 1], i);
    } else {
      assert v'[..|v| - 1] == v[..|v| - 1];
    }
  }
}
