/**
 * Path reconstruction (end of `runDijkstra`): walk `prev` back from `end`,
 * collecting every predecessor except `start`, then show the collected cells
 * from the last to the first, i.e. in start-to-end order.
 */
module Reconstruction {
  import opened Grid
  import opened Frontier
  import opened Search

  /**
   * The cells the reconstruction loop collects from `t`: each predecessor in
   * turn, nearest first, leaving out `start`. It stops at a cell without a
   * predecessor, which for a reached cell is `start`.
   */
  ghost function Backtrack(walls: set<Pos>, s: Pos, dist: seq<Dist>, prev: seq<Option<Pos>>, t: Pos): (r: seq<Pos>)
    requires PrevOk(walls, s, dist, prev) && InGrid(t)
    ensures forall q :: q in r ==> InGrid(q) && q != s
    decreases if dist[Idx(t)].Finite? then dist[Idx(t)].steps else 0
  {
    match prev[Idx(t)]
    case None => []
    case Some(q) => (if q != s then [q] else []) + Backtrack(walls, s, dist, prev, q)
  }

  /**
   * What the reconstruction yields for a reached cell `t` other than `start`:
   * `dist[t] - 1` cells, none of them `start` or `t`, all walkable, the i-th at
   * distance `dist[t] - 1 - i`, each adjacent to the one before it, the first
   * adjacent to `t` and the last to `start`.
   */
  lemma {:induction false} BacktrackShape(walls: set<Pos>, s: Pos, dist: seq<Dist>, prev: seq<Option<Pos>>, t: Pos)
    requires PrevOk(walls, s, dist, prev) && InGrid(t) && t != s && dist[Idx(t)].Finite?
    ensures var b := Backtrack(walls, s, dist, prev, t);
      |b| == dist[Idx(t)].steps - 1 &&
      (forall i :: 0 <= i < |b| ==>
        Walkable(walls, b[i]) && b[i] != s && b[i] != t &&
        dist[Idx(b[i])] == Finite(dist[Idx(t)].steps - 1 - i)) &&
      (forall i :: 0 < i < |b| ==> Link(walls, b[i], b[i - 1])) &&
      (|b| == 0 ==> Link(walls, s, t)) &&
      (|b| > 0 ==> Link(walls, b[0], t) && Link(walls, s, b[|b| - 1]))
    decreases dist[Idx(t)].steps
  {
    var q := prev[Idx(t)].value;
    if q != s {
      BacktrackShape(walls, s, dist, prev, q);
      var b' := Backtrack(walls, s, dist, prev, q);
      assert Backtrack(walls, s, dist, prev, t) == [q] + b';
    } else {
      assert Backtrack(walls, s, dist, prev, q) == [];
    }
  }

  /** `xs` back to front: the order in which the painting loop visits the collected cells. */
  function Reversed(xs: seq<Pos>): (r: seq<Pos>)
    ensures |r| == |xs|
  {
    if |xs| == 0 then [] else Reversed(xs[1..]) + [xs[0]]
  }

  /** The i-th cell shown is the i-th collected counted from the last. */
  lemma {:induction false} ReversedAt(xs: seq<Pos>)
    ensures forall i :: 0 <= i < |xs| ==> Reversed(xs)[i] == xs[|xs| - 1 - i]
  {
    if |xs| > 0 {
      ReversedAt(xs[1..]);
      assert Reversed(xs) == Reversed(xs[1..]) + [xs[0]];
    }
  }

  /** Reversing twice gives back the collected order. */
  lemma ReversedTwice(xs: seq<Pos>)
    ensures Reversed(Reversed(xs)) == xs
  {
    ReversedAt(xs);
    ReversedAt(Reversed(xs));
  }

  /** A chain of links read backwards, framed by `s` and `t`, is a walk. */
  lemma FramedChainIsWalk(walls: set<Pos>, s: Pos, b: seq<Pos>, t: Pos)
    requires InGrid(s)
    requires forall i :: 0 < i < |b| ==> Link(walls, b[i], b[i - 1])
    requires |b| == 0 ==> Link(walls, s, t)
    requires |b| > 0 ==> Link(walls, b[0], t) && Link(walls, s, b[|b| - 1])
    ensures IsPath(walls, [s] + Reversed(b) + [t], s, t)
  {
    var r := Reversed(b);
    ReversedAt(b);
    var w := [s] + r + [t];
    assert |w| == |b| + 2 && w[0] == s && w[|w| - 1] == t;
    assert forall j :: 1 <= j <= |b| ==> w[j] == r[j - 1];
    forall i | 0 < i < |w| ensures Link(walls, w[i - 1], w[i]) {
      if i == 1 && |b| == 0 {
        assert w[1] == t;
      } else if i == 1 {
        assert w[1] == b[|b| - 1];
      } else if i == |w| - 1 {
        assert w[i - 1] == b[0];
      } else {
        var m := |b| - i + 1;
        assert 0 < m < |b|;
        assert w[i - 1] == b[m] && w[i] == b[m - 1];
      }
    }
  }

  /**
   * `start`, the reconstructed cells in the order they are shown, then `t`:
   * a walk of exactly `dist[t]` steps.
   */
  lemma ShownPathIsWalk(walls: set<Pos>, s: Pos, dist: seq<Dist>, prev: seq<Option<Pos>>, t: Pos)
    requires PrevOk(walls, s, dist, prev) && InGrid(t) && t != s && dist[Idx(t)].Finite?
    ensures var w := [s] + Reversed(Backtrack(walls, s, dist, prev, t)) + [t];
      IsPath(walls, w, s, t) && |w| - 1 == dist[Idx(t)].steps
  {
    BacktrackShape(walls, s, dist, prev, t);
    FramedChainIsWalk(walls, s, Backtrack(walls, s, dist, prev, t), t);
  }

  /**
   * When the least frontier entry is for a cell `t` not yet expanded, its key
   * is `t`'s distance and the length of a shortest walk from `s` to `t`.
   */
  lemma PoppedIsShortest(walls: set<Pos>, s: Pos, st: State, level: nat, i: nat)
    requires AtLoopHead(walls, s, st, level)
    requires i < |st.queue| && forall j :: 0 <= j < |st.queue| ==> st.queue[i].dist <= st.queue[j].dist
    requires InGrid(st.queue[i].at) && !st.visited[Idx(st.queue[i].at)]
    ensures st.dist[Idx(st.queue[i].at)] == Finite(st.queue[i].dist)
    ensures IsShortest(walls, s, st.queue[i].at, st.queue[i].dist)
  {
    var t, key := st.queue[i].at, st.queue[i].dist;
    assert st.dist[Idx(t)].Finite? && st.dist[Idx(t)].steps <= key;
    assert Entry(t, st.dist[Idx(t)].steps) in st.queue;
    forall p | IsPath(walls, p, s, t) ensures key <= |p| - 1 {
      FrontierMinIsShortest(walls, s, st, level, i, p);
    }
    assert PrevOk(walls, s, st.dist, st.prev);
    if t == s {
      assert IsPath(walls, [s], s, t);
    } else {
      ShownPathIsWalk(walls, s, st.dist, st.prev, t);
    }
  }

  /**
   * The reconstruction loop: from `end`, follow `prev` while
   * it is set, keeping every predecessor that is not `start`.
   */
  method ReconstructPath(ghost walls: set<Pos>, s: Pos, e: Pos, prev: seq<Option<Pos>>, ghost dist: seq<Dist>)
    returns (path: seq<Pos>)
    requires PrevOk(walls, s, dist, prev) && InGrid(e)
    ensures path == Backtrack(walls, s, dist, prev, e)
  {
    var cur := e;
    path := [];
    while prev[Idx(cur)].Some?
      invariant InGrid(cur)
      invariant path + Backtrack(walls, s, dist, prev, cur) == Backtrack(walls, s, dist, prev, e)
      decreases if dist[Idx(cur)].Finite? then dist[Idx(cur)].steps else 0
    {
      cur := prev[Idx(cur)].value;
      if cur != s {
        path := path + [cur];
      }
    }
  }
}
