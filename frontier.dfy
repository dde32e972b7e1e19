/**
 * The search frontier of `runDijkstra`: an array of `{ row, col, dist }`
 * entries that is stably re-sorted by `dist` before every `shift`, so the entry
 * removed is the earliest-inserted one among those with the least `dist`.
 */
module Frontier {
  import opened Grid

  /** A frontier entry `{ row, col, dist }`; its `dist` is always a number. */
  datatype Entry = Entry(at: Pos, dist: nat)

  /** The entries are in non-decreasing order of `dist`. */
  ghost predicate Sorted(q: seq<Entry>) {
    forall i, j :: 0 <= i < j < |q| ==> q[i].dist <= q[j].dist
  }

  /**
   * Which entry `queue.sort((a, b) => a.dist - b.dist); queue.shift()` takes:
   * the sort is stable, so the head after sorting is the first entry, in
   * insertion order, whose `dist` is minimal.
   */
  method FirstMinIndex(q: seq<Entry>) returns (i: nat)
    requires |q| > 0
    ensures i < |q|
    ensures forall j :: 0 <= j < |q| ==> q[i].dist <= q[j].dist
    ensures forall j :: 0 <= j < i ==> q[i].dist < q[j].dist
  {
    i := 0;
    var j := 1;
    while j < |q|
      invariant i < j <= |q|
      invariant forall m :: 0 <= m < j ==> q[i].dist <= q[m].dist
      invariant forall m :: 0 <= m < i ==> q[i].dist < q[m].dist
    {
      if q[j].dist < q[i].dist {
        i := j;
      }
      j := j + 1;
    }
  }

  /** The frontier without its i-th entry. */
  function RemoveAt(q: seq<Entry>, i: nat): (r: seq<Entry>)
    requires i < |q|
    ensures |r| == |q| - 1
    ensures forall j :: 0 <= j < |r| ==> r[j] == q[if j < i then j else j + 1]
  {
    q[..i] + q[i + 1..]
  }

  /** Removing one entry keeps every other entry and adds none. */
  lemma RemoveAtMembers(q: seq<Entry>, i: nat, x: Entry)
    requires i < |q|
    ensures x in RemoveAt(q, i) ==> x in q
    ensures x in q && x != q[i] ==> x in RemoveAt(q, i)
  {
    var r := RemoveAt(q, i);
    if x in q && x != q[i] {
      var j :| 0 <= j < |q| && q[j] == x;
      assert r[if j < i then j else j - 1] == x;
    }
  }

  /**
   * On a sorted frontier the entry chosen by the stable sort and shift is the
   * head, and what is left is still sorted: re-sorting never reorders it.
   */
  lemma SortedPop(q: seq<Entry>, i: nat)
    requires Sorted(q) && i < |q|
    requires forall j :: 0 <= j < i ==> q[i].dist < q[j].dist
    ensures i == 0 && Sorted(RemoveAt(q, i))
  {
    assert q[0].dist <= q[i].dist;
  }
}
