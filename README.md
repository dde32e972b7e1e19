# Grid pathfinding visualiser: search and grid edits

This project models the core of `lab3/visualizer.js`, a browser page that
shows a 10 x 10 board of cells. Each cell is empty, the start marker, the end
marker, an obstacle, visited or part of the path. The user edits the board
with the mouse, and "Run" starts a Dijkstra search from `start` to `end`.

The model has five modules:

- `Grid`: positions, the row-major index `row * 10 + col`, the four neighbour
  offsets in the source's order (+col, +row, -col, -row), and walks over
  walkable cells. It defines reachability and the shortest step count, which
  are the yardsticks for the search.
- `Frontier`: the frontier entries and the pop. The source stably sorts the
  frontier by `dist` and then `shift`s it. The model removes the first entry
  whose `dist` is least. It is proved that the frontier stays sorted, so that
  entry is the head.
- `Search`: the search state (`visited`, `dist`, `prev`, the frontier, and the
  cells expanded so far) and the loop invariant. Lemmas carry the invariant
  across one pop and one relaxation. Further lemmas turn it into the results:
  a shortest step count when `end` is expanded, and unreachability when the
  frontier runs dry.
- `Reconstruction`: the walk back along `prev` from `end`, and the shape of
  the path it collects.
- `Visualizer`: the page state as a class. It holds the `grid` array, the
  markers, the edit mode and the drag state. Its methods are `updateCell`, the
  mouse handlers, the reset that opens a run, the search loop with its
  neighbour loop, both painting loops, and `runDijkstra` as a whole.

`Valid()` is the page invariant. The board is 10 x 10, both markers are on
it, neither marker is an obstacle, and an erasing drag exists only while the
mouse is down. The constructor establishes it, and every handler keeps it.
`Walls()` is the set of obstacle cells.

## Model

| member | source | states |
|---|---|---|
| `Grid.Step` | lab3/visualizer.js:111-128 | Each of the four offsets `drc` leads from a cell to an orthogonally adjacent one. |
| `Grid.StepsAreAdjacent` | lab3/visualizer.js:111-128 | The four offsets tried by the search reach exactly the orthogonally adjacent cells. |
| `Frontier.FirstMinIndex` | lab3/visualizer.js:115-116 | The chosen entry has the least `dist`, and every earlier entry has a strictly greater one. This is the stable sort followed by `shift`. |
| `Frontier.RemoveAt` | lab3/visualizer.js:116 | Taking an entry out leaves a frontier one entry shorter, with the other entries in their order. |
| `Frontier.SortedPop` | lab3/visualizer.js:115-116 | In a frontier sorted by `dist`, the first least entry is the head, and removing it leaves the frontier sorted. |
| `Frontier.RemoveAtMembers` | lab3/visualizer.js:116 | Removing the popped entry keeps every other entry in the frontier. |
| `Search.Improves` | lab3/visualizer.js:131 | The comparison `dist[nr][nc] > dist[row][col] + 1`: an unreached cell (`Infinity`) always improves, and an equal distance never does. |
| `Search.InitOk` | lab3/visualizer.js:106-110 | The initial arrays satisfy the loop invariant: `dist[start] = 0`, `prev[start]` is unset, and the frontier holds only `start` at 0. |
| `Search.PopStale` | lab3/visualizer.js:117 | Popping an entry of an already expanded cell only shortens the frontier and keeps the invariant. |
| `Search.Expand` | lab3/visualizer.js:116-118 | Expanding the popped cell marks it visited and no other cell, shortens the frontier by one, and changes no distance or predecessor. |
| `Search.PopKey` | lab3/visualizer.js:115-118 | The least entry of a cell not yet expanded carries exactly that cell's distance, and this is no less than the current level. |
| `Search.PopKeepsPending` | lab3/visualizer.js:116-118 | After the pop, the frontier is still sorted, with keys in [level, level + 1], and every reached cell not yet expanded still waits in it. |
| `Search.PopFresh` | lab3/visualizer.js:115-118 | Expanding the least fresh entry keeps the whole invariant at the new level. This includes expansion at most once and non-decreasing distances in expansion order. |
| `Search.Relax` | lab3/visualizer.js:132-134 | A relaxation gives the cell distance `d` and predecessor `c`, only appends to the frontier, and marks and expands nothing. |
| `Search.TryNeighbour` | lab3/visualizer.js:128-134 | One pass of the neighbour loop marks and expands nothing. |
| `Search.RelaxFrom` | lab3/visualizer.js:127-136 | The passes for neighbours `k..3`, in the order +col, +row, -col, -row, mark and expand nothing. |
| `Search.NeighbourFromAdjacent` | lab3/visualizer.js:111-128 | The four neighbours tried are exactly the adjacent cells, and each is tried once. |
| `Search.TryNeighbourEffect` | lab3/visualizer.js:128-134 | Trying neighbour `k` changes the `dist` and `prev` of that neighbour alone, and only when it is walkable and strictly improved. The later neighbours are improvable exactly as before. |
| `Search.TryNeighbourQueue` | lab3/visualizer.js:134 | Trying neighbour `k` appends its entry at the back of the frontier when it is improved, and nothing otherwise. |
| `Search.TryNeighbourKeepsPushes` | lab3/visualizer.js:128-134 | Trying neighbour `k` does not change what the later neighbours push. |
| `Search.RelaxFromCell` | lab3/visualizer.js:127-136 | After the neighbour loop, a cell has distance `dist[c] + 1` and predecessor `c` exactly when it is a walkable neighbour of `c` on which that distance strictly improves. So a tie keeps the earlier predecessor. Every other cell keeps its distance and predecessor. |
| `Search.RelaxFromQueue` | lab3/visualizer.js:127-136 | The neighbour loop appends the improved neighbours' entries to the frontier, in the order the neighbours are tried. |
| `Search.RelaxSkip` | lab3/visualizer.js:129-131 | A neighbour off the board, an obstacle or a neighbour that does not improve leaves the state as it is. |
| `Search.RelaxFrame` | lab3/visualizer.js:132-133 | A relaxation changes the `dist` and `prev` of the relaxed cell and of no other cell. |
| `Search.RelaxTarget` | lab3/visualizer.js:131 | An improving neighbour is adjacent to the cell being expanded, was not expanded before, and is not `start`. So `prev[start]` is never set. |
| `Search.RelaxKeepsPrev` | lab3/visualizer.js:131-133 | After a relaxation, every set predecessor is an adjacent cell one step closer, and `start` keeps distance 0 and no predecessor. |
| `Search.RelaxKeepsQueue` | lab3/visualizer.js:134 | After the push, the frontier is still sorted with keys in [level, level + 1], and the relaxed cell waits in it with its new distance. |
| `Search.RelaxKeepsClosed` | lab3/visualizer.js:127-136 | Neighbour `k` of the expanded cell counts as relaxed, and the expansion trace is unaffected. |
| `Search.RelaxUpdate` | lab3/visualizer.js:130-134 | An improving relaxation of a walkable neighbour keeps the whole invariant. |
| `Search.PathPrefix` | lab3/visualizer.js:127-130 | A walk without its last cell is a walk, and its last step is a link into a walkable cell. |
| `Search.CutFromExpanded` | lab3/visualizer.js:127-136 | A walk that reaches a cell next to an expanded cell is bounded below by that cell's distance, or else some frontier key is. |
| `Search.CutFromFrontier` | lab3/visualizer.js:115-118 | Every expanded cell is no farther than any frontier key. |
| `Search.PathBound` | lab3/visualizer.js:114-137 | Any walk from `start` to an expanded cell is at least that cell's distance long. Any walk to a cell not yet expanded is at least as long as some frontier key. |
| `Search.FrontierMinIsShortest` | lab3/visualizer.js:115-118 | No walk to the cell of the least fresh entry is shorter than that entry's key. |
| `Search.ExhaustedUnreachable` | lab3/visualizer.js:114-137 | When the frontier is empty, a cell never expanded has distance `Infinity` and cannot be reached. |
| `Search.SearchOutcome` | lab3/visualizer.js:114-137 | At loop exit, `found` holds exactly when `end` is reachable and `end` was expanded. `dist[end]` is then the shortest step count, or else `Infinity`. Expanded cells are walkable, distinct and in non-decreasing distance. |
| `Search.CountFalseMark` | lab3/visualizer.js:117-118 | Marking a fresh cell visited lowers the number of unvisited cells by one. This is why the loop ends. |
| `Reconstruction.Backtrack` | lab3/visualizer.js:139-144 | The cells the `while (prev[cur])` loop collects are on the board, and `start` is never among them. |
| `Reconstruction.BacktrackShape` | lab3/visualizer.js:139-144 | From a reached `end` other than `start`, the loop collects `dist[end] - 1` walkable cells, none of them `start` or `end`. The i-th is at distance `dist[end] - 1 - i`, consecutive cells are adjacent, the first is next to `end` and the last is next to `start`. |
| `Reconstruction.Reversed` | lab3/visualizer.js:145 | The painting order has as many cells as were collected. |
| `Reconstruction.ReversedAt` | lab3/visualizer.js:145 | The i-th cell painted is the i-th collected counted from the last, as the loop `for (let i = path.length - 1; i >= 0; i--)` does. |
| `Reconstruction.ReversedTwice` | lab3/visualizer.js:145 | Reading the painting order backwards gives the collected order again. |
| `Reconstruction.FramedChainIsWalk` | lab3/visualizer.js:145-148 | A chain of links read backwards, with `start` before it and `end` after it, is a walk. |
| `Reconstruction.ShownPathIsWalk` | lab3/visualizer.js:139-148 | `start`, the shown path and `end` form a walk of exactly `dist[end]` steps. |
| `Reconstruction.PoppedIsShortest` | lab3/visualizer.js:115-126 | When the least entry is for a fresh cell, its key is that cell's distance and the shortest step count to it. |
| `Reconstruction.ReconstructPath` | lab3/visualizer.js:139-144 | The `while (prev[cur])` loop collects exactly what `Backtrack` specifies. |
| `Visualizer.ShortestIsOneIffAdjacent` | lab3/visualizer.js:149-157 | A shortest walk between distinct cells has one step exactly when they are adjacent. In that case the path is empty and no message is shown although `end` was found. |
| `Visualizer.ShownPathOutcome` | lab3/visualizer.js:139-157 | From a search result, the collected path with the markers around it is a shortest walk, one cell fewer than its step count. It is empty when `end` was not reached or is `start`, never holds a marker or an obstacle, and is non-empty exactly when `end` is reachable, differs from `start` and is not next to it. |
| `Visualizer.PopNext` | lab3/visualizer.js:115-118 | It pops the head of the frontier. The cell is expanded exactly when it was not yet visited. A stale entry leaves the invariant at the loop head. A fresh cell is marked visited, is walkable, and its key is its shortest step count. |
| `Visualizer.Visualizer.constructor` | lab3/visualizer.js:1-31 | The page loads with `start` (0,0), `end` (9,9), obstacle mode, no drag, and a board that is empty apart from the two markers. |
| `Visualizer.Visualizer.CreateGrid` | lab3/visualizer.js:7-29 | Clear makes a fresh empty board with the current markers placed again, and nothing else changes. |
| `Visualizer.Visualizer.UpdateCell` | lab3/visualizer.js:62-66 | Only the given cell's type changes. |
| `Visualizer.Visualizer.SetMode` | lab3/visualizer.js:90-92 | A mode button sets the mode. |
| `Visualizer.Visualizer.OnCellMouseDown` | lab3/visualizer.js:33-45 | Only erase mode presses the mouse. On a marker nothing else happens. An obstacle becomes empty and starts an erasing drag. Any other cell cancels the drag. |
| `Visualizer.Visualizer.OnCellMouseEnter` | lab3/visualizer.js:47-55 | During an erasing drag, entering an obstacle that is not a marker empties it. Every other cell stays as it was. |
| `Visualizer.Visualizer.OnMouseUp` | lab3/visualizer.js:57-60 | Releasing the mouse ends any drag. |
| `Visualizer.Visualizer.OnCellClick` | lab3/visualizer.js:68-88 | Moving a marker empties its old cell and marks the new one. The obstacle toggle is a no-op on either marker. Click-erase changes only an obstacle, and only to empty. No other cell changes. |
| `Visualizer.Visualizer.ResetMarks` | lab3/visualizer.js:101-105 | The reset at the start of a run turns only visited and path cells into empty cells, and the obstacles are unchanged. |
| `Visualizer.Visualizer.RelaxNeighbour` | lab3/visualizer.js:128-134 | One pass of the neighbour loop, reading obstacles from the board, yields exactly `TryNeighbour` of the state before it, and advances the invariant past neighbour `k`. |
| `Visualizer.Visualizer.RelaxNeighbours` | lab3/visualizer.js:127-136 | The new `dist`, `prev` and frontier are exactly `RelaxFrom` of the inputs, whose effect `RelaxFromCell` and `RelaxFromQueue` state. The loop-head invariant is restored, with every walkable neighbour of the expanded cell at most one step farther. |
| `Visualizer.Visualizer.SearchLoop` | lab3/visualizer.js:106-137 | The loop ends with `start` expanded first. Either `end` was expanded last at its shortest distance, or the frontier is empty and `end` was never expanded. |
| `Visualizer.Visualizer.Search` | lab3/visualizer.js:106-137 | `found` holds exactly when `end` is reachable around the obstacles, and `dist[end]` is the shortest step count, or else `Infinity`. `prev` leads adjacent cells one step closer down to `start`. Expanded cells are distinct, walkable and in non-decreasing distance. |
| `Visualizer.Visualizer.PaintVisited` | lab3/visualizer.js:119-122 | Every expanded cell other than the markers shows visited, no other cell changes, and the obstacles are unchanged. |
| `Visualizer.Visualizer.PaintPath` | lab3/visualizer.js:145-148 | Every path cell shows path, no other cell changes, and the obstacles are unchanged. |
| `Visualizer.Visualizer.RunDijkstra` | lab3/visualizer.js:100-158 | `found` holds exactly when `end` is reachable. If so, and `start != end`, the shown path has one cell fewer than a shortest step count, and with the markers around it forms a shortest walk. The path never contains a marker or an obstacle, and it is empty when nothing was found or `start == end`. The cells painted visited are the expanded ones: `start` first, `end` last exactly when it was found, each walkable and expanded once, in non-decreasing distance. The failure message appears exactly when `end` is unreachable, and no message appears exactly when `end` is `start` or next to it. |

## Left out

- DOM work is not modelled: element creation, class names, `dataset` and listener wiring. A cell's type is the state that matters, and it is the `grid` array.
- The `sleep` pauses and the `setTimeout` delays of the animation are not modelled. Messages are the values of `Message`: the success text, the failure text, or none (the text is cleared at line 113).
- `Search`: the arrays `visited`, `dist` and `prev` are flat sequences of 100 values indexed `row * 10 + col`. In the source they are 2-D arrays that are local to `runDijkstra`. Nothing else refers to them, so updating a local sequence behaves as updating the array in place.
- `Search`: the source paints each expanded cell visited inside the loop (lines 119-122). The model paints the same cells in the same order with `PaintVisited` right after the loop. The search reads only whether a cell is an obstacle, and painting never touches an obstacle, so the final board is the same. That argument holds only for an uninterrupted run (see the `RunDijkstra` line below). Interleaving with the relaxations is not captured.
- `RunDijkstra`: a run is modelled as uninterrupted. Its contracts assume that no other handler runs until the run ends. In the source, each `await sleep` (lines 121 and 147) lets other handlers run in the middle of a run. An end-mode click can then move `end`, which lines 119, 123 and 139 read. Clear can replace the `grid` that line 130 reads. An obstacle placed on a cell already painted visited is overwritten by `'path'` at line 146 if that cell is on the path, so the obstacles are not unchanged. A second Run starts a concurrent search. None of these interleavings is modelled.
- `Frontier.FirstMinIndex`: the source's stable sort of the whole frontier is modelled by its effect, "remove the first entry with least `dist`". `SortedPop` shows the frontier is already sorted, so this is its head, as after the sort.
- JavaScript's `Infinity` is the constructor `Infinity` of `Dist`. Distances are unbounded naturals, and no floating point is involved.
- The start-marker mode is modelled in `OnCellClick`. No control on the page selects it (lines 90-94 set only end, obstacle and erase modes).
- The listeners wired at lines 90-96 are not members of their own. The mode buttons are `SetMode`, Clear is `CreateGrid`, Run is `RunDijkstra`, and the page's mouseup listener is `OnMouseUp`.
- Cell weights, board resizing and saving or loading a board do not exist in this source, so they are not modelled.
