# Pathfinding visualizer: search engine, terrain generators and grid editing

This project models the core of a grid pathfinding visualizer written in
TypeScript, and proves properties of that model in Dafny.

A user paints a rectangular grid of cells. Each cell is Grass, Water, Source,
Target or Bridge (`CellValue`). Terrain can be generated instead: a flat field,
random rivers, or a recursive-division maze (`Gen`). Then one of four searches
runs from the first Source, walking in four directions and never entering
Water, and stops at the first Target cell it finalizes. A painted Target is a
block of cells when the brush is wider than one cell, so that need not be the
first Target in row order. Only A* looks a Target up (`findNode`, the first in
row order): its heuristic aims at that cell, and it gives up at once when the
grid holds no Target.

- **Search engine** (`src/algos.ts`): depth-first search, breadth-first search,
  A*, and Dijkstra, which is A* with a zero heuristic.
  - Each search numbers the cells it finalizes in a `visited` matrix (-1 means
    not visited).
  - On reaching the Target it walks backwards to the source to fill a boolean
    `path` mask. `fallBack` steps to the neighbour with the largest smaller
    number. `fallBackWeighted` steps to the neighbour with the least recorded
    weight.
- **Generators** (`src/gen.ts`): `clamp`, `fillRiver`, `isOrientationVertical`,
  `recursiveDiv` with its inner `divide`, `flat`, and `generate`.
- **Grid editing** (`src/grid.tsx`):
  - `getCellColor`, the colour rule.
  - `fillCell`, a single-cell write.
  - `fillCellAndReplaceExisting`, the block write that keeps one Source block
    and one Target block.
  - The handlers' choice between the two writes.

The model's modules:

- `Types` (`types.dfy`): the datatypes and matrix shapes.
- `Search` (`search.dfy`): neighbours, `findNode`, `manhattan`, and the
  invariants every search keeps.
- `Fallback` (`fallback.dfy`): the backward walk.
- `Report` (`report.dfy`): what a finished search reports.
- `BreadthFirst`, `DepthFirst` and `AStar` (`bfs.dfy`, `dfs.dfy`,
  `astar.dfy`): the three searches.
- `Terrain` (`terrain.dfy`): rivers.
- `Maze` (`maze.dfy`): recursive division.
- `Generate` (`generate.dfy`): `flat` and `generate`.
- `Painting` (`painting.dfy`): grid editing.

How the model is shaped:

- **The searches read the grid but never write it.** They see it as a value
  (`Board`, a sequence of rows). `weightsParam` is also a value.
- **`visited`, `path` and the A* `weights` copy are written in place.** They are
  `array2`.
- **The searches keep ghost state.** `fin` is the sequence of finalized cells in
  order. `src` is the source.
- **The central invariant is `Explored`.**
  - `visited` numbers `fin` without gaps as `0..|fin|-1`.
  - No cell in `fin` is Water.
  - `fin` starts at the source.
  - Every later cell is adjacent to an earlier one.
- **A finished search ends in one of two states:**
  - `Found`: the last finalized cell is a Target and no earlier finalized cell
    is one, so it is the first Target cell the search finalized. `path` is that
    cell plus the backward trail.
  - `NotFound`: the current node is `(-1, -1)`, the path is blank, and every
    finalized cell has all its non-Water neighbours finalized.
- **Each search's contract ties the report to reachability.** A Target is
  reported exactly when one is reachable from the source through non-Water
  cells.
- **The A* heap is a multiset.** A pop takes any entry of least key
  `weight + 2 * heuristic`.
- **A* keeps the weight each cell was finalized with.** The ghost `costs` runs
  beside `fin`: `costs[k]` is the weight of the entry `fin[k]` was popped
  with.
  - `Recorded`: `weights` holds `costs[k]` at `fin[k]`, and the `weightsParam`
    entry at every cell not finalized.
  - `Costed`: the source has weight 0, and every later cell has the weight of
    a neighbour finalized before it plus the cell's charge (its
    `weightsParam` entry, or 0 on a Target).
- **A* and Dijkstra finalize cells in non-decreasing key order, under a
  condition.** `InKeyOrder` says the keys `costs[k] + 2 * heuristic(fin[k])` of
  the non-Target cells never decrease along `fin`. It holds whenever the
  weights make the heuristic consistent: always for Dijkstra with non-negative
  weights, where it says the recorded weights never decrease, and for
  Manhattan when every weight is at least 2.
- **The generators and the editor write the grid in place.** There it is an
  `array2`.
- **Every `Math.random` draw is an input.**
  - `fillRiver`'s draws are discrete choices whose ranges are preconditions.
  - `recursiveDiv`'s draws are the stream `rnd`, whose values are reals in
    `[0, 1)`.
  - Every property is proved for all choices.

Points of the code the model keeps as written:

- The searches take no step size, delay or cancellation (`src/algos.ts`).
- The A* key uses a fixed factor of 2 on the heuristic (`src/algos.ts`).
- The neighbour order is down, up, left, right (`src/algos.ts`).
- A `divide` door can reach past the region it splits (`src/gen.ts`; see
  `Maze.DoorOverrun`).

## Model

| member | source | states |
|---|---|---|
| Search.Neighbors | src/algos.ts:8-10 | The result holds exactly the in-bounds cells that share a side with `(i, j)`, and every listed cell is in bounds. |
| Search.NeighborsInOrder | src/algos.ts:9 | The neighbours are listed in the order down, up, left, right. |
| Search.NeighborMembers | src/algos.ts:9 | The four filtered candidates `(i+1,j)`, `(i-1,j)`, `(i,j-1)`, `(i,j+1)`, taken together, are exactly the in-bounds adjacent cells. |
| Search.Around | src/algos.ts:126 | `getNeighbors(i, j, grid.length, grid[i].length)` on a rectangular grid gives exactly the grid cells adjacent to the cell. |
| Search.Manhattan | src/algos.ts:191 | The distance is non-negative, and zero exactly for the same cell. |
| Search.ManhattanStep | src/algos.ts:191 | One step between adjacent cells changes the distance to any cell by at most one. |
| Search.FindNode | src/algos.ts:80-89 | Returns the first cell of the kind in row-major order. Returns `(-1, -1)` exactly when the grid has none. |
| Search.Finalize | src/algos.ts:106-109 | The cell gets the current `order` and `order` increments. No other `visited` entry changes. `Explored` is kept: gap-free numbering, no Water, each later cell adjacent to an earlier one. |
| Search.ExhaustedMeansUnreachable | src/algos.ts:155-181 | Suppose every finalized cell has all its non-Water neighbours finalized and no Target is finalized. Then every walk from the source stays on finalized non-Target cells. |
| Fallback.Best | src/algos.ts:27-34 | The index of the first strictly largest value (`fallBack`) or first strictly smallest value (`fallBackWeighted`). It is -1 exactly when there are no values. |
| Fallback.IndexOfBest | src/algos.ts:27-34 | The max/min loop returns `Best`. |
| Fallback.Below | src/algos.ts:25 | Keeps exactly the candidates whose order lies in `0..v-1`. |
| Fallback.BelowKeepsOrder | src/algos.ts:25 | Filtering keeps the neighbour order. |
| Fallback.Earlier | src/algos.ts:25 | The candidate list `next` holds only grid cells. |
| Fallback.EarlierInOrder | src/algos.ts:25 | `next` is in down, up, left, right order. |
| Fallback.EarlierMembers | src/algos.ts:25 | A cell is in `next` iff it is an adjacent grid cell with `0 <= visited < visited[i][j]`. |
| Fallback.EarlierSound | src/algos.ts:25 | Every cell of `next` is adjacent, finalized and numbered lower. |
| Fallback.EarlierComplete | src/algos.ts:25 | An adjacent grid cell is in `next` exactly when it is finalized and numbered lower. |
| Fallback.Next | src/algos.ts:24-41 | No step exactly when no neighbour was finalized earlier. Otherwise the step goes to an adjacent grid cell with strictly smaller non-negative order. |
| Fallback.Step | src/algos.ts:25-36 | The candidate filter and max/min loop on the arrays compute `Next`. |
| Fallback.Walk | src/algos.ts:24-42 | `path` becomes its old value plus exactly the cells of the trail from the cell. |
| Fallback.FallBack | src/algos.ts:15-45 | `path` gains exactly the trail that steps to the latest-finalized earlier neighbour. |
| Fallback.FallBackWeighted | src/algos.ts:47-78 | `path` gains exactly the trail that steps to the earlier neighbour of least recorded weight, the first in neighbour order on ties. |
| Fallback.TrailDescends | src/algos.ts:40 | Each trail step goes to an adjacent cell with strictly smaller non-negative order, so the walk ends. It ends at a cell with no earlier neighbour. |
| Fallback.FinalizedAlong | src/algos.ts:25 | A descending chain that starts at a finalized cell stays on finalized cells and is a 4-connected walk. |
| Fallback.EarlierUnlessSource | src/algos.ts:126-127 | Every finalized cell other than the source has a neighbour finalized before it. |
| Fallback.TrailReachesSource | src/algos.ts:15-45 | From any finalized cell, the cell plus its trail is a 4-connected walk through finalized cells that ends at the source. |
| Report.MarkPath | src/algos.ts:111-117 | Marking the Target and running `fallBack` leaves the search in state `Found`. |
| Report.MarkWeightedPath | src/algos.ts:224-230 | Marking the Target and running `fallBackWeighted` leaves the search in state `Found`. |
| Report.FoundIsReachable | src/algos.ts:111-117 | A `Found` report's path, read from the source, is a walk to the Target, so the Target is reachable. |
| Report.NotFoundIsUnreachable | src/algos.ts:184-188 | A `NotFound` report (current `(-1,-1)`, blank path) means no Target is reachable from the source. |
| BreadthFirst.Bfs | src/algos.ts:139-189 | Returns fresh grid-shaped `visited` and `path`. Search state is `Explored` from the first Source. The report is `Found` or `NotFound`. With no Source nothing is finalized and nothing is found. Otherwise a Target is reported iff one is reachable. |
| BreadthFirst.Drain | src/algos.ts:149-182 | The queue loop ends at the first finalized Target in state `Found`, or with a blank path, no Target finalized, and every finalized cell's neighbours finalized or Water. |
| BreadthFirst.Pop | src/algos.ts:155-179 | The head `q[0]` is shifted off. If it is Water or already finalized, nothing else changes: `q' == q[1..]`, and `fin`, `order`, `visited` and `path` are unchanged. Otherwise it is finalized with the next order and the search stops exactly when it is a Target; if not, `q' == q[1..] + Around(q[0])`. Each pass finalizes a new cell or shortens the queue. |
| BreadthFirst.Visit | src/algos.ts:160-179 | The cell is finalized with the next order. The search stops exactly when it is a Target, in state `Found`. Otherwise the new queue is the old one followed by the cell's neighbours in order, `path` is unchanged, and the loop invariant holds again. |
| BreadthFirst.FrontierParent | src/algos.ts:179 | The queue's head is the source when nothing is finalized. Otherwise it is adjacent to a finalized cell. |
| BreadthFirst.FrontierAfterExpand | src/algos.ts:179 | Appending a finalized cell's neighbours keeps every queued cell adjacent to a finalized one. |
| BreadthFirst.FrontierAfterDrop | src/algos.ts:157-158 | Dropping a skipped cell keeps the queue invariant. |
| BreadthFirst.SettledAfterDrop | src/algos.ts:157-158 | Dropping a skipped cell keeps every finalized cell's non-Water neighbours finalized or queued. |
| BreadthFirst.SettledAfterExpand | src/algos.ts:179 | Finalizing a cell and queueing its neighbours keeps every finalized cell's non-Water neighbours finalized or queued. |
| DepthFirst.Dfs | src/algos.ts:91-137 | Something is reported exactly when a Source exists, and nothing is finalized otherwise. A report is `Found` or `NotFound`. A Target is found iff one is reachable. |
| DepthFirst.Enter | src/algos.ts:103-128 | Out-of-bounds, Water and finalized cells return false and change nothing: `fin`, `order`, `visited` and `path` stay as they were. Otherwise the cell is the next one finalized, and on failure every cell finalized by the call has its non-Water neighbours finalized. |
| DepthFirst.Descend | src/algos.ts:108-128 | The cell is finalized with the next order. A Target stops the search at once in state `Found`. Otherwise the neighbours are called in `Around` order (`InOrder`): each call finalizes a consecutive run of `fin`, starting with that neighbour if it was still fresh and empty otherwise. On failure every neighbour was called; on success the calls stopped at the first one that succeeded. |
| DepthFirst.TryNeighbors | src/algos.ts:126-128 | The calls on the neighbours are in `Around` order and stop at the first success (`InOrder`). Either a Target is found in the recursion, or every cell the call finalized, including the cell itself, has all its non-Water neighbours finalized. |
| DepthFirst.TryNext | src/algos.ts:127 | One iteration of the neighbour loop. A neighbour that is not fresh changes nothing. A fresh one is the next cell finalized. After a failed call, neighbours `0..k` are finalized or Water. |
| DepthFirst.InTurnStep | src/algos.ts:126-127 | A failed call on one more neighbour extends the record of the calls made so far by that call's own run of `fin`. |
| AStar.Estimate | src/algos.ts:191 | Both heuristics are non-negative. `() => 0` is always 0, and Manhattan is 0 exactly at the target. |
| AStar.MinimumExists | src/algos.ts:216 | A non-empty heap holds an entry of least key `weight + 2*heuristic`. |
| AStar.PopMin | src/algos.ts:216 | `heap.pop()` returns an entry of least key and leaves the rest. |
| AStar.Pushes | src/algos.ts:239-241 | One entry per neighbour, in neighbour order: `weight + weightsParam` for a non-Target cell, 0 for the Target. |
| AStar.PushAll | src/algos.ts:239-241 | The heap gains exactly those entries. |
| AStar.ZeroHeuristicConsistent | src/algos.ts:253-269 | With non-negative weights, the zero heuristic is consistent for every target. |
| AStar.ManhattanConsistent | src/algos.ts:206 | With every weight at least 2, the doubled Manhattan heuristic is consistent. |
| AStar.AStarSearch | src/algos.ts:193-251 | Fresh grid-shaped `visited`, `weights` and `path`. `src` and `tgt` are the first Source and Target; without either nothing is finalized and nothing is found. A Target is found iff one is reachable. `weights` holds each finalized cell's popped weight and `weightsParam` elsewhere (`Recorded`). Each popped weight is 0 for the source, else a finalized neighbour's weight plus the charge (`Costed`). Under a consistent heuristic the non-Target cells are finalized in non-decreasing key order (`InKeyOrder`). |
| AStar.Dijkstra | src/algos.ts:253-270 | `astar` with `() => 0`: the same report, `Recorded` and `Costed` properties, including the first Target `tgt` and nothing finalized without a Source or Target. With non-negative weights, every non-Target cell is finalized with a weight at least that of every cell finalized before it. |
| AStar.TargetlessGridUnreachable | src/algos.ts:208-210 | On a grid without a Target, no Target is reachable, so stopping at once is correct. |
| AStar.Drain | src/algos.ts:205-244 | Looks up source and target, copies `weightsParam`, and stops at once without either. The heap loop ends in state `Found` at the first finalized Target, or with a blank path and every finalized cell's neighbours finalized or Water. Either way `Recorded`, `Costed` and, under consistency, `InKeyOrder` hold. |
| AStar.Pop | src/algos.ts:216-241 | Returns the popped entry `e`, one of least key. On Water or a finalized cell nothing else changes: the heap loses `e`, and `fin`, `costs`, `order`, `visited`, `weights` and `path` are unchanged. Otherwise `e`'s cell is finalized with weight `e.weight`, the search stops exactly on a Target, and if not the heap becomes `heap - {e}` plus the neighbours' pushes. |
| AStar.Arrive | src/algos.ts:221-230 | `weights` changes only at the Target, to the popped weight. The Target is finalized with the next order, the search is in state `Found`, and `Recorded`, `Costed` and the key order still hold. |
| AStar.Visit | src/algos.ts:221-241 | `weights` changes only at the cell, to the popped weight. The cell is finalized with the next order, the heap becomes `rest` plus the neighbours' pushes, and the loop invariant holds again. |
| AStar.Record | src/algos.ts:221 | `weights` changes only at the cell, to the popped weight, and `Recorded` extends to the cell. |
| AStar.Expand | src/algos.ts:239-241 | The heap becomes `rest` plus exactly the neighbours' pushes. Every entry then touches a finalized cell, and each was pushed by a finalized cell with that cell's weight plus its own charge. Under consistency no non-Target entry's key is below the popped key. |
| AStar.FrontierParent | src/algos.ts:216-221 | A popped entry is the source's `[0, si, sj]`, or was pushed by a finalized neighbour with that neighbour's weight plus its charge. |
| AStar.CostedAfterPop | src/algos.ts:221 | Finalizing a cell with the weight it was pushed with keeps `Costed`. |
| AStar.KeyOrderAfterPop | src/algos.ts:216-223 | Finalizing the cell of an entry whose key is at least the last finalized key, or that is on a Target, keeps `InKeyOrder`. |
| AStar.ChargedAfterPush | src/algos.ts:239-241 | After the pushes every waiting entry was pushed by a finalized cell with that cell's weight plus its charge. |
| AStar.WaitingAfterDrop | src/algos.ts:218-219 | Dropping a skipped entry keeps the loop invariant. |
| AStar.AboveAfterPush | src/algos.ts:216-241 | Under a consistent heuristic, the entries left after popping one of least key, and those pushed for its non-Target cell's neighbours, have keys at least the popped key. |
| Terrain.Clamp | src/gen.ts:4 | The result is at most `max`, and at least `min` when `min <= max`. It equals `num` inside the range and the nearer bound outside. |
| Terrain.Centre | src/gen.ts:10-16 | The river centre is always a valid cross position. |
| Terrain.CentreDrift | src/gen.ts:16 | The centre moves by at most one cell per sweep line. |
| Terrain.BandStart | src/gen.ts:13 | `start` is a valid cross position at most `R_WIDTH/2 + 1` before the centre. |
| Terrain.BandEnd | src/gen.ts:14 | `end` is a valid cross position at most `R_WIDTH/2 + 1` after the centre. |
| Terrain.Swept | src/gen.ts:18-27 | A sweep changes a cell exactly when it is Grass inside its line's band. A changed cell becomes the line's single kind, Water or Bridge. Non-Grass cells never change. |
| Terrain.CarveLine | src/gen.ts:18-28 | The Grass cells of one line's band become the line's kind, and nothing else changes. |
| Terrain.Sweep | src/gen.ts:9-29 | One river leaves every cell as `Swept` gives it. |
| Terrain.Flooded | src/gen.ts:8-30 | The kind a cell has after the rivers swept one after the other keeps its start value, or turns Grass into Water or Bridge; non-Grass never changes. |
| Terrain.FillRiver | src/gen.ts:6-33 | Every cell ends as `Flooded` gives it, the sweeps of the rivers applied in order. So every cell keeps its kind, or was Grass and is now Water or Bridge. |
| Maze.Pick | src/gen.ts:47 | `Math.floor(x * n)` lies in `0 <= r < n`. |
| Maze.WallIndex | src/gen.ts:47-49 | The wall index satisfies `lo + size <= idx < hi`, so both sides are strictly smaller spans. |
| Maze.DoorOverrun | src/gen.ts:47-82 | The door that starts at the drawn index and runs `size` cells ends at most `ceil(size/2) - 2` cells past its span, and never past it when `size <= 4`. |
| Maze.DoorOverrunReached | src/gen.ts:47-82 | That bound is reached: `size` 5, span `0..10`, draw 0.9 ends the door at 11. |
| Maze.IsOrientationVertical | src/gen.ts:35-39 | Vertical when `w < h`, horizontal when `h < w`, and the coin `x < 0.5` otherwise. |
| Maze.DoorNear | src/gen.ts:55-72 | True exactly when a door cell lies within `size` cells before or after `k` on the wall line. |
| Maze.Walled | src/gen.ts:53-75 | The wall loop on values, which `BuildWall` is proved against: the layout keeps its shape and every door mark. |
| Maze.Opened | src/gen.ts:77-82 | The door loop on values, which `OpenDoor` is proved against: the layout keeps its shape. |
| Maze.BuildWall | src/gen.ts:53-75 | Each wall-line cell in `lo..hi` becomes Water unless a door is near. Every other cell is unchanged. The new contents are `Walled` of the old. |
| Maze.OpenDoor | src/gen.ts:77-82 | The existing cells `idx..idx+size-1` of the wall line become Grass and are marked as doors. Nothing else changes. The new contents are `Opened` of the old. |
| Maze.Lay | src/gen.ts:53-82 | The wall loop then the door loop: the new contents are `Laid` (`Opened` after `Walled`) of the old. |
| Maze.Divided | src/gen.ts:44-122 | `divide` on values. A region narrower than `2*size` either way is returned unchanged with no draw used. A draw is used exactly when the region is split. The shape is kept. |
| Maze.Split | src/gen.ts:46-119 | One level on a region at least `2*size` wide both ways: the column, row and (square regions only) orientation draws, the wall and door, then both sides. The shape is kept and at least two draws are used. |
| Maze.Halves | src/gen.ts:84-119 | The two recursive calls on values, first side then second, each on a strictly smaller region: the shape is kept and the draw index never goes back. |
| Maze.LaidKeeps | src/gen.ts:53-82 | A wall and door across a region write only Water and Grass, clear no mark, and change nothing outside the region's `Reach`. |
| Maze.DividedKeeps | src/gen.ts:44-122 | `divide` writes only Water and Grass, never clears a door mark, and changes nothing outside its region's `Reach`, up to `size-1` cells past the region. |
| Maze.SidesKeep | src/gen.ts:84-119 | After a wall and door laid within the region, dividing both sides keeps that: only Water and Grass written, no mark cleared, nothing outside the region's `Reach` changed. |
| Maze.DoorStaysMarked | src/gen.ts:77-119 | On a region wide enough to split, every existing cell of this level's door is still marked after both sides are divided. |
| Maze.HalvesKeepMark | src/gen.ts:84-119 | Dividing both sides clears no door mark. |
| Maze.Divide | src/gen.ts:45-122 | The grid, door mask and next draw index it leaves are `Divided` of the old contents. So a region narrower than `2*size` in either direction changes nothing and uses no draws. Otherwise only Water and Grass are written, door marks are never cleared, and no cell beyond `size-1` past the region changes. The recursion terminates. |
| Maze.Sides | src/gen.ts:84-119 | The two recursive calls leave what `Halves` gives. |
| Maze.NoDoors | src/gen.ts:42 | The starting door mask has the grid's shape and no mark. |
| Maze.Built | src/gen.ts:40-126 | `recursiveDiv` on values: `Divided` over the whole grid from an unmarked mask. Every cell keeps its kind or becomes Water or Grass. |
| Maze.RecursiveDiv | src/gen.ts:41-126 | The grid becomes `Built` of its old contents, so every cell keeps its kind or becomes Water or Grass. |
| Generate.Flat | src/gen.ts:128-133 | Every cell is Grass afterwards, whatever it held, so a second call changes nothing. |
| Generate.Generate | src/gen.ts:135-143 | FLAT leaves only Grass. RIVERS leaves every cell as `Terrain.Flooded` gives it. RECURSIVEDIV leaves the grid `Maze.Built` gives. |
| Painting.CellColor | src/grid.tsx:45-64 | The current node wins, then the path, then visited cells, then Grass of weight 2, then weight 3, then the kind's colour. Each outcome holds exactly under its condition. |
| Painting.BlockInsideCorners | src/grid.tsx:69-73 | The `size`×`size` block fits exactly when it is empty or its corner cells lie in the grid. |
| Painting.BlockFits | src/grid.tsx:69-73 | The bounds loops return true exactly when every block cell lies in the grid. |
| Painting.ClearKind | src/grid.tsx:75-79 | Every cell holding the painted kind becomes Grass, and the rest are unchanged. |
| Painting.FillBlock | src/grid.tsx:81-85 | Every block cell becomes the kind, and the rest are unchanged. |
| Painting.Repainted | src/grid.tsx:75-85 | After a successful call, unless the kind is Grass, the cells holding the kind are exactly the block. A cell outside the block that held another kind is kept. |
| Painting.FillCellAndReplaceExisting | src/grid.tsx:66-88 | Nothing changes if the clicked cell is Water or the block does not fit, with the bounds checked before any write. Otherwise every cell becomes `Repainted`. |
| Painting.FillCell | src/grid.tsx:90-93 | Exactly the clicked cell changes, to the kind. |
| Painting.Paint | src/grid.tsx:132-137 | Source and Target paint through `fillCellAndReplaceExisting`, every other kind through `fillCell`. |
| Painting.MouseMove | src/grid.tsx:111-130 | Nothing changes unless a button is held. Then it paints with the secondary kind on the right button and the primary kind otherwise. |

## Left out

- **Animation and the React callbacks.**
  - `sleep`, `ANIM_SPEED` and `shouldAnimate` are left out.
  - The `setVisited`, `setPath`, `setCurrentNode` and `setGrid` snapshot
    callbacks only publish state. Reports are the returned matrices and current
    node instead.
  - The searches' `async` recursion runs sequentially here.
- **`heap-js`.** A foreign library, modelled as a multiset whose pop returns some
  least-key entry. Its tie-breaking is unspecified, so the model proves every
  property for any tie-break.
- **Randomness.**
  - `Math.random` values are inputs. The maze's draws are exact reals in
    `[0, 1)`, not floating-point numbers.
  - No probability is claimed. The bridge frequency formula, which uses
    `N_BRIDGES`, is one boolean choice per sweep line.
- **`src/App.tsx` and the user-interface plumbing.**
  - `src/App.tsx` is not part of this model: its buttons, sliders, stop flag,
    screen constants and weight suppliers.
  - The event listeners and the JSX rendering of `src/grid.tsx` are left out.
  - The CSS class strings of `getCellColor` and `valToColor` are the `Color`
    datatype.
  - Right-click and click are `Paint` with the secondary and the primary kind.
- **Grid shape.** The searches require a non-empty rectangular grid, because
  they size `visited` and `path` from `grid[0].length`. Ragged grids are not
  modelled. The generators and the editor see the grid as an `array2`, which is
  rectangular by construction.
- **Number width.** JavaScript numbers are modelled as unbounded integers.
  Orders, weights and indices stay small in the program.
- AStar.AStarSearch: the key order is proved only for a consistent
  heuristic. With the doubled Manhattan heuristic that needs weights of at
  least 2, and the program's random weights can be 1.
- **Shortest paths are not proved.** No result says the reported path is
  shortest or of least total weight. The model proves reachability, the path
  shape and the finalization order.
- Maze.RecursiveDiv: `size` must be at least 1, which is the slider's range. The
  maze is not proved connected, and door cells are not proved to stay Grass.
  The wall skip checks only distances `1..size`, so a later wall can still cover
  a door cell.
- Maze.Divide: writes are bounded by `Reach`, which goes up to `size - 1` cells
  past the region. That over-approximates the door loop. A door ends at most
  `ceil(size/2) - 2` cells past the region's last row or column
  (`Maze.DoorOverrun`). The most is reached when the span is exactly
  `2*size` (`Maze.DoorOverrunReached`). For `size` 5 and 6 that is one cell,
  on the enclosing wall line, which the door then opens. From `size` 7 on it
  reaches into the region beyond.
- Painting.FillCellAndReplaceExisting: only the clicked cell is checked for
  Water, as in the code. The block can overwrite Water and the other endpoint's
  cells.
