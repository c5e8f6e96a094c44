/**
  * `astar` and `djikstra` of `src/algos.ts`. The priority queue holds
  * `[weight, i, j]` entries ordered by `weight + 2 * heuristic(i, j, ti,
  * tj)`. A popped entry on Water or on a finalized cell is dropped;
  * otherwise its weight is recorded in `weights`, the cell is finalized,
  * the search stops on a Target (walking back with `fallBackWeighted`), and
  * every neighbour is pushed with the popped weight plus its own weight
  * from `weightsParam`, except a Target neighbour, which is pushed with 0.
  * `djikstra` is `astar` with the zero heuristic.
  *
  * The binary heap of the `heap-js` library is a multiset here, and a pop
  * takes some entry of least key: which one the library picks among equal
  * keys is not modelled.
  */
module AStar {
  import opened Types
  import opened Search
  import opened Fallback
  import opened Report

  /** A heap entry `[weight, i, j]`. */
  datatype Entry = Entry(weight: int, cell: Pos)

  /**
    * The heuristics the program runs `astar` with: the default `manhattan`,
    * and `() => 0` from `djikstra`.
    */
  datatype Heuristic = ManhattanDistance | NoEstimate

  /** `heuristic(i1, j1, i2, j2)`. */
  function Estimate(h: Heuristic, i1: int, j1: int, i2: int, j2: int): (d: int)
    ensures d >= 0
    ensures h.NoEstimate? ==> d == 0
    ensures h.ManhattanDistance? ==> (d == 0 <==> i1 == i2 && j1 == j2)
  {
    match h
    case ManhattanDistance => Manhattan(i1, j1, i2, j2)
    case NoEstimate => 0
  }

  /** The heap's comparison key: the weight plus twice the heuristic to the target `t`. */
  function Key(e: Entry, t: Pos, h: Heuristic): int
  {
    e.weight + 2 * Estimate(h, e.cell.0, e.cell.1, t.0, t.1)
  }

  /** `e` has a least key among the entries of `heap`. */
  predicate IsMin(e: Entry, heap: multiset<Entry>, t: Pos, h: Heuristic)
  {
    e in heap && forall x :: x in heap ==> Key(e, t, h) <= Key(x, t, h)
  }

  /** Every non-empty heap has an entry of least key. */
  lemma {:induction false} MinimumExists(heap: multiset<Entry>, t: Pos, h: Heuristic)
    requires heap != multiset{}
    ensures exists e :: IsMin(e, heap, t, h)
    decreases |heap|
  {
    var y :| y in heap;
    var rest := heap - multiset{y};
    assert heap == rest + multiset{y};
    if rest == multiset{} {
      assert IsMin(y, heap, t, h);
    } else {
      MinimumExists(rest, t, h);
      var m :| IsMin(m, rest, t, h);
      if Key(y, t, h) <= Key(m, t, h) {
        assert IsMin(y, heap, t, h);
      } else {
        assert IsMin(m, heap, t, h);
      }
    }
  }

  /** `heap.pop()`: remove one entry of least key. */
  method PopMin(heap: multiset<Entry>, t: Pos, h: Heuristic) returns (e: Entry, rest: multiset<Entry>)
    requires heap != multiset{}
    ensures IsMin(e, heap, t, h)
    ensures rest == heap - multiset{e} && heap == rest + multiset{e}
  {
    MinimumExists(heap, t, h);
    e :| IsMin(e, heap, t, h);
    rest := heap - multiset{e};
  }

  /** The weight a neighbour `n` is pushed with after popping `weight`. */
  function Charge(grid: Board, weightsParam: Mat, weight: int, n: Pos): int
    requires Inside(grid, n) && Alike(grid, weightsParam)
  {
    if grid[n.0][n.1] != Target then weight + weightsParam[n.0][n.1] else 0
  }

  /** The entries the `forEach` pushes for the neighbours `ns`, in order. */
  function Pushes(grid: Board, weightsParam: Mat, weight: int, ns: seq<Pos>): (r: seq<Entry>)
    requires AllInside(grid, ns) && Alike(grid, weightsParam)
    ensures |r| == |ns|
    ensures forall k :: 0 <= k < |ns| ==> r[k] == Entry(Charge(grid, weightsParam, weight, ns[k]), ns[k])
  {
    seq(|ns|, k requires 0 <= k < |ns| =>
      Entry(Charge(grid, weightsParam, weight, ns[k]), ns[k]))
  }

  /** `getNeighbors(i, j, ...).forEach(([ni, nj]) => heap.push([...]))`. */
  method PushAll(grid: Board, weightsParam: Mat, heap: multiset<Entry>, weight: int, ns: seq<Pos>)
    returns (heap': multiset<Entry>)
    requires AllInside(grid, ns) && Alike(grid, weightsParam)
    ensures heap' == heap + multiset(Pushes(grid, weightsParam, weight, ns))
  {
    heap' := heap;
    var k := 0;
    while k < |ns|
      invariant 0 <= k <= |ns|
      invariant heap' == heap + multiset(Pushes(grid, weightsParam, weight, ns[..k]))
    {
      var n := ns[k];
      var w := if grid[n.0][n.1] != Target then weight + weightsParam[n.0][n.1] else 0;
      assert Pushes(grid, weightsParam, weight, ns[..k + 1])
          == Pushes(grid, weightsParam, weight, ns[..k]) + [Entry(w, n)];
      heap' := heap' + multiset{Entry(w, n)};
      k := k + 1;
    }
    assert ns[..k] == ns;
  }

  /** The cells the heap entries point at. */
  ghost function CellsOf(heap: multiset<Entry>): set<Pos>
  {
    set e | e in heap :: e.cell
  }

  /**
    * The heuristic never overestimates a single move: from a cell to a
    * non-Target neighbour, twice the heuristic drops by at most the
    * neighbour's weight. Then the key of an entry pushed from a popped
    * entry is never below the popped key.
    */
  ghost predicate Consistent(grid: Board, wp: Mat, h: Heuristic, t: Pos)
  {
    Alike(grid, wp) &&
    forall c {:trigger ConsistentAt(grid, wp, h, t, c)} :: Inside(grid, c) ==> ConsistentAt(grid, wp, h, t, c)
  }

  /** The heuristic's condition at one cell `c`, for each of its neighbours. */
  ghost predicate ConsistentAt(grid: Board, wp: Mat, h: Heuristic, t: Pos, c: Pos)
    requires Alike(grid, wp)
  {
    forall n {:trigger Adjacent(c, n)} :: Inside(grid, n) && Adjacent(c, n) && grid[n.0][n.1] != Target ==>
      2 * Estimate(h, c.0, c.1, t.0, t.1) <= wp[n.0][n.1] + 2 * Estimate(h, n.0, n.1, t.0, t.1)
  }

  /** With the zero heuristic of `djikstra`, non-negative weights are consistent. */
  lemma ZeroHeuristicConsistent(grid: Board, wp: Mat, t: Pos)
    requires Alike(grid, wp)
    requires forall a, b :: 0 <= a < |wp| && 0 <= b < |wp[a]| ==> wp[a][b] >= 0
    ensures Consistent(grid, wp, NoEstimate, t)
  {
  }

  /** With the Manhattan heuristic, weights of at least 2 are consistent (the factor 2 of the key). */
  lemma ManhattanConsistent(grid: Board, wp: Mat, t: Pos)
    requires Alike(grid, wp)
    requires forall a, b :: 0 <= a < |wp| && 0 <= b < |wp[a]| ==> wp[a][b] >= 2
    ensures Consistent(grid, wp, ManhattanDistance, t)
  {
    forall c | Inside(grid, c)
      ensures ConsistentAt(grid, wp, ManhattanDistance, t, c)
    {
      forall n | Inside(grid, n) && Adjacent(c, n) && grid[n.0][n.1] != Target
        ensures 2 * Manhattan(c.0, c.1, t.0, t.1) <= wp[n.0][n.1] + 2 * Manhattan(n.0, n.1, t.0, t.1)
      {
        ManhattanStep(c, n, t);
      }
    }
  }


  /** The key of the entry `[costs[k], fin[k]]` with which the `k`-th finalized cell was popped. */
  function PoppedKey(fin: seq<Pos>, costs: seq<int>, k: int, t: Pos, h: Heuristic): int
    requires 0 <= k < |fin| && |costs| == |fin|
  {
    Key(Entry(costs[k], fin[k]), t, h)
  }

  /**
    * The finalized non-Target cells were finalized in order of non-decreasing
    * key, each with the key of the entry it was popped with.
    */
  ghost predicate InKeyOrder(grid: Board, fin: seq<Pos>, costs: seq<int>, t: Pos, h: Heuristic)
  {
    && |costs| == |fin|
    && forall a, b :: 0 <= a < b < |fin| && Inside(grid, fin[b]) && grid[fin[b].0][fin[b].1] != Target ==>
         PoppedKey(fin, costs, a, t, h) <= PoppedKey(fin, costs, b, t, h)
  }

  /**
    * `e` was pushed by one of the first `below` finalized cells: a neighbour
    * whose weight, plus the charge of `e`'s cell, is `e`'s weight.
    */
  ghost predicate PushedBy(grid: Board, wp: Mat, fin: seq<Pos>, costs: seq<int>, e: Entry, below: int)
  {
    && Alike(grid, wp) && Inside(grid, e.cell) && |costs| == |fin| && below <= |fin|
    && exists m :: 0 <= m < below && Adjacent(fin[m], e.cell) && e.weight == Charge(grid, wp, costs[m], e.cell)
  }

  /**
    * The weights the cells were finalized with: 0 for the source, and for every
    * later cell the weight of a neighbour finalized before it plus the cell's
    * charge (its `weightsParam` entry, or 0 on a Target).
    */
  ghost predicate Costed(grid: Board, wp: Mat, fin: seq<Pos>, costs: seq<int>)
  {
    && |costs| == |fin|
    && (fin != [] ==> costs[0] == 0)
    && forall k :: 0 < k < |fin| ==> PushedBy(grid, wp, fin, costs, Entry(costs[k], fin[k]), k)
  }

  /** Once something is finalized, every waiting entry was pushed by a finalized cell. */
  ghost predicate Charged(grid: Board, wp: Mat, fin: seq<Pos>, costs: seq<int>, heap: multiset<Entry>)
  {
    fin != [] ==> forall x :: x in heap ==> PushedBy(grid, wp, fin, costs, x, |fin|)
  }

  /**
    * The `weights` matrix: each finalized cell holds the weight it was popped
    * with, and every cell not finalized still holds its `weightsParam` entry.
    */
  ghost predicate Recorded(grid: Board, wp: Mat, weights: array2<int>, fin: seq<Pos>, costs: seq<int>)
    reads weights
  {
    && Fits(grid, weights) && Alike(grid, wp) && |costs| == |fin|
    && (forall k :: 0 <= k < |fin| ==> Inside(grid, fin[k]) && weights[fin[k].0, fin[k].1] == costs[k])
    && (forall a, b :: 0 <= a < |grid| && 0 <= b < |grid[a]| && (a, b) !in fin ==> weights[a, b] == wp[a][b])
  }

  /** What `weights` and the popped weights say about every finalized cell. */
  ghost predicate Weighed(grid: Board, visited: array2<int>, weights: array2<int>, wp: Mat, h: Heuristic, t: Pos,
                          fin: seq<Pos>, costs: seq<int>)
    reads visited, weights
  {
    && Recorded(grid, wp, weights, fin, costs)
    && Costed(grid, wp, fin, costs)
    && (Consistent(grid, wp, h, t) ==> InKeyOrder(grid, fin, costs, t, h))
  }

  /**
    * The heap's side of the loop state, as in `bfs`: entries are in bounds
    * and touch a finalized cell (or are the source's `[0, si, sj]` before
    * anything is finalized), no Target is finalized, and every neighbour of a
    * finalized cell is finalized, Water or still in the heap.
    */
  ghost predicate Frontier(grid: Board, fin: seq<Pos>, src: Pos, heap: multiset<Entry>)
  {
    && NoTargetIn(grid, fin)
    && (forall e :: e in heap ==> Inside(grid, e.cell))
    && Fed(fin, src, heap)
    && (fin == [] ==> Inside(grid, src) && grid[src.0][src.1] == Source)
    && AllSettled(grid, fin, CellsOf(heap))
  }

  /** Every entry touches a finalized cell (before the first finalization, only the source's entry waits). */
  ghost predicate Fed(fin: seq<Pos>, src: Pos, heap: multiset<Entry>)
  {
    if fin == [] then heap == multiset{Entry(0, src)}
    else forall e :: e in heap ==> Touches(fin, e.cell)
  }

  /** An entry on a non-Target cell has a key of at least `k`. */
  ghost predicate Above(grid: Board, e: Entry, t: Pos, h: Heuristic, k: int)
  {
    Inside(grid, e.cell) && grid[e.cell.0][e.cell.1] != Target ==> k <= Key(e, t, h)
  }

  /** Every waiting entry on a non-Target cell has a key of at least `k`. */
  ghost predicate AllAbove(grid: Board, heap: multiset<Entry>, t: Pos, h: Heuristic, k: int)
  {
    forall x :: x in heap ==> Above(grid, x, t, h, k)
  }

  /** What holds between two passes of the heap loop. */
  ghost predicate Waiting(grid: Board, visited: array2<int>, weights: array2<int>, path: array2<bool>,
                          wp: Mat, h: Heuristic, t: Pos,
                          fin: seq<Pos>, costs: seq<int>, src: Pos, heap: multiset<Entry>, order: int)
    reads visited, weights, path
  {
    && Explored(grid, visited, fin, src) && order == |fin| && Blank(path) && Frontier(grid, fin, src, heap)
    && Weighed(grid, visited, weights, wp, h, t, fin, costs) && Charged(grid, wp, fin, costs, heap)
    && (Consistent(grid, wp, h, t) && fin != [] ==> AllAbove(grid, heap, t, h, PoppedKey(fin, costs, |fin| - 1, t, h)))
  }

  /**
    * `astar(grid, ..., weightsParam, ..., heuristic)`. `costs[k]` is the
    * weight the `k`-th finalized cell was popped with, which `weights` holds
    * for it.
    */
  method AStarSearch(grid: Board, weightsParam: Mat, h: Heuristic)
    returns (visited: array2<int>, weights: array2<int>, path: array2<bool>, current: Pos,
             ghost src: Pos, ghost tgt: Pos, ghost fin: seq<Pos>, ghost costs: seq<int>)
    requires |grid| > 0 && Rect(grid) && Alike(grid, weightsParam)
    ensures fresh(visited) && fresh(weights) && fresh(path)
    ensures Fits(grid, visited) && Fits(grid, weights) && Fits(grid, path)
    ensures FirstOf(grid, Source, src) && FirstOf(grid, Target, tgt)
    ensures Explored(grid, visited, fin, src)
    ensures current != NoCell ==> Found(grid, visited, weights, path, current, fin, false)
    ensures current == NoCell ==> NotFound(grid, path, current, fin)
    ensures src == NoCell || tgt == NoCell ==> current == NoCell && fin == []
    ensures src != NoCell ==> (current != NoCell <==> TargetReachable(grid, src))
    ensures Recorded(grid, weightsParam, weights, fin, costs) && Costed(grid, weightsParam, fin, costs)
    ensures Consistent(grid, weightsParam, h, tgt) ==> InKeyOrder(grid, fin, costs, tgt, h)
  {
    visited := new int[|grid|, |grid[0]|]((i, j) => -1);
    path := new bool[|grid|, |grid[0]|]((i, j) => false);
    var found;
    found, current, weights, src, tgt, fin, costs := Drain(grid, weightsParam, h, visited, path);
    if found {
      FoundIsReachable(grid, visited, weights, path, current, fin, src, false);
    } else {
      // `setPath(pathSupplier(...))`: the mask is still all false.
      current := NoCell;
      if src != NoCell {
        if fin != [] {
          NotFoundIsUnreachable(grid, path, current, fin, src);
        } else {
          TargetlessGridUnreachable(grid, src, tgt);
        }
      }
    }
  }

  /**
    * `djikstra`: `astar` with the heuristic `() => 0`. With non-negative
    * weights, the non-Target cells are finalized in order of non-decreasing
    * recorded weight.
    */
  method Dijkstra(grid: Board, weightsParam: Mat)
    returns (visited: array2<int>, weights: array2<int>, path: array2<bool>, current: Pos,
             ghost src: Pos, ghost tgt: Pos, ghost fin: seq<Pos>, ghost costs: seq<int>)
    requires |grid| > 0 && Rect(grid) && Alike(grid, weightsParam)
    ensures fresh(visited) && fresh(weights) && fresh(path)
    ensures Fits(grid, visited) && Fits(grid, weights) && Fits(grid, path)
    ensures FirstOf(grid, Source, src) && FirstOf(grid, Target, tgt)
    ensures Explored(grid, visited, fin, src)
    ensures current != NoCell ==> Found(grid, visited, weights, path, current, fin, false)
    ensures current == NoCell ==> NotFound(grid, path, current, fin)
    ensures src == NoCell || tgt == NoCell ==> current == NoCell && fin == []
    ensures src != NoCell ==> (current != NoCell <==> TargetReachable(grid, src))
    ensures Recorded(grid, weightsParam, weights, fin, costs) && Costed(grid, weightsParam, fin, costs)
    ensures (forall a, b :: 0 <= a < |weightsParam| && 0 <= b < |weightsParam[a]| ==> weightsParam[a][b] >= 0) ==>
              forall a, b :: 0 <= a < b < |fin| && Inside(grid, fin[b]) && grid[fin[b].0][fin[b].1] != Target ==>
                costs[a] <= costs[b]
  {
    visited, weights, path, current, src, tgt, fin, costs := AStarSearch(grid, weightsParam, NoEstimate);
    if forall a, b :: 0 <= a < |weightsParam| && 0 <= b < |weightsParam[a]| ==> weightsParam[a][b] >= 0 {
      ZeroHeuristicConsistent(grid, weightsParam, tgt);
      forall a, b | 0 <= a < b < |fin| && Inside(grid, fin[b]) && grid[fin[b].0][fin[b].1] != Target
        ensures costs[a] <= costs[b]
      {
        assert PoppedKey(fin, costs, a, tgt, NoEstimate) <= PoppedKey(fin, costs, b, tgt, NoEstimate);
      }
    }
  }

  /** Without any Target cell, no Target is reachable. */
  lemma TargetlessGridUnreachable(grid: Board, src: Pos, tgt: Pos)
    requires FirstOf(grid, Target, tgt) && tgt == NoCell
    ensures !TargetReachable(grid, src)
  {
    forall w: seq<Pos> | IsWalk(grid, w) && w[0] == src
      ensures grid[w[|w| - 1].0][w[|w| - 1].1] != Target
    {
      var last := w[|w| - 1];
      assert Inside(grid, last);
    }
  }

  /**
    * The inner `found` of `astar`: look up source and target, copy the
    * weights, then drain the heap.
    */
  method Drain(grid: Board, weightsParam: Mat, h: Heuristic,
               visited: array2<int>, path: array2<bool>)
    returns (found: bool, current: Pos, weights: array2<int>, src: Pos, tgt: Pos,
             ghost fin: seq<Pos>, ghost costs: seq<int>)
    requires |grid| > 0 && Rect(grid) && Fits(grid, visited) && Fits(grid, path) && Alike(grid, weightsParam)
    requires Numbered(visited, []) && Blank(path)
    modifies visited, path
    ensures fresh(weights) && Fits(grid, weights)
    ensures FirstOf(grid, Source, src) && FirstOf(grid, Target, tgt)
    ensures Explored(grid, visited, fin, src)
    ensures found ==> Found(grid, visited, weights, path, current, fin, false)
    ensures !found ==> Blank(path) && NoTargetIn(grid, fin) && Closed(grid, fin)
    ensures !found && src != NoCell && tgt != NoCell ==> fin != []
    ensures src == NoCell || tgt == NoCell ==> !found && fin == []
    ensures Weighed(grid, visited, weights, weightsParam, h, tgt, fin, costs)
  {
    found, current, fin, costs := false, NoCell, [], [];
    weights := new int[|grid|, |grid[0]|]((i, j) =>
      if 0 <= i < |weightsParam| && 0 <= j < |weightsParam[i]| then weightsParam[i][j] else 0);
    src := FindNode(Source, grid);
    tgt := FindNode(Target, grid);
    if src.0 == -1 || tgt.1 == -1 {
      return;
    }
    var order := 0;
    var heap := multiset{Entry(0, src)};
    while heap != multiset{}
      invariant Fits(grid, weights)
      invariant Waiting(grid, visited, weights, path, weightsParam, h, tgt, fin, costs, src, heap, order)
      invariant fin == [] ==> heap != multiset{}
      decreases Unseen(grid, fin), |heap|
    {
      var e;
      e, found, heap, order, fin, costs := Pop(grid, visited, weights, path, weightsParam, h, tgt, heap, order, fin, costs, src);
      if found {
        return true, e.cell, weights, src, tgt, fin, costs;
      }
    }
    assert CellsOf(heap) == {};
  }

  /**
    * One pass of the heap loop: pop an entry `e` of least key; an entry on
    * Water or on a finalized cell is dropped and nothing else changes;
    * otherwise its cell is finalized with `e`'s weight, and the search stops
    * on a Target or pushes the neighbours.
    */
  method Pop(grid: Board, visited: array2<int>, weights: array2<int>, path: array2<bool>,
             weightsParam: Mat, h: Heuristic, t: Pos,
             heap: multiset<Entry>, order: int, ghost fin: seq<Pos>, ghost costs: seq<int>, ghost src: Pos)
    returns (e: Entry, found: bool, heap': multiset<Entry>, order': int, ghost fin': seq<Pos>, ghost costs': seq<int>)
    requires Rect(grid) && Fits(grid, visited) && Fits(grid, path) && Fits(grid, weights) && Alike(grid, weightsParam)
    requires weights != visited
    requires heap != multiset{} && Waiting(grid, visited, weights, path, weightsParam, h, t, fin, costs, src, heap, order)
    modifies visited, weights, path
    ensures IsMin(e, heap, t, h) && Inside(grid, e.cell)
    ensures grid[e.cell.0][e.cell.1] == Water || old(visited[e.cell.0, e.cell.1]) != -1 ==>
              && !found && heap' == heap - multiset{e} && fin' == fin && costs' == costs && order' == order
              && unchanged(visited, weights, path)
    ensures grid[e.cell.0][e.cell.1] != Water && old(visited[e.cell.0, e.cell.1]) == -1 ==>
              && fin' == fin + [e.cell] && costs' == costs + [e.weight] && order' == order + 1
              && (found <==> grid[e.cell.0][e.cell.1] == Target)
    ensures !found && grid[e.cell.0][e.cell.1] != Water && old(visited[e.cell.0, e.cell.1]) == -1 ==>
              heap' == heap - multiset{e} + multiset(Pushes(grid, weightsParam, e.weight, Around(grid, e.cell)))
    ensures found ==> && Explored(grid, visited, fin', src) && Found(grid, visited, weights, path, e.cell, fin', false)
                      && Weighed(grid, visited, weights, weightsParam, h, t, fin', costs')
    ensures !found ==> Waiting(grid, visited, weights, path, weightsParam, h, t, fin', costs', src, heap', order')
    ensures !found ==> Unseen(grid, fin') < Unseen(grid, fin) || (fin' == fin && |heap'| < |heap|)
    ensures fin' != []
  {
    var rest;
    e, rest := PopMin(heap, t, h);
    var c := e.cell;
    assert e in heap;
    if grid[c.0][c.1] == Water || visited[c.0, c.1] != -1 {
      found, heap', order', fin', costs' := false, rest, order, fin, costs;
      WaitingAfterDrop(grid, visited, weights, path, weightsParam, h, t, fin, costs, src, heap, order, e, rest);
    } else if grid[c.0][c.1] == Target {
      ghost var parent := FrontierParent(grid, weightsParam, fin, costs, src, e, rest);
      found, heap' := true, rest;
      order', fin', costs' := Arrive(grid, visited, weights, path, weightsParam, h, t, e, order, fin, costs, src, parent);
    } else {
      found := false;
      heap', order', fin', costs' := Visit(grid, visited, weights, path, weightsParam, h, t, e, rest, order, fin, costs, src);
    }
  }

  /**
    * The rest of a pass for an entry on a Target cell that is not finalized:
    * `weights[i][j] = weight`, `visited[i][j] = order; order += 1`, then walk
    * back with `fallBackWeighted` and stop.
    */
  method Arrive(grid: Board, visited: array2<int>, weights: array2<int>, path: array2<bool>,
                weightsParam: Mat, h: Heuristic, t: Pos,
                e: Entry, order: int, ghost fin: seq<Pos>, ghost costs: seq<int>, ghost src: Pos, ghost parent: int)
    returns (order': int, ghost fin': seq<Pos>, ghost costs': seq<int>)
    requires Fits(grid, visited) && Fits(grid, path) && Fits(grid, weights) && weights != visited
    requires Explored(grid, visited, fin, src) && order == |fin| && Blank(path) && NoTargetIn(grid, fin)
    requires Weighed(grid, visited, weights, weightsParam, h, t, fin, costs)
    requires Inside(grid, e.cell) && grid[e.cell.0][e.cell.1] == Target && visited[e.cell.0, e.cell.1] == -1
    requires if fin == [] then e == Entry(0, src)
             else 0 <= parent < |fin| && Adjacent(fin[parent], e.cell) && Alike(grid, weightsParam) &&
                  e.weight == Charge(grid, weightsParam, costs[parent], e.cell)
    modifies visited, weights, path
    ensures fin' == fin + [e.cell] && costs' == costs + [e.weight] && order' == order + 1
    ensures Explored(grid, visited, fin', src)
    ensures forall a, b :: 0 <= a < weights.Length0 && 0 <= b < weights.Length1 ==>
              weights[a, b] == if (a, b) == e.cell then e.weight else old(weights[a, b])
    ensures Found(grid, visited, weights, path, e.cell, fin', false)
    ensures Weighed(grid, visited, weights, weightsParam, h, t, fin', costs')
  {
    var c := e.cell;
    Record(grid, weightsParam, weights, fin, costs, c, e.weight);
    order', fin' := Finalize(grid, visited, c, order, fin, src, parent);
    costs' := costs + [e.weight];
    MarkWeightedPath(grid, visited, weights, path, c, fin);
    CostedAfterPop(grid, weightsParam, fin, costs, e, parent);
    if Consistent(grid, weightsParam, h, t) {
      KeyOrderAfterPop(grid, fin, costs, t, h, e);
    }
  }

  /**
    * The rest of a pass for an entry on a cell that is neither Water, Target
    * nor finalized: `weights[i][j] = weight`, `visited[i][j] = order; order
    * += 1`, then push all neighbours.
    */
  method Visit(grid: Board, visited: array2<int>, weights: array2<int>, path: array2<bool>,
               weightsParam: Mat, h: Heuristic, t: Pos,
               e: Entry, rest: multiset<Entry>, order: int, ghost fin: seq<Pos>, ghost costs: seq<int>, ghost src: Pos)
    returns (heap': multiset<Entry>, order': int, ghost fin': seq<Pos>, ghost costs': seq<int>)
    requires Rect(grid) && Fits(grid, visited) && Fits(grid, path) && Fits(grid, weights) && Alike(grid, weightsParam)
    requires weights != visited
    requires Waiting(grid, visited, weights, path, weightsParam, h, t, fin, costs, src, rest + multiset{e}, order)
    requires IsMin(e, rest + multiset{e}, t, h) && Inside(grid, e.cell)
    requires grid[e.cell.0][e.cell.1] !in {Water, Target} && visited[e.cell.0, e.cell.1] == -1
    modifies visited, weights
    ensures fin' == fin + [e.cell] && costs' == costs + [e.weight] && order' == order + 1
    ensures forall a, b :: 0 <= a < weights.Length0 && 0 <= b < weights.Length1 ==>
              weights[a, b] == if (a, b) == e.cell then e.weight else old(weights[a, b])
    ensures heap' == rest + multiset(Pushes(grid, weightsParam, e.weight, Around(grid, e.cell)))
    ensures Waiting(grid, visited, weights, path, weightsParam, h, t, fin', costs', src, heap', order')
    ensures Unseen(grid, fin') < Unseen(grid, fin)
  {
    var c := e.cell;
    ghost var parent := FrontierParent(grid, weightsParam, fin, costs, src, e, rest);
    Record(grid, weightsParam, weights, fin, costs, c, e.weight);
    order', fin' := Finalize(grid, visited, c, order, fin, src, parent);
    costs' := costs + [e.weight];
    heap' := Expand(grid, weightsParam, h, t, e, rest, fin, costs, src);
    CostedAfterPop(grid, weightsParam, fin, costs, e, parent);
    if Consistent(grid, weightsParam, h, t) {
      assert e in rest + multiset{e};
      KeyOrderAfterPop(grid, fin, costs, t, h, e);
    }
  }

  /**
    * `getNeighbors(i, j, ...).forEach(... heap.push(...))` after finalizing the
    * non-Target cell of the popped entry `e`: the heap is the rest plus one
    * entry per neighbour, and its invariant holds for the extended `fin`.
    */
  method Expand(grid: Board, weightsParam: Mat, h: Heuristic, t: Pos,
                e: Entry, rest: multiset<Entry>, ghost fin: seq<Pos>, ghost costs: seq<int>, ghost src: Pos)
    returns (heap': multiset<Entry>)
    requires Rect(grid) && Alike(grid, weightsParam) && |costs| == |fin|
    requires Frontier(grid, fin, src, rest + multiset{e}) && Charged(grid, weightsParam, fin, costs, rest + multiset{e})
    requires IsMin(e, rest + multiset{e}, t, h)
    requires Inside(grid, e.cell) && grid[e.cell.0][e.cell.1] != Target
    ensures heap' == rest + multiset(Pushes(grid, weightsParam, e.weight, Around(grid, e.cell)))
    ensures Frontier(grid, fin + [e.cell], src, heap')
    ensures Charged(grid, weightsParam, fin + [e.cell], costs + [e.weight], heap')
    ensures Consistent(grid, weightsParam, h, t) ==> AllAbove(grid, heap', t, h, Key(e, t, h))
  {
    var ns := Around(grid, e.cell);
    heap' := PushAll(grid, weightsParam, rest, e.weight, ns);
    FrontierAfterExpand(grid, weightsParam, fin, src, e, rest, ns);
    ChargedAfterPush(grid, weightsParam, fin, costs, src, e, rest, ns);
    if Consistent(grid, weightsParam, h, t) {
      AboveAfterPush(grid, weightsParam, h, t, rest, e, ns);
    }
  }

  /**
    * The entry of least key may be finalized: it is the source's `[0, si,
    * sj]`, or a finalized neighbour `parent` pushed it with its own weight
    * plus the cell's charge.
    */
  lemma FrontierParent(grid: Board, wp: Mat, fin: seq<Pos>, costs: seq<int>, src: Pos, e: Entry, rest: multiset<Entry>)
    returns (parent: int)
    requires Frontier(grid, fin, src, rest + multiset{e}) && Charged(grid, wp, fin, costs, rest + multiset{e})
    ensures if fin == [] then e == Entry(0, src)
            else && 0 <= parent < |fin| && |costs| == |fin| && Adjacent(fin[parent], e.cell)
                 && Inside(grid, e.cell) && Alike(grid, wp) && e.weight == Charge(grid, wp, costs[parent], e.cell)
  {
    parent := -1;
    assert e in rest + multiset{e};
    if fin != [] {
      assert PushedBy(grid, wp, fin, costs, e, |fin|);
      parent :| 0 <= parent < |fin| && Adjacent(fin[parent], e.cell) && e.weight == Charge(grid, wp, costs[parent], e.cell);
    }
  }

  /**
    * `weights[i][j] = weight` for the cell `c` about to be finalized: the
    * matrix then holds `w` for `c` and is otherwise as before.
    */
  method Record(grid: Board, wp: Mat, weights: array2<int>, ghost fin: seq<Pos>, ghost costs: seq<int>, c: Pos, w: int)
    requires Recorded(grid, wp, weights, fin, costs) && Inside(grid, c) && c !in fin
    modifies weights
    ensures forall a, b :: 0 <= a < weights.Length0 && 0 <= b < weights.Length1 ==>
              weights[a, b] == if (a, b) == c then w else old(weights[a, b])
    ensures Recorded(grid, wp, weights, fin + [c], costs + [w])
  {
    weights[c.0, c.1] := w;
    forall k | 0 <= k < |fin|
      ensures weights[fin[k].0, fin[k].1] == costs[k]
    {
      assert fin[k] != c;
    }
  }

  /** A cell pushed by one of the first `below` finalized cells still is once more cells are finalized. */
  lemma PushedByGrows(grid: Board, wp: Mat, fin: seq<Pos>, costs: seq<int>, e: Entry, below: int,
                      below': int, c: Pos, w: int)
    requires PushedBy(grid, wp, fin, costs, e, below) && below <= below' <= |fin| + 1
    ensures PushedBy(grid, wp, fin + [c], costs + [w], e, below')
  {
    var m :| 0 <= m < below && Adjacent(fin[m], e.cell) && e.weight == Charge(grid, wp, costs[m], e.cell);
    assert (fin + [c])[m] == fin[m] && (costs + [w])[m] == costs[m];
  }

  /** Finalizing the cell of `e` with the weight it was pushed with keeps every finalized cell's weight explained. */
  lemma CostedAfterPop(grid: Board, wp: Mat, fin: seq<Pos>, costs: seq<int>, e: Entry, parent: int)
    requires Costed(grid, wp, fin, costs)
    requires if fin == [] then e.weight == 0
             else 0 <= parent < |fin| && Adjacent(fin[parent], e.cell) && Inside(grid, e.cell) && Alike(grid, wp) &&
                  e.weight == Charge(grid, wp, costs[parent], e.cell)
    ensures Costed(grid, wp, fin + [e.cell], costs + [e.weight])
  {
    var fin', costs' := fin + [e.cell], costs + [e.weight];
    forall k | 0 < k < |fin'|
      ensures PushedBy(grid, wp, fin', costs', Entry(costs'[k], fin'[k]), k)
    {
      if k < |fin| {
        assert fin'[k] == fin[k] && costs'[k] == costs[k];
        PushedByGrows(grid, wp, fin, costs, Entry(costs[k], fin[k]), k, k, e.cell, e.weight);
      } else {
        assert fin'[parent] == fin[parent] && costs'[parent] == costs[parent];
        assert Entry(costs'[k], fin'[k]) == e;
      }
    }
  }

  /**
    * Finalizing the cell of an entry whose key is at least the last finalized
    * key (or that is on a Target) keeps the finalized cells in key order.
    */
  lemma KeyOrderAfterPop(grid: Board, fin: seq<Pos>, costs: seq<int>, t: Pos, h: Heuristic, e: Entry)
    requires InKeyOrder(grid, fin, costs, t, h) && NoTargetIn(grid, fin) && AllInside(grid, fin)
    requires fin != [] ==> Above(grid, e, t, h, PoppedKey(fin, costs, |fin| - 1, t, h))
    ensures InKeyOrder(grid, fin + [e.cell], costs + [e.weight], t, h)
  {
    var fin', costs' := fin + [e.cell], costs + [e.weight];
    forall a, b | 0 <= a < b < |fin'| && Inside(grid, fin'[b]) && grid[fin'[b].0][fin'[b].1] != Target
      ensures PoppedKey(fin', costs', a, t, h) <= PoppedKey(fin', costs', b, t, h)
    {
      assert PoppedKey(fin', costs', a, t, h) == PoppedKey(fin, costs, a, t, h);
      if b < |fin| {
        assert PoppedKey(fin', costs', b, t, h) == PoppedKey(fin, costs, b, t, h);
      } else {
        var last := |fin| - 1;
        assert Inside(grid, fin[last]) && grid[fin[last].0][fin[last].1] != Target;
        if a < last {
          assert PoppedKey(fin, costs, a, t, h) <= PoppedKey(fin, costs, last, t, h);
        }
      }
    }
  }

  /** After a pop and the pushes, every waiting entry was pushed by a finalized cell. */
  lemma ChargedAfterPush(grid: Board, wp: Mat, fin: seq<Pos>, costs: seq<int>, src: Pos,
                         e: Entry, rest: multiset<Entry>, ns: seq<Pos>)
    requires Rect(grid) && Alike(grid, wp) && |costs| == |fin| && Inside(grid, e.cell) && ns == Around(grid, e.cell)
    requires Fed(fin, src, rest + multiset{e}) && Charged(grid, wp, fin, costs, rest + multiset{e})
    ensures Charged(grid, wp, fin + [e.cell], costs + [e.weight], rest + multiset(Pushes(grid, wp, e.weight, ns)))
  {
    var fin', costs', pushed := fin + [e.cell], costs + [e.weight], Pushes(grid, wp, e.weight, ns);
    if fin == [] {
      assert |rest| + 1 == |rest + multiset{e}| == 1;
    }
    forall x | x in rest + multiset(pushed)
      ensures PushedBy(grid, wp, fin', costs', x, |fin'|)
    {
      if x in rest {
        assert x in rest + multiset{e};
        PushedByGrows(grid, wp, fin, costs, x, |fin|, |fin'|, e.cell, e.weight);
      } else {
        var k :| 0 <= k < |pushed| && pushed[k] == x;
        assert ns[k] in Around(grid, e.cell);
        assert fin'[|fin|] == e.cell && costs'[|fin|] == e.weight;
        assert Adjacent(fin'[|fin|], x.cell) && x.weight == Charge(grid, wp, costs'[|fin|], x.cell);
      }
    }
  }

  /** Dropping an entry on a Water or finalized cell keeps the frontier. */
  lemma FrontierAfterDrop(grid: Board, visited: array2<int>, fin: seq<Pos>, src: Pos,
                          e: Entry, rest: multiset<Entry>)
    requires Explored(grid, visited, fin, src) && Frontier(grid, fin, src, rest + multiset{e}) && Inside(grid, e.cell)
    requires grid[e.cell.0][e.cell.1] == Water || visited[e.cell.0, e.cell.1] != -1
    ensures Frontier(grid, fin, src, rest)
  {
    if fin == [] {
      assert false;
    }
    SettledAfterDrop(grid, visited, fin, src, e, rest);
  }

  /** Dropping an entry on a Water or finalized cell keeps every finalized cell settled. */
  lemma SettledAfterDrop(grid: Board, visited: array2<int>, fin: seq<Pos>, src: Pos,
                         e: Entry, rest: multiset<Entry>)
    requires Explored(grid, visited, fin, src) && Inside(grid, e.cell)
    requires grid[e.cell.0][e.cell.1] == Water || visited[e.cell.0, e.cell.1] != -1
    requires AllSettled(grid, fin, CellsOf(rest + multiset{e}))
    ensures AllSettled(grid, fin, CellsOf(rest))
  {
    var c := e.cell;
    if grid[c.0][c.1] != Water {
      assert fin[visited[c.0, c.1]] == c;
    }
    forall n | Inside(grid, n) && grid[n.0][n.1] != Water && n !in fin && n in CellsOf(rest + multiset{e})
      ensures n in CellsOf(rest)
    {
      var x :| x in rest + multiset{e} && x.cell == n;
      assert x in rest;
    }
    forall k | 0 <= k < |fin|
      ensures Settled(grid, fin[k], fin, CellsOf(rest))
    {
      SettledKept(grid, fin[k], fin, CellsOf(rest + multiset{e}), fin, CellsOf(rest));
    }
  }

  /** Finalizing the non-Target cell of `e` and pushing its neighbours keeps the frontier. */
  lemma FrontierAfterExpand(grid: Board, weightsParam: Mat, fin: seq<Pos>, src: Pos,
                            e: Entry, rest: multiset<Entry>, ns: seq<Pos>)
    requires Frontier(grid, fin, src, rest + multiset{e}) && Alike(grid, weightsParam)
    requires Inside(grid, e.cell) && grid[e.cell.0][e.cell.1] != Target
    requires Rect(grid) && ns == Around(grid, e.cell)
    ensures Frontier(grid, fin + [e.cell], src, rest + multiset(Pushes(grid, weightsParam, e.weight, ns)))
  {
    var pushed := Pushes(grid, weightsParam, e.weight, ns);
    NoTargetAppend(grid, fin, e.cell);
    FedAfterExpand(fin, src, e, rest, ns, pushed);
    SettledAfterExpand(grid, fin, e, rest, ns, pushed);
    forall x | x in rest + multiset(pushed)
      ensures Inside(grid, x.cell)
    {
      if x !in rest {
        var k :| 0 <= k < |pushed| && pushed[k] == x;
      }
    }
  }

  /** The entries left after a pop, and those pushed for the neighbours, all touch a finalized cell. */
  lemma FedAfterExpand(fin: seq<Pos>, src: Pos, e: Entry, rest: multiset<Entry>, ns: seq<Pos>, pushed: seq<Entry>)
    requires Fed(fin, src, rest + multiset{e})
    requires forall p :: p in ns ==> Adjacent(e.cell, p)
    requires |pushed| == |ns| && forall k :: 0 <= k < |ns| ==> pushed[k].cell == ns[k]
    ensures Fed(fin + [e.cell], src, rest + multiset(pushed))
  {
    var fin' := fin + [e.cell];
    if fin == [] {
      assert |rest| + 1 == |rest + multiset{e}| == 1;
    }
    forall x | x in rest + multiset(pushed)
      ensures Touches(fin', x.cell)
    {
      if x in rest {
        assert Touches(fin, x.cell);
        var m :| 0 <= m < |fin| && Adjacent(fin[m], x.cell);
        assert fin'[m] == fin[m];
      } else {
        var k :| 0 <= k < |pushed| && pushed[k] == x;
        assert ns[k] in ns;
        assert fin'[|fin|] == e.cell;
      }
    }
    assert fin' != [];
  }

  /** Finalizing the cell of `e` and pushing its neighbours keeps every finalized cell settled. */
  lemma SettledAfterExpand(grid: Board, fin: seq<Pos>, e: Entry, rest: multiset<Entry>,
                           ns: seq<Pos>, pushed: seq<Entry>)
    requires Rect(grid) && Inside(grid, e.cell) && ns == Around(grid, e.cell)
    requires |pushed| == |ns| && forall k :: 0 <= k < |ns| ==> pushed[k].cell == ns[k]
    requires AllSettled(grid, fin, CellsOf(rest + multiset{e}))
    ensures AllSettled(grid, fin + [e.cell], CellsOf(rest + multiset(pushed)))
  {
    var c, fin', heap' := e.cell, fin + [e.cell], rest + multiset(pushed);
    forall k | 0 <= k < |fin'|
      ensures Settled(grid, fin'[k], fin', CellsOf(heap'))
    {
      if k < |fin| {
        assert fin'[k] == fin[k];
        SettledAfterPush(grid, fin, e, rest, pushed, fin[k]);
      } else {
        forall n | Inside(grid, n) && Adjacent(c, n)
          ensures n in CellsOf(heap')
        {
          assert n in ns;
          var j :| 0 <= j < |ns| && ns[j] == n;
          assert pushed[j] in heap';
        }
        SettledIntro(grid, c, fin', CellsOf(heap'));
      }
    }
  }

  /** A cell settled before the pop stays settled once the popped cell is finalized and the pushes are in. */
  lemma SettledAfterPush(grid: Board, fin: seq<Pos>, e: Entry, rest: multiset<Entry>,
                         pushed: seq<Entry>, d: Pos)
    requires Settled(grid, d, fin, CellsOf(rest + multiset{e}))
    ensures Settled(grid, d, fin + [e.cell], CellsOf(rest + multiset(pushed)))
  {
    var fin' := fin + [e.cell];
    forall n | n in fin || n in CellsOf(rest + multiset{e})
      ensures n in fin' || n in CellsOf(rest + multiset(pushed))
    {
      if n in fin {
        var k :| 0 <= k < |fin| && fin[k] == n;
        assert fin'[k] == n;
      } else if n == e.cell {
        assert fin'[|fin|] == n;
      } else {
        var x :| x in rest + multiset{e} && x.cell == n;
        assert x in rest;
      }
    }
    SettledKept(grid, d, fin, CellsOf(rest + multiset{e}), fin', CellsOf(rest + multiset(pushed)));
  }

  /** Dropping a popped entry on a Water or finalized cell keeps the loop state. */
  lemma WaitingAfterDrop(grid: Board, visited: array2<int>, weights: array2<int>, path: array2<bool>,
                         wp: Mat, h: Heuristic, t: Pos,
                         fin: seq<Pos>, costs: seq<int>, src: Pos, heap: multiset<Entry>, order: int,
                         e: Entry, rest: multiset<Entry>)
    requires Waiting(grid, visited, weights, path, wp, h, t, fin, costs, src, heap, order)
    requires heap == rest + multiset{e} && Inside(grid, e.cell)
    requires grid[e.cell.0][e.cell.1] == Water || visited[e.cell.0, e.cell.1] != -1
    ensures Waiting(grid, visited, weights, path, wp, h, t, fin, costs, src, rest, order)
  {
    FrontierAfterDrop(grid, visited, fin, src, e, rest);
    assert forall x :: x in rest ==> x in heap;
  }

  /**
    * Under a consistent heuristic, the entries left after popping `e` of least
    * key, and those pushed for the neighbours of its non-Target cell, have
    * keys at least `e`'s.
    */
  lemma AboveAfterPush(grid: Board, weightsParam: Mat, h: Heuristic, t: Pos,
                       rest: multiset<Entry>, e: Entry, ns: seq<Pos>)
    requires Alike(grid, weightsParam)
    requires Consistent(grid, weightsParam, h, t) && Inside(grid, e.cell) && grid[e.cell.0][e.cell.1] != Target
    requires Rect(grid) && ns == Around(grid, e.cell)
    requires IsMin(e, rest + multiset{e}, t, h)
    ensures AllAbove(grid, rest + multiset(Pushes(grid, weightsParam, e.weight, ns)), t, h, Key(e, t, h))
  {
    var pushed := Pushes(grid, weightsParam, e.weight, ns);
    assert ConsistentAt(grid, weightsParam, h, t, e.cell);
    forall x: Entry | x in rest + multiset(pushed)
      ensures Above(grid, x, t, h, Key(e, t, h))
    {
      if x in rest {
        assert x in rest + multiset{e};
      } else if Inside(grid, x.cell) && grid[x.cell.0][x.cell.1] != Target {
        var k :| 0 <= k < |pushed| && pushed[k] == x;
        var n := ns[k];
        assert n in Around(grid, e.cell);
        assert 2 * Estimate(h, e.cell.0, e.cell.1, t.0, t.1) <= weightsParam[n.0][n.1] + 2 * Estimate(h, n.0, n.1, t.0, t.1);
      }
    }
  }
}
