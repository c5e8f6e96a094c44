/**
  * `dfs` of `src/algos.ts`: the recursive `found(i, j)` rejects cells out
  * of bounds, Water cells and finalized cells, finalizes the cell, stops on
  * a Target (marking the path with `fallBack`), and otherwise tries the
  * neighbours in order, stopping at the first call that succeeds. Unlike
  * `bfs` and `astar`, `dfs` reports nothing at all when there is no Source.
  */
module DepthFirst {
  import opened Types
  import opened Search
  import opened Fallback
  import opened Report

  /** The shared state while no Target has been finalized. */
  ghost predicate Running(grid: Board, visited: array2<int>, path: array2<bool>,
                          fin: seq<Pos>, src: Pos, order: int)
    reads visited, path
  {
    Explored(grid, visited, fin, src) && order == |fin| && NoTargetIn(grid, fin) && Blank(path)
  }

  /** The cells `fin'[from..]` have every non-Water neighbour finalized. */
  ghost predicate SettledFrom(grid: Board, fin': seq<Pos>, from: int)
  {
    forall x {:trigger Settled(grid, fin'[x], fin', {})} :: 0 <= from <= x < |fin'| ==> Settled(grid, fin'[x], fin', {})
  }

  /**
    * `p` may be passed to `found`: it is the source on the first call, and
    * afterwards a neighbour of a finalized cell.
    */
  ghost predicate Callable(grid: Board, fin: seq<Pos>, src: Pos, p: Pos)
  {
    if fin == [] then p == src && Inside(grid, src) && grid[src.0][src.1] == Source
    else Touches(fin, p)
  }

  method Dfs(grid: Board)
    returns (visited: array2<int>, path: array2<bool>, current: Pos, reported: bool,
             ghost src: Pos, ghost fin: seq<Pos>)
    requires |grid| > 0 && Rect(grid)
    ensures fresh(visited) && fresh(path) && Fits(grid, visited) && Fits(grid, path)
    ensures FirstOf(grid, Source, src)
    ensures Explored(grid, visited, fin, src)
    ensures reported <==> src != NoCell
    ensures !reported ==> fin == []
    ensures reported && current != NoCell ==> Found(grid, visited, visited, path, current, fin, true)
    ensures reported && current == NoCell ==> NotFound(grid, path, current, fin)
    ensures reported ==> (current != NoCell <==> TargetReachable(grid, src))
  {
    var order := 0;
    var start := FindNode(Source, grid);
    src := start;
    visited := new int[|grid|, |grid[0]|]((i, j) => -1);
    path := new bool[|grid|, |grid[0]|]((i, j) => false);
    fin := [];
    current, reported := NoCell, false;
    if start.0 != -1 && start.1 != -1 {
      reported := true;
      var found;
      found, current, order, fin := Enter(grid, visited, path, start, order, fin, src);
      if found {
        FoundIsReachable(grid, visited, visited, path, current, fin, src, true);
      } else {
        current := NoCell;
        path := new bool[|grid|, |grid[0]|]((i, j) => false);
        NotFoundIsUnreachable(grid, path, current, fin, src);
      }
    }
  }

  /**
    * `found(i, j)`: skip out-of-bounds, Water and finalized cells without
    * changing anything; otherwise continue in `Descend`. On failure every
    * cell finalized by this call is settled and `p` itself is finalized
    * unless it is out of bounds or Water.
    */
  method Enter(grid: Board, visited: array2<int>, path: array2<bool>,
               p: Pos, order: int, ghost fin: seq<Pos>, ghost src: Pos)
    returns (found: bool, current: Pos, order': int, ghost fin': seq<Pos>)
    requires Rect(grid) && Fits(grid, visited) && Fits(grid, path)
    requires Running(grid, visited, path, fin, src, order) && Callable(grid, fin, src, p)
    modifies visited, path
    decreases Unseen(grid, fin), 1
    ensures fin <= fin' && fin' != [] && Explored(grid, visited, fin', src)
    ensures !Fresh(grid, fin, p) ==> !found && fin' == fin && order' == order && unchanged(visited, path)
    ensures Fresh(grid, fin, p) ==> fin + [p] <= fin'
    ensures found ==> Found(grid, visited, visited, path, current, fin', true)
    ensures !found ==> Running(grid, visited, path, fin', src, order') && SettledFrom(grid, fin', |fin|)
    ensures !found && Inside(grid, p) && grid[p.0][p.1] != Water ==> p in fin'
    ensures Unseen(grid, fin') <= Unseen(grid, fin)
  {
    found, current, order', fin' := false, NoCell, order, fin;
    if p.0 < 0 || p.0 >= |grid| || p.1 < 0 || p.1 >= |grid[p.0]| {
      assert fin != [];
      return;
    }
    if grid[p.0][p.1] == Water {
      assert fin != [];
      return;
    }
    if visited[p.0, p.1] != -1 {
      assert fin[visited[p.0, p.1]] == p;
      return;
    }
    ghost var entry;
    found, current, order', fin', entry := Descend(grid, visited, path, p, order, fin, src);
    assert fin'[|fin|] == (fin + [p])[|fin|] == p;
  }

  /**
    * The body of `found` for a fresh cell: `visited[i][j] = order; order +=
    * 1`, then stop on a Target or call `found` on each neighbour in turn.
    */
  method Descend(grid: Board, visited: array2<int>, path: array2<bool>,
                 p: Pos, order: int, ghost fin: seq<Pos>, ghost src: Pos)
    returns (found: bool, current: Pos, order': int, ghost fin': seq<Pos>, ghost entry: seq<int>)
    requires Rect(grid) && Fits(grid, visited) && Fits(grid, path) && Inside(grid, p)
    requires Running(grid, visited, path, fin, src, order) && Callable(grid, fin, src, p)
    requires grid[p.0][p.1] != Water && visited[p.0, p.1] == -1
    modifies visited, path
    decreases Unseen(grid, fin), 0
    ensures fin + [p] <= fin' && Explored(grid, visited, fin', src)
    ensures grid[p.0][p.1] == Target ==> found && current == p && fin' == fin + [p]
    ensures grid[p.0][p.1] != Target ==> InOrder(grid, fin', Around(grid, p), entry, |fin| + 1, found)
    ensures found ==> Found(grid, visited, visited, path, current, fin', true)
    ensures !found ==> Running(grid, visited, path, fin', src, order') && SettledFrom(grid, fin', |fin|)
    ensures Unseen(grid, fin') < Unseen(grid, fin)
  {
    ghost var parent := CallerOf(grid, fin, src, p);
    order', fin' := Finalize(grid, visited, p, order, fin, src, parent);
    if grid[p.0][p.1] == Target {
      MarkPath(grid, visited, path, p, fin);
      return true, p, order', fin', [];
    }
    NoTargetAppend(grid, fin, p);
    found, current, order', fin', entry := TryNeighbors(grid, visited, path, p, order', fin', src);
  }

  /**
    * The state of the `for` loop of `found` at `p` after trying `ns[..k]`:
    * the cells finalized so far extend `start` (which ends with `p`), no
    * Target was met, every cell after `p` is settled, and each tried
    * neighbour is finalized or Water.
    */
  ghost predicate Tried(grid: Board, visited: array2<int>, path: array2<bool>, src: Pos,
                        start: seq<Pos>, fin: seq<Pos>, order: int, ns: seq<Pos>, k: int)
    reads visited, path
  {
    && 0 <= k <= |ns| && AllInside(grid, ns)
    && start <= fin && Unseen(grid, fin) <= Unseen(grid, start)
    && Running(grid, visited, path, fin, src, order) && SettledFrom(grid, fin, |start|)
    && forall m :: 0 <= m < k ==> ns[m] in fin || grid[ns[m].0][ns[m].1] == Water
  }

  /** `n` is a cell `found` would finalize when `done` are the finalized cells. */
  ghost predicate Fresh(grid: Board, done: seq<Pos>, n: Pos)
  {
    Inside(grid, n) && grid[n.0][n.1] != Water && n !in done
  }

  /**
    * The calls on `ns[..k]` were made in turn: the call on `ns[m]` finalized
    * the cells `fin'[entry[m]..entry[m + 1]]`, which start with `ns[m]` when
    * `ns[m]` was fresh at that point and are none otherwise.
    */
  ghost predicate InTurn(grid: Board, fin': seq<Pos>, ns: seq<Pos>, entry: seq<int>, k: int)
  {
    && 0 <= k <= |ns| && |entry| == k + 1 && 0 <= entry[k] <= |fin'|
    && forall m :: 0 <= m < k ==> Called(grid, fin', ns, entry, m)
  }

  /** The call on `ns[m]` finalized `fin'[entry[m]..entry[m + 1]]`: `ns[m]` first if it was fresh, else nothing. */
  ghost predicate Called(grid: Board, fin': seq<Pos>, ns: seq<Pos>, entry: seq<int>, m: int)
  {
    && 0 <= m < |ns| && m + 1 < |entry| && 0 <= entry[m] <= entry[m + 1] <= |fin'|
    && if Fresh(grid, fin'[..entry[m]], ns[m]) then entry[m] < entry[m + 1] && fin'[entry[m]] == ns[m]
       else entry[m] == entry[m + 1]
  }

  /**
    * The neighbours `ns` were tried in order, the first call starting at
    * `fin'[from]`: on failure all of them were tried and nothing else was
    * finalized; on success the calls stopped at the first one that
    * succeeded, which was on a fresh neighbour.
    */
  ghost predicate InOrder(grid: Board, fin': seq<Pos>, ns: seq<Pos>, entry: seq<int>, from: int, found: bool)
  {
    && 1 <= |entry| && InTurn(grid, fin', ns, entry, |entry| - 1) && entry[0] == from
    && (!found ==> |entry| == |ns| + 1 && entry[|ns|] == |fin'|)
    && (found ==> var k := |entry| - 1;
                  k < |ns| && Fresh(grid, fin'[..entry[k]], ns[k]) && entry[k] < |fin'| && fin'[entry[k]] == ns[k])
  }

  /**
    * The `for` loop of `found` over `getNeighbors(i, j, ...)`, run after `p`
    * was finalized last: call `found` on each neighbour, returning at the
    * first success. On failure `p` and every cell finalized after it are
    * settled.
    */
  method TryNeighbors(grid: Board, visited: array2<int>, path: array2<bool>,
                      p: Pos, order: int, ghost fin: seq<Pos>, ghost src: Pos)
    returns (found: bool, current: Pos, order': int, ghost fin': seq<Pos>, ghost entry: seq<int>)
    requires Rect(grid) && Fits(grid, visited) && Fits(grid, path)
    requires Running(grid, visited, path, fin, src, order) && fin != [] && fin[|fin| - 1] == p
    modifies visited, path
    decreases Unseen(grid, fin), 3
    ensures fin <= fin' && Explored(grid, visited, fin', src)
    ensures InOrder(grid, fin', Around(grid, p), entry, |fin|, found)
    ensures found ==> Found(grid, visited, visited, path, current, fin', true)
    ensures !found ==> Running(grid, visited, path, fin', src, order') && SettledFrom(grid, fin', |fin| - 1)
    ensures Unseen(grid, fin') <= Unseen(grid, fin)
  {
    var ns := Around(grid, p);
    found, current, order', fin' := false, NoCell, order, fin;
    entry := [|fin|];
    var k := 0;
    while k < |ns|
      invariant Tried(grid, visited, path, src, fin, fin', order', ns, k)
      invariant InTurn(grid, fin', ns, entry, k) && entry[0] == |fin| && entry[k] == |fin'|
    {
      ghost var before := fin';
      found, current, order', fin' := TryNext(grid, visited, path, p, ns, k, order', fin, fin', src);
      if found {
        InTurnGrows(grid, before, fin', ns, entry, k);
        return;
      }
      entry := InTurnStep(grid, before, fin', ns, entry, k);
      k := k + 1;
    }
    TriedAllSettled(grid, fin', p, ns);
    LastSettled(grid, fin, fin', p);
  }

  /** One pass of the `for` loop: `if (await found(ni, nj)) return true`. */
  method TryNext(grid: Board, visited: array2<int>, path: array2<bool>, p: Pos, ns: seq<Pos>,
                 k: int, order: int, ghost start: seq<Pos>, ghost fin: seq<Pos>, ghost src: Pos)
    returns (found: bool, current: Pos, order': int, ghost fin': seq<Pos>)
    requires Rect(grid) && Fits(grid, visited) && Fits(grid, path)
    requires start != [] && start[|start| - 1] == p && Inside(grid, p) && ns == Around(grid, p)
    requires k < |ns| && Tried(grid, visited, path, src, start, fin, order, ns, k)
    modifies visited, path
    decreases Unseen(grid, start), 2
    ensures start <= fin' && fin <= fin' && Explored(grid, visited, fin', src) && Unseen(grid, fin') <= Unseen(grid, start)
    ensures !Fresh(grid, fin, ns[k]) ==> !found && fin' == fin
    ensures Fresh(grid, fin, ns[k]) ==> fin + [ns[k]] <= fin'
    ensures found ==> Found(grid, visited, visited, path, current, fin', true)
    ensures !found ==> Tried(grid, visited, path, src, start, fin', order', ns, k + 1)
  {
    assert fin[|start| - 1] == p && ns[k] in ns;
    found, current, order', fin' := Enter(grid, visited, path, ns[k], order, fin, src);
    if !found {
      StepSettled(grid, fin, fin', |start|, ns, k);
    }
  }

  /** Finalizing more cells keeps the record of the earlier calls. */
  lemma {:induction false} InTurnGrows(grid: Board, fin: seq<Pos>, fin': seq<Pos>, ns: seq<Pos>, entry: seq<int>, k: int)
    requires fin <= fin' && InTurn(grid, fin, ns, entry, k)
    ensures InTurn(grid, fin', ns, entry, k)
  {
    forall m | 0 <= m < k
      ensures Called(grid, fin', ns, entry, m)
    {
      assert Called(grid, fin, ns, entry, m);
      assert fin'[..entry[m]] == fin[..entry[m]];
    }
  }

  /** A failed call on `ns[k]` that began with `fin` finalized adds its own entry to the record. */
  lemma InTurnStep(grid: Board, fin: seq<Pos>, fin': seq<Pos>, ns: seq<Pos>, entry: seq<int>, k: int)
    returns (entry': seq<int>)
    requires fin <= fin' && k < |ns| && InTurn(grid, fin, ns, entry, k) && entry[k] == |fin|
    requires !Fresh(grid, fin, ns[k]) ==> fin' == fin
    requires Fresh(grid, fin, ns[k]) ==> fin + [ns[k]] <= fin'
    ensures entry' == entry + [|fin'|] && InTurn(grid, fin', ns, entry', k + 1)
  {
    InTurnGrows(grid, fin, fin', ns, entry, k);
    entry' := entry + [|fin'|];
    assert fin'[..entry[k]] == fin;
    if Fresh(grid, fin, ns[k]) {
      assert fin'[|fin|] == (fin + [ns[k]])[|fin|];
    }
    forall m | 0 <= m < k + 1
      ensures Called(grid, fin', ns, entry', m)
    {
      if m < k {
        assert Called(grid, fin', ns, entry, m);
      }
    }
  }

  /** The finalized neighbour that made the call: the caller's own cell. */
  lemma CallerOf(grid: Board, fin: seq<Pos>, src: Pos, p: Pos) returns (parent: int)
    requires Callable(grid, fin, src, p)
    ensures if fin == [] then p == src else 0 <= parent < |fin| && Adjacent(fin[parent], p)
  {
    parent := -1;
    if fin != [] {
      parent :| 0 <= parent < |fin| && Adjacent(fin[parent], p);
    }
  }

  /** A failed call on one more neighbour keeps the earlier cells settled and adds the neighbour. */
  lemma StepSettled(grid: Board, before: seq<Pos>, after: seq<Pos>, from: int, ns: seq<Pos>, k: int)
    requires 0 <= k < |ns| && before <= after && AllInside(grid, ns)
    requires SettledFrom(grid, before, from) && SettledFrom(grid, after, |before|)
    requires forall m :: 0 <= m < k ==> ns[m] in before || grid[ns[m].0][ns[m].1] == Water
    requires ns[k] in after || grid[ns[k].0][ns[k].1] == Water
    ensures SettledFrom(grid, after, from)
    ensures forall m :: 0 <= m < k + 1 ==> ns[m] in after || grid[ns[m].0][ns[m].1] == Water
  {
    forall x | 0 <= from <= x < |after|
      ensures Settled(grid, after[x], after, {})
    {
      if x < |before| {
        assert after[x] == before[x];
        SettledGrows(grid, before[x], before, after, {});
      }
    }
    forall m | 0 <= m < k + 1 && ns[m] in before
      ensures ns[m] in after
    {
      var y :| 0 <= y < |before| && before[y] == ns[m];
      assert after[y] == ns[m];
    }
  }

  /** Once the cell itself is settled, so is every cell from it on. */
  lemma LastSettled(grid: Board, start: seq<Pos>, fin': seq<Pos>, p: Pos)
    requires start <= fin' && start != [] && start[|start| - 1] == p
    requires SettledFrom(grid, fin', |start|) && Settled(grid, p, fin', {})
    ensures SettledFrom(grid, fin', |start| - 1)
  {
    assert fin'[|start| - 1] == p;
    forall x | |start| - 1 <= x < |fin'|
      ensures Settled(grid, fin'[x], fin', {})
    {
      if x >= |start| {
        assert SettledFrom(grid, fin', |start|);
      }
    }
  }

  /** A cell whose neighbours are all finalized or Water is settled. */
  lemma TriedAllSettled(grid: Board, fin': seq<Pos>, p: Pos, ns: seq<Pos>)
    requires Rect(grid) && Inside(grid, p) && ns == Around(grid, p)
    requires forall m :: 0 <= m < |ns| ==> ns[m] in fin' || grid[ns[m].0][ns[m].1] == Water
    ensures Settled(grid, p, fin', {})
  {
    forall n | Inside(grid, n) && Adjacent(p, n)
      ensures n in fin' || grid[n.0][n.1] == Water
    {
      assert n in ns;
      var m :| 0 <= m < |ns| && ns[m] == n;
    }
    SettledIntro(grid, p, fin', {});
  }
}
