/**
  * What the three searches of `src/algos.ts` share: neighbour enumeration,
  * the row-major cell lookup, the Manhattan heuristic, and the bookkeeping
  * invariant of the `visited` matrix (`Explored`), which `Finalize` (the
  * `visited[i][j] = order; order += 1` step) preserves.
  */
module Search {
  import opened Types

  /** The four candidate moves of `getNeighbors`, in its order: down, up, left, right. */
  function Direction(c: Pos, p: Pos): int
  {
    if p == (c.0 + 1, c.1) then 0
    else if p == (c.0 - 1, c.1) then 1
    else if p == (c.0, c.1 - 1) then 2
    else 3
  }

  function Keep(p: Pos, nRows: int, nCols: int): seq<Pos>
  {
    if 0 <= p.0 < nRows && 0 <= p.1 < nCols then [p] else []
  }

  /**
    * `getNeighbors`: the in-bounds cells that share a side with `(i, j)`,
    * listed down, up, left, right.
    */
  function Neighbors(i: int, j: int, nRows: int, nCols: int): (r: seq<Pos>)
    ensures forall p {:trigger p in r} :: p in r <==> 0 <= p.0 < nRows && 0 <= p.1 < nCols && Adjacent((i, j), p)
    ensures forall k :: 0 <= k < |r| ==> 0 <= r[k].0 < nRows && 0 <= r[k].1 < nCols
  {
    var r := Keep((i + 1, j), nRows, nCols) + Keep((i - 1, j), nRows, nCols)
           + Keep((i, j - 1), nRows, nCols) + Keep((i, j + 1), nRows, nCols);
    NeighborMembers(i, j, nRows, nCols, r);
    r
  }

  /** The cells of `s` come in strictly increasing direction order around `c`. */
  ghost predicate InDirectionOrder(c: Pos, s: seq<Pos>)
  {
    forall a, b :: 0 <= a < b < |s| ==> Direction(c, s[a]) < Direction(c, s[b])
  }

  /** The four kept candidates are exactly the in-bounds cells adjacent to `(i, j)`. */
  lemma NeighborMembers(i: int, j: int, nRows: int, nCols: int, r: seq<Pos>)
    requires r == Keep((i + 1, j), nRows, nCols) + Keep((i - 1, j), nRows, nCols)
                + Keep((i, j - 1), nRows, nCols) + Keep((i, j + 1), nRows, nCols)
    ensures forall p {:trigger p in r} :: p in r <==> 0 <= p.0 < nRows && 0 <= p.1 < nCols && Adjacent((i, j), p)
  {
    var down, up, left, right := (i + 1, j), (i - 1, j), (i, j - 1), (i, j + 1);
    assert forall p :: Adjacent((i, j), p) ==> p == down || p == up || p == left || p == right;
  }

  /** `getNeighbors` lists its cells in direction order: down, up, left, right. */
  lemma NeighborsInOrder(i: int, j: int, nRows: int, nCols: int)
    ensures InDirectionOrder((i, j), Neighbors(i, j, nRows, nCols))
  {
    var down, up := Keep((i + 1, j), nRows, nCols), Keep((i - 1, j), nRows, nCols);
    var left, right := Keep((i, j - 1), nRows, nCols), Keep((i, j + 1), nRows, nCols);
    var c := (i, j);
    assert Neighbors(i, j, nRows, nCols) == down + up + left + right;
    assert Direction(c, (i + 1, j)) == 0 && Direction(c, (i - 1, j)) == 1;
    assert Direction(c, (i, j - 1)) == 2 && Direction(c, (i, j + 1)) == 3;
    assert forall p :: p in down + up ==> Direction(c, p) <= 1;
    OrderedAppend(c, down, up);
    assert forall p :: p in down + up + left ==> Direction(c, p) <= 2;
    OrderedAppend(c, down + up, left);
    OrderedAppend(c, down + up + left, right);
  }

  lemma OrderedAppend(c: Pos, x: seq<Pos>, y: seq<Pos>)
    requires InDirectionOrder(c, x) && InDirectionOrder(c, y)
    requires forall p, q :: p in x && q in y ==> Direction(c, p) < Direction(c, q)
    ensures InDirectionOrder(c, x + y)
  {
    forall a, b | 0 <= a < b < |x + y|
      ensures Direction(c, (x + y)[a]) < Direction(c, (x + y)[b])
    {
      if b < |x| {
      } else if a < |x| {
        assert (x + y)[a] in x && (x + y)[b] in y;
      }
    }
  }

  /**
    * `getNeighbors(i, j, grid.length, grid[i].length)` on a rectangular
    * grid: exactly the cells of the grid that share a side with `c`.
    */
  function Around(grid: Board, c: Pos): (r: seq<Pos>)
    requires Rect(grid) && Inside(grid, c)
    ensures forall p {:trigger p in r} :: p in r <==> Inside(grid, p) && Adjacent(c, p)
    ensures AllInside(grid, r)
  {
    Neighbors(c.0, c.1, |grid|, |grid[c.0]|)
  }

  /** `manhattan`: the taxicab distance between two cells. */
  function Manhattan(i1: int, j1: int, i2: int, j2: int): (d: int)
    ensures d >= 0
    ensures d == 0 <==> (i1, j1) == (i2, j2)
  {
    Abs(i1 - i2) + Abs(j1 - j2)
  }

  /** One move changes the Manhattan distance to any cell by at most one. */
  lemma ManhattanStep(p: Pos, q: Pos, t: Pos)
    requires Adjacent(p, q)
    ensures Manhattan(p.0, p.1, t.0, t.1) <= Manhattan(q.0, q.1, t.0, t.1) + 1
  {
  }

  /** Row-major order on cells. */
  predicate Before(q: Pos, p: Pos)
  {
    q.0 < p.0 || (q.0 == p.0 && q.1 < p.1)
  }

  /** `p` is what `findNode(kind, grid)` answers: the first row-major cell holding `kind`, or `[-1, -1]`. */
  ghost predicate FirstOf(grid: Board, kind: CellValue, p: Pos)
  {
    if p == NoCell then
      forall a, b :: 0 <= a < |grid| && 0 <= b < |grid[a]| ==> grid[a][b] != kind
    else
      && Inside(grid, p) && grid[p.0][p.1] == kind
      && forall a, b :: 0 <= a < |grid| && 0 <= b < |grid[a]| && Before((a, b), p) ==> grid[a][b] != kind
  }

  /** `findNode`: row-major scan that stops at the first cell holding `kind`. */
  method FindNode(kind: CellValue, grid: Board) returns (p: Pos)
    ensures FirstOf(grid, kind, p)
    ensures p == NoCell || Inside(grid, p)
  {
    var i := 0;
    while i < |grid|
      invariant 0 <= i <= |grid|
      invariant forall a, b :: 0 <= a < i && 0 <= b < |grid[a]| ==> grid[a][b] != kind
    {
      var j := 0;
      while j < |grid[i]|
        invariant 0 <= j <= |grid[i]|
        invariant forall b :: 0 <= b < j ==> grid[i][b] != kind
      {
        if grid[i][j] == kind {
          return (i, j);
        }
        j := j + 1;
      }
      i := i + 1;
    }
    return NoCell;
  }

  // ---------------------------------------------------------------------
  // The `visited` matrix during a search. `fin` lists the finalized cells
  // in the order they were finalized; it exists only in the proof.
  // ---------------------------------------------------------------------

  /** `visited` holds exactly the orders `0 .. |fin|-1`, cell `fin[k]` holding `k`; every other cell holds -1. */
  ghost predicate Numbered(visited: array2<int>, fin: seq<Pos>)
    reads visited
  {
    && (forall k :: 0 <= k < |fin| ==> InBounds(visited, fin[k]) && visited[fin[k].0, fin[k].1] == k)
    && (forall a, b {:trigger visited[a, b]} :: 0 <= a < visited.Length0 && 0 <= b < visited.Length1 ==>
          -1 <= visited[a, b] < |fin| && (visited[a, b] >= 0 ==> fin[visited[a, b]] == (a, b)))
  }

  /** No finalized cell is Water. */
  ghost predicate Dry(grid: Board, fin: seq<Pos>)
  {
    forall k :: 0 <= k < |fin| ==> Inside(grid, fin[k]) && grid[fin[k].0][fin[k].1] != Water
  }

  /** The source is finalized first, and every later cell touches a cell finalized before it. */
  ghost predicate Linked(fin: seq<Pos>, src: Pos)
  {
    && (|fin| > 0 ==> fin[0] == src)
    && forall k :: 0 < k < |fin| ==> Parented(fin, k)
  }

  /** The `k`-th finalized cell touches a cell finalized before it. */
  ghost predicate Parented(fin: seq<Pos>, k: int)
  {
    0 < k < |fin| && exists m :: 0 <= m < k && Adjacent(fin[m], fin[k])
  }

  /** The invariant every search keeps over its `visited` matrix. */
  ghost predicate Explored(grid: Board, visited: array2<int>, fin: seq<Pos>, src: Pos)
    reads visited
  {
    Fits(grid, visited) && Numbered(visited, fin) && Dry(grid, fin) && Linked(fin, src)
  }

  /** `p` shares a side with some finalized cell. */
  ghost predicate Touches(fin: seq<Pos>, p: Pos)
  {
    exists m :: 0 <= m < |fin| && Adjacent(fin[m], p)
  }

  /** No finalized cell is a Target. */
  ghost predicate NoTargetIn(grid: Board, fin: seq<Pos>)
  {
    forall k :: 0 <= k < |fin| && Inside(grid, fin[k]) ==> grid[fin[k].0][fin[k].1] != Target
  }

  /** Finalizing one more non-Target cell keeps the finalized cells free of Targets. */
  lemma NoTargetAppend(grid: Board, fin: seq<Pos>, p: Pos)
    requires NoTargetIn(grid, fin) && Inside(grid, p) && grid[p.0][p.1] != Target
    ensures NoTargetIn(grid, fin + [p])
  {
    forall k | 0 <= k < |fin + [p]| && Inside(grid, (fin + [p])[k])
      ensures grid[(fin + [p])[k].0][(fin + [p])[k].1] != Target
    {
      if k < |fin| {
        assert (fin + [p])[k] == fin[k];
      }
    }
  }

  ghost function Cells(grid: Board): set<Pos>
  {
    set i, j | 0 <= i < |grid| && 0 <= j < |grid[i]| :: (i, j)
  }

  /** The cells not finalized yet; every finalization removes one, so searches terminate. */
  ghost function Unseen(grid: Board, fin: seq<Pos>): set<Pos>
  {
    Cells(grid) - set p | p in fin
  }

  /**
    * `visited[i][j] = order; order += 1`: finalize an unvisited, non-Water cell
    * that is the source (first finalization) or touches a finalized cell.
    */
  method Finalize(grid: Board, visited: array2<int>, p: Pos, order: int,
                  ghost fin: seq<Pos>, ghost src: Pos, ghost parent: int)
    returns (order': int, ghost fin': seq<Pos>)
    requires Explored(grid, visited, fin, src) && order == |fin|
    requires Inside(grid, p) && visited[p.0, p.1] == -1 && grid[p.0][p.1] != Water
    requires if fin == [] then p == src else 0 <= parent < |fin| && Adjacent(fin[parent], p)
    modifies visited
    ensures fin' == fin + [p] && order' == order + 1
    ensures Explored(grid, visited, fin', src)
    ensures forall a, b {:trigger visited[a, b]} :: 0 <= a < visited.Length0 && 0 <= b < visited.Length1 ==>
              visited[a, b] == if (a, b) == p then order else old(visited[a, b])
    ensures Unseen(grid, fin') < Unseen(grid, fin)
  {
    visited[p.0, p.1] := order;
    order' := order + 1;
    fin' := fin + [p];
    assert p !in fin by {
      if k :| 0 <= k < |fin| && fin[k] == p {
        assert false;
      }
    }
    assert p in Unseen(grid, fin) && p !in Unseen(grid, fin');
    assert Unseen(grid, fin') <= Unseen(grid, fin);
    forall k | 0 < k < |fin'|
      ensures Parented(fin', k)
    {
      if k < |fin| {
        assert Parented(fin, k);
        var m :| 0 <= m < k && Adjacent(fin[m], fin[k]);
        assert fin'[m] == fin[m] && fin'[k] == fin[k];
      } else {
        assert fin'[parent] == fin[parent] && fin'[k] == p;
      }
    }
  }

  /**
    * Each of the four cells around `c` that lies on the grid is finalized,
    * Water, or still waiting in the frontier `pending`.
    */
  ghost predicate Settled(grid: Board, c: Pos, fin: seq<Pos>, pending: set<Pos>)
  {
    && Covered(grid, (c.0 + 1, c.1), fin, pending) && Covered(grid, (c.0 - 1, c.1), fin, pending)
    && Covered(grid, (c.0, c.1 - 1), fin, pending) && Covered(grid, (c.0, c.1 + 1), fin, pending)
  }

  /** An on-grid cell `n` is finalized, Water, or in `pending`. */
  ghost predicate Covered(grid: Board, n: Pos, fin: seq<Pos>, pending: set<Pos>)
  {
    Inside(grid, n) ==> n in fin || grid[n.0][n.1] == Water || n in pending
  }

  /** A cell sharing a side with `c` is one of the four around it. */
  lemma AdjacentCases(c: Pos, n: Pos)
    requires Adjacent(c, n)
    ensures n == (c.0 + 1, c.1) || n == (c.0 - 1, c.1) || n == (c.0, c.1 - 1) || n == (c.0, c.1 + 1)
  {
  }

  /** What a settled cell promises about one neighbour. */
  lemma SettledNeighbor(grid: Board, c: Pos, fin: seq<Pos>, pending: set<Pos>, n: Pos)
    requires Settled(grid, c, fin, pending) && Inside(grid, n) && Adjacent(c, n)
    ensures n in fin || grid[n.0][n.1] == Water || n in pending
  {
    AdjacentCases(c, n);
  }

  /**
    * A cell stays settled when every on-grid, non-Water neighbour that was
    * finalized or pending is still finalized or pending afterwards.
    */
  lemma SettledKept(grid: Board, c: Pos, fin: seq<Pos>, pending: set<Pos>, fin': seq<Pos>, pending': set<Pos>)
    requires Settled(grid, c, fin, pending)
    requires forall n {:trigger Adjacent(c, n)} :: Inside(grid, n) && Adjacent(c, n) && grid[n.0][n.1] != Water && (n in fin || n in pending) ==>
               n in fin' || n in pending'
    ensures Settled(grid, c, fin', pending')
  {
    var down, up, left, right := (c.0 + 1, c.1), (c.0 - 1, c.1), (c.0, c.1 - 1), (c.0, c.1 + 1);
    assert Adjacent(c, down) && Adjacent(c, up) && Adjacent(c, left) && Adjacent(c, right);
  }

  /** A cell is settled once every on-grid neighbour is finalized, Water, or pending. */
  lemma SettledIntro(grid: Board, c: Pos, fin: seq<Pos>, pending: set<Pos>)
    requires forall n {:trigger Adjacent(c, n)} :: Inside(grid, n) && Adjacent(c, n) ==> n in fin || grid[n.0][n.1] == Water || n in pending
    ensures Settled(grid, c, fin, pending)
  {
    var down, up, left, right := (c.0 + 1, c.1), (c.0 - 1, c.1), (c.0, c.1 - 1), (c.0, c.1 + 1);
    assert Adjacent(c, down) && Adjacent(c, up) && Adjacent(c, left) && Adjacent(c, right);
  }

  /** Finalizing more cells keeps a settled cell settled. */
  lemma SettledGrows(grid: Board, c: Pos, fin: seq<Pos>, fin': seq<Pos>, pending: set<Pos>)
    requires Settled(grid, c, fin, pending) && fin <= fin'
    ensures Settled(grid, c, fin', pending)
  {
    forall n | n in fin
      ensures n in fin'
    {
      var k :| 0 <= k < |fin| && fin[k] == n;
      assert fin'[k] == n;
    }
    SettledKept(grid, c, fin, pending, fin', pending);
  }

  /** Every finalized cell is settled against the frontier `pending`. */
  ghost predicate AllSettled(grid: Board, fin: seq<Pos>, pending: set<Pos>)
  {
    forall k {:trigger Settled(grid, fin[k], fin, pending)} :: 0 <= k < |fin| ==> Settled(grid, fin[k], fin, pending)
  }

  /** The finalized cells are closed under moves onto non-Water cells: the frontier ran dry. */
  ghost predicate Closed(grid: Board, fin: seq<Pos>)
  {
    AllSettled(grid, fin, {})
  }

  /** A sequence of side-sharing, in-bounds, non-Water cells. */
  ghost predicate IsWalk(grid: Board, w: seq<Pos>)
  {
    && |w| > 0
    && (forall k :: 0 <= k < |w| ==> Inside(grid, w[k]) && grid[w[k].0][w[k].1] != Water)
    && (forall k :: 0 <= k < |w| - 1 ==> Adjacent(w[k], w[k + 1]))
  }

  /**
    * When a search runs out of frontier without meeting a Target, every walk
    * from the source stays among the finalized cells, so no Target can be
    * reached from the source at all.
    */
  lemma {:induction false} ExhaustedMeansUnreachable(grid: Board, fin: seq<Pos>, src: Pos, w: seq<Pos>)
    requires Linked(fin, src) && Closed(grid, fin) && NoTargetIn(grid, fin) && fin != []
    requires IsWalk(grid, w) && w[0] == src
    ensures forall k :: 0 <= k < |w| ==> w[k] in fin && grid[w[k].0][w[k].1] != Target
  {
    if |w| > 1 {
      var w' := w[..|w| - 1];
      ExhaustedMeansUnreachable(grid, fin, src, w');
      var c, n := w[|w| - 2], w[|w| - 1];
      assert w'[|w| - 2] == c;
      var k :| 0 <= k < |fin| && fin[k] == c;
      assert Settled(grid, fin[k], fin, {});
      SettledNeighbor(grid, c, fin, {}, n);
      var m :| 0 <= m < |fin| && fin[m] == n;
      forall x | 0 <= x < |w|
        ensures w[x] in fin && grid[w[x].0][w[x].1] != Target
      {
        if x < |w| - 1 {
          assert w[x] == w'[x];
        }
      }
    } else {
      assert w[0] == fin[0];
    }
  }
}
