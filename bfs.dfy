/**
  * `bfs` of `src/algos.ts`: a FIFO queue seeded with the source. A popped
  * cell that is Water or already finalized is dropped; otherwise it gets the
  * next order, the search stops if it is a Target, and all its in-bounds
  * neighbours are appended to the queue, visited or not.
  */
module BreadthFirst {
  import opened Types
  import opened Search
  import opened Fallback
  import opened Report

  /** The cells waiting in the queue. */
  ghost function Queued(q: seq<Pos>): set<Pos>
  {
    set x | x in q
  }

  /** Every queued cell touches a finalized cell (before the first finalization, only the source waits). */
  ghost predicate Fed(fin: seq<Pos>, src: Pos, q: seq<Pos>)
  {
    if fin == [] then q == [src]
    else forall k :: 0 <= k < |q| ==> Touches(fin, q[k])
  }


  method Bfs(grid: Board)
    returns (visited: array2<int>, path: array2<bool>, current: Pos, ghost src: Pos, ghost fin: seq<Pos>)
    requires |grid| > 0 && Rect(grid)
    ensures fresh(visited) && fresh(path) && Fits(grid, visited) && Fits(grid, path)
    ensures FirstOf(grid, Source, src)
    ensures Explored(grid, visited, fin, src)
    ensures current != NoCell ==> Found(grid, visited, visited, path, current, fin, true)
    ensures current == NoCell ==> NotFound(grid, path, current, fin)
    ensures src == NoCell ==> current == NoCell && fin == []
    ensures src != NoCell ==> (current != NoCell <==> TargetReachable(grid, src))
  {
    visited := new int[|grid|, |grid[0]|]((i, j) => -1);
    path := new bool[|grid|, |grid[0]|]((i, j) => false);
    var found;
    found, current, src, fin := Drain(grid, visited, path);
    if found {
      FoundIsReachable(grid, visited, visited, path, current, fin, src, true);
    } else {
      // `setPath(pathSupplier(...))`: the mask is still all false.
      current := NoCell;
      if src != NoCell {
        NotFoundIsUnreachable(grid, path, current, fin, src);
      }
    }
  }

  /**
    * The queue's side of the loop state: every queued cell is in bounds and
    * touches a finalized cell (or is the source, before anything is
    * finalized), no finalized cell is a Target, and every neighbour of a
    * finalized cell is finalized, Water or still queued.
    */
  ghost predicate Frontier(grid: Board, fin: seq<Pos>, src: Pos, q: seq<Pos>)
  {
    && NoTargetIn(grid, fin)
    && AllInside(grid, q) && Fed(fin, src, q)
    && (fin == [] ==> Inside(grid, src) && grid[src.0][src.1] == Source)
    && AllSettled(grid, fin, Queued(q))
  }

  /** What holds between two passes of the queue loop. */
  ghost predicate Waiting(grid: Board, visited: array2<int>, path: array2<bool>,
                          fin: seq<Pos>, src: Pos, q: seq<Pos>, order: int)
    reads visited, path
  {
    Explored(grid, visited, fin, src) && order == |fin| && Blank(path) && Frontier(grid, fin, src, q)
  }

  /**
    * The inner `found` of `bfs`: drain the queue, and on the first finalized
    * Target mark it and walk back with `fallBack`.
    */
  method Drain(grid: Board, visited: array2<int>, path: array2<bool>)
    returns (found: bool, current: Pos, src: Pos, ghost fin: seq<Pos>)
    requires Rect(grid) && Fits(grid, visited) && Fits(grid, path)
    requires Numbered(visited, []) && Blank(path)
    modifies visited, path
    ensures FirstOf(grid, Source, src)
    ensures Explored(grid, visited, fin, src)
    ensures found ==> Found(grid, visited, visited, path, current, fin, true)
    ensures !found ==> Blank(path) && NoTargetIn(grid, fin) && Closed(grid, fin)
    ensures !found && src != NoCell ==> fin != []
    ensures src == NoCell ==> !found && fin == []
  {
    found, current := false, NoCell;
    var order := 0;
    fin := [];
    src := FindNode(Source, grid);
    if src == NoCell {
      return;
    }
    var q := [src];
    while q != []
      invariant Waiting(grid, visited, path, fin, src, q, order)
      invariant fin == [] ==> q != []
      decreases Unseen(grid, fin), |q|
    {
      var c := q[0];
      found, q, order, fin := Pop(grid, visited, path, q, order, fin, src);
      if found {
        return true, c, src, fin;
      }
    }
    assert Queued(q) == {};
  }

  /**
    * One pass of the queue loop: `q.shift()`, skip Water and finalized
    * cells, finalize the cell, stop on a Target (marking the path),
    * otherwise push all its neighbours.
    */
  method Pop(grid: Board, visited: array2<int>, path: array2<bool>,
             q: seq<Pos>, order: int, ghost fin: seq<Pos>, ghost src: Pos)
    returns (found: bool, q': seq<Pos>, order': int, ghost fin': seq<Pos>)
    requires Rect(grid) && Fits(grid, visited) && Fits(grid, path)
    requires q != [] && Waiting(grid, visited, path, fin, src, q, order)
    modifies visited, path
    ensures Inside(grid, q[0])
    ensures grid[q[0].0][q[0].1] == Water || old(visited[q[0].0, q[0].1]) != -1 ==>
              !found && q' == q[1..] && fin' == fin && order' == order && unchanged(visited, path)
    ensures grid[q[0].0][q[0].1] != Water && old(visited[q[0].0, q[0].1]) == -1 ==>
              && fin' == fin + [q[0]] && order' == order + 1
              && (found <==> grid[q[0].0][q[0].1] == Target)
              && (!found ==> q' == q[1..] + Around(grid, q[0]))
    ensures found ==> Explored(grid, visited, fin', src) && Found(grid, visited, visited, path, q[0], fin', true)
    ensures !found ==> Waiting(grid, visited, path, fin', src, q', order')
    ensures !found ==> Unseen(grid, fin') < Unseen(grid, fin) || (fin' == fin && |q'| < |q|)
    ensures fin' != []
  {
    var c := q[0];
    q' := q[1..];
    assert q == [c] + q';
    if grid[c.0][c.1] != Water && visited[c.0, c.1] == -1 {
      found, q', order', fin' := Visit(grid, visited, path, c, q', order, fin, src);
    } else {
      found, order', fin' := false, order, fin;
      FrontierAfterDrop(grid, visited, fin, src, c, q');
    }
  }

  /**
    * The rest of a pass for a cell that is neither Water nor finalized:
    * `visited[i][j] = order; order += 1`, then stop on a Target (marking the
    * path) or push all its neighbours.
    */
  method Visit(grid: Board, visited: array2<int>, path: array2<bool>,
               c: Pos, q: seq<Pos>, order: int, ghost fin: seq<Pos>, ghost src: Pos)
    returns (found: bool, q': seq<Pos>, order': int, ghost fin': seq<Pos>)
    requires Rect(grid) && Fits(grid, visited) && Fits(grid, path) && Inside(grid, c)
    requires Waiting(grid, visited, path, fin, src, [c] + q, order)
    requires grid[c.0][c.1] != Water && visited[c.0, c.1] == -1
    modifies visited, path
    ensures fin' == fin + [c] && order' == order + 1 && Explored(grid, visited, fin', src)
    ensures found <==> grid[c.0][c.1] == Target
    ensures found ==> Found(grid, visited, visited, path, c, fin', true)
    ensures !found ==> q' == q + Around(grid, c) && unchanged(path)
    ensures !found ==> Waiting(grid, visited, path, fin', src, q', order')
    ensures Unseen(grid, fin') < Unseen(grid, fin)
  {
    ghost var parent := FrontierParent(grid, fin, src, c, q);
    order', fin' := Finalize(grid, visited, c, order, fin, src, parent);
    if grid[c.0][c.1] == Target {
      MarkPath(grid, visited, path, c, fin);
      return true, q, order', fin';
    }
    var next := Around(grid, c);
    FrontierAfterExpand(grid, fin, src, c, q, next);
    found, q' := false, q + next;
  }

  /** The cell at the head of the queue may be finalized: it is the source, or it touches a finalized cell. */
  lemma FrontierParent(grid: Board, fin: seq<Pos>, src: Pos, c: Pos, q: seq<Pos>) returns (parent: int)
    requires Frontier(grid, fin, src, [c] + q)
    ensures if fin == [] then c == src else 0 <= parent < |fin| && Adjacent(fin[parent], c)
  {
    parent := -1;
    assert ([c] + q)[0] == c;
    if fin != [] {
      assert Touches(fin, ([c] + q)[0]);
      parent :| 0 <= parent < |fin| && Adjacent(fin[parent], c);
    }
  }

  /** Finalizing the non-Target cell `c` and pushing its neighbours keeps the frontier. */
  lemma FrontierAfterExpand(grid: Board, fin: seq<Pos>, src: Pos, c: Pos, q: seq<Pos>, next: seq<Pos>)
    requires Frontier(grid, fin, src, [c] + q) && Rect(grid)
    requires Inside(grid, c) && grid[c.0][c.1] != Target
    requires next == Around(grid, c)
    ensures Frontier(grid, fin + [c], src, q + next)
  {
    SettledAfterExpand(grid, fin, c, q, next);
    FedAfterExpand(fin, src, c, q, next);
    NoTargetAppend(grid, fin, c);
    assert AllInside(grid, q + next) by {
      forall k | 0 <= k < |q + next|
        ensures Inside(grid, (q + next)[k])
      {
        if k < |q| {
          assert (q + next)[k] == ([c] + q)[k + 1];
        }
      }
    }
  }

  /** Dropping a Water or finalized cell from the head of the queue keeps the frontier. */
  lemma FrontierAfterDrop(grid: Board, visited: array2<int>, fin: seq<Pos>, src: Pos, c: Pos, q: seq<Pos>)
    requires Explored(grid, visited, fin, src) && Frontier(grid, fin, src, [c] + q) && Inside(grid, c)
    requires grid[c.0][c.1] == Water || visited[c.0, c.1] != -1
    ensures Frontier(grid, fin, src, q)
  {
    assert ([c] + q)[0] == c;
    if fin == [] {
      assert false;
    }
    SettledAfterDrop(grid, visited, fin, src, c, q);
    forall k | 0 <= k < |q|
      ensures Touches(fin, q[k]) && Inside(grid, q[k])
    {
      assert q[k] == ([c] + q)[k + 1];
    }
  }

  lemma FedAfterExpand(fin: seq<Pos>, src: Pos, c: Pos, q: seq<Pos>, next: seq<Pos>)
    requires Fed(fin, src, [c] + q)
    requires forall p :: p in next ==> Adjacent(c, p)
    ensures Fed(fin + [c], src, q + next)
  {
    var fin', q' := fin + [c], q + next;
    forall k | 0 <= k < |q'|
      ensures Touches(fin', q'[k])
    {
      if k < |q| {
        if fin == [] {
          assert false;
        }
        assert ([c] + q)[k + 1] == q[k] == q'[k];
        var m :| 0 <= m < |fin| && Adjacent(fin[m], ([c] + q)[k + 1]);
        assert fin'[m] == fin[m];
      } else {
        assert q'[k] in next;
        assert fin'[|fin|] == c;
      }
    }
    assert fin' != [];
  }

  /** Dropping a Water or finalized cell from the queue keeps every finalized cell settled. */
  lemma SettledAfterDrop(grid: Board, visited: array2<int>, fin: seq<Pos>, src: Pos, c: Pos, q: seq<Pos>)
    requires Explored(grid, visited, fin, src) && Inside(grid, c)
    requires grid[c.0][c.1] == Water || visited[c.0, c.1] != -1
    requires AllSettled(grid, fin, Queued([c] + q))
    ensures AllSettled(grid, fin, Queued(q))
  {
    if grid[c.0][c.1] != Water {
      assert fin[visited[c.0, c.1]] == c;
    }
    forall n: Pos | Inside(grid, n) && grid[n.0][n.1] != Water && n !in fin && n in Queued([c] + q)
      ensures n in Queued(q)
    {
      assert n in q;
    }
    forall k | 0 <= k < |fin|
      ensures Settled(grid, fin[k], fin, Queued(q))
    {
      SettledKept(grid, fin[k], fin, Queued([c] + q), fin, Queued(q));
    }
  }

  /** Finalizing `c` and appending its neighbours keeps every finalized cell settled. */
  lemma SettledAfterExpand(grid: Board, fin: seq<Pos>, c: Pos, q: seq<Pos>, next: seq<Pos>)
    requires Rect(grid) && Inside(grid, c) && next == Around(grid, c)
    requires AllSettled(grid, fin, Queued([c] + q))
    ensures AllSettled(grid, fin + [c], Queued(q + next))
  {
    var fin', q' := fin + [c], Queued(q + next);
    forall n | n in fin || n in Queued([c] + q)
      ensures n in fin' || n in q'
    {
      if n in fin {
        var x :| 0 <= x < |fin| && fin[x] == n;
        assert fin'[x] == n;
      } else if n == c {
        assert fin'[|fin|] == n;
      } else {
        assert n in q;
      }
    }
    forall k | 0 <= k < |fin'|
      ensures Settled(grid, fin'[k], fin', q')
    {
      if k < |fin| {
        assert fin'[k] == fin[k];
        SettledKept(grid, fin[k], fin, Queued([c] + q), fin', q');
      } else {
        forall n | Inside(grid, n) && Adjacent(c, n)
          ensures n in q'
        {
          assert n in next;
        }
        SettledIntro(grid, c, fin', q');
      }
    }
  }
}
