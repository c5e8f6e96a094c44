/**
  * What a finished search reports through `setCurrentNode`, `setVisited` and
  * `setPath`, and what that report means about the grid: a Target is
  * reported exactly when one can be reached from the source.
  */
module Report {
  import opened Types
  import opened Search
  import opened Fallback

  /** No cell of the mask is marked (`pathSupplier`'s all-false matrix). */
  ghost predicate Blank(path: array2<bool>)
    reads path
  {
    forall a, b :: 0 <= a < path.Length0 && 0 <= b < path.Length1 ==> !path[a, b]
  }

  /** `w` walks over non-Water cells from `src` to a Target. */
  ghost predicate Reaches(grid: Board, src: Pos, w: seq<Pos>)
  {
    IsWalk(grid, w) && w[0] == src && grid[w[|w| - 1].0][w[|w| - 1].1] == Target
  }

  /** Some Target can be reached from `src` by side-sharing moves over non-Water cells. */
  ghost predicate TargetReachable(grid: Board, src: Pos)
  {
    exists w :: Reaches(grid, src, w)
  }

  /**
    * The success report: the last finalized cell is the Target reached (no
    * earlier one was a Target), and the mask holds exactly that Target and
    * the cells of the fallback walk from it.
    */
  ghost predicate Found(grid: Board, visited: array2<int>, rank: array2<int>, path: array2<bool>,
                        current: Pos, fin: seq<Pos>, highest: bool)
    reads visited, rank, path
  {
    && SameShape(visited, rank) && SameShape(visited, path)
    && |fin| > 0 && current == fin[|fin| - 1]
    && Inside(grid, current) && InBounds(visited, current) && grid[current.0][current.1] == Target
    && NoTargetIn(grid, fin[..|fin| - 1])
    && forall a, b {:trigger path[a, b]} :: 0 <= a < path.Length0 && 0 <= b < path.Length1 ==>
         path[a, b] == ((a, b) == current || (a, b) in Trail(Snap(visited), Snap(rank), current, highest))
  }

  /**
    * The failure report: current node `[-1, -1]`, an all-false mask, no
    * Target finalized, and the frontier ran dry.
    */
  ghost predicate NotFound(grid: Board, path: array2<bool>, current: Pos, fin: seq<Pos>)
    reads path
  {
    current == NoCell && Blank(path) && NoTargetIn(grid, fin) && Closed(grid, fin)
  }

  /**
    * `path[i][j] = true` followed by `fallBack(i, j, ...)` on an all-false
    * mask, for a Target `x` finalized after the non-Target cells `fin`: the
    * result is a success report.
    */
  method MarkPath(grid: Board, visited: array2<int>, path: array2<bool>, x: Pos, ghost fin: seq<Pos>)
    requires SameShape(visited, path) && InBounds(visited, x) && Blank(path)
    requires Inside(grid, x) && grid[x.0][x.1] == Target && NoTargetIn(grid, fin)
    modifies path
    ensures Found(grid, visited, visited, path, x, fin + [x], true)
  {
    path[x.0, x.1] := true;
    FallBack(visited, path, x);
    FoundAfterMark(grid, visited, visited, path, fin, x, true);
  }

  /** `path[i][j] = true` followed by `fallBackWeighted(i, j, ..., weights, ...)`, as `MarkPath`. */
  method MarkWeightedPath(grid: Board, visited: array2<int>, weights: array2<int>, path: array2<bool>,
                          x: Pos, ghost fin: seq<Pos>)
    requires SameShape(visited, weights) && SameShape(visited, path) && InBounds(visited, x) && Blank(path)
    requires Inside(grid, x) && grid[x.0][x.1] == Target && NoTargetIn(grid, fin)
    modifies path
    ensures Found(grid, visited, weights, path, x, fin + [x], false)
  {
    path[x.0, x.1] := true;
    FallBackWeighted(visited, weights, path, x);
    FoundAfterMark(grid, visited, weights, path, fin, x, false);
  }

  /** The mask a finished walk leaves, together with a Target finalized last, is a success report. */
  lemma FoundAfterMark(grid: Board, visited: array2<int>, rank: array2<int>, path: array2<bool>,
                       fin: seq<Pos>, c: Pos, highest: bool)
    requires SameShape(visited, rank) && SameShape(visited, path)
    requires Inside(grid, c) && InBounds(visited, c) && grid[c.0][c.1] == Target && NoTargetIn(grid, fin)
    requires forall a, b {:trigger path[a, b]} :: 0 <= a < path.Length0 && 0 <= b < path.Length1 ==>
               path[a, b] == ((a, b) == c || (a, b) in Trail(Snap(visited), Snap(rank), c, highest))
    ensures Found(grid, visited, rank, path, c, fin + [c], highest)
  {
    assert (fin + [c])[..|fin|] == fin;
  }

  function Reversed<T>(s: seq<T>): (r: seq<T>)
    ensures |r| == |s|
    ensures forall k :: 0 <= k < |s| ==> r[k] == s[|s| - 1 - k]
  {
    if s == [] then [] else Reversed(s[1..]) + [s[0]]
  }

  /**
    * A reported Target is reachable: the marked cells, read from the source
    * end, walk over finalized non-Water cells from the source to the Target.
    */
  lemma FoundIsReachable(grid: Board, visited: array2<int>, rank: array2<int>, path: array2<bool>,
                         current: Pos, fin: seq<Pos>, src: Pos, highest: bool)
    requires Explored(grid, visited, fin, src) && Found(grid, visited, rank, path, current, fin, highest)
    ensures Reaches(grid, src, Reversed([current] + Trail(Snap(visited), Snap(rank), current, highest)))
    ensures TargetReachable(grid, src)
  {
    var t := [current] + Trail(Snap(visited), Snap(rank), current, highest);
    assert current in fin;
    TrailReachesSource(grid, visited, fin, src, Snap(rank), current, highest);
    ReversedWalk(grid, t);
    assert Reaches(grid, src, Reversed(t));
  }

  /** A walk read backwards is a walk. */
  lemma ReversedWalk(grid: Board, t: seq<Pos>)
    requires IsWalk(grid, t)
    ensures IsWalk(grid, Reversed(t))
    ensures Reversed(t)[0] == t[|t| - 1] && Reversed(t)[|t| - 1] == t[0]
  {
    var w := Reversed(t);
    forall k | 0 <= k < |w| - 1
      ensures Adjacent(w[k], w[k + 1])
    {
      assert w[k] == t[|t| - 1 - k] && w[k + 1] == t[|t| - 2 - k];
      assert Adjacent(t[|t| - 2 - k], t[|t| - 1 - k]);
    }
    forall k | 0 <= k < |w|
      ensures Inside(grid, w[k]) && grid[w[k].0][w[k].1] != Water
    {
      assert w[k] == t[|t| - 1 - k];
    }
  }

  /**
    * A failed search that finalized the source finalized everything reachable
    * from it, and none of it was a Target: no Target is reachable.
    */
  lemma NotFoundIsUnreachable(grid: Board, path: array2<bool>, current: Pos, fin: seq<Pos>, src: Pos)
    requires Linked(fin, src) && fin != [] && NotFound(grid, path, current, fin)
    ensures !TargetReachable(grid, src)
  {
    if w: seq<Pos> :| Reaches(grid, src, w) {
      ExhaustedMeansUnreachable(grid, fin, src, w);
    }
  }
}
