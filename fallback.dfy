/**
  * The backward walk that turns a finished search into a `path` mask
  * (`fallBack` and `fallBackWeighted` of `src/algos.ts`). From the reached
  * Target it repeatedly steps to one of the neighbours finalized earlier:
  * the one finalized last (`fallBack`) or the one with the least recorded
  * weight (`fallBackWeighted`), the first in neighbour order on ties.
  *
  * The walk only reads `visited` and the weights, so it is specified on
  * their values (`Mat`, taken with `Snap`), and only `path` is an array.
  */
module Fallback {
  import opened Types
  import opened Search

  /** A number matrix read as a value, row by row. */
  type Mat = seq<seq<int>>

  function At(m: Mat, p: Pos): int
    requires Inside(m, p)
  {
    m[p.0][p.1]
  }

  /** `x` is strictly better than `y`: larger when `highest`, smaller otherwise. */
  predicate Beats(x: int, y: int, highest: bool)
  {
    if highest then x > y else x < y
  }

  /**
    * The index the max (or min) loop of the fallbacks ends with: the first
    * index holding the best value, or -1 when there are no values.
    */
  function Best(v: seq<int>, highest: bool): (r: int)
    ensures -1 <= r < |v|
    ensures r == -1 <==> |v| == 0
    ensures r >= 0 ==> forall m :: 0 <= m < r ==> Beats(v[r], v[m], highest)
    ensures r >= 0 ==> forall m :: r < m < |v| ==> !Beats(v[m], v[r], highest)
  {
    if |v| == 0 then -1
    else
      var b := Best(v[..|v| - 1], highest);
      if b == -1 || Beats(v[|v| - 1], v[b], highest) then |v| - 1 else b
  }

  /**
    * The `for` loop over `values`: keep the first strictly better value.
    * The loop's starting bound of minus (plus) infinity is the `idx == -1`
    * case: every finite value beats it.
    */
  method IndexOfBest(values: seq<int>, highest: bool) returns (idx: int)
    ensures idx == Best(values, highest)
  {
    var best := 0;
    idx := -1;
    var k := 0;
    while k < |values|
      invariant 0 <= k <= |values|
      invariant idx == Best(values[..k], highest)
      invariant idx >= 0 ==> best == values[idx]
    {
      assert values[..k + 1][..k] == values[..k];
      if idx == -1 || Beats(values[k], best, highest) {
        best := values[k];
        idx := k;
      }
      k := k + 1;
    }
    assert values[..k] == values;
  }

  /** `s.map(idx => m[idx[0]][idx[1]])`. */
  function Values(m: Mat, s: seq<Pos>): (r: seq<int>)
    requires AllInside(m, s)
    ensures |r| == |s|
    ensures forall k :: 0 <= k < |s| ==> r[k] == m[s[k].0][s[k].1]
  {
    seq(|s|, k requires 0 <= k < |s| => m[s[k].0][s[k].1])
  }

  /** The cells `s[k]` whose order `orders[k]` lies in `[0, v)`, in the order of `s`. */
  function Below(s: seq<Pos>, orders: seq<int>, v: int): (r: seq<Pos>)
    requires |orders| == |s|
    ensures forall n :: n in r <==> exists k :: 0 <= k < |s| && s[k] == n && 0 <= orders[k] < v
  {
    if s == [] then []
    else
      var rest := Below(s[1..], orders[1..], v);
      assert forall k :: 0 < k < |s| ==> s[k] == s[1..][k - 1] && orders[k] == orders[1..][k - 1];
      if 0 <= orders[0] < v then [s[0]] + rest else rest
  }

  lemma {:induction false} BelowKeepsOrder(s: seq<Pos>, orders: seq<int>, v: int, c: Pos)
    requires |orders| == |s| && InDirectionOrder(c, s)
    ensures InDirectionOrder(c, Below(s, orders, v))
  {
    if s != [] {
      assert InDirectionOrder(c, s[1..]);
      BelowKeepsOrder(s[1..], orders[1..], v, c);
      var rest := Below(s[1..], orders[1..], v);
      if 0 <= orders[0] < v {
        forall q | q in rest
          ensures Direction(c, s[0]) < Direction(c, q)
        {
          var b :| 0 <= b < |s[1..]| && s[1..][b] == q && 0 <= orders[1..][b] < v;
          assert s[b + 1] == q;
        }
        OrderedAppend(c, [s[0]], rest);
      }
    }
  }

  lemma BelowInside(m: Mat, s: seq<Pos>, orders: seq<int>, v: int)
    requires |orders| == |s| && AllInside(m, s)
    ensures AllInside(m, Below(s, orders, v))
  {
    var r := Below(s, orders, v);
    forall k | 0 <= k < |r|
      ensures 0 <= r[k].0 < |m| && 0 <= r[k].1 < |m[r[k].0]|
    {
      assert r[k] in r;
      var j :| 0 <= j < |s| && s[j] == r[k] && 0 <= orders[j] < v;
    }
  }

  /**
    * The `next` candidates of the fallback helper at `p`: the neighbours
    * finalized before `p` (order in `[0, visited[p])`), in neighbour order.
    */
  function Earlier(visited: Mat, p: Pos): (r: seq<Pos>)
    requires Rect(visited) && Inside(visited, p)
    ensures AllInside(visited, r)
  {
    var s := Neighbors(p.0, p.1, |visited|, |visited[p.0]|);
    var orders := Values(visited, s);
    BelowInside(visited, s, orders, At(visited, p));
    Below(s, orders, At(visited, p))
  }

  /** The candidates keep `getNeighbors`' order, so ties go to the earlier direction. */
  lemma EarlierInOrder(visited: Mat, p: Pos)
    requires Rect(visited) && Inside(visited, p)
    ensures InDirectionOrder(p, Earlier(visited, p))
  {
    var s := Neighbors(p.0, p.1, |visited|, |visited[p.0]|);
    NeighborsInOrder(p.0, p.1, |visited|, |visited[p.0]|);
    assert (p.0, p.1) == p;
    BelowKeepsOrder(s, Values(visited, s), At(visited, p), p);
  }

  /** The candidates are exactly the side-sharing cells whose order lies in `[0, visited[p])`. */
  lemma EarlierMembers(visited: Mat, p: Pos)
    requires Rect(visited) && Inside(visited, p)
    ensures forall n {:trigger n in Earlier(visited, p)} :: n in Earlier(visited, p) <==>
      Inside(visited, n) && Adjacent(p, n) && 0 <= At(visited, n) < At(visited, p)
  {
    forall n
      ensures n in Earlier(visited, p) <==> Inside(visited, n) && Adjacent(p, n) && 0 <= At(visited, n) < At(visited, p)
    {
      if n in Earlier(visited, p) {
        EarlierSound(visited, p, n);
      } else if Inside(visited, n) && Adjacent(p, n) {
        EarlierComplete(visited, p, n);
      }
    }
  }

  lemma EarlierSound(visited: Mat, p: Pos, n: Pos)
    requires Rect(visited) && Inside(visited, p) && n in Earlier(visited, p)
    ensures Inside(visited, n) && Adjacent(p, n) && 0 <= At(visited, n) < At(visited, p)
  {
    var s := Neighbors(p.0, p.1, |visited|, |visited[p.0]|);
    var orders := Values(visited, s);
    assert n in Below(s, orders, At(visited, p));
    var k :| 0 <= k < |s| && s[k] == n && 0 <= orders[k] < At(visited, p);
    assert n in s;
    assert |visited[n.0]| == |visited[p.0]|;
  }

  lemma EarlierComplete(visited: Mat, p: Pos, n: Pos)
    requires Rect(visited) && Inside(visited, p) && Inside(visited, n) && Adjacent(p, n)
    ensures n in Earlier(visited, p) <==> 0 <= At(visited, n) < At(visited, p)
  {
    var s := Neighbors(p.0, p.1, |visited|, |visited[p.0]|);
    assert (p.0, p.1) == p;
    assert n in s;
    BelowValues(visited, s, At(visited, p), n);
  }

  /** A listed cell is kept exactly when its own value lies in `[0, v)`. */
  lemma BelowValues(m: Mat, s: seq<Pos>, v: int, n: Pos)
    requires AllInside(m, s) && n in s
    ensures Inside(m, n)
    ensures n in Below(s, Values(m, s), v) <==> 0 <= m[n.0][n.1] < v
  {
    var orders := Values(m, s);
    var k :| 0 <= k < |s| && s[k] == n;
    assert orders[k] == m[n.0][n.1];
  }

  /**
    * One step of the fallback helper at `p`: among the candidates, the first
    * with the best `rank` (highest for `fallBack`, lowest for
    * `fallBackWeighted`); none when no candidate is left.
    */
  ghost function Next(visited: Mat, rank: Mat, p: Pos, highest: bool): (r: Option<Pos>)
    requires Rect(visited) && Alike(visited, rank) && Inside(visited, p)
    ensures r.None? <==> Earlier(visited, p) == []
    ensures r.Some? ==> Inside(visited, r.value) && Adjacent(p, r.value)
    ensures r.Some? ==> 0 <= At(visited, r.value) < At(visited, p)
  {
    var next := Earlier(visited, p);
    var k := Best(Values(rank, next), highest);
    if k == -1 then None
    else
      EarlierMembers(visited, p);
      assert next[k] in next;
      Some(next[k])
  }

  /**
    * The cells the fallback walk marks after `p`, in the order it marks them.
    * `rank` is `visited` itself for `fallBack` (`highest`) and the recorded
    * weights for `fallBackWeighted` (not `highest`).
    */
  ghost function Trail(visited: Mat, rank: Mat, p: Pos, highest: bool): seq<Pos>
    requires Rect(visited) && Alike(visited, rank) && Inside(visited, p)
    decreases At(visited, p)
  {
    match Next(visited, rank, p, highest)
    case None => []
    case Some(n) => [n] + Trail(visited, rank, n, highest)
  }

  /**
    * The `for` loop of the helper at `p`: the first candidate with the best
    * rank, if there is a candidate.
    */
  method Step(visited: array2<int>, rank: array2<int>, p: Pos, highest: bool, ghost v: Mat, ghost w: Mat)
    returns (next: Option<Pos>)
    requires SameShape(visited, rank) && InBounds(visited, p)
    requires v == Snap(visited) && w == Snap(rank)
    ensures Rect(v) && Alike(v, w) && Inside(v, p)
    ensures next == Next(v, w, p, highest)
  {
    var cands := Earlier(Snap(visited), p);
    var idx := IndexOfBest(Values(Snap(rank), cands), highest);
    next := if idx == -1 then None else Some(cands[idx]);
  }

  /**
    * The helper of both fallbacks: mark the chosen earlier neighbour and
    * continue from it, until no earlier neighbour is left. `v` and `w` name
    * the contents of `visited` and `rank`, which the walk never writes.
    */
  method Walk(visited: array2<int>, rank: array2<int>, path: array2<bool>, p: Pos, highest: bool,
              ghost v: Mat, ghost w: Mat)
    requires SameShape(visited, rank) && SameShape(visited, path) && InBounds(visited, p)
    requires v == Snap(visited) && w == Snap(rank)
    modifies path
    decreases visited[p.0, p.1]
    ensures forall a, b {:trigger path[a, b]} :: 0 <= a < path.Length0 && 0 <= b < path.Length1 ==>
              path[a, b] == (old(path[a, b]) || (a, b) in Trail(v, w, p, highest))
  {
    var next := Step(visited, rank, p, highest, v, w);
    if next.Some? {
      var n := next.value;
      ghost var trail, rest := Trail(v, w, p, highest), Trail(v, w, n, highest);
      assert trail == [n] + rest;
      path[n.0, n.1] := true;
      label Marked:
      Walk(visited, rank, path, n, highest, v, w);
      forall a, b | 0 <= a < path.Length0 && 0 <= b < path.Length1
        ensures path[a, b] == (old(path[a, b]) || (a, b) in trail)
      {
        assert path[a, b] == (old@Marked(path[a, b]) || (a, b) in rest);
      }
    }
  }

  /** `fallBack`: walk back through the neighbour with the highest smaller order. */
  method FallBack(visited: array2<int>, path: array2<bool>, p: Pos)
    requires SameShape(visited, path) && InBounds(visited, p)
    modifies path
    ensures forall a, b {:trigger path[a, b]} :: 0 <= a < path.Length0 && 0 <= b < path.Length1 ==>
              path[a, b] == (old(path[a, b]) || (a, b) in Trail(Snap(visited), Snap(visited), p, true))
  {
    ghost var v := Snap(visited);
    Walk(visited, visited, path, p, true, v, v);
    assert Snap(visited) == v;
  }

  /** `fallBackWeighted`: walk back through the earlier neighbour with the least recorded weight. */
  method FallBackWeighted(visited: array2<int>, weights: array2<int>, path: array2<bool>, p: Pos)
    requires SameShape(visited, weights) && SameShape(visited, path) && InBounds(visited, p)
    modifies path
    ensures forall a, b {:trigger path[a, b]} :: 0 <= a < path.Length0 && 0 <= b < path.Length1 ==>
              path[a, b] == (old(path[a, b]) || (a, b) in Trail(Snap(visited), Snap(weights), p, false))
  {
    ghost var v, w := Snap(visited), Snap(weights);
    Walk(visited, weights, path, p, false, v, w);
    assert Snap(visited) == v && Snap(weights) == w;
  }

  /** A chain of side-sharing cells whose orders strictly drop and stay non-negative after the first. */
  ghost predicate Descending(visited: Mat, t: seq<Pos>)
  {
    && (forall k :: 0 <= k < |t| ==> Inside(visited, t[k]))
    && (forall k :: 0 < k < |t| ==> Adjacent(t[k - 1], t[k]) && 0 <= At(visited, t[k]) < At(visited, t[k - 1]))
  }

  lemma DescendingCons(visited: Mat, p: Pos, t: seq<Pos>)
    requires Inside(visited, p) && Descending(visited, t) && |t| > 0
    requires Adjacent(p, t[0]) && 0 <= At(visited, t[0]) < At(visited, p)
    ensures Descending(visited, [p] + t)
    ensures ([p] + t)[|t|] == t[|t| - 1]
  {
    var t' := [p] + t;
    forall x | 0 < x < |t'|
      ensures Adjacent(t'[x - 1], t'[x]) && 0 <= At(visited, t'[x]) < At(visited, t'[x - 1])
    {
      if x > 1 {
        assert t'[x - 1] == t[x - 2] && t'[x] == t[x - 1];
      }
    }
  }

  /**
    * Each step of either walk moves to a side-sharing cell with a strictly
    * smaller, non-negative order, and the walk stops exactly where no
    * earlier-finalized neighbour is left.
    */
  lemma {:induction false} TrailDescends(visited: Mat, rank: Mat, p: Pos, highest: bool)
    requires Rect(visited) && Alike(visited, rank) && Inside(visited, p)
    ensures Descending(visited, [p] + Trail(visited, rank, p, highest))
    ensures var t := [p] + Trail(visited, rank, p, highest); Earlier(visited, t[|t| - 1]) == []
    decreases At(visited, p)
  {
    var t := Trail(visited, rank, p, highest);
    match Next(visited, rank, p, highest)
    case None =>
      assert [p] + t == [p];
    case Some(n) =>
      var t' := [n] + Trail(visited, rank, n, highest);
      TrailDescends(visited, rank, n, highest);
      assert t == t';
      DescendingCons(visited, p, t');
  }

  /** Along a descending chain from a finalized cell, every cell is finalized, hence never Water. */
  lemma FinalizedAlong(grid: Board, visited: array2<int>, fin: seq<Pos>, src: Pos, t: seq<Pos>)
    requires Explored(grid, visited, fin, src) && Descending(Snap(visited), t) && |t| > 0 && t[0] in fin
    ensures forall k :: 0 <= k < |t| ==> t[k] in fin
    ensures IsWalk(grid, t)
  {
    var v := Snap(visited);
    forall k | 0 <= k < |t|
      ensures t[k] in fin && grid[t[k].0][t[k].1] != Water
    {
      assert Inside(v, t[k]);
      if k == 0 {
        var i0 :| 0 <= i0 < |fin| && fin[i0] == t[0];
        assert visited[t[0].0, t[0].1] == i0;
      } else {
        assert At(v, t[k]) >= 0;
      }
      var m := visited[t[k].0, t[k].1];
      assert fin[m] == t[k];
    }
  }

  /** Every finalized cell other than the source has an earlier-finalized neighbour. */
  lemma EarlierUnlessSource(visited: array2<int>, fin: seq<Pos>, src: Pos, c: Pos)
    requires Numbered(visited, fin) && Linked(fin, src) && c in fin && c != src
    ensures Earlier(Snap(visited), c) != []
  {
    var m :| 0 <= m < |fin| && fin[m] == c;
    assert m != 0 by {
      assert Linked(fin, src);
    }
    assert Parented(fin, m);
    var m' :| 0 <= m' < m && Adjacent(fin[m'], fin[m]);
    assert InBounds(visited, fin[m']) && visited[fin[m'].0, fin[m'].1] == m';
    var n := fin[m'];
    var v := Snap(visited);
    AdjacentSymmetric(n, c);
    assert Inside(v, n) && At(v, n) == m' && At(v, c) == m;
    EarlierComplete(v, c, n);
    assert n in Earlier(v, c);
  }

  /**
    * After a search that keeps `Explored`, the walk from any finalized cell
    * is a walk of finalized, non-Water cells that ends at the source.
    */
  lemma TrailReachesSource(grid: Board, visited: array2<int>, fin: seq<Pos>, src: Pos,
                           rank: Mat, p: Pos, highest: bool)
    requires Explored(grid, visited, fin, src) && Alike(Snap(visited), rank) && p in fin
    ensures Rect(Snap(visited)) && Inside(Snap(visited), p)
    ensures var t := [p] + Trail(Snap(visited), rank, p, highest);
      && IsWalk(grid, t)
      && (forall k :: 0 <= k < |t| ==> t[k] in fin)
      && t[|t| - 1] == src
  {
    var v := Snap(visited);
    var i :| 0 <= i < |fin| && fin[i] == p;
    var t := [p] + Trail(v, rank, p, highest);
    TrailDescends(v, rank, p, highest);
    FinalizedAlong(grid, visited, fin, src, t);
    if t[|t| - 1] != src {
      EarlierUnlessSource(visited, fin, src, t[|t| - 1]);
      assert false;
    }
  }
}
