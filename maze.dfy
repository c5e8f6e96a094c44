/**
  * The recursive-division maze of `src/gen.ts` (`isOrientationVertical` and
  * `recursiveDiv` with its inner `divide`).
  *
  * `divide` splits a region of the grid with a wall of Water along one row or
  * column, opens a door of `size` Grass cells in it, and recurses into the two
  * sides. A persistent `doors` mask records every door cell; a wall cell with a
  * door cell within `size` cells of it along the wall line is left as it is.
  *
  * `Math.random` is the stream `rnd`: draw `n` is `rnd(n)`, a real in
  * `[0, 1)`, and `divide` returns the index of the next unused draw.
  */
module Maze {
  import opened Types

  /** `0 <= x < 1` and `n > 0` give `0 <= x * n < n`. */
  lemma ScaledDraw(x: real, n: real)
    requires 0.0 <= x < 1.0 && n > 0.0
    ensures 0.0 <= x * n < n
  {
    assert n - x * n == (1.0 - x) * n;
  }

  /** `Math.floor(x * n)` for a draw `x`. */
  function Pick(x: real, n: real): (r: int)
    requires 0.0 <= x < 1.0 && n > 0.0
    ensures 0 <= r && (r as real) < n
  {
    ScaledDraw(x, n);
    (x * n).Floor
  }

  /**
    * The wall index `lo + Math.floor(x * ((hi - lo - size) / 2)) + size` of a
    * span `lo..hi` at least `2 * size` wide: it leaves `size` cells before the
    * wall and at least one after it, so both sides are strictly smaller spans.
    */
  function WallIndex(lo: int, hi: int, size: int, x: real): (r: int)
    requires size >= 1 && hi - lo >= 2 * size && 0.0 <= x < 1.0
    ensures lo + size <= r < hi
  {
    var n := (hi - lo - size) as real / 2.0;
    var f := Pick(x, n);
    assert (lo + f + size) as real < (hi + lo + size) as real / 2.0;
    lo + f + size
  }

  /**
    * How far a door can run past its span `lo..hi` (at least `2 * size`
    * wide): it starts at `WallIndex` and is `size` cells long, so its last
    * cell is at most `ceil(size / 2) - 2` cells past `hi`. Only from
    * `size >= 5` can it pass `hi` at all.
    */
  lemma DoorOverrun(lo: int, hi: int, size: int, x: real)
    requires size >= 1 && hi - lo >= 2 * size && 0.0 <= x < 1.0
    ensures WallIndex(lo, hi, size, x) + size - 1 <= hi + (size + 1) / 2 - 2
    ensures size <= 4 ==> WallIndex(lo, hi, size, x) + size - 1 <= hi
  {
  }

  /** The bound of `DoorOverrun` is reached: with `size` 5 on a span of 10, a draw of 0.9 puts the door's last cell one past `hi`. */
  lemma DoorOverrunReached()
    ensures WallIndex(0, 10, 5, 0.9) + 5 - 1 == 10 + 1
  {
    assert Pick(0.9, 2.5) == 2;
  }

  /**
    * `isOrientationVertical(w, h)`: vertical when `w < h`, horizontal when
    * `h < w`, and a coin (`Math.floor(x * 2) === 0`) when they are equal.
    */
  function IsOrientationVertical(w: int, h: int, x: real): (r: bool)
    requires 0.0 <= x < 1.0
    ensures w < h ==> r
    ensures h < w ==> !r
    ensures w == h ==> (r <==> x < 0.5)
  {
    if w < h then true
    else if h < w then false
    else Pick(x, 2.0) == 0
  }

  /** The cell at position `k` along the wall line `fixed` (a column when `vertical`, a row otherwise). */
  function WallCell(vertical: bool, fixed: int, k: int): Pos
  {
    if vertical then (k, fixed) else (fixed, k)
  }

  /** The wall line cell `(a, b)` lies on. */
  function Fixed(vertical: bool, a: int, b: int): int
  {
    if vertical then b else a
  }

  /** The position of cell `(a, b)` along its wall line. */
  function Along(vertical: bool, a: int, b: int): int
  {
    if vertical then a else b
  }

  /** Number of cells along a wall line: the rows for a vertical wall, the columns otherwise. */
  function Span<T>(m: array2<T>, vertical: bool): int
  {
    if vertical then m.Length0 else m.Length1
  }

  /** Number of wall lines: the columns for vertical walls, the rows otherwise. */
  function Width<T>(m: array2<T>, vertical: bool): int
  {
    if vertical then m.Length1 else m.Length0
  }

  /** Position `k` of wall line `fixed` exists and is a door cell. */
  predicate DoorAt(doors: array2<bool>, vertical: bool, fixed: int, k: int)
    reads doors
  {
    0 <= k < Span(doors, vertical) && 0 <= fixed < Width(doors, vertical) &&
    doors[WallCell(vertical, fixed, k).0, WallCell(vertical, fixed, k).1]
  }

  /** The cell `d` positions before `k` on wall line `fixed` is a door cell. */
  predicate DoorBehind(doors: array2<bool>, vertical: bool, fixed: int, k: int, d: int)
    reads doors
  {
    DoorAt(doors, vertical, fixed, k - d)
  }

  /** The cell `d` positions after `k` on wall line `fixed` is a door cell. */
  predicate DoorAhead(doors: array2<bool>, vertical: bool, fixed: int, k: int, d: int)
    reads doors
  {
    DoorAt(doors, vertical, fixed, k + d)
  }

  /** A door cell lies within `size` cells of position `k` along wall line `fixed`. */
  predicate NearDoor(doors: array2<bool>, vertical: bool, fixed: int, k: int, size: int)
    reads doors
  {
    exists d :: 1 <= d <= size && (DoorBehind(doors, vertical, fixed, k, d) || DoorAhead(doors, vertical, fixed, k, d))
  }

  /** The two `isDoorNear` loops: first the `size` cells before `k`, then the `size` cells after it. */
  method DoorNear(doors: array2<bool>, vertical: bool, fixed: int, k: int, size: int) returns (near: bool)
    requires 0 <= k < Span(doors, vertical) && 0 <= fixed < Width(doors, vertical) && size >= 1
    ensures near <==> NearDoor(doors, vertical, fixed, k, size)
  {
    near := false;
    for d := 1 to size + 1
      invariant forall e :: 1 <= e < d ==> !DoorBehind(doors, vertical, fixed, k, e)
    {
      var p := WallCell(vertical, fixed, k - d);
      if k - d >= 0 && doors[p.0, p.1] {
        assert DoorBehind(doors, vertical, fixed, k, d);
        return true;
      }
    }
    for d := 1 to size + 1
      invariant forall e :: 1 <= e < d ==> !DoorBehind(doors, vertical, fixed, k, e)
      invariant forall e :: 1 <= e < d ==> !DoorAhead(doors, vertical, fixed, k, e)
    {
      var p := WallCell(vertical, fixed, k + d);
      if k + d < Span(doors, vertical) && doors[p.0, p.1] {
        assert DoorAhead(doors, vertical, fixed, k, d);
        return true;
      }
    }
  }

  /**
    * The grid and the `doors` mask as values, both `rows` x `cols`: what
    * `divide` reads and writes.
    */
  datatype Layout = Layout(rows: nat, cols: nat, cells: seq<seq<CellValue>>, doors: seq<seq<bool>>)

  /** Both matrices of `l` have `l.rows` rows of `l.cols` entries. */
  predicate Shaped(l: Layout)
  {
    && |l.cells| == l.rows && |l.doors| == l.rows
    && forall a :: 0 <= a < l.rows ==> |l.cells[a]| == l.cols && |l.doors[a]| == l.cols
  }

  /** The grid and `doors` as they stand. */
  function Now(grid: array2<CellValue>, doors: array2<bool>): (l: Layout)
    reads grid, doors
    requires SameShape(grid, doors)
    ensures Shaped(l) && l.rows == grid.Length0 && l.cols == grid.Length1
  {
    Layout(grid.Length0, grid.Length1, Snap(grid), Snap(doors))
  }

  /** A layout whose entries agree with the arrays' is theirs. */
  lemma NowIs(grid: array2<CellValue>, doors: array2<bool>, l: Layout)
    requires SameShape(grid, doors) && Shaped(l) && l.rows == grid.Length0 && l.cols == grid.Length1
    requires forall a, b :: 0 <= a < l.rows && 0 <= b < l.cols ==> grid[a, b] == l.cells[a][b] && doors[a, b] == l.doors[a][b]
    ensures Now(grid, doors) == l
  {
    var n := Now(grid, doors);
    forall a | 0 <= a < l.rows
      ensures n.cells[a] == l.cells[a] && n.doors[a] == l.doors[a]
    {
    }
  }

  /** Position `k` of wall line `fixed` exists in `l` and is a door cell. */
  predicate DoorIn(l: Layout, vertical: bool, fixed: int, k: int)
    requires Shaped(l)
  {
    var span, width := if vertical then l.rows else l.cols, if vertical then l.cols else l.rows;
    0 <= k < span && 0 <= fixed < width && l.doors[WallCell(vertical, fixed, k).0][WallCell(vertical, fixed, k).1]
  }

  /** One of the two cells `d` positions from `k` along wall line `fixed` of `l` is a door cell. */
  predicate DoorAround(l: Layout, vertical: bool, fixed: int, k: int, d: int)
    requires Shaped(l)
  {
    DoorIn(l, vertical, fixed, k - d) || DoorIn(l, vertical, fixed, k + d)
  }

  /** A door cell of `l` lies within `size` cells of position `k` along wall line `fixed`. */
  predicate NearDoorIn(l: Layout, vertical: bool, fixed: int, k: int, size: int)
    requires Shaped(l)
  {
    exists d :: 1 <= d <= size && DoorAround(l, vertical, fixed, k, d)
  }

  /**
    * The wall on values: each cell `lo..hi` of wall line `fixed` with no door
    * cell within `size` of it becomes Water; the doors and every other cell
    * stay.
    */
  function Walled(l: Layout, vertical: bool, fixed: int, lo: int, hi: int, size: int): (r: Layout)
    requires Shaped(l)
    ensures Shaped(r) && r.rows == l.rows && r.cols == l.cols && r.doors == l.doors
  {
    l.(cells := seq(l.rows, a requires 0 <= a < l.rows => seq(l.cols, b requires 0 <= b < l.cols =>
      if Fixed(vertical, a, b) == fixed && lo <= Along(vertical, a, b) <= hi
         && !NearDoorIn(l, vertical, fixed, Along(vertical, a, b), size)
      then Water else l.cells[a][b])))
  }

  /** Cell `(a, b)` is one of the `size` door cells from position `idx` of wall line `fixed`. */
  predicate OnDoor(vertical: bool, fixed: int, idx: int, size: int, a: int, b: int)
  {
    Fixed(vertical, a, b) == fixed && idx <= Along(vertical, a, b) < idx + size
  }

  /** The door on values: its cells that exist become Grass and are marked; nothing else changes. */
  function Opened(l: Layout, vertical: bool, fixed: int, idx: int, size: int): (r: Layout)
    requires Shaped(l)
    ensures Shaped(r) && r.rows == l.rows && r.cols == l.cols
  {
    Layout(l.rows, l.cols,
      seq(l.rows, a requires 0 <= a < l.rows => seq(l.cols, b requires 0 <= b < l.cols =>
        if OnDoor(vertical, fixed, idx, size, a, b) then Grass else l.cells[a][b])),
      seq(l.rows, a requires 0 <= a < l.rows => seq(l.cols, b requires 0 <= b < l.cols =>
        OnDoor(vertical, fixed, idx, size, a, b) || l.doors[a][b])))
  }

  /** Every cell of `r` kept its kind in `l` or is Water or Grass, and every door mark of `l` is still set. */
  predicate Kept(l: Layout, r: Layout)
    requires Shaped(l) && Shaped(r) && r.rows == l.rows && r.cols == l.cols
  {
    && (forall a, b {:trigger r.cells[a][b]} :: 0 <= a < l.rows && 0 <= b < l.cols ==>
          r.cells[a][b] == l.cells[a][b] || r.cells[a][b] == Water || r.cells[a][b] == Grass)
    && (forall a, b {:trigger r.doors[a][b]} :: 0 <= a < l.rows && 0 <= b < l.cols ==>
          l.doors[a][b] ==> r.doors[a][b])
  }

  /** `r` agrees with `l` on every cell outside the reach of `divide(i1, j1, i2, j2)`. */
  predicate Within(l: Layout, r: Layout, i1: int, j1: int, i2: int, j2: int, size: int)
    requires Shaped(l) && Shaped(r) && r.rows == l.rows && r.cols == l.cols
  {
    && (forall a, b {:trigger r.cells[a][b]} :: 0 <= a < l.rows && 0 <= b < l.cols && !Reach(i1, j1, i2, j2, size, a, b) ==>
          r.cells[a][b] == l.cells[a][b])
    && (forall a, b {:trigger r.doors[a][b]} :: 0 <= a < l.rows && 0 <= b < l.cols && !Reach(i1, j1, i2, j2, size, a, b) ==>
          r.doors[a][b] == l.doors[a][b])
  }

  /** One `divide` level on values: the wall over `lo..hi` of wall line `fixed`, then the door from `idx`. */
  function Laid(l: Layout, vertical: bool, fixed: int, idx: int, lo: int, hi: int, size: int): (r: Layout)
    requires Shaped(l)
    ensures Shaped(r) && r.rows == l.rows && r.cols == l.cols
  {
    Opened(Walled(l, vertical, fixed, lo, hi, size), vertical, fixed, idx, size)
  }

  /**
    * `divide(i1, j1, i2, j2)` on values, drawing from `rnd` from index `next`
    * on: the layout it leaves and the next unused draw. A region narrower than
    * `2 * size` either way is left alone; a wider one is split.
    */
  function Divided(l: Layout, size: int, rnd: nat -> real, i1: int, j1: int, i2: int, j2: int, next: nat): (r: (Layout, nat))
    requires Shaped(l) && size >= 1 && forall n :: 0.0 <= rnd(n) < 1.0
    requires 0 <= i1 && 0 <= j1 && i2 < l.rows && j2 < l.cols
    ensures Shaped(r.0) && r.0.rows == l.rows && r.0.cols == l.cols && next <= r.1
    ensures i2 - i1 < 2 * size || j2 - j1 < 2 * size ==> r == (l, next)
    ensures r.1 == next <==> i2 - i1 < 2 * size || j2 - j1 < 2 * size
    decreases i2 - i1 + j2 - j1, 2
  {
    if i2 - i1 < 2 * size || j2 - j1 < 2 * size then (l, next)
    else Split(l, size, rnd, i1, j1, i2, j2, next)
  }

  /**
    * One `divide` level on a region at least `2 * size` wide both ways: draw
    * the column `j`, the row `i` and, for a square region only, the
    * orientation; lay the wall and the door; divide the two sides, the first
    * side first.
    */
  function Split(l: Layout, size: int, rnd: nat -> real, i1: int, j1: int, i2: int, j2: int, next: nat): (r: (Layout, nat))
    requires Shaped(l) && size >= 1 && forall n :: 0.0 <= rnd(n) < 1.0
    requires 0 <= i1 && 0 <= j1 && i2 < l.rows && j2 < l.cols
    requires i2 - i1 >= 2 * size && j2 - j1 >= 2 * size
    ensures Shaped(r.0) && r.0.rows == l.rows && r.0.cols == l.cols && next + 2 <= r.1
    decreases i2 - i1 + j2 - j1, 1
  {
    var j := WallIndex(j1, j2, size, rnd(next));
    var i := WallIndex(i1, i2, size, rnd(next + 1));
    var used := if i2 - i1 == j2 - j1 then next + 3 else next + 2;
    if IsOrientationVertical(i2 - i1, j2 - j1, rnd(next + 2)) then
      Halves(Laid(l, true, j, i, i1, i2, size), size, rnd, i1, j1, i2, j2, i1, j1, i2, j - 1, i1, j + 1, i2, j2, used)
    else
      Halves(Laid(l, false, i, j, j1, j2, size), size, rnd, i1, j1, i2, j2, i1, j1, i - 1, j2, i + 1, j1, i2, j2, used)
  }

  /**
    * The end of a `divide` level on the region `(i1, j1)..(i2, j2)`: divide
    * the side `(a1, b1)..(a2, b2)`, then the side `(c1, d1)..(c2, d2)`, each
    * strictly smaller than the region.
    */
  function Halves(l: Layout, size: int, rnd: nat -> real, i1: int, j1: int, i2: int, j2: int,
                  a1: int, b1: int, a2: int, b2: int, c1: int, d1: int, c2: int, d2: int, next: nat): (r: (Layout, nat))
    requires Shaped(l) && size >= 1 && forall n :: 0.0 <= rnd(n) < 1.0
    requires 0 <= a1 && 0 <= b1 && a2 < l.rows && b2 < l.cols
    requires 0 <= c1 && 0 <= d1 && c2 < l.rows && d2 < l.cols
    requires 0 <= a2 - a1 + b2 - b1 < i2 - i1 + j2 - j1 && 0 <= c2 - c1 + d2 - d1 < i2 - i1 + j2 - j1
    ensures Shaped(r.0) && r.0.rows == l.rows && r.0.cols == l.cols && next <= r.1
    decreases i2 - i1 + j2 - j1, 0
  {
    var first := Divided(l, size, rnd, a1, b1, a2, b2, next);
    Divided(first.0, size, rnd, c1, d1, c2, d2, first.1)
  }

  /**
    * A wall across the region `(i1, j1)..(i2, j2)` with its door inside it
    * writes only Water and Grass, only sets marks, and stays within `Reach`.
    */
  lemma LaidKeeps(l: Layout, vertical: bool, fixed: int, idx: int, i1: int, j1: int, i2: int, j2: int, size: int)
    requires Shaped(l) && size >= 1
    requires vertical ==> j1 <= fixed <= j2 && i1 <= idx <= i2
    requires !vertical ==> i1 <= fixed <= i2 && j1 <= idx <= j2
    ensures var laid := Laid(l, vertical, fixed, idx, if vertical then i1 else j1, if vertical then i2 else j2, size);
            Kept(l, laid) && Within(l, laid, i1, j1, i2, j2, size)
  {
    var lo, hi := if vertical then i1 else j1, if vertical then i2 else j2;
    var walled := Walled(l, vertical, fixed, lo, hi, size);
    var laid := Opened(walled, vertical, fixed, idx, size);
    forall a, b | 0 <= a < l.rows && 0 <= b < l.cols && !Reach(i1, j1, i2, j2, size, a, b)
      ensures laid.cells[a][b] == l.cells[a][b] && laid.doors[a][b] == l.doors[a][b]
    {
      assert !OnDoor(vertical, fixed, idx, size, a, b);
      assert walled.cells[a][b] == l.cells[a][b];
    }
  }

  /** `Kept` composes: two steps that each keep kinds and marks keep them together. */
  lemma KeptChain(l: Layout, m: Layout, r: Layout)
    requires Shaped(l) && Shaped(m) && Shaped(r)
    requires m.rows == l.rows && m.cols == l.cols && r.rows == l.rows && r.cols == l.cols
    requires Kept(l, m) && Kept(m, r)
    ensures Kept(l, r)
  {
    forall a, b | 0 <= a < l.rows && 0 <= b < l.cols
      ensures r.cells[a][b] == l.cells[a][b] || r.cells[a][b] == Water || r.cells[a][b] == Grass
      ensures l.doors[a][b] ==> r.doors[a][b]
    {
      assert m.cells[a][b] == l.cells[a][b] || m.cells[a][b] == Water || m.cells[a][b] == Grass;
      assert l.doors[a][b] ==> m.doors[a][b];
    }
  }

  /** A step confined to a sub-region of `(i1, j1)..(i2, j2)` after one confined to the region is confined to it. */
  lemma WithinChain(l: Layout, m: Layout, r: Layout, i1: int, j1: int, i2: int, j2: int,
                    k1: int, l1: int, k2: int, l2: int, size: int)
    requires Shaped(l) && Shaped(m) && Shaped(r)
    requires m.rows == l.rows && m.cols == l.cols && r.rows == l.rows && r.cols == l.cols
    requires i1 <= k1 && j1 <= l1 && k2 <= i2 && l2 <= j2
    requires Within(l, m, i1, j1, i2, j2, size) && Within(m, r, k1, l1, k2, l2, size)
    ensures Within(l, r, i1, j1, i2, j2, size)
  {
    forall a, b | 0 <= a < l.rows && 0 <= b < l.cols && !Reach(i1, j1, i2, j2, size, a, b)
      ensures r.cells[a][b] == l.cells[a][b] && r.doors[a][b] == l.doors[a][b]
    {
      assert !Reach(k1, l1, k2, l2, size, a, b);
      assert m.cells[a][b] == l.cells[a][b] && m.doors[a][b] == l.doors[a][b];
    }
  }

  /**
    * `divide` writes only Water and Grass, never clears a door mark, and
    * changes nothing outside `Reach` of its region.
    */
  lemma {:induction false} DividedKeeps(l: Layout, size: int, rnd: nat -> real, i1: int, j1: int, i2: int, j2: int, next: nat)
    requires Shaped(l) && size >= 1 && forall n :: 0.0 <= rnd(n) < 1.0
    requires 0 <= i1 && 0 <= j1 && i2 < l.rows && j2 < l.cols
    ensures var r := Divided(l, size, rnd, i1, j1, i2, j2, next);
            Kept(l, r.0) && Within(l, r.0, i1, j1, i2, j2, size)
    decreases i2 - i1 + j2 - j1, 2
  {
    if i2 - i1 >= 2 * size && j2 - j1 >= 2 * size {
      var j := WallIndex(j1, j2, size, rnd(next));
      var i := WallIndex(i1, i2, size, rnd(next + 1));
      var used := if i2 - i1 == j2 - j1 then next + 3 else next + 2;
      assert Divided(l, size, rnd, i1, j1, i2, j2, next) == Split(l, size, rnd, i1, j1, i2, j2, next);
      if IsOrientationVertical(i2 - i1, j2 - j1, rnd(next + 2)) {
        LaidKeeps(l, true, j, i, i1, j1, i2, j2, size);
        SidesKeep(l, Laid(l, true, j, i, i1, i2, size), size, rnd, i1, j1, i2, j2,
                  i1, j1, i2, j - 1, i1, j + 1, i2, j2, used);
      } else {
        LaidKeeps(l, false, i, j, i1, j1, i2, j2, size);
        SidesKeep(l, Laid(l, false, i, j, j1, j2, size), size, rnd, i1, j1, i2, j2,
                  i1, j1, i - 1, j2, i + 1, j1, i2, j2, used);
      }
    }
  }

  /**
    * After a wall and door `laid` within the region `(i1, j1)..(i2, j2)`,
    * dividing its two sides, each a strictly smaller part of the region,
    * keeps kinds and marks and stays within the region's `Reach`.
    */
  lemma {:induction false} SidesKeep(l: Layout, laid: Layout, size: int, rnd: nat -> real, i1: int, j1: int, i2: int, j2: int,
                                     a1: int, b1: int, a2: int, b2: int, c1: int, d1: int, c2: int, d2: int, used: nat)
    requires Shaped(l) && Shaped(laid) && laid.rows == l.rows && laid.cols == l.cols
    requires size >= 1 && forall n :: 0.0 <= rnd(n) < 1.0
    requires Kept(l, laid) && Within(l, laid, i1, j1, i2, j2, size)
    requires i1 <= a1 && j1 <= b1 && a2 <= i2 && b2 <= j2 && 0 <= a2 - a1 + b2 - b1 < i2 - i1 + j2 - j1
    requires i1 <= c1 && j1 <= d1 && c2 <= i2 && d2 <= j2 && 0 <= c2 - c1 + d2 - d1 < i2 - i1 + j2 - j1
    requires 0 <= a1 && 0 <= b1 && 0 <= c1 && 0 <= d1 && i2 < l.rows && j2 < l.cols
    ensures var r := Halves(laid, size, rnd, i1, j1, i2, j2, a1, b1, a2, b2, c1, d1, c2, d2, used);
            Kept(l, r.0) && Within(l, r.0, i1, j1, i2, j2, size)
    decreases i2 - i1 + j2 - j1, 1
  {
    var first := Divided(laid, size, rnd, a1, b1, a2, b2, used);
    var r := Divided(first.0, size, rnd, c1, d1, c2, d2, first.1);
    assert r == Halves(laid, size, rnd, i1, j1, i2, j2, a1, b1, a2, b2, c1, d1, c2, d2, used);
    DividedKeeps(laid, size, rnd, a1, b1, a2, b2, used);
    DividedKeeps(first.0, size, rnd, c1, d1, c2, d2, first.1);
    KeptChain(l, laid, first.0);
    KeptChain(l, first.0, r.0);
    WithinChain(l, laid, first.0, i1, j1, i2, j2, a1, b1, a2, b2, size);
    WithinChain(l, first.0, r.0, i1, j1, i2, j2, c1, d1, c2, d2, size);
  }

  /**
    * The door a `divide` level opens in a region wide enough to split stays
    * marked: every existing cell of it is a door cell in the layout the whole
    * call leaves, after both sides are divided.
    */
  lemma DoorStaysMarked(l: Layout, size: int, rnd: nat -> real, i1: int, j1: int, i2: int, j2: int, next: nat, a: int, b: int)
    requires Shaped(l) && size >= 1 && forall n :: 0.0 <= rnd(n) < 1.0
    requires 0 <= i1 && 0 <= j1 && i2 < l.rows && j2 < l.cols
    requires i2 - i1 >= 2 * size && j2 - j1 >= 2 * size
    requires 0 <= a < l.rows && 0 <= b < l.cols
    requires var j, i := WallIndex(j1, j2, size, rnd(next)), WallIndex(i1, i2, size, rnd(next + 1));
             if IsOrientationVertical(i2 - i1, j2 - j1, rnd(next + 2)) then OnDoor(true, j, i, size, a, b)
             else OnDoor(false, i, j, size, a, b)
    ensures Divided(l, size, rnd, i1, j1, i2, j2, next).0.doors[a][b]
  {
    var j := WallIndex(j1, j2, size, rnd(next));
    var i := WallIndex(i1, i2, size, rnd(next + 1));
    var used := if i2 - i1 == j2 - j1 then next + 3 else next + 2;
    assert Divided(l, size, rnd, i1, j1, i2, j2, next) == Split(l, size, rnd, i1, j1, i2, j2, next);
    if IsOrientationVertical(i2 - i1, j2 - j1, rnd(next + 2)) {
      var laid := Laid(l, true, j, i, i1, i2, size);
      assert Split(l, size, rnd, i1, j1, i2, j2, next) == Halves(laid, size, rnd, i1, j1, i2, j2, i1, j1, i2, j - 1, i1, j + 1, i2, j2, used);
      HalvesKeepMark(laid, size, rnd, i1, j1, i2, j2, i1, j1, i2, j - 1, i1, j + 1, i2, j2, used, a, b);
    } else {
      var laid := Laid(l, false, i, j, j1, j2, size);
      assert Split(l, size, rnd, i1, j1, i2, j2, next) == Halves(laid, size, rnd, i1, j1, i2, j2, i1, j1, i - 1, j2, i + 1, j1, i2, j2, used);
      HalvesKeepMark(laid, size, rnd, i1, j1, i2, j2, i1, j1, i - 1, j2, i + 1, j1, i2, j2, used, a, b);
    }
  }

  /** Dividing both sides of a level clears no door mark. */
  lemma HalvesKeepMark(l: Layout, size: int, rnd: nat -> real, i1: int, j1: int, i2: int, j2: int,
                       a1: int, b1: int, a2: int, b2: int, c1: int, d1: int, c2: int, d2: int, next: nat, a: int, b: int)
    requires Shaped(l) && size >= 1 && forall n :: 0.0 <= rnd(n) < 1.0
    requires 0 <= a1 && 0 <= b1 && a2 < l.rows && b2 < l.cols
    requires 0 <= c1 && 0 <= d1 && c2 < l.rows && d2 < l.cols
    requires 0 <= a2 - a1 + b2 - b1 < i2 - i1 + j2 - j1 && 0 <= c2 - c1 + d2 - d1 < i2 - i1 + j2 - j1
    requires 0 <= a < l.rows && 0 <= b < l.cols && l.doors[a][b]
    ensures Halves(l, size, rnd, i1, j1, i2, j2, a1, b1, a2, b2, c1, d1, c2, d2, next).0.doors[a][b]
  {
    var first := Divided(l, size, rnd, a1, b1, a2, b2, next);
    DividedKeeps(l, size, rnd, a1, b1, a2, b2, next);
    DividedKeeps(first.0, size, rnd, c1, d1, c2, d2, first.1);
    assert first.0.doors[a][b];
  }

  /**
    * The wall loop of `divide`: each cell `lo..hi` of wall line `fixed` becomes
    * Water unless a door cell is near it.
    */
  method BuildWall(grid: array2<CellValue>, doors: array2<bool>, vertical: bool, fixed: int, lo: int, hi: int, size: int)
    requires SameShape(grid, doors) && size >= 1
    requires 0 <= fixed < Width(grid, vertical) && 0 <= lo <= hi < Span(grid, vertical)
    modifies grid
    ensures forall a, b :: 0 <= a < grid.Length0 && 0 <= b < grid.Length1 ==>
      grid[a, b] == (if Fixed(vertical, a, b) == fixed && lo <= Along(vertical, a, b) <= hi
                        && !NearDoor(doors, vertical, fixed, Along(vertical, a, b), size)
                     then Water else old(grid[a, b]))
    ensures Now(grid, doors) == Walled(old(Now(grid, doors)), vertical, fixed, lo, hi, size)
  {
    ghost var l := Now(grid, doors);
    for k := lo to hi + 1
      invariant forall a, b :: 0 <= a < grid.Length0 && 0 <= b < grid.Length1 ==>
        grid[a, b] == (if Fixed(vertical, a, b) == fixed && lo <= Along(vertical, a, b) < k
                          && !NearDoor(doors, vertical, fixed, Along(vertical, a, b), size)
                       then Water else old(grid[a, b]))
    {
      var near := DoorNear(doors, vertical, fixed, k, size);
      if !near {
        var p := WallCell(vertical, fixed, k);
        grid[p.0, p.1] := Water;
      }
    }
    forall k ensures NearDoor(doors, vertical, fixed, k, size) == NearDoorIn(l, vertical, fixed, k, size) {
      NearDoorIs(doors, l, vertical, fixed, k, size);
    }
    NowIs(grid, doors, Walled(l, vertical, fixed, lo, hi, size));
  }

  /** `NearDoor` on the array `doors` is `NearDoorIn` on a layout holding its marks. */
  lemma NearDoorIs(doors: array2<bool>, l: Layout, vertical: bool, fixed: int, k: int, size: int)
    requires Shaped(l) && l.rows == doors.Length0 && l.cols == doors.Length1
    requires forall a, b :: 0 <= a < l.rows && 0 <= b < l.cols ==> l.doors[a][b] == doors[a, b]
    ensures NearDoor(doors, vertical, fixed, k, size) == NearDoorIn(l, vertical, fixed, k, size)
  {
    forall d ensures DoorAround(l, vertical, fixed, k, d) == (DoorBehind(doors, vertical, fixed, k, d) || DoorAhead(doors, vertical, fixed, k, d)) {
    }
  }

  /**
    * The door loop of `divide`: the cells `idx..idx+size-1` of wall line
    * `fixed` that exist become Grass and are marked in `doors`.
    */
  method OpenDoor(grid: array2<CellValue>, doors: array2<bool>, vertical: bool, fixed: int, idx: int, size: int)
    requires SameShape(grid, doors)
    requires 0 <= fixed < Width(grid, vertical) && 0 <= idx && size >= 1
    modifies grid, doors
    ensures forall a, b :: 0 <= a < grid.Length0 && 0 <= b < grid.Length1 ==>
      if Fixed(vertical, a, b) == fixed && idx <= Along(vertical, a, b) < idx + size
      then grid[a, b] == Grass && doors[a, b]
      else grid[a, b] == old(grid[a, b]) && doors[a, b] == old(doors[a, b])
    ensures Now(grid, doors) == Opened(old(Now(grid, doors)), vertical, fixed, idx, size)
  {
    ghost var l := Now(grid, doors);
    for d := idx to idx + size
      invariant forall a, b :: 0 <= a < grid.Length0 && 0 <= b < grid.Length1 ==>
        if Fixed(vertical, a, b) == fixed && idx <= Along(vertical, a, b) < d
        then grid[a, b] == Grass && doors[a, b]
        else grid[a, b] == old(grid[a, b]) && doors[a, b] == old(doors[a, b])
    {
      if d < Span(grid, vertical) {
        var p := WallCell(vertical, fixed, d);
        doors[p.0, p.1] := true;
        grid[p.0, p.1] := Grass;
      }
    }
    NowIs(grid, doors, Opened(l, vertical, fixed, idx, size));
  }

  /** One level of `divide`: the wall loop, then the door loop, on wall line `fixed`. */
  method Lay(grid: array2<CellValue>, doors: array2<bool>, vertical: bool, fixed: int, idx: int, lo: int, hi: int, size: int)
    requires SameShape(grid, doors) && size >= 1
    requires 0 <= fixed < Width(grid, vertical) && 0 <= lo <= hi < Span(grid, vertical) && 0 <= idx
    modifies grid, doors
    ensures Now(grid, doors) == Laid(old(Now(grid, doors)), vertical, fixed, idx, lo, hi, size)
  {
    BuildWall(grid, doors, vertical, fixed, lo, hi, size);
    OpenDoor(grid, doors, vertical, fixed, idx, size);
  }

  /**
    * Cell `(a, b)` is one `divide(i1, j1, i2, j2)` may write: inside the region
    * or, for door cells, up to `size - 1` past its last row or column.
    */
  predicate Reach(i1: int, j1: int, i2: int, j2: int, size: int, a: int, b: int)
  {
    i1 <= a <= i2 + size - 1 && j1 <= b <= j2 + size - 1
  }

  /**
    * `divide(i1, j1, i2, j2)`, drawing from `rnd` from index `next` on. A region
    * narrower than `2 * size` in either direction is left alone; otherwise a wall
    * with a door is laid and both sides are divided. Only Water and Grass are
    * written, door marks are never cleared, and nothing outside `Reach` changes.
    */
  method Divide(grid: array2<CellValue>, doors: array2<bool>, size: int, rnd: nat -> real,
                i1: int, j1: int, i2: int, j2: int, next: nat) returns (used: nat)
    requires SameShape(grid, doors) && size >= 1
    requires forall n :: 0.0 <= rnd(n) < 1.0
    requires 0 <= i1 && 0 <= j1 && i2 < grid.Length0 && j2 < grid.Length1
    modifies grid, doors
    decreases i2 - i1 + j2 - j1, 1
    ensures next <= used
    ensures i2 - i1 < 2 * size || j2 - j1 < 2 * size ==> used == next && unchanged(grid, doors)
    ensures (Now(grid, doors), used) == Divided(old(Now(grid, doors)), size, rnd, i1, j1, i2, j2, next)
    ensures forall a, b :: 0 <= a < grid.Length0 && 0 <= b < grid.Length1 ==>
      (grid[a, b] == old(grid[a, b]) || grid[a, b] == Water || grid[a, b] == Grass) &&
      (old(doors[a, b]) ==> doors[a, b])
    ensures forall a, b :: 0 <= a < grid.Length0 && 0 <= b < grid.Length1 && !Reach(i1, j1, i2, j2, size, a, b) ==>
      grid[a, b] == old(grid[a, b]) && doors[a, b] == old(doors[a, b])
  {
    if i2 - i1 < 2 * size || j2 - j1 < 2 * size {
      return next;
    }
    ghost var l := Now(grid, doors);
    var j := WallIndex(j1, j2, size, rnd(next));
    var i := WallIndex(i1, i2, size, rnd(next + 1));
    used := next + 2;
    var vertical := IsOrientationVertical(i2 - i1, j2 - j1, rnd(used));
    if i2 - i1 == j2 - j1 {
      used := used + 1;
    }
    assert Divided(l, size, rnd, i1, j1, i2, j2, next) == Split(l, size, rnd, i1, j1, i2, j2, next);
    if vertical {
      Lay(grid, doors, true, j, i, i1, i2, size);
      used := Sides(grid, doors, size, rnd, i1, j1, i2, j2, i1, j1, i2, j - 1, i1, j + 1, i2, j2, used);
    } else {
      Lay(grid, doors, false, i, j, j1, j2, size);
      used := Sides(grid, doors, size, rnd, i1, j1, i2, j2, i1, j1, i - 1, j2, i + 1, j1, i2, j2, used);
    }
    DividedKeeps(l, size, rnd, i1, j1, i2, j2, next);
  }

  /**
    * The two recursive calls that end a `divide` level on the region
    * `(i1, j1)..(i2, j2)`: first the side `(a1, b1)..(a2, b2)`, then the side
    * `(c1, d1)..(c2, d2)`, each strictly smaller than the region.
    */
  method Sides(grid: array2<CellValue>, doors: array2<bool>, size: int, rnd: nat -> real,
               i1: int, j1: int, i2: int, j2: int,
               a1: int, b1: int, a2: int, b2: int, c1: int, d1: int, c2: int, d2: int, next: nat) returns (used: nat)
    requires SameShape(grid, doors) && size >= 1
    requires forall n :: 0.0 <= rnd(n) < 1.0
    requires 0 <= a1 && 0 <= b1 && a2 < grid.Length0 && b2 < grid.Length1
    requires 0 <= c1 && 0 <= d1 && c2 < grid.Length0 && d2 < grid.Length1
    requires 0 <= a2 - a1 + b2 - b1 < i2 - i1 + j2 - j1 && 0 <= c2 - c1 + d2 - d1 < i2 - i1 + j2 - j1
    modifies grid, doors
    decreases i2 - i1 + j2 - j1, 0
    ensures (Now(grid, doors), used) == Halves(old(Now(grid, doors)), size, rnd, i1, j1, i2, j2, a1, b1, a2, b2, c1, d1, c2, d2, next)
  {
    used := Divide(grid, doors, size, rnd, a1, b1, a2, b2, next);
    used := Divide(grid, doors, size, rnd, c1, d1, c2, d2, used);
  }

  /** The door mask `recursiveDiv` starts from: `rows` x `cols`, nothing marked. */
  function NoDoors(rows: nat, cols: nat): (d: seq<seq<bool>>)
    ensures |d| == rows && forall a :: 0 <= a < rows ==> |d[a]| == cols
    ensures forall a, b :: 0 <= a < rows && 0 <= b < cols ==> !d[a][b]
  {
    seq(rows, a => seq(cols, b => false))
  }

  /**
    * `recursiveDiv` on values: the grid `cells` (at least one row, each of
    * `cols` cells) after `divide` runs over all of it with no door marked yet.
    * Every cell keeps its kind or becomes Water or Grass.
    */
  function Built(cells: seq<seq<CellValue>>, cols: nat, size: int, rnd: nat -> real): (r: seq<seq<CellValue>>)
    requires |cells| > 0 && forall a :: 0 <= a < |cells| ==> |cells[a]| == cols
    requires size >= 1 && forall n :: 0.0 <= rnd(n) < 1.0
    ensures |r| == |cells| && forall a :: 0 <= a < |r| ==> |r[a]| == cols
    ensures forall a, b :: 0 <= a < |cells| && 0 <= b < cols ==>
      r[a][b] == cells[a][b] || r[a][b] == Water || r[a][b] == Grass
  {
    var l := Layout(|cells|, cols, cells, NoDoors(|cells|, cols));
    DividedKeeps(l, size, rnd, 0, 0, |cells| - 1, cols - 1, 0);
    Divided(l, size, rnd, 0, 0, |cells| - 1, cols - 1, 0).0.cells
  }

  /**
    * `recursiveDiv`: divides the whole grid with a fresh, all-false `doors`
    * mask. Every cell keeps its kind or becomes Water or Grass.
    */
  method RecursiveDiv(grid: array2<CellValue>, size: int, rnd: nat -> real)
    requires grid.Length0 > 0 && size >= 1
    requires forall n :: 0.0 <= rnd(n) < 1.0
    modifies grid
    ensures forall a, b :: 0 <= a < grid.Length0 && 0 <= b < grid.Length1 ==>
      grid[a, b] == old(grid[a, b]) || grid[a, b] == Water || grid[a, b] == Grass
    ensures Snap(grid) == Built(old(Snap(grid)), grid.Length1, size, rnd)
  {
    var doors := new bool[grid.Length0, grid.Length1]((a, b) => false);
    NowIs(grid, doors, Layout(grid.Length0, grid.Length1, Snap(grid), NoDoors(grid.Length0, grid.Length1)));
    var _ := Divide(grid, doors, size, rnd, 0, 0, grid.Length0 - 1, grid.Length1 - 1, 0);
  }
}
