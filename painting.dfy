/**
  * Editing the grid with the mouse (`src/grid.tsx`): the colour rule that
  * renders a cell (`getCellColor`), the single-cell write (`fillCell`), the
  * block write that keeps one Source and one Target block
  * (`fillCellAndReplaceExisting`), and the handlers' choice between them.
  *
  * The grid is written in place here, so it is an `array2`; the matrices the
  * colour rule reads are values.
  */
module Painting {
  import opened Types

  /** What `getCellColor` paints a cell with; the CSS class names stand for these. */
  datatype Color = CurrentNode | OnPath | Seen | GrassWeight2 | GrassWeight3 | KindColor(kind: CellValue)

  /** Cell `(i, j)` is neither the current node, nor on the path, nor visited. */
  predicate Unmarked(current: Pos, path: seq<seq<bool>>, visited: seq<seq<int>>, i: int, j: int)
    requires Inside(path, (i, j)) && Inside(visited, (i, j))
  {
    (i, j) != current && !path[i][j] && visited[i][j] == -1
  }

  /**
    * `getCellColor(i, j)`: the current node first, then the path, then any
    * visited cell, then the shading of Grass of weight 2 or 3, and otherwise the
    * colour of the cell's kind.
    */
  function CellColor(current: Pos, path: seq<seq<bool>>, visited: seq<seq<int>>, weights: seq<seq<int>>, grid: Board,
                     i: int, j: int): (c: Color)
    requires Inside(grid, (i, j)) && Inside(path, (i, j)) && Inside(visited, (i, j)) && Inside(weights, (i, j))
    ensures c == CurrentNode <==> (i, j) == current
    ensures c == OnPath <==> (i, j) != current && path[i][j]
    ensures c == Seen <==> (i, j) != current && !path[i][j] && visited[i][j] != -1
    ensures c == GrassWeight2 <==> Unmarked(current, path, visited, i, j) && grid[i][j] == Grass && weights[i][j] == 2
    ensures c == GrassWeight3 <==> Unmarked(current, path, visited, i, j) && grid[i][j] == Grass && weights[i][j] == 3
    ensures c.KindColor? <==>
      Unmarked(current, path, visited, i, j) && !(grid[i][j] == Grass && (weights[i][j] == 2 || weights[i][j] == 3))
    ensures c.KindColor? ==> c.kind == grid[i][j]
  {
    if current.0 == i && current.1 == j then CurrentNode
    else if path[i][j] then OnPath
    else if visited[i][j] != -1 then Seen
    else if grid[i][j] == Grass && weights[i][j] == 2 then GrassWeight2
    else if grid[i][j] == Grass && weights[i][j] == 3 then GrassWeight3
    else KindColor(grid[i][j])
  }

  /** Cell `(a, b)` lies in the `size` x `size` block whose bottom-left cell is `(i, j)`. */
  predicate InBlock(i: int, j: int, size: int, a: int, b: int)
  {
    i - size < a <= i && j <= b < j + size
  }

  /** Every cell of the block lies in a `rows` x `cols` grid. */
  ghost predicate BlockInside(rows: int, cols: int, i: int, j: int, size: int)
  {
    forall a, b :: InBlock(i, j, size, a, b) ==> 0 <= a < rows && 0 <= b < cols
  }

  /** The block fits exactly when it is empty or its corners lie in the grid. */
  lemma BlockInsideCorners(rows: int, cols: int, i: int, j: int, size: int)
    ensures BlockInside(rows, cols, i, j, size) <==>
      size <= 0 || (0 <= i - size + 1 && i < rows && 0 <= j && j + size <= cols)
  {
    if size > 0 && BlockInside(rows, cols, i, j, size) {
      assert InBlock(i, j, size, i - size + 1, j + size - 1);
      assert InBlock(i, j, size, i, j);
    }
  }

  /** The bounds loops of `fillCellAndReplaceExisting`: every block cell is checked before any write. */
  method BlockFits(grid: array2<CellValue>, i: int, j: int, size: int) returns (ok: bool)
    ensures ok <==> BlockInside(grid.Length0, grid.Length1, i, j, size)
  {
    var di := 0;
    while di < size
      invariant forall a, b :: InBlock(i, j, size, a, b) && i - di < a ==> 0 <= a < grid.Length0 && 0 <= b < grid.Length1
    {
      var dj := 0;
      while dj < size
        invariant forall a, b :: InBlock(i, j, size, a, b) && (i - di < a || (a == i - di && b < j + dj)) ==>
          0 <= a < grid.Length0 && 0 <= b < grid.Length1
      {
        if i - di < 0 || j + dj < 0 || i - di >= grid.Length0 || j + dj >= grid.Length1 {
          assert InBlock(i, j, size, i - di, j + dj);
          return false;
        }
        dj := dj + 1;
      }
      di := di + 1;
    }
    return true;
  }

  /** The `forEach` pass: every cell holding `kind` becomes Grass. */
  method ClearKind(grid: array2<CellValue>, kind: CellValue)
    modifies grid
    ensures forall a, b :: 0 <= a < grid.Length0 && 0 <= b < grid.Length1 ==>
      grid[a, b] == if old(grid[a, b]) == kind then Grass else old(grid[a, b])
  {
    for a := 0 to grid.Length0
      invariant forall x, y :: 0 <= x < grid.Length0 && 0 <= y < grid.Length1 ==>
        grid[x, y] == if x < a && old(grid[x, y]) == kind then Grass else old(grid[x, y])
    {
      for b := 0 to grid.Length1
        invariant forall x, y :: 0 <= x < grid.Length0 && 0 <= y < grid.Length1 ==>
          grid[x, y] == if (x < a || (x == a && y < b)) && old(grid[x, y]) == kind then Grass else old(grid[x, y])
      {
        if grid[a, b] == kind {
          grid[a, b] := Grass;
        }
      }
    }
  }

  /** The block loops: every cell of the block becomes `kind`. */
  method FillBlock(grid: array2<CellValue>, kind: CellValue, i: int, j: int, size: int)
    requires BlockInside(grid.Length0, grid.Length1, i, j, size)
    modifies grid
    ensures forall a, b :: 0 <= a < grid.Length0 && 0 <= b < grid.Length1 ==>
      grid[a, b] == if InBlock(i, j, size, a, b) then kind else old(grid[a, b])
  {
    var di := 0;
    while di < size
      invariant forall a, b :: 0 <= a < grid.Length0 && 0 <= b < grid.Length1 ==>
        grid[a, b] == if InBlock(i, j, size, a, b) && i - di < a then kind else old(grid[a, b])
    {
      var dj := 0;
      while dj < size
        invariant 0 <= dj <= size
        invariant forall a, b :: 0 <= a < grid.Length0 && 0 <= b < grid.Length1 ==>
          grid[a, b] == if InBlock(i, j, size, a, b) && (i - di < a || (a == i - di && b < j + dj)) then kind else old(grid[a, b])
      {
        assert InBlock(i, j, size, i - di, j + dj);
        grid[i - di, j + dj] := kind;
        dj := dj + 1;
      }
      di := di + 1;
    }
  }

  /**
    * The kind cell `(a, b)`, holding `v`, has after a successful
    * `fillCellAndReplaceExisting(kind, i, j)`: the block holds `kind`, a former
    * `kind` cell outside it is Grass, and the rest is as it was. Unless `kind`
    * is Grass, the cells holding `kind` are exactly the block.
    */
  function Repainted(kind: CellValue, i: int, j: int, size: int, a: int, b: int, v: CellValue): (c: CellValue)
    ensures InBlock(i, j, size, a, b) ==> c == kind
    ensures !InBlock(i, j, size, a, b) && v != kind ==> c == v
    ensures kind != Grass ==> (c == kind <==> InBlock(i, j, size, a, b))
  {
    if InBlock(i, j, size, a, b) then kind
    else if v == kind then Grass
    else v
  }

  /**
    * `fillCellAndReplaceExisting(kind, i, j)`: nothing changes when the clicked
    * cell is Water or the block does not fit; otherwise the grid becomes
    * `Repainted`, so it holds a single `kind` block.
    */
  method FillCellAndReplaceExisting(grid: array2<CellValue>, kind: CellValue, i: int, j: int, size: int)
    requires 0 <= i < grid.Length0 && 0 <= j < grid.Length1
    modifies grid
    ensures old(grid[i, j]) == Water || !BlockInside(grid.Length0, grid.Length1, i, j, size) ==> unchanged(grid)
    ensures old(grid[i, j]) != Water && BlockInside(grid.Length0, grid.Length1, i, j, size) ==>
      forall a, b :: 0 <= a < grid.Length0 && 0 <= b < grid.Length1 ==>
        grid[a, b] == Repainted(kind, i, j, size, a, b, old(grid[a, b]))
  {
    if grid[i, j] == Water {
      return;
    }
    var fits := BlockFits(grid, i, j, size);
    if !fits {
      return;
    }
    ClearKind(grid, kind);
    FillBlock(grid, kind, i, j, size);
  }

  /** `fillCell(kind, i, j)`: cell `(i, j)` becomes `kind` and no other cell changes. */
  method FillCell(grid: array2<CellValue>, kind: CellValue, i: int, j: int)
    requires 0 <= i < grid.Length0 && 0 <= j < grid.Length1
    modifies grid
    ensures forall a, b :: 0 <= a < grid.Length0 && 0 <= b < grid.Length1 ==>
      grid[a, b] == if (a, b) == (i, j) then kind else old(grid[a, b])
  {
    grid[i, j] := kind;
  }

  /**
    * The handlers' dispatch: painting Source or Target goes through
    * `FillCellAndReplaceExisting`, any other kind through `FillCell`.
    */
  method Paint(grid: array2<CellValue>, kind: CellValue, i: int, j: int, size: int)
    requires 0 <= i < grid.Length0 && 0 <= j < grid.Length1
    modifies grid
    ensures kind != Source && kind != Target ==>
      forall a, b :: 0 <= a < grid.Length0 && 0 <= b < grid.Length1 ==>
        grid[a, b] == if (a, b) == (i, j) then kind else old(grid[a, b])
    ensures kind == Source || kind == Target ==>
      forall a, b :: 0 <= a < grid.Length0 && 0 <= b < grid.Length1 ==>
        grid[a, b] == if old(grid[i, j]) != Water && BlockInside(grid.Length0, grid.Length1, i, j, size)
                      then Repainted(kind, i, j, size, a, b, old(grid[a, b])) else old(grid[a, b])
  {
    if kind == Source || kind == Target {
      FillCellAndReplaceExisting(grid, kind, i, j, size);
      return;
    }
    FillCell(grid, kind, i, j);
  }

  /**
    * `onMouseMove`: nothing while no button is held; otherwise paints with the
    * secondary kind when the right button is held and the primary one when not.
    */
  method MouseMove(grid: array2<CellValue>, isDrawing: bool, isRmb: bool, drawing: CellValue, secondary: CellValue,
                   i: int, j: int, size: int)
    requires 0 <= i < grid.Length0 && 0 <= j < grid.Length1
    modifies grid
    ensures !isDrawing ==> unchanged(grid)
    ensures isDrawing && (if isRmb then secondary else drawing) in {Source, Target} ==>
      forall a, b :: 0 <= a < grid.Length0 && 0 <= b < grid.Length1 ==>
        grid[a, b] == if old(grid[i, j]) != Water && BlockInside(grid.Length0, grid.Length1, i, j, size)
                      then Repainted(if isRmb then secondary else drawing, i, j, size, a, b, old(grid[a, b]))
                      else old(grid[a, b])
    ensures isDrawing && (if isRmb then secondary else drawing) !in {Source, Target} ==>
      forall a, b :: 0 <= a < grid.Length0 && 0 <= b < grid.Length1 ==>
        grid[a, b] == if (a, b) == (i, j) then (if isRmb then secondary else drawing) else old(grid[a, b])
  {
    if !isDrawing {
      return;
    }
    if isRmb {
      Paint(grid, secondary, i, j, size);
    } else {
      Paint(grid, drawing, i, j, size);
    }
  }
}
