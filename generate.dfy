/**
  * The generator entry points of `src/gen.ts`: `flat` and `generate`, which
  * dispatches on the `Gen` the user picked (`genToFunc`).
  */
module Generate {
  import opened Types
  import Terrain
  import Maze

  /**
    * `flat`: every cell becomes Grass, whatever it held, so a second call
    * leaves the grid as the first one did.
    */
  method Flat(grid: array2<CellValue>)
    modifies grid
    ensures forall a, b :: 0 <= a < grid.Length0 && 0 <= b < grid.Length1 ==> grid[a, b] == Grass
  {
    for a := 0 to grid.Length0
      invariant forall x, y :: 0 <= x < a && 0 <= y < grid.Length1 ==> grid[x, y] == Grass
    {
      for b := 0 to grid.Length1
        invariant forall x, y :: 0 <= x < grid.Length0 && 0 <= y < grid.Length1 && (x < a || (x == a && y < b)) ==>
          grid[x, y] == Grass
      {
        grid[a, b] := Grass;
      }
    }
  }

  /**
    * `generate(gen, setGrid, size)`: runs the generator `gen` selects, with its
    * draws (`rivers` for the rivers, `rnd` for the maze; a generator ignores the
    * other's). Flat leaves only Grass; the rivers leave each cell as `Flooded`
    * says, changing Grass cells only, into Water or Bridge; the maze leaves the
    * grid `Built` says, writing only Water and Grass.
    */
  method Generate(gen: Gen, grid: array2<CellValue>, size: int, rivers: seq<Terrain.River>, rnd: nat -> real)
    requires grid.Length0 > 0
    requires gen.Rivers? ==>
      |rivers| == Terrain.NRivers &&
      forall k :: 0 <= k < |rivers| ==> Terrain.ValidRiver(rivers[k], grid.Length0, grid.Length1)
    requires gen.RecursiveDiv? ==> size >= 1 && forall n :: 0.0 <= rnd(n) < 1.0
    modifies grid
    ensures gen.Flat? ==> forall a, b :: 0 <= a < grid.Length0 && 0 <= b < grid.Length1 ==> grid[a, b] == Grass
    ensures gen.Rivers? ==> forall a, b :: 0 <= a < grid.Length0 && 0 <= b < grid.Length1 ==>
      grid[a, b] == Terrain.Flooded(rivers, grid.Length0, grid.Length1, a, b, old(grid[a, b]))
    ensures gen.Rivers? ==> forall a, b :: 0 <= a < grid.Length0 && 0 <= b < grid.Length1 ==>
      grid[a, b] == old(grid[a, b]) || (old(grid[a, b]) == Grass && (grid[a, b] == Water || grid[a, b] == Bridge))
    ensures gen.RecursiveDiv? ==> Snap(grid) == Maze.Built(old(Snap(grid)), grid.Length1, size, rnd)
    ensures gen.RecursiveDiv? ==> forall a, b :: 0 <= a < grid.Length0 && 0 <= b < grid.Length1 ==>
      grid[a, b] == old(grid[a, b]) || grid[a, b] == Water || grid[a, b] == Grass
  {
    match gen
    case Flat => Flat(grid);
    case Rivers => Terrain.FillRiver(grid, rivers);
    case RecursiveDiv => Maze.RecursiveDiv(grid, size, rnd);
  }
}
