/**
  * The river generator of `src/gen.ts` (`clamp` and `fillRiver`).
  *
  * Each of the `NRivers` rivers sweeps the grid line by line, either down the
  * rows (a vertical river) or along the columns (a horizontal one). Its centre
  * starts at a random cross position and drifts by at most one cell per line;
  * on each line a band around the centre is carved, turning the Grass cells of
  * the band into Water, or into Bridge when the line's bridge coin comes up.
  *
  * Every `Math.random` draw is a caller-supplied choice (`River`, `Step`) whose
  * range is a precondition; the properties hold for every choice.
  */
module Terrain {
  import opened Types

  /** Rivers carved per call (`N_RIVERS`). */
  const NRivers := 4

  /** River width (`R_WIDTH`): the band reaches `RWidth / 2` plus a coin (0 or 1) cells on each side. */
  const RWidth := 2

  /** `Math.min(Math.max(num, lo), hi)`. */
  function Clamp(num: int, lo: int, hi: int): (r: int)
    ensures r <= hi
    ensures lo <= hi ==> lo <= r
    ensures lo <= num <= hi ==> r == num
    ensures num < lo && lo <= hi ==> r == lo
    ensures hi < num ==> r == hi
  {
    var m := if num < lo then lo else num;
    if m < hi then m else hi
  }

  /**
    * The draws of one sweep line: `back` and `ahead` are the coins
    * (`Math.floor(Math.random() * 2)`) that widen the band before and after the
    * centre, `bridge` is the bridge test, `drift` the centre's move
    * (`Math.floor(Math.random() * 3) - 1`).
    */
  datatype Step = Step(back: int, ahead: int, bridge: bool, drift: int)

  /** The draws of one river: its direction, its starting centre and one `Step` per line. */
  datatype River = River(vertical: bool, startAt: int, steps: seq<Step>)

  /** Lines a river sweeps (`to`): the rows for a vertical river, the columns otherwise. */
  function Lines(vertical: bool, rows: int, cols: int): int
  {
    if vertical then rows else cols
  }

  /** Cells across one line: the columns for a vertical river, the rows otherwise. */
  function Across(vertical: bool, rows: int, cols: int): int
  {
    if vertical then cols else rows
  }

  /** The line of cell `(a, b)` in a sweep. */
  function LineOf(vertical: bool, a: int, b: int): int
  {
    if vertical then a else b
  }

  /** The position of cell `(a, b)` across its line. */
  function CrossOf(vertical: bool, a: int, b: int): int
  {
    if vertical then b else a
  }

  predicate ValidStep(s: Step)
  {
    0 <= s.back < 2 && 0 <= s.ahead < 2 && -1 <= s.drift <= 1
  }

  /**
    * The draws fit a `rows` x `cols` grid: one step per line, each in range, and
    * a starting centre `Math.floor(Math.random() * n)` for the `n` cells across
    * (which is 0 when there are none).
    */
  predicate ValidRiver(r: River, rows: int, cols: int)
  {
    var n := Across(r.vertical, rows, cols);
    |r.steps| == Lines(r.vertical, rows, cols) &&
    (if n > 0 then 0 <= r.startAt < n else r.startAt == 0) &&
    forall k :: 0 <= k < |r.steps| ==> ValidStep(r.steps[k])
  }

  /**
    * The centre (`posToStartRiver`) when line `i` is reached: it starts at
    * `startAt` and each line moves it by its drift, clamped to the line.
    */
  function Centre(r: River, n: int, i: nat): (c: int)
    requires i <= |r.steps|
    requires forall k :: 0 <= k < |r.steps| ==> ValidStep(r.steps[k])
    requires n > 0 ==> 0 <= r.startAt < n
    ensures n > 0 ==> 0 <= c < n
  {
    if i == 0 then r.startAt
    else Clamp(Centre(r, n, i - 1) + r.steps[i - 1].drift, 0, n - 1)
  }

  /** The centre moves by at most one cell from one line to the next. */
  lemma CentreDrift(r: River, n: int, i: nat)
    requires 0 < i <= |r.steps|
    requires forall k :: 0 <= k < |r.steps| ==> ValidStep(r.steps[k])
    requires 0 <= r.startAt < n
    ensures Abs(Centre(r, n, i) - Centre(r, n, i - 1)) <= 1
  {
  }

  /** First cross position carved on line `i` (`start`). */
  function BandStart(r: River, n: int, i: nat): (s: int)
    requires i < |r.steps|
    requires forall k :: 0 <= k < |r.steps| ==> ValidStep(r.steps[k])
    requires n > 0 ==> 0 <= r.startAt < n
    ensures n > 0 ==> 0 <= s <= Centre(r, n, i)
    ensures n > 0 ==> Centre(r, n, i) - s <= RWidth / 2 + 1
  {
    Clamp(Centre(r, n, i) - (r.steps[i].back + RWidth / 2), 0, n - 1)
  }

  /** Last cross position carved on line `i` (`end`). */
  function BandEnd(r: River, n: int, i: nat): (e: int)
    requires i < |r.steps|
    requires forall k :: 0 <= k < |r.steps| ==> ValidStep(r.steps[k])
    requires n > 0 ==> 0 <= r.startAt < n
    ensures n > 0 ==> Centre(r, n, i) <= e < n
    ensures n > 0 ==> e - Centre(r, n, i) <= RWidth / 2 + 1
  {
    Clamp(Centre(r, n, i) + (r.steps[i].ahead + RWidth / 2), 0, n - 1)
  }

  /** What a carved Grass cell of a line becomes. */
  function Carve(s: Step): CellValue
  {
    if s.bridge then Bridge else Water
  }

  /**
    * The kind cell `(a, b)`, holding `v`, has after river `r` swept a
    * `rows` x `cols` grid: Grass inside the band of its line is carved, every
    * other cell keeps its kind.
    */
  function Swept(r: River, rows: int, cols: int, a: int, b: int, v: CellValue): (c: CellValue)
    requires ValidRiver(r, rows, cols)
    requires 0 <= a < rows && 0 <= b < cols
    ensures c == v || (v == Grass && (c == Water || c == Bridge))
    ensures v != Grass ==> c == v
    ensures c != v ==> c == Carve(r.steps[LineOf(r.vertical, a, b)])
    ensures c != v <==> (v == Grass &&
      BandStart(r, Across(r.vertical, rows, cols), LineOf(r.vertical, a, b)) <= CrossOf(r.vertical, a, b)
        <= BandEnd(r, Across(r.vertical, rows, cols), LineOf(r.vertical, a, b)))
  {
    var n := Across(r.vertical, rows, cols);
    var i := LineOf(r.vertical, a, b);
    var j := CrossOf(r.vertical, a, b);
    if BandStart(r, n, i) <= j <= BandEnd(r, n, i) && v == Grass then Carve(r.steps[i]) else v
  }

  /**
    * One pass of the inner loop of `fillRiver`: the Grass cells of line `i`
    * whose cross position lies in `start..end` become `paint`.
    */
  method CarveLine(grid: array2<CellValue>, vertical: bool, i: int, start: int, end: int, paint: CellValue)
    requires 0 <= i < Lines(vertical, grid.Length0, grid.Length1)
    modifies grid
    ensures forall a, b :: 0 <= a < grid.Length0 && 0 <= b < grid.Length1 ==>
      grid[a, b] == (if LineOf(vertical, a, b) == i && start <= CrossOf(vertical, a, b) <= end && old(grid[a, b]) == Grass
                     then paint else old(grid[a, b]))
  {
    for j := 0 to Across(vertical, grid.Length0, grid.Length1)
      invariant forall a, b :: 0 <= a < grid.Length0 && 0 <= b < grid.Length1 ==>
        grid[a, b] == (if LineOf(vertical, a, b) == i && start <= CrossOf(vertical, a, b) <= end && CrossOf(vertical, a, b) < j
                          && old(grid[a, b]) == Grass
                       then paint else old(grid[a, b]))
    {
      if start <= j <= end {
        var a, b := if vertical then i else j, if vertical then j else i;
        if grid[a, b] == Grass {
          grid[a, b] := paint;
        }
      }
    }
  }

  /** One river of `fillRiver` (one pass of its outer loop), carving `grid` in place. */
  method Sweep(grid: array2<CellValue>, r: River)
    requires ValidRiver(r, grid.Length0, grid.Length1)
    modifies grid
    ensures forall a, b :: 0 <= a < grid.Length0 && 0 <= b < grid.Length1 ==>
      grid[a, b] == Swept(r, grid.Length0, grid.Length1, a, b, old(grid[a, b]))
  {
    var rows, cols := grid.Length0, grid.Length1;
    var n := Across(r.vertical, rows, cols);
    var pos := r.startAt;
    for i := 0 to Lines(r.vertical, rows, cols)
      invariant pos == Centre(r, n, i)
      invariant forall a, b :: 0 <= a < rows && 0 <= b < cols ==>
        grid[a, b] == (if LineOf(r.vertical, a, b) < i then Swept(r, rows, cols, a, b, old(grid[a, b])) else old(grid[a, b]))
    {
      var step := r.steps[i];
      var start := Clamp(pos - (step.back + RWidth / 2), 0, n - 1);
      var end := Clamp(pos + (step.ahead + RWidth / 2), 0, n - 1);
      pos := Clamp(pos + step.drift, 0, n - 1);
      CarveLine(grid, r.vertical, i, start, end, Carve(step));
    }
  }

  /**
    * The kind cell `(a, b)`, holding `v`, has after the rivers swept a `rows`
    * x `cols` grid one after the other. Only Grass changes, into Water or
    * Bridge, so a carved cell keeps what the first river to reach it made it.
    */
  function Flooded(rivers: seq<River>, rows: int, cols: int, a: int, b: int, v: CellValue): (c: CellValue)
    requires forall k :: 0 <= k < |rivers| ==> ValidRiver(rivers[k], rows, cols)
    requires 0 <= a < rows && 0 <= b < cols
    ensures c == v || (v == Grass && (c == Water || c == Bridge))
    ensures v != Grass ==> c == v
    decreases |rivers|
  {
    if rivers == [] then v
    else
      var last := |rivers| - 1;
      Swept(rivers[last], rows, cols, a, b, Flooded(rivers[..last], rows, cols, a, b, v))
  }

  /**
    * `fillRiver`: carves the rivers one after the other, so every cell ends
    * as `Flooded` makes it; only Grass cells change, and each of them becomes
    * Water or Bridge, while Source, Target, Water and Bridge cells keep their
    * kind.
    */
  method FillRiver(grid: array2<CellValue>, rivers: seq<River>)
    requires grid.Length0 > 0
    requires |rivers| == NRivers
    requires forall k :: 0 <= k < |rivers| ==> ValidRiver(rivers[k], grid.Length0, grid.Length1)
    modifies grid
    ensures forall a, b :: 0 <= a < grid.Length0 && 0 <= b < grid.Length1 ==>
      grid[a, b] == Flooded(rivers, grid.Length0, grid.Length1, a, b, old(grid[a, b]))
    ensures forall a, b :: 0 <= a < grid.Length0 && 0 <= b < grid.Length1 ==>
      grid[a, b] == old(grid[a, b]) || (old(grid[a, b]) == Grass && (grid[a, b] == Water || grid[a, b] == Bridge))
  {
    for k := 0 to |rivers|
      invariant forall a, b :: 0 <= a < grid.Length0 && 0 <= b < grid.Length1 ==>
        grid[a, b] == Flooded(rivers[..k], grid.Length0, grid.Length1, a, b, old(grid[a, b]))
    {
      assert rivers[..k + 1][..k] == rivers[..k];
      Sweep(grid, rivers[k]);
    }
    assert rivers[..|rivers|] == rivers;
  }
}
