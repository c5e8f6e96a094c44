/** Cell kinds, generator kinds, grid positions and matrix shapes shared by every other module. */
module Types {

  /** What a grid cell holds (`CellValue`). */
  datatype CellValue = Grass | Water | Source | Target | Bridge

  /** The terrain generators the user can pick (`Gen`). */
  datatype Gen = Flat | Rivers | RecursiveDiv

  /** A `[row, column]` pair. */
  type Pos = (int, int)

  /** The `[-1, -1]` marker the search uses for "no cell". */
  const NoCell: Pos := (-1, -1)

  datatype Option<T> = None | Some(value: T)

  /**
    * The grid as the searches receive it (`CellValue[][]`), row by row. The
    * searches only read it, so they see it as a value.
    */
  type Board = seq<seq<CellValue>>

  /** `p` indexes an entry of the row-by-row matrix `m`. */
  predicate Inside<T>(m: seq<seq<T>>, p: Pos)
  {
    0 <= p.0 < |m| && 0 <= p.1 < |m[p.0]|
  }

  /** Every cell listed in `s` indexes an entry of `m`. */
  predicate AllInside<T>(m: seq<seq<T>>, s: seq<Pos>)
  {
    forall k :: 0 <= k < |s| ==> 0 <= s[k].0 < |m| && 0 <= s[k].1 < |m[s[k].0]|
  }

  /** Every row of `m` has the length of the first. */
  predicate Rect<T>(m: seq<seq<T>>)
  {
    forall i :: 0 <= i < |m| ==> |m[i]| == |m[0]|
  }

  /** `m` and `w` have the same rows and columns. */
  predicate Alike<T, U>(m: seq<seq<T>>, w: seq<seq<U>>)
  {
    |m| == |w| && forall i :: 0 <= i < |m| ==> |m[i]| == |w[i]|
  }

  /** The matrix `a` has the rows and columns of `m`. */
  predicate Fits<T, U>(m: seq<seq<T>>, a: array2<U>)
  {
    |m| == a.Length0 && forall i :: 0 <= i < |m| ==> |m[i]| == a.Length1
  }

  /** `p` indexes a cell of the matrix `a`. */
  predicate InBounds<T>(a: array2<T>, p: Pos)
  {
    0 <= p.0 < a.Length0 && 0 <= p.1 < a.Length1
  }

  /** The current contents of the matrix `a`, row by row. */
  function Snap<T>(a: array2<T>): (m: seq<seq<T>>)
    reads a
    ensures |m| == a.Length0
    ensures forall i :: 0 <= i < a.Length0 ==> |m[i]| == a.Length1
    ensures forall i, j :: 0 <= i < a.Length0 && 0 <= j < a.Length1 ==> m[i][j] == a[i, j]
  {
    seq(a.Length0, i requires 0 <= i < a.Length0 reads a =>
      seq(a.Length1, j requires 0 <= j < a.Length1 reads a => a[i, j]))
  }

  /** Two matrices have the same number of rows and columns. */
  predicate SameShape<T, U>(a: array2<T>, b: array2<U>)
  {
    a.Length0 == b.Length0 && a.Length1 == b.Length1
  }

  function Abs(x: int): int
  {
    if x < 0 then -x else x
  }

  /** `p` and `q` share a side: they differ by one step along exactly one axis. */
  predicate Adjacent(p: Pos, q: Pos)
  {
    Abs(p.0 - q.0) + Abs(p.1 - q.1) == 1
  }

  /** Sharing a side is symmetric. */
  lemma AdjacentSymmetric(p: Pos, q: Pos)
    requires Adjacent(p, q)
    ensures Adjacent(q, p)
  {
    assert Abs(q.0 - p.0) == Abs(p.0 - q.0) && Abs(q.1 - p.1) == Abs(p.1 - q.1);
  }
}
