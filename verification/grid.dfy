/** The elevation grid every component reads. A cell holds an elevation in metres or
    the "no data" marker, which the source stores as NaN. */
module Grid {
  import opened Base

  /** A grid position (row, column); sites and raster cells are both cells. */
  datatype Cell = Cell(row: int, col: int)

  /** None is the "no data" marker. */
  type Elevation = Option<real>

  type Grid = seq<seq<Elevation>>

  function Rows(g: Grid): nat
  {
    |g|
  }

  /** The column count, as numpy's grid.shape[1]. */
  function Cols(g: Grid): nat
  {
    if |g| == 0 then 0 else |g[0]|
  }

  /** Every row has the same length, as in a two-dimensional numpy array. */
  predicate Rectangular(g: Grid)
  {
    forall i :: 0 <= i < |g| ==> |g[i]| == Cols(g)
  }

  predicate OnGrid(g: Grid, c: Cell)
  {
    0 <= c.row < |g| && 0 <= c.col < |g[c.row]|
  }

  /** What indexing the grid at a cell gives: an IndexError, NaN, or an elevation. */
  datatype Probe = OffGrid | NoData | Value(z: real)

  function Lookup(g: Grid, c: Cell): (p: Probe)
    ensures p.OffGrid? <==> !OnGrid(g, c)
    ensures p.NoData? <==> OnGrid(g, c) && g[c.row][c.col].None?
    ensures p.Value? ==> OnGrid(g, c) && g[c.row][c.col] == Some(p.z)
  {
    if !OnGrid(g, c) then OffGrid
    else match g[c.row][c.col]
      case None => NoData
      case Some(z) => Value(z)
  }

  /** The grid with one cell replaced by "no data". */
  function SetNoData(g: Grid, r: int, c: int): (h: Grid)
    requires 0 <= r < |g| && 0 <= c < |g[r]|
    ensures |h| == |g|
    ensures forall i :: 0 <= i < |g| ==> |h[i]| == |g[i]|
    ensures h[r][c] == None
    ensures forall i, j :: 0 <= i < |g| && 0 <= j < |g[i]| && (i != r || j != c) ==> h[i][j] == g[i][j]
  {
    g[r := g[r][c := None]]
  }
}
