/**
 * The 2-D view of a frame: the 24 x 32 grid `frame[row][col]` that getRaw
 * fills from the row-major sample buffer (src/main.cpp:80-92), and the
 * bounded cell lookup of getPixel (src/main.cpp:29-36), both with the
 * half-open ranges 0 <= row < Rows, 0 <= col < Cols.
 */
module Grid {
  import opened Wrappers
  import opened Geometry

  type Grid = seq<seq<int>>

  predicate WellFormed(g: Grid) {
    |g| == Rows && forall r :: 0 <= r < Rows ==> |g[r]| == Cols
  }

  predicate InGrid(x: int, y: int) {
    0 <= x < Rows && 0 <= y < Cols
  }

  /** Row-major index of a cell. */
  function CellIndex(r: int, c: int): int {
    r * Cols + c
  }

  /** Every in-grid cell has exactly one sample index, and every sample index has exactly one cell. */
  lemma CellIndexBijection()
    ensures forall r, c :: InGrid(r, c) ==>
      0 <= CellIndex(r, c) < TotalPixels && CellIndex(r, c) / Cols == r && CellIndex(r, c) % Cols == c
    ensures forall i :: 0 <= i < TotalPixels ==>
      InGrid(i / Cols, i % Cols) && CellIndex(i / Cols, i % Cols) == i
    ensures forall r, c, r', c' :: InGrid(r, c) && InGrid(r', c') && CellIndex(r, c) == CellIndex(r', c') ==>
      r == r' && c == c'
  {
    forall r, c | InGrid(r, c)
      ensures 0 <= CellIndex(r, c) < TotalPixels && CellIndex(r, c) / Cols == r && CellIndex(r, c) % Cols == c
    {
      CellIndexOf(r, c);
    }
  }

  lemma CellIndexOf(r: int, c: int)
    requires InGrid(r, c)
    ensures 0 <= CellIndex(r, c) < TotalPixels && CellIndex(r, c) / Cols == r && CellIndex(r, c) % Cols == c
  {
    var i := r * 32 + c;
    assert 0 <= i < 768;
    assert i / 32 == r && i % 32 == c;
  }

  /** The corrected reshape: cell (r, c) holds sample r * Cols + c. */
  function Reshape(px: seq<int>): (g: Grid)
    requires |px| == TotalPixels
    ensures WellFormed(g)
  {
    seq(Rows, (r: int) requires 0 <= r < Rows =>
      seq(Cols, (c: int) requires 0 <= c < Cols => (CellIndexOf(r, c); px[CellIndex(r, c)])))
  }

  /** Sample i lands at (i / Cols, i % Cols). */
  lemma ReshapeAt(px: seq<int>, i: int)
    requires |px| == TotalPixels && 0 <= i < TotalPixels
    ensures InGrid(i / Cols, i % Cols) && Reshape(px)[i / Cols][i % Cols] == px[i]
  {
    CellIndexBijection();
  }

  /** The lookup of getPixel: total over all integer coordinates, absent outside the grid. */
  function Lookup(g: Grid, x: int, y: int): (v: Option<int>)
    requires WellFormed(g)
    ensures v.Some? <==> InGrid(x, y)
  {
    if InGrid(x, y) then Some(g[x][y]) else None
  }
}
