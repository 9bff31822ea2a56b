/**
 * Three places where src/main.cpp, as written, departs from what the
 * detector evidently means to do. Each is modelled here as written, with a
 * lemma that exhibits the departure; the rest of the model uses the
 * corrected definitions (Camera.GetPixel, Camera.ReshapeInto, Presence.BlobSize).
 */
module Findings {
  import opened Geometry
  import opened Wrappers
  import opened Grid
  import opened Stats
  import opened Presence
  import opened Camera
  import opened Scenarios

  /** What the source's getPixel does: read a cell, return the 0.0 sentinel, or read past the end of the array. */
  datatype RawRead = CellValue(v: int) | Sentinel | PastEnd

  /** getPixel as written (src/main.cpp:31): `x <= rows && x > 0 && y <= cols && y > 0`. */
  function GetPixelAsWritten(g: Grid, x: int, y: int): RawRead
    requires WellFormed(g)
  {
    if x <= Rows && x > 0 && y <= Cols && y > 0 then
      if x < Rows && y < Cols then CellValue(g[x][y]) else PastEnd
    else
      Sentinel
  }

  /**
   * The as-written range check hides row 0 and column 0 behind the sentinel
   * and lets row `rows` and column `cols` through, one past the end; the
   * scan asks for row `rows` at every seed of the last row. The corrected
   * lookup is exact on both.
   */
  lemma GetPixelRangeIsOffByOne(g: Grid)
    requires WellFormed(g)
    ensures GetPixelAsWritten(g, 0, 0) == Sentinel && Lookup(g, 0, 0) == Some(g[0][0])
    ensures GetPixelAsWritten(g, 5, 0) == Sentinel && Lookup(g, 5, 0) == Some(g[5][0])
    ensures GetPixelAsWritten(g, Rows, 1) == PastEnd && Lookup(g, Rows, 1) == None
    ensures GetPixelAsWritten(g, 1, Cols) == PastEnd && Lookup(g, 1, Cols) == None
  {
  }

  /**
   * The (row, col) that the as-written reshape loop (src/main.cpp:80-92)
   * writes on iteration i: it wraps only when `col == cols`, after writing
   * column `cols`.
   */
  function CursorAsWritten(i: nat): (int, int) {
    if i == 0 then (0, 0)
    else
      var (r, c) := CursorAsWritten(i - 1);
      if c == Cols then (r + 1, 0) else (r, c + 1)
  }

  /** The as-written loop walks rows of Cols + 1 positions. */
  lemma {:induction false} CursorAsWrittenClosedForm(i: nat)
    ensures CursorAsWritten(i) == (i / (Cols + 1), i % (Cols + 1))
  {
    if i > 0 {
      CursorAsWrittenClosedForm(i - 1);
    }
  }

  /**
   * Iteration 32 writes `frame[0][32]`, outside the row, and the last sample
   * lands at (23, 8): the corrected mapping sends it to (23, 31).
   */
  lemma ReshapeAsWrittenLeavesRow()
    ensures CursorAsWritten(Cols) == (0, Cols) && !InGrid(0, Cols)
    ensures CursorAsWritten(TotalPixels - 1) == (23, 8)
    ensures (TotalPixels - 1) / Cols == 23 && (TotalPixels - 1) % Cols == 31
  {
    CursorAsWrittenClosedForm(Cols);
    CursorAsWrittenClosedForm(TotalPixels - 1);
  }

  /** A neighbour's contribution when an absent cell reads as the value 0 (src/main.cpp:35). */
  function SupportWithSentinel(g: Grid, x: int, y: int, thr: real): nat
    requires WellFormed(g)
  {
    var v := if InGrid(x, y) then g[x][y] else 0;
    if v as real > SecondaryThreshold(thr) then 1 else 0
  }

  /** The eight tests of src/main.cpp:100-133 with the 0.0 sentinel for cells outside the grid. */
  function BlobSizeWithSentinel(g: Grid, r: int, c: int, thr: real): int
    requires WellFormed(g)
  {
    1 + SupportWithSentinel(g, r + 1, c - 1, thr) + SupportWithSentinel(g, r + 1, c, thr)
      + SupportWithSentinel(g, r + 1, c + 1, thr) + SupportWithSentinel(g, r, c + 1, thr)
      + SupportWithSentinel(g, r, c - 1, thr) + SupportWithSentinel(g, r - 1, c - 1, thr)
      + SupportWithSentinel(g, r - 1, c, thr) + SupportWithSentinel(g, r - 1, c + 1, thr)
  }

  predicate PersonDetectedWithSentinel(g: Grid, thr: real)
    requires WellFormed(g)
  {
    exists r, c :: 0 <= r < Rows && 0 <= c < Cols && IsSeed(g, r, c, thr) && BlobSizeWithSentinel(g, r, c, thr) > 4
  }

  /**
   * When the secondary threshold is below zero, the sentinel counts the five
   * absent neighbours of corner (0, 0), while the corrected count of a corner
   * never exceeds 4.
   */
  lemma SentinelCountsAbsentNeighbours(g: Grid, thr: real)
    requires WellFormed(g)
    requires SecondaryThreshold(thr) < 0.0
    ensures BlobSizeWithSentinel(g, 0, 0, thr) >= 6
    ensures BlobSize(g, 0, 0, thr) <= 4
  {
    CornerBlobSize(g, 0, 0, thr);
  }

  /**
   * A cold scene, -10.0 degrees everywhere and 20.0 at (0, 0): with the
   * sentinel a person is reported, the corrected detector reports none.
   */
  lemma ColdSceneHotCorner()
    ensures PersonDetectedWithSentinel(Reshape(HotPixel(-100, 200, 0)), PrimaryThreshold(Avg(HotPixel(-100, 200, 0))))
    ensures !FrameRecord(HotPixel(-100, 200, 0)).personDetected
  {
    var px := HotPixel(-100, 200, 0);
    var g := Reshape(px);
    var thr := PrimaryThreshold(Avg(px));
    var a := Const(0, -100);
    var z := Const(TotalPixels - 1, -100);
    SumAppend(a + [200], z);
    SumAppend(a, [200]);
    SumConst(TotalPixels - 1, -100);
    assert Sum([200]) == 200 by {
      assert [200][..0] == [];
    }
    assert Sum(px) == -76500;
    assert g[0][0] == 200;
    SentinelCountsAbsentNeighbours(g, thr);
    assert IsSeed(g, 0, 0, thr);
    HotPixelNotDetected(-100, 200, 0);
  }
}
