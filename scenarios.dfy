/**
 * Whole frames and what getRaw reports for them: a uniform frame, a warm
 * 3 x 3 block on a uniform background, and a single hot pixel.
 */
module Scenarios {
  import opened Geometry
  import opened Grid
  import opened Stats
  import opened Presence
  import opened Camera

  /** Background b everywhere except the 3 x 3 block at rows 5..7, columns 5..7, which is h. */
  function HotBlock(b: int, h: int): (px: seq<int>)
    ensures |px| == TotalPixels
  {
    Const(165, b) + Const(3, h) + Const(29, b) + Const(3, h) + Const(29, b) + Const(3, h) + Const(536, b)
  }

  /** Background b everywhere except sample i, which is h. */
  function HotPixel(b: int, h: int, i: int): (px: seq<int>)
    requires 0 <= i < TotalPixels
    ensures |px| == TotalPixels
    ensures forall k :: 0 <= k < TotalPixels ==> px[k] == if k == i then h else b
  {
    Const(i, b) + [h] + Const(TotalPixels - 1 - i, b)
  }

  /** A uniform frame of value v reports min = max = avg = v and no person. */
  lemma UniformFrame(v: int)
    ensures FrameRecord(Const(TotalPixels, v)).min == v
    ensures FrameRecord(Const(TotalPixels, v)).max == v
    ensures FrameRecord(Const(TotalPixels, v)).avg == v as real
    ensures !FrameRecord(Const(TotalPixels, v)).personDetected
  {
    var px := Const(TotalPixels, v);
    UniformStats(v);
    var g := Reshape(px);
    NoSeedNoPerson(g, PrimaryThreshold(Avg(px)));
  }

  lemma HotBlockSum(b: int, h: int)
    ensures Sum(HotBlock(b, h)) == 759 * b + 9 * h
  {
    var p1, p2, p3, p4 := Const(165, b), Const(3, h), Const(29, b), Const(3, h);
    var p5, p6, p7 := Const(29, b), Const(3, h), Const(536, b);
    SumAppend(p1, p2);
    SumAppend(p1 + p2, p3);
    SumAppend(p1 + p2 + p3, p4);
    SumAppend(p1 + p2 + p3 + p4, p5);
    SumAppend(p1 + p2 + p3 + p4 + p5, p6);
    SumAppend(p1 + p2 + p3 + p4 + p5 + p6, p7);
    SumConst(165, b);
    SumConst(3, h);
    SumConst(29, b);
    SumConst(536, b);
  }

  /** The nine block samples, by row-major index. */
  lemma HotBlockCells(b: int, h: int)
    ensures var px := HotBlock(b, h);
      px[165] == h && px[166] == h && px[167] == h &&
      px[197] == h && px[198] == h && px[199] == h &&
      px[229] == h && px[230] == h && px[231] == h
    ensures forall k :: 0 <= k < TotalPixels ==> HotBlock(b, h)[k] == b || HotBlock(b, h)[k] == h
    ensures HotBlock(b, h)[0] == b
  {
  }

  /**
   * A warm block at least 3.6 degrees above the background is reported:
   * its centre (6, 6) is a seed and all eight of its neighbours qualify.
   */
  lemma HotBlockDetected(b: int, h: int)
    requires h >= b + 36
    ensures FrameRecord(HotBlock(b, h)).personDetected
    ensures FrameRecord(HotBlock(b, h)).min == b && FrameRecord(HotBlock(b, h)).max == h
  {
    var px := HotBlock(b, h);
    var g := Reshape(px);
    HotBlockSum(b, h);
    HotBlockCells(b, h);
    var thr := PrimaryThreshold(Avg(px));
    assert Avg(px) == (759 * b + 9 * h) as real / 768.0;
    assert thr < h as real;
    assert g[6][6] == h;
    assert g[5][5] == h && g[5][6] == h && g[5][7] == h && g[6][5] == h && g[6][7] == h;
    assert g[7][5] == h && g[7][6] == h && g[7][7] == h;
    BlobSizeUnrolled(g, 6, 6, thr);
    assert BlobSize(g, 6, 6, thr) == 9;
    assert PersonAt(g, 6, 6, thr);
    MinOfIsLeast(px);
    MaxOfIsGreatest(px);
    assert px[198] == h;
  }

  /** The 20.0 / 30.0 degree instance of the block scenario. */
  lemma HotBlockExample()
    ensures FrameRecord(HotBlock(200, 300)).personDetected
    ensures FrameRecord(HotBlock(200, 300)).min == 200 && FrameRecord(HotBlock(200, 300)).max == 300
  {
    HotBlockDetected(200, 300);
  }

  /**
   * A single hot pixel on a uniform background is never reported, wherever
   * it is: no background cell is a seed, and no neighbour of the hot cell
   * reaches the secondary threshold.
   */
  lemma HotPixelNotDetected(b: int, h: int, i: int)
    requires 0 <= i < TotalPixels && h >= b
    ensures !FrameRecord(HotPixel(b, h, i)).personDetected
  {
    var px := HotPixel(b, h, i);
    var g := Reshape(px);
    var thr := PrimaryThreshold(Avg(px));
    SumBounds(px, b, h);
    assert b as real <= Avg(px);
    forall x, y | InGrid(x, y) && IsSeed(g, x, y, thr)
      ensures BlobSize(g, x, y, thr) == 1
    {
      CellIndexOf(x, y);
      assert g[x][y] == px[CellIndex(x, y)];
      forall k | 0 <= k < |Offsets|
        ensures !Qualifies(g, x + Offsets[k].0, y + Offsets[k].1, thr)
      {
        NeighbourIsBackground(b, h, i, x, y, Offsets[k].0, Offsets[k].1);
      }
      CountNone(g, x, y, thr, Offsets);
    }
  }

  /** Next to the hot cell every in-grid cell holds the background value. */
  lemma NeighbourIsBackground(b: int, h: int, i: int, x: int, y: int, dr: int, dc: int)
    requires 0 <= i < TotalPixels && InGrid(x, y) && CellIndex(x, y) == i
    requires (dr, dc) in Offsets
    ensures InGrid(x + dr, y + dc) ==> Reshape(HotPixel(b, h, i))[x + dr][y + dc] == b
  {
    OffsetsAreNeighbourhood();
    if InGrid(x + dr, y + dc) {
      CellIndexOf(x, y);
      CellIndexOf(x + dr, y + dc);
    }
  }

  /** The hot pixel in corner (0, 0), 30.0 degrees on 20.0: not reported. */
  lemma HotCornerExample()
    ensures !FrameRecord(HotPixel(200, 300, 0)).personDetected
  {
    HotPixelNotDetected(200, 300, 0);
  }
}
