/**
 * Specification of the blob/presence detector of getRaw
 * (src/main.cpp:78, 94-142): a cell above the primary threshold is a
 * seed; its blob size is 1 for itself plus 1 for each in-grid 8-neighbour
 * above the secondary threshold; a person is present when some seed has a
 * blob size greater than 4. Thresholds are reals in tenths of a degree.
 */
module Presence {
  import opened Wrappers
  import opened Geometry
  import opened Grid

  /** The primary threshold `humanThreshold + avg`. */
  function PrimaryThreshold(avg: real): real {
    avg + HumanThreshold as real
  }

  /** The secondary threshold `personThreshold - 2`, used for neighbours. */
  function SecondaryThreshold(thr: real): real {
    thr - NeighbourMargin as real
  }

  /** The eight neighbour offsets, in the order the source inspects them. */
  const Offsets: seq<(int, int)> := [(1, -1), (1, 0), (1, 1), (0, 1), (0, -1), (-1, -1), (-1, 0), (-1, 1)]

  /** The offsets are the eight distinct cells of the 3 x 3 window other than its centre. */
  lemma OffsetsAreNeighbourhood()
    ensures |Offsets| == 8
    ensures forall i, j :: 0 <= i < j < |Offsets| ==> Offsets[i] != Offsets[j]
    ensures forall dr, dc :: (dr, dc) in Offsets <==> -1 <= dr <= 1 && -1 <= dc <= 1 && (dr, dc) != (0, 0)
  {
  }

  /** A looked-up value that is present and strictly above t; an absent value never is. */
  predicate Exceeds(v: Option<int>, t: real) {
    v.Some? && v.value as real > t
  }

  /** Cell (x, y) supports a blob: it is in the grid and above the secondary threshold. */
  predicate Qualifies(g: Grid, x: int, y: int, thr: real)
    requires WellFormed(g)
  {
    Exceeds(Lookup(g, x, y), SecondaryThreshold(thr))
  }

  /** Cell (r, c) is a seed: it is in the grid and above the primary threshold. */
  predicate IsSeed(g: Grid, r: int, c: int, thr: real)
    requires WellFormed(g)
  {
    Exceeds(Lookup(g, r, c), thr)
  }

  /** A qualifying cell contributes 1 to a blob, any other cell or position 0. */
  function Support(g: Grid, x: int, y: int, thr: real): nat
    requires WellFormed(g)
  {
    if Qualifies(g, x, y, thr) then 1 else 0
  }

  /** How many of the given neighbour offsets of (r, c) qualify. */
  function CountQualifying(g: Grid, r: int, c: int, thr: real, offs: seq<(int, int)>): (n: nat)
    requires WellFormed(g)
    ensures n <= |offs|
  {
    if |offs| == 0 then 0
    else
      Support(g, r + offs[0].0, c + offs[0].1, thr) + CountQualifying(g, r, c, thr, offs[1..])
  }

  /** `blobSize`: the seed itself plus its qualifying 8-neighbours. */
  function BlobSize(g: Grid, r: int, c: int, thr: real): (n: int)
    requires WellFormed(g)
    ensures 1 <= n <= 9
  {
    1 + CountQualifying(g, r, c, thr, Offsets)
  }

  predicate PersonAt(g: Grid, r: int, c: int, thr: real)
    requires WellFormed(g)
  {
    IsSeed(g, r, c, thr) && BlobSize(g, r, c, thr) > 4
  }

  /** `person_detected`: some cell above the primary threshold has a blob size greater than 4. */
  predicate PersonDetected(g: Grid, thr: real)
    requires WellFormed(g)
  {
    exists r, c :: 0 <= r < Rows && 0 <= c < Cols && PersonAt(g, r, c, thr)
  }

  /** The count is zero when no offset points at a qualifying cell. */
  lemma {:induction false} CountNone(g: Grid, r: int, c: int, thr: real, offs: seq<(int, int)>)
    requires WellFormed(g)
    requires forall i :: 0 <= i < |offs| ==> !Qualifies(g, r + offs[i].0, c + offs[i].1, thr)
    ensures CountQualifying(g, r, c, thr, offs) == 0
  {
    if |offs| > 0 {
      CountNone(g, r, c, thr, offs[1..]);
    }
  }

  /** One step of the count: the offset at position k, then the rest. */
  lemma CountStep(g: Grid, r: int, c: int, thr: real, offs: seq<(int, int)>, k: int, x: int, y: int)
    requires WellFormed(g)
    requires 0 <= k < |offs| && x == r + offs[k].0 && y == c + offs[k].1
    ensures CountQualifying(g, r, c, thr, offs[k..])
         == Support(g, x, y, thr) + CountQualifying(g, r, c, thr, offs[k + 1..])
  {
    assert offs[k..][1..] == offs[k + 1..];
  }

  /** The blob size is the sum of the eight tests of src/main.cpp:102-133, in the source's order. */
  lemma BlobSizeUnrolled(g: Grid, r: int, c: int, thr: real)
    requires WellFormed(g)
    ensures BlobSize(g, r, c, thr) == 1
      + Support(g, r + 1, c - 1, thr) + Support(g, r + 1, c, thr) + Support(g, r + 1, c + 1, thr)
      + Support(g, r, c + 1, thr) + Support(g, r, c - 1, thr)
      + Support(g, r - 1, c - 1, thr) + Support(g, r - 1, c, thr) + Support(g, r - 1, c + 1, thr)
  {
    var o := Offsets;
    assert o[0..] == o;
    CountStep(g, r, c, thr, o, 0, r + 1, c - 1);
    CountStep(g, r, c, thr, o, 1, r + 1, c);
    CountStep(g, r, c, thr, o, 2, r + 1, c + 1);
    CountStep(g, r, c, thr, o, 3, r, c + 1);
    LowerRowCount(g, r, c, thr);
  }

  /** The last four offsets, the row above the cell and its left neighbour. */
  lemma LowerRowCount(g: Grid, r: int, c: int, thr: real)
    requires WellFormed(g)
    ensures CountQualifying(g, r, c, thr, Offsets[4..])
         == Support(g, r, c - 1, thr) + Support(g, r - 1, c - 1, thr)
            + Support(g, r - 1, c, thr) + Support(g, r - 1, c + 1, thr)
  {
    var o := Offsets;
    CountStep(g, r, c, thr, o, 4, r, c - 1);
    CountStep(g, r, c, thr, o, 5, r - 1, c - 1);
    CountStep(g, r, c, thr, o, 6, r - 1, c);
    CountStep(g, r, c, thr, o, 7, r - 1, c + 1);
    assert o[8..] == [];
  }

  /** A corner cell has only three in-grid neighbours, so its blob size is at most 4. */
  lemma CornerBlobSize(g: Grid, r: int, c: int, thr: real)
    requires WellFormed(g)
    requires (r == 0 || r == Rows - 1) && (c == 0 || c == Cols - 1)
    ensures BlobSize(g, r, c, thr) <= 4
  {
    BlobSizeUnrolled(g, r, c, thr);
  }

  /** Raising cell values, with the threshold fixed, never shrinks a blob. */
  lemma {:induction false} CountMonotone(g: Grid, h: Grid, r: int, c: int, thr: real, offs: seq<(int, int)>)
    requires WellFormed(g) && WellFormed(h)
    requires forall x, y :: InGrid(x, y) ==> g[x][y] <= h[x][y]
    ensures CountQualifying(g, r, c, thr, offs) <= CountQualifying(h, r, c, thr, offs)
  {
    if |offs| > 0 {
      CountMonotone(g, h, r, c, thr, offs[1..]);
    }
  }

  /** Presence detection is monotonic in the cell values for a fixed threshold. */
  lemma PersonDetectedMonotone(g: Grid, h: Grid, thr: real)
    requires WellFormed(g) && WellFormed(h)
    requires forall x, y :: InGrid(x, y) ==> g[x][y] <= h[x][y]
    requires PersonDetected(g, thr)
    ensures PersonDetected(h, thr)
  {
    var r, c :| InGrid(r, c) && PersonAt(g, r, c, thr);
    CountMonotone(g, h, r, c, thr, Offsets);
    assert PersonAt(h, r, c, thr);
  }

  /** Without a cell above the primary threshold nothing is detected. */
  lemma NoSeedNoPerson(g: Grid, thr: real)
    requires WellFormed(g)
    requires forall x, y :: InGrid(x, y) ==> g[x][y] as real <= thr
    ensures !PersonDetected(g, thr)
  {
  }
}
