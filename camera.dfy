/**
 * The imperative core of the firmware: the global sample buffer `pixels`,
 * the 2-D `frame` and the last `output`, and getRaw with its four loops
 * (src/main.cpp:19-25, 29-36, 38-155). Each step is a method proved
 * against the specification functions of Stats, Csv, Grid and Presence.
 */
module Camera {
  import opened Wrappers
  import opened Geometry
  import opened Grid
  import opened Stats
  import opened Presence
  import Csv
  import Decimal

  /** The fields getRaw puts in its JSON document (src/main.cpp:144-151); temperatures in tenths. */
  datatype Record = Record(
    sensor: string,
    rows: int,
    cols: int,
    data: string,
    min: int,
    max: int,
    avg: real,
    personDetected: bool)

  /** The record getRaw produces for a frame of samples. */
  function FrameRecord(px: seq<int>): Record
    requires |px| == TotalPixels
  {
    var avg := Avg(px);
    Record(SensorId, Rows, Cols, Csv.Encode(px), MinOf(px), MaxOf(px), avg,
           PersonDetected(Reshape(px), PrimaryThreshold(avg)))
  }

  /**
   * What the record promises: the fixed sensor identifier and geometry, the
   * data text that decodes back to the samples with n - 1 commas, a min and
   * max that bound every sample and are samples, and an average between them.
   */
  lemma FrameRecordSound(px: seq<int>)
    requires |px| == TotalPixels
    ensures FrameRecord(px).sensor == "MLX90640" && FrameRecord(px).rows == 24 && FrameRecord(px).cols == 32
    ensures Csv.Decode(FrameRecord(px).data) == Some(px)
    ensures Csv.CountChar(FrameRecord(px).data, ',') == TotalPixels - 1
    ensures forall k :: 0 <= k < |px| ==> FrameRecord(px).min <= px[k] <= FrameRecord(px).max
    ensures (exists k :: 0 <= k < |px| && px[k] == FrameRecord(px).min)
         && (exists k :: 0 <= k < |px| && px[k] == FrameRecord(px).max)
    ensures FrameRecord(px).min as real <= FrameRecord(px).avg <= FrameRecord(px).max as real
  {
    Csv.DecodeEncode(px);
    Csv.EncodeShape(px);
    MinOfIsLeast(px);
    MaxOfIsGreatest(px);
    AvgBetweenMinAndMax(px);
  }

  predicate IsFrame(frame: array2<int>) {
    frame.Length0 == Rows && frame.Length1 == Cols
  }

  /** The contents of the 2-D array as a grid value. */
  ghost function FrameGrid(frame: array2<int>): (g: Grid)
    requires IsFrame(frame)
    reads frame
    ensures WellFormed(g)
    ensures forall r, c :: InGrid(r, c) ==> g[r][c] == frame[r, c]
  {
    seq(Rows, (r: int) requires 0 <= r < Rows reads frame =>
      seq(Cols, (c: int) requires 0 <= c < Cols reads frame => frame[r, c]))
  }

  /**
   * getPixel (src/main.cpp:29-36), with the half-open range check.
   * The source tests `x <= rows && x > 0 && y <= cols && y > 0`, which
   * skips row and column 0 and reads one past the end; see Findings.
   */
  function GetPixel(frame: array2<int>, x: int, y: int): (v: Option<int>)
    requires IsFrame(frame)
    reads frame
    ensures v.Some? <==> InGrid(x, y)
    ensures v.Some? ==> v.value == frame[x, y]
    ensures v == Lookup(FrameGrid(frame), x, y)
  {
    if 0 <= x < Rows && 0 <= y < Cols then Some(frame[x, y]) else None
  }

  /**
   * The first loop of getRaw (src/main.cpp:54-75): min and max seeded from
   * sample 0, the running sum, and the comma-separated `data` text.
   */
  method StatsPass(pixels: array<int>) returns (min: int, max: int, sum: int, data: string)
    requires pixels.Length == TotalPixels
    ensures min == MinOf(pixels[..]) && max == MaxOf(pixels[..])
    ensures sum == Sum(pixels[..])
    ensures data == Csv.Encode(pixels[..])
  {
    min, max, sum, data := 0, 0, 0, "";
    Csv.BuiltStep(pixels[..], 0);
    for i := 0 to TotalPixels
      invariant i > 0 ==> min == MinOf(pixels[..][..i]) && max == MaxOf(pixels[..][..i])
      invariant sum == Sum(pixels[..][..i])
      invariant data == Csv.Built(pixels[..], i)
    {
      var t := pixels[i];
      if i == 0 || t > max {
        max := t;
      }
      if i == 0 || t < min {
        min := t;
      }
      sum := sum + t;
      data := data + Decimal.Format(t);
      if i < TotalPixels - 1 {
        data := data + ",";
      }
      PrefixStep(pixels[..], i);
      Csv.BuiltStep(pixels[..], i);
    }
    assert pixels[..][..TotalPixels] == pixels[..];
    Csv.BuiltStep(pixels[..], TotalPixels - 1);
  }

  /**
   * The reshape loop (src/main.cpp:80-92) driven by `row`/`col` counters,
   * with the wrap taken after column Cols - 1. The source wraps when
   * `col == cols`, one column late; see Findings.
   */
  method ReshapeInto(pixels: array<int>, frame: array2<int>)
    requires pixels.Length == TotalPixels && IsFrame(frame)
    modifies frame
    ensures forall i :: 0 <= i < TotalPixels ==> frame[i / Cols, i % Cols] == pixels[i]
    ensures FrameGrid(frame) == Reshape(pixels[..])
  {
    var row, col := 0, 0;
    for i := 0 to TotalPixels
      invariant row == i / Cols && col == i % Cols
      invariant forall j :: 0 <= j < i ==> frame[j / Cols, j % Cols] == pixels[j]
    {
      frame[row, col] := pixels[i];
      if col == Cols - 1 {
        col := 0;
        row := row + 1;
      } else {
        col := col + 1;
      }
    }
    CellIndexBijection();
    ghost var g, h := FrameGrid(frame), Reshape(pixels[..]);
    forall r | 0 <= r < Rows
      ensures g[r] == h[r]
    {
      forall c | 0 <= c < Cols
        ensures g[r][c] == h[r][c]
      {
        var i := CellIndex(r, c);
        ReshapeAt(pixels[..], i);
      }
    }
  }

  /** The blob count of one seed cell: the eight neighbour tests of src/main.cpp:100-133. */
  method BlobSizeAt(frame: array2<int>, r: int, c: int, thr: real) returns (blobSize: int)
    requires IsFrame(frame)
    ensures blobSize == BlobSize(FrameGrid(frame), r, c, thr)
  {
    ghost var g := FrameGrid(frame);
    var secondary := SecondaryThreshold(thr);
    blobSize := 1;
    if Exceeds(GetPixel(frame, r + 1, c - 1), secondary) {
      blobSize := blobSize + 1;
    }
    assert blobSize == 1 + Support(g, r + 1, c - 1, thr);
    if Exceeds(GetPixel(frame, r + 1, c), secondary) {
      blobSize := blobSize + 1;
    }
    assert blobSize == 1 + Support(g, r + 1, c - 1, thr) + Support(g, r + 1, c, thr);
    if Exceeds(GetPixel(frame, r + 1, c + 1), secondary) {
      blobSize := blobSize + 1;
    }
    assert blobSize == 1 + Support(g, r + 1, c - 1, thr) + Support(g, r + 1, c, thr) + Support(g, r + 1, c + 1, thr);
    if Exceeds(GetPixel(frame, r, c + 1), secondary) {
      blobSize := blobSize + 1;
    }
    assert blobSize == 1 + Support(g, r + 1, c - 1, thr) + Support(g, r + 1, c, thr) + Support(g, r + 1, c + 1, thr) + Support(g, r, c + 1, thr);
    if Exceeds(GetPixel(frame, r, c - 1), secondary) {
      blobSize := blobSize + 1;
    }
    assert blobSize == 1 + Support(g, r + 1, c - 1, thr) + Support(g, r + 1, c, thr) + Support(g, r + 1, c + 1, thr) + Support(g, r, c + 1, thr) + Support(g, r, c - 1, thr);
    if Exceeds(GetPixel(frame, r - 1, c - 1), secondary) {
      blobSize := blobSize + 1;
    }
    assert blobSize == 1 + Support(g, r + 1, c - 1, thr) + Support(g, r + 1, c, thr) + Support(g, r + 1, c + 1, thr) + Support(g, r, c + 1, thr) + Support(g, r, c - 1, thr) + Support(g, r - 1, c - 1, thr);
    if Exceeds(GetPixel(frame, r - 1, c), secondary) {
      blobSize := blobSize + 1;
    }
    assert blobSize == 1 + Support(g, r + 1, c - 1, thr) + Support(g, r + 1, c, thr) + Support(g, r + 1, c + 1, thr) + Support(g, r, c + 1, thr) + Support(g, r, c - 1, thr) + Support(g, r - 1, c - 1, thr) + Support(g, r - 1, c, thr);
    if Exceeds(GetPixel(frame, r - 1, c + 1), secondary) {
      blobSize := blobSize + 1;
    }
    assert blobSize == 1 + Support(g, r + 1, c - 1, thr) + Support(g, r + 1, c, thr) + Support(g, r + 1, c + 1, thr) + Support(g, r, c + 1, thr) + Support(g, r, c - 1, thr) + Support(g, r - 1, c - 1, thr) + Support(g, r - 1, c, thr) + Support(g, r - 1, c + 1, thr);
    BlobSizeUnrolled(g, r, c, thr);
  }

  /** The nested scan (src/main.cpp:94-142): any seed with a blob size above 4 sets the flag. */
  method DetectPresence(frame: array2<int>, thr: real) returns (detected: bool)
    requires IsFrame(frame)
    ensures detected == PersonDetected(FrameGrid(frame), thr)
  {
    ghost var g := FrameGrid(frame);
    detected := false;
    for r := 0 to Rows
      invariant detected <==> exists r', c' :: 0 <= r' < r && 0 <= c' < Cols && PersonAt(g, r', c', thr)
    {
      for c := 0 to Cols
        invariant detected <==> exists r', c' ::
          ((0 <= r' < r && 0 <= c' < Cols) || (r' == r && 0 <= c' < c)) && PersonAt(g, r', c', thr)
      {
        if Exceeds(GetPixel(frame, r, c), thr) {
          var blobSize := BlobSizeAt(frame, r, c, thr);
          if blobSize > 4 {
            detected := true;
            assert PersonAt(g, r, c, thr);
          } else {
            assert !PersonAt(g, r, c, thr);
          }
        } else {
          assert !PersonAt(g, r, c, thr);
        }
      }
    }
  }

  /** The firmware's global state: the sample buffer, the grid and the last serialised output. */
  class ThermalCamera {
    const pixels: array<int>
    const frame: array2<int>
    /** `output`: None until the first getRaw, as the global String starts empty. */
    var output: Option<Record>

    ghost predicate Valid()
      reads this
    {
      pixels.Length == TotalPixels && IsFrame(frame)
    }

    /** The globals as the program starts: zero-initialised buffers and no output. */
    constructor ()
      ensures Valid() && fresh(pixels) && fresh(frame)
      ensures pixels[..] == Const(TotalPixels, 0)
      ensures output == None
    {
      pixels := new int[TotalPixels](_ => 0);
      frame := new int[Rows, Cols]((_, _) => 0);
      output := None;
    }

    /**
     * getRaw (src/main.cpp:38-155): statistics, reshape, presence scan,
     * then the record stored in `output`. The samples are left unchanged.
     */
    method GetRaw()
      requires Valid()
      modifies this, frame
      ensures Valid()
      ensures pixels[..] == old(pixels[..])
      ensures FrameGrid(frame) == Reshape(pixels[..])
      ensures output == Some(FrameRecord(pixels[..]))
    {
      var min, max, sum, data := StatsPass(pixels);
      var avg := sum as real / TotalPixels as real;
      var personThreshold := PrimaryThreshold(avg);
      ReshapeInto(pixels, frame);
      var personDetected := DetectPresence(frame, personThreshold);
      output := Some(Record(SensorId, Rows, Cols, data, min, max, avg, personDetected));
    }
  }
}
