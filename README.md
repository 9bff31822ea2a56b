# Thermal frame processing of the ESP32 / MLX90640 camera, in Dafny

The firmware reads a 24 x 32 frame of temperatures from an MLX90640 sensor
into the global buffer `pixels`. On each HTTP request, `getRaw` turns the
frame into a JSON record. The record holds the sensor name, the geometry,
every sample as text with one decimal, the minimum, maximum and average,
and a `person_detected` flag. This project models `getRaw` and its helper
`getPixel` and proves what they compute.

Temperatures are integers in tenths of a degree Celsius. In those units the
one-decimal text of `String(x, 1)` is exact. The 3.5 degree `humanThreshold`
becomes 35 and the "- 2" of the secondary threshold becomes 20. The average
is a `real`, the exact sum divided by `total_pixels`.

Modules, leaf first:

- `Wrappers`: `Option`, the "absent" result of a lookup and of a parse.
- `Geometry`: the constants `rows`, `cols`, `total_pixels`,
  `humanThreshold` and the sensor name.
- `Decimal`: one-decimal formatting of a temperature, and its parser.
- `Csv`: the `data` text (samples joined by ","), with split and decode.
- `Stats`: sum, minimum and maximum seeded from sample 0, and the average.
- `Grid`: the row-major reshape into `frame[row][col]` and the bounded
  lookup, both over the half-open ranges `[0, rows) x [0, cols)`.
- `Presence`: seeds, blob size and the presence predicate.
- `Camera`: the imperative code. `GetPixel` reads the `frame` array.
  `StatsPass`, `ReshapeInto`, `BlobSizeAt` and `DetectPresence` are the
  loops of `getRaw`, each proved against the specification functions.
  The class `ThermalCamera` holds the globals `pixels`, `frame` and
  `output`, and its method `GetRaw` runs the whole routine.
- `Scenarios`: whole frames (uniform, warm 3 x 3 block, single hot pixel)
  and what the record reports for them.
- `Findings`: three defects of the source, each modelled as written.

The source has two index defects that a bounds-checked port cannot
reproduce: the range test of `getPixel` and the wrap of the reshape loop.
The model uses the corrected forms. `Findings` models each one as written
and exhibits the departure. A third finding is about the 0.0 value that
`getPixel` returns for cells outside the grid.

## Model

| member | source | states |
|---|---|---|
| `Decimal.Format` | src/main.cpp:69 | the one-decimal text of a temperature: digits, a point and one tenths digit; a leading minus exactly for negative values; never a comma |
| `Decimal.FormatRoundTrip` | src/main.cpp:69 | parsing the one-decimal text gives back the temperature exactly |
| `Decimal.FormatInjective` | src/main.cpp:69 | two temperatures with the same text are equal |
| `Decimal.ParseNatToString` | src/main.cpp:69 | the whole-degree digits parse back to their value |
| `Csv.SplitJoin` | src/main.cpp:69-74 | splitting the joined text on "," gives back the comma-free parts in order |
| `Csv.JoinShape` | src/main.cpp:71-74 | the joined text has one comma fewer than it has parts, with no leading or trailing comma |
| `Csv.BuiltStep` | src/main.cpp:69-74 | each iteration appends the sample's text, then a comma unless it is the last sample; the finished text is the full encoding |
| `Csv.DecodeEncode` | src/main.cpp:69-74 | splitting `data` on "," and parsing each part recovers every sample |
| `Csv.EncodeShape` | src/main.cpp:69-74 | `data` for n samples has exactly n - 1 commas and starts and ends with a sample |
| `Stats.PrefixStep` | src/main.cpp:56-67 | one iteration adds the sample to the sum; sample 0 seeds min and max; a later sample replaces them only when strictly smaller or larger |
| `Stats.MinOfIsLeast` | src/main.cpp:50-65 | the minimum is at most every sample and equals one of them, because it is seeded from sample 0 |
| `Stats.MaxOfIsGreatest` | src/main.cpp:50-65 | the maximum is at least every sample and equals one of them |
| `Stats.SumBounds` | src/main.cpp:67 | with every sample in [lo, hi], the sum lies in [n * lo, n * hi] |
| `Stats.AvgBetweenMinAndMax` | src/main.cpp:67-77 | the average, sum / total_pixels, lies between the minimum and the maximum |
| `Stats.UniformStats` | src/main.cpp:54-77 | for a uniform frame of value v, min = max = avg = v |
| `Grid.CellIndexBijection` | src/main.cpp:80-92 | i maps to (i / cols, i % cols) and (r, c) to r * cols + c; these are inverse bijections between [0, total_pixels) and the grid |
| `Grid.ReshapeAt` | src/main.cpp:80-92 | sample i of the buffer is cell (i / cols, i % cols) of the reshaped grid |
| `Grid.Lookup` | src/main.cpp:29-36 | the lookup is total over all integers and present exactly inside [0, rows) x [0, cols) |
| `Presence.OffsetsAreNeighbourhood` | src/main.cpp:102-133 | the eight inspected offsets are distinct and are exactly the 3 x 3 window minus its centre |
| `Presence.BlobSize` | src/main.cpp:100-133 | the seed plus its qualifying neighbours: 1 <= blobSize <= 9 |
| `Presence.BlobSizeUnrolled` | src/main.cpp:100-133 | the blob size is 1 plus the eight neighbour tests, in the source's order |
| `Presence.CornerBlobSize` | src/main.cpp:98-133 | a corner cell has blob size at most 4, because five of its neighbours are absent |
| `Presence.CountNone` | src/main.cpp:100-133 | with no qualifying neighbour the count is zero |
| `Presence.PersonDetectedMonotone` | src/main.cpp:94-142 | for a fixed threshold, raising cell values never turns a detection off |
| `Presence.NoSeedNoPerson` | src/main.cpp:98 | with no cell above the primary threshold, no person is reported |
| `Camera.GetPixel` | src/main.cpp:29-36 | present exactly inside [0, rows) x [0, cols), and then the cell `frame[x][y]`; it agrees with the grid lookup on the frame's contents |
| `Camera.StatsPass` | src/main.cpp:54-77 | the first loop's min, max, sum and `data` equal MinOf, MaxOf, Sum and the comma-joined encoding of the samples |
| `Camera.ReshapeInto` | src/main.cpp:80-92 | after the reshape loop, `frame[i / cols][i % cols] == pixels[i]` for every i, and the frame equals Reshape of the samples |
| `Camera.BlobSizeAt` | src/main.cpp:100-133 | the counter after the eight neighbour tests equals BlobSize of the frame at (r, c) |
| `Camera.DetectPresence` | src/main.cpp:94-142 | the flag is set iff some in-grid seed above the threshold has blob size greater than 4 |
| `Camera.FrameRecordSound` | src/main.cpp:144-151 | the record has sensor "MLX90640", rows 24 and cols 32; its data decodes to the samples with 767 commas; its min and max bound and are samples; avg lies between them |
| `Camera.ThermalCamera.constructor` | src/main.cpp:22-25 | the sample buffer starts as 768 zeros, both arrays are fresh, and there is no output yet |
| `Camera.ThermalCamera.GetRaw` | src/main.cpp:38-155 | the samples are unchanged, the frame is their reshape, and `output` is the record built from the samples' statistics, data text and presence flag |
| `Scenarios.UniformFrame` | src/main.cpp:54-142 | a uniform frame of v reports min = max = avg = v and no person |
| `Scenarios.HotBlockDetected` | src/main.cpp:94-142 | a 3 x 3 block at rows and columns 5..7, at least 3.6 degrees above a uniform background, is reported, with min and max the two values |
| `Scenarios.HotBlockExample` | src/main.cpp:94-142 | 30.0 degrees on 20.0: presence true, min 20.0, max 30.0 |
| `Scenarios.HotPixelNotDetected` | src/main.cpp:94-142 | a single hot pixel on a uniform background is never reported, wherever it is |
| `Scenarios.HotCornerExample` | src/main.cpp:94-142 | a 30.0 degree pixel at (0, 0) on 20.0 is not reported |
| `Findings.GetPixelRangeIsOffByOne` | src/main.cpp:31 | the as-written test returns the sentinel for (0, 0) and (5, 0) and lets (rows, 1) and (1, cols) through, past the end |
| `Findings.CursorAsWrittenClosedForm` | src/main.cpp:80-92 | the as-written counters put iteration i at (i / 33, i % 33) |
| `Findings.ReshapeAsWrittenLeavesRow` | src/main.cpp:83 | iteration 32 writes column 32, outside the row, and the last sample lands at (23, 8) instead of (23, 31) |
| `Findings.SentinelCountsAbsentNeighbours` | src/main.cpp:35 | with the 0.0 sentinel and a negative secondary threshold, corner (0, 0) counts at least 6, where the corrected count is at most 4 |
| `Findings.ColdSceneHotCorner` | src/main.cpp:35 | at -10.0 degrees with 20.0 at (0, 0), the sentinel reports a person and the corrected detector does not |

## Left out

- `setup` (src/main.cpp:168-300): serial logging, sensor configuration, the WiFi join and the firmware-update callbacks. These are hardware and network I/O.
- `loop` (src/main.cpp:302-315): the `millis()` polling tick and `mlx.getFrame(pixels)`. The samples are whatever `pixels` holds when `GetRaw` runs. Clock and sensor driver are outside the model.
- `sendRaw` and `notFound` (src/main.cpp:157-166): HTTP responses through the web server library.
- JSON serialisation (src/main.cpp:43, 153): `StaticJsonDocument<4096>` and `serializeJson` belong to the ArduinoJson library. The record is the datatype `Camera.Record`. Its JSON text, the number formatting of min, max and avg, and the document's capacity are not modelled.
- Floating point: samples are exact tenths and the average is exact. Rounding in the running float sum, rounding by `String(x, 1)` and NaN propagation are not modelled.
- `Camera.ReshapeInto` and `Camera.GetPixel` use the corrected index ranges. The as-written forms exist only in `Findings`, because they index outside the arrays.
- `Findings.SentinelCountsAbsentNeighbours`: this finding is stated with the corrected range check, so that it isolates the 0.0 sentinel from the off-by-one range defect.

## Findings

| source | as written | input that shows it | evidently intended | confidence | as-written member | corrected member |
|---|---|---|---|---|---|---|
| src/main.cpp:31 | `x <= rows && x > 0 && y <= cols && y > 0` | (0, 0) yields the sentinel; (24, c), asked for at every seed of row 23, reads past the array | `0 <= x < rows && 0 <= y < cols` | high, not executed | `Findings.GetPixelRangeIsOffByOne` | `Camera.GetPixel` |
| src/main.cpp:83 | wrap when `col == cols` | iteration 32 writes `frame[0][32]`; sample 767 lands at (23, 8) | wrap after column `cols - 1`, i.e. `frame[i / cols][i % cols] = pixels[i]` | high, not executed | `Findings.ReshapeAsWrittenLeavesRow` | `Camera.ReshapeInto` |
| src/main.cpp:35 | absent cells read as 0.0 and are compared like samples | -10.0 everywhere, 20.0 at (0, 0): the five absent neighbours of the corner pass `0.0 > threshold - 2` | absent neighbours never count | medium, not executed | `Findings.ColdSceneHotCorner` | `Presence.CornerBlobSize` |
