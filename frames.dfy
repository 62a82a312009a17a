/** Frames as the capture library delivers them to the acquisition callback. */
module Frames {

  /** One unsigned 16-bit sample or telemetry word. */
  type Word16 = x: int | 0 <= x < 0x1_0000

  /** A row-major grid of samples, one inner sequence per row. */
  type Grid = seq<seq<Word16>>

  /** Number of trailing rows of every frame that carry telemetry. */
  const TelemetryRowCount: nat := 2

  /** A frame handed to the callback: the reported `width` and `height`,
      the reported payload length `dataBytes`, and `pixels`, the
      height-by-width view of 16-bit words laid over the payload. */
  datatype UvcFrame = UvcFrame(width: nat, height: nat, dataBytes: nat, pixels: Grid)

  /** The callback's admission test: the payload holds exactly two bytes
      per pixel. */
  predicate WellSized(f: UvcFrame)
  {
    f.dataBytes == 2 * f.width * f.height
  }

  /** The view `reshape(height, width)` builds: `height` rows of `width`
      words each. */
  predicate Shaped(f: UvcFrame)
  {
    |f.pixels| == f.height && forall r :: 0 <= r < |f.pixels| ==> |f.pixels[r]| == f.width
  }

  /** `data[-2:, :]`: the last two rows of a grid, or the whole grid when it
      has fewer than two rows (Python's slice clamps a negative start). */
  function TrailingRows(g: Grid): (r: Grid)
    ensures |r| == if |g| < TelemetryRowCount then |g| else TelemetryRowCount
    ensures r == g[|g| - |r|..]
  {
    if |g| < TelemetryRowCount then g else g[|g| - TelemetryRowCount..]
  }
}
